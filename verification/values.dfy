/** The runtime object model. Every runtime datum is an object with its own named members
    (frames, records and class instances are plain objects; numbers, strings, tuples and
    callables are objects with a payload). Objects live in a heap indexed by address, so that
    sharing and in-place member updates are modelled as they happen in the interpreter. */
module Values {
  import opened Ast

  /** The failure kinds the evaluator raises; Java exception classes and messages are collapsed into these. */
  datatype Error =
    | UnboundSymbol(symbol: string)    // "Symbol not found"
    | UnboundMember(member: string)    // getField found neither an own member nor a type-table entry
    | Redefinition(redefined: string)  // "Redefinition of existing symbol"
    | Unsupported                      // assignment to something that is neither a name nor a member path
    | InvalidTarget                    // declaration or member path whose left side is not a name or path
    | TooManyArguments
    | IndexOutOfBounds
    | NullPointer                      // dereferencing Java null
    | NotCallable
    | BadNativeCall                    // a native invoked with the wrong number or kind of arguments
    | UserThrown(message: string)      // raised by the `throw` intrinsic
    | OutOfFuel                        // the evaluation bound of this model was exhausted

  datatype Result<T> = Ok(value: T) | Err(error: Error)

  /** A reference: Java `null`, or the address of a heap object. */
  datatype Ref = Nil | Addr(addr: nat)

  /** A member slot: the bound value and whether it was declared mutable. */
  datatype Slot = Slot(value: Ref, mutable: bool)

  /** The host-implemented operations this model covers. */
  datatype NativeOp = Throw | StringPlus | TupleGet | NumberCompare

  datatype Payload =
    | Plain                                                    // frames, records, instances
    | Number(n: int)
    | Str(s: string)
    | Boolean(b: bool)
    | NullObj
    | TupleObj(items: seq<Ref>)
    | LambdaObj(params: seq<string>, body: Expr)
    | ConstructorObj(ctorParams: seq<string>, ctorBody: seq<Expr>)
    | NativeObj(op: NativeOp)

  datatype Obj = Obj(payload: Payload, fields: map<string, Slot>)

  type Heap = seq<Obj>

  /** The fixed addresses laid down at start-up (see Evaluator.Scope's constructor). */
  const GlobalAddr: nat := 0
  const StringTableAddr: nat := 2
  const TupleTableAddr: nat := 4
  const NumberTableAddr: nat := 6
  const NullAddr: nat := 8

  /** The shared operation table consulted by member dispatch for values of a kind. */
  function TableOf(p: Payload): Option<nat>
  {
    match p
    case Str(_) => Some(StringTableAddr)
    case TupleObj(_) => Some(TupleTableAddr)
    case Number(_) => Some(NumberTableAddr)
    case _ => None
  }

  predicate RefIn(r: Ref, n: nat)
  {
    r.Nil? || r.addr < n
  }

  predicate RefsIn(rs: seq<Ref>, n: nat)
  {
    forall i :: 0 <= i < |rs| ==> RefIn(rs[i], n)
  }

  lemma RefsInAppend(rs: seq<Ref>, r: Ref, n: nat, n': nat)
    requires RefsIn(rs, n) && n <= n' && RefIn(r, n')
    ensures RefsIn(rs + [r], n')
  {
    forall i | 0 <= i < |rs| + 1
      ensures RefIn((rs + [r])[i], n')
    {
      if i < |rs| {
        assert RefIn(rs[i], n);
      }
    }
  }

  lemma RefsInGrow(rs: seq<Ref>, n: nat, n': nat)
    requires RefsIn(rs, n) && n <= n'
    ensures RefsIn(rs, n')
  {
    forall i | 0 <= i < |rs|
      ensures RefIn(rs[i], n')
    {
      assert RefIn(rs[i], n);
    }
  }

  /** Every reference an object holds points into a heap of size `n`. */
  predicate ObjClosed(o: Obj, n: nat)
  {
    && (forall k :: k in o.fields ==> RefIn(o.fields[k].value, n))
    && (o.payload.TupleObj? ==> RefsIn(o.payload.items, n))
  }

  predicate Closed(h: Heap)
  {
    forall a {:trigger ObjClosed(h[a], |h|)} :: 0 <= a < |h| ==> ObjClosed(h[a], |h|)
  }

  /** A member of an object in a closed heap refers into the heap. */
  lemma ClosedMember(h: Heap, a: nat, k: string)
    requires Closed(h) && a < |h| && k in h[a].fields
    ensures RefIn(h[a].fields[k].value, |h|)
  {
    assert ObjClosed(h[a], |h|);
  }

  lemma ClosedAppend(h: Heap, o: Obj)
    requires Closed(h) && ObjClosed(o, |h| + 1)
    ensures Closed(h + [o])
  {
    forall a | 0 <= a < |h| + 1
      ensures ObjClosed((h + [o])[a], |h| + 1)
    {
      if a < |h| {
        assert ObjClosed(h[a], |h|);
      }
    }
  }

  lemma ClosedReplace(h: Heap, a: nat, o: Obj)
    requires Closed(h) && a < |h| && ObjClosed(o, |h|)
    ensures Closed(h[a := o])
  {
    var h' := h[a := o];
    forall b | 0 <= b < |h'|
      ensures ObjClosed(h'[b], |h'|)
    {
      if b != a {
        assert ObjClosed(h[b], |h|);
      }
    }
  }

  /** How one object may evolve: its kind and payload never change, and members are added or
      updated but never removed. */
  predicate Kept(o0: Obj, o1: Obj)
  {
    o1.payload == o0.payload && o0.fields.Keys <= o1.fields.Keys
  }

  /** How a heap may evolve during evaluation: objects are only added, and every existing
      object is kept. */
  predicate Grew(h0: Heap, h1: Heap)
  {
    |h0| <= |h1| && forall a {:trigger Kept(h0[a], h1[a])} :: 0 <= a < |h0| ==> Kept(h0[a], h1[a])
  }

  lemma GrewTransitive(h0: Heap, h1: Heap, h2: Heap)
    requires Grew(h0, h1) && Grew(h1, h2)
    ensures Grew(h0, h2)
  {
    forall a | 0 <= a < |h0|
      ensures Kept(h0[a], h2[a])
    {
      assert Kept(h0[a], h1[a]) && Kept(h1[a], h2[a]);
    }
  }

  /** Allocation: a new object at the next free address. */
  function Allocate(h: Heap, o: Obj): (h': Heap)
    requires Closed(h) && ObjClosed(o, |h| + 1)
    ensures |h'| == |h| + 1 && h'[|h|] == o && h'[..|h|] == h
    ensures Closed(h') && Grew(h, h')
  {
    var h' := h + [o];
    assert forall a :: 0 <= a < |h| ==> h'[a] == h[a];
    ClosedAppend(h, o);
    h'
  }

  /** `addField`: creates member `name` on object `a`, overwriting a member of that name if the
      object already has one (callers check `hasField` first where the language requires it). */
  function AddField(h: Heap, a: nat, name: string, v: Ref, mutable: bool): (h': Heap)
    requires a < |h|
    ensures |h'| == |h| && h'[a].payload == h[a].payload
    ensures h'[a].fields.Keys == h[a].fields.Keys + {name}
    ensures h'[a].fields[name] == Slot(v, mutable)
    ensures forall k :: k in h[a].fields && k != name ==> h'[a].fields[k] == h[a].fields[k]
    ensures forall b :: 0 <= b < |h| && b != a ==> h'[b] == h[b]
    ensures Grew(h, h')
    ensures Closed(h) && RefIn(v, |h|) ==> Closed(h')
  {
    var o := Obj(h[a].payload, h[a].fields[name := Slot(v, mutable)]);
    if Closed(h) && RefIn(v, |h|) then
      assert ObjClosed(h[a], |h|);
      ClosedReplace(h, a, o);
      h[a := o]
    else
      h[a := o]
  }

  /** `setField` / `ObjField.setValue`: rebinds an existing member. It never creates a member,
      and it keeps the member's mutability flag without enforcing it. */
  function SetField(h: Heap, a: nat, name: string, v: Ref): (h': Heap)
    requires a < |h| && name in h[a].fields
    ensures |h'| == |h| && h'[a].payload == h[a].payload
    ensures forall b :: 0 <= b < |h| ==> h'[b].fields.Keys == h[b].fields.Keys
    ensures h'[a].fields[name] == Slot(v, h[a].fields[name].mutable)
    ensures forall k :: k in h[a].fields && k != name ==> h'[a].fields[k] == h[a].fields[k]
    ensures forall b :: 0 <= b < |h| && b != a ==> h'[b] == h[b]
    ensures Grew(h, h')
    ensures Closed(h) && RefIn(v, |h|) ==> Closed(h')
  {
    var o := Obj(h[a].payload, h[a].fields[name := Slot(v, h[a].fields[name].mutable)]);
    if Closed(h) && RefIn(v, |h|) then
      assert ObjClosed(h[a], |h|);
      ClosedReplace(h, a, o);
      h[a := o]
    else
      h[a := o]
  }

  /** A member found by dispatch, with the receiver it was looked up on. */
  datatype Callee = Callee(fn: Ref, self: Ref)

  /** `getField`: the receiver's own member if it has one, otherwise the entry of the shared
      operation table for the receiver's kind. Dereferencing `null` fails. */
  function GetMember(h: Heap, recv: Ref, name: string): (r: Result<Callee>)
    requires Closed(h) && NullAddr < |h| && RefIn(recv, |h|)
    ensures r.Ok? ==> recv.Addr? && r.value.self == recv && RefIn(r.value.fn, |h|)
    ensures r.Ok? ==> name in h[recv.addr].fields ||
                      (TableOf(h[recv.addr].payload).Some? && name in h[TableOf(h[recv.addr].payload).value].fields)
    ensures recv.Addr? && name in h[recv.addr].fields ==> r == Ok(Callee(h[recv.addr].fields[name].value, recv))
    ensures recv.Addr? && name !in h[recv.addr].fields && TableOf(h[recv.addr].payload).Some? &&
            name in h[TableOf(h[recv.addr].payload).value].fields ==>
              r == Ok(Callee(h[TableOf(h[recv.addr].payload).value].fields[name].value, recv))
    ensures r.Err? <==> recv.Nil? || (name !in h[recv.addr].fields &&
                                      (TableOf(h[recv.addr].payload).None? ||
                                       name !in h[TableOf(h[recv.addr].payload).value].fields))
    ensures r.Err? ==> r.error == (if recv.Nil? then NullPointer else UnboundMember(name))
  {
    if recv.Nil? then Err(NullPointer)
    else if name in h[recv.addr].fields then
      ClosedMember(h, recv.addr, name);
      Ok(Callee(h[recv.addr].fields[name].value, recv))
    else match TableOf(h[recv.addr].payload)
      case Some(t) =>
        if name in h[t].fields then
          ClosedMember(h, t, name);
          Ok(Callee(h[t].fields[name].value, recv))
        else Err(UnboundMember(name))
      case None => Err(UnboundMember(name))
  }

  /** The payload comparison `equals` is assumed to make for values of the same kind. */
  predicate SameValue(p: Payload, q: Payload)
  {
    || (p.Number? && q.Number? && p.n == q.n)
    || (p.Str? && q.Str? && p.s == q.s)
    || (p.Boolean? && q.Boolean? && p.b == q.b)
    || (p.NullObj? && q.NullObj?)
  }

  /** `left.equals(right)`: fails on a `null` receiver, is false for a `null` argument, and
      otherwise holds for the same object or two equal numbers, strings, booleans or nulls. */
  function Equals(h: Heap, a: Ref, b: Ref): (r: Result<bool>)
    requires RefIn(a, |h|) && RefIn(b, |h|)
    ensures r.Err? <==> a.Nil?
    ensures a.Addr? && a == b ==> r == Ok(true)
  {
    if a.Nil? then Err(NullPointer)
    else if b.Nil? then Ok(false)
    else Ok(a == b || SameValue(h[a.addr].payload, h[b.addr].payload))
  }

  /** Between two objects, equality does not depend on which one is the receiver. */
  lemma EqualsSymmetric(h: Heap, a: Ref, b: Ref)
    requires RefIn(a, |h|) && RefIn(b, |h|) && a.Addr? && b.Addr?
    ensures Equals(h, a, b) == Equals(h, b, a)
  {
  }
}
