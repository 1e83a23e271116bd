/** The evaluator: one mutable stack of frames over a heap of objects, and one method per
    expression form. Lambda and constructor bodies run against whatever stack exists when
    they are called; nothing is captured when they are created. Every method computes exactly
    the result and the new state that the reference semantics of module `Semantics` gives. */
module Evaluator {
  import opened Ast
  import opened Values
  import opened Intrinsics
  import opened Frames
  import opened Semantics

  class Scope {
    /** Every object the program has created; an address is an index. */
    var heap: Heap
    /** The frame stack: index 0 is the innermost frame, the last one the global frame. */
    var scopes: seq<nat>

    /** The evaluator's state as a configuration of the reference semantics. */
    ghost function State(): Config
      reads this
    {
      Config(heap, scopes)
    }

    ghost predicate Valid()
      reads this
    {
      Wf(State())
    }

    /** The start-up state: one global frame holding the untyped intrinsic `throw`, the String,
        Tuple and Number operation tables with their typed intrinsics, and the null object. */
    constructor ()
      ensures Valid() && scopes == [GlobalAddr]
      ensures Lookup(heap, scopes, "throw") == Ok(Addr(1)) && heap[1].payload == NativeObj(Throw)
    {
      heap := [
        Obj(Plain, map["throw" := Slot(Addr(1), false)]),
        Obj(NativeObj(Throw), map[]),
        Obj(Plain, map["plus" := Slot(Addr(3), false)]),
        Obj(NativeObj(StringPlus), map[]),
        Obj(Plain, map["get" := Slot(Addr(5), false)]),
        Obj(NativeObj(TupleGet), map[]),
        Obj(Plain, map["compareTo" := Slot(Addr(7), false)]),
        Obj(NativeObj(NumberCompare), map[]),
        Obj(NullObj, map[])
      ];
      scopes := [GlobalAddr];
      new;
      assert FindFrame(heap, scopes, "throw") == Some(0);
    }

    /** The frame walk shared by name lookup, bare-name assignment and bare-name member
        handles: the position of the innermost frame that has `name`. */
    method FindScope(name: string) returns (found: Option<nat>)
      requires Valid()
      ensures found == FindFrame(heap, scopes, name)
    {
      var i := 0;
      while i < |scopes|
        invariant 0 <= i <= |scopes|
        invariant forall j :: 0 <= j < i ==> name !in heap[scopes[j]].fields
      {
        if name in heap[scopes[i]].fields {
          return Some(i);
        }
        i := i + 1;
      }
      return None;
    }

    /** A name reference. */
    method LookupName(name: string) returns (r: Result<Ref>)
      requires Valid()
      ensures r == Lookup(heap, scopes, name)
      ensures r.Ok? ==> RefIn(r.value, |heap|)
    {
      var found := FindScope(name);
      if found.None? {
        return Err(UnboundSymbol(name));
      }
      ClosedMember(heap, scopes[found.value], name);
      r := Ok(heap[scopes[found.value]].fields[name].value);
    }

    /** Evaluates one expression against the current stack. */
    method Eval(e: Expr, fuel: nat) returns (r: Result<Ref>)
      requires Valid()
      modifies this
      ensures Valid() && Step(r, State()) == Sem(e, old(State()), fuel)
      decreases fuel, 0, 0
    {
      if fuel == 0 {
        r := Err(OutOfFuel);
      } else if IsLeaf(e) {
        r := EvalLeaf(e);
      } else if e.Binary? || e.Prefix? || e.Select? {
        r := EvalOperator(e, fuel - 1);
      } else if e.VarDecl? || e.Def? || e.ClassDecl? {
        r := EvalDeclaration(e, fuel - 1);
      } else {
        r := EvalCompound(e, fuel - 1);
      }
    }

    method EvalOperator(e: Expr, fuel: nat) returns (r: Result<Ref>)
      requires Valid() && (e.Binary? || e.Prefix? || e.Select?)
      modifies this
      ensures Valid() && Step(r, State()) == SemOperator(e, old(State()), fuel)
      decreases fuel, 6, 0
    {
      match e
      case Binary(op, left, right) =>
        r := EvalBinary(op, left, right, fuel);
      case Prefix(op, operand) =>
        r := EvalDispatch(operand, PrefixMember(op), None, fuel);
      case Select(_, _) =>
        r := EvalSelect(e, fuel);
    }

    method EvalDeclaration(e: Expr, fuel: nat) returns (r: Result<Ref>)
      requires Valid() && (e.VarDecl? || e.Def? || e.ClassDecl?)
      modifies this
      ensures Valid() && Step(r, State()) == SemDeclaration(e, old(State()), fuel)
      decreases fuel, 3, 0
    {
      match e
      case VarDecl(target, init, mutable) =>
        r := EvalVar(target, init, mutable, fuel);
      case Def(name, params, body) =>
        r := EvalDef(name, params, body);
      case ClassDecl(name, params, body) =>
        r := EvalClass(name, params, body);
    }

    method EvalCompound(e: Expr, fuel: nat) returns (r: Result<Ref>)
      requires Valid() && (e.Block? || e.Tuple? || e.Call? || e.Get? || e.Record?)
      modifies this
      ensures Valid() && Step(r, State()) == SemCompound(e, old(State()), fuel)
      decreases fuel, 5, 0
    {
      match e
      case Block(lines) =>
        r := EvalBlock(lines, fuel);
      case Tuple(items) =>
        r := EvalTuple(items, fuel);
      case Call(callee, args) =>
        r := EvalCall(callee, args, fuel);
      case Get(indexed, indices) =>
        r := EvalGet(indexed, indices, fuel);
      case Record(fields) =>
        r := EvalRecord(fields, fuel);
    }

    /** Literals, names and lambdas. */
    method EvalLeaf(e: Expr) returns (r: Result<Ref>)
      requires Valid() && IsLeaf(e)
      modifies this
      ensures Valid() && Step(r, State()) == SemLeaf(e, old(State()))
    {
      match e
      case NumberLit(n) =>
        var a := |heap|;
        heap := Allocate(heap, Obj(Number(n), map[]));
        r := Ok(Addr(a));
      case StringLit(s) =>
        var a := |heap|;
        heap := Allocate(heap, Obj(Str(s), map[]));
        r := Ok(Addr(a));
      case BooleanLit(b) =>
        var a := |heap|;
        heap := Allocate(heap, Obj(Boolean(b), map[]));
        r := Ok(Addr(a));
      case NullLit =>
        r := Ok(Addr(NullAddr));
      case Name(name) =>
        r := LookupName(name);
      case Lambda(params, body) =>
        var a := |heap|;
        heap := Allocate(heap, Obj(LambdaObj(params, body), map[]));
        r := Ok(Addr(a));
    }

    /** Binary operators: member dispatch, equality, or assignment. */
    method EvalBinary(op: BinaryOp, left: Expr, right: Expr, fuel: nat) returns (r: Result<Ref>)
      requires Valid()
      modifies this
      ensures Valid() && Step(r, State()) == SemBinary(op, left, right, old(State()), fuel)
      decreases fuel, 5, 0
    {
      match op
      case EqEq =>
        r := EvalEquality(left, right, false, fuel);
      case BangEq =>
        r := EvalEquality(left, right, true, fuel);
      case Assign =>
        if left.Name? {
          r := AssignName(left.name, right, fuel);
        } else if left.Select? {
          r := AssignMember(left, right, fuel);
        } else {
          r := Err(Unsupported);
        }
      case _ =>
        r := EvalDispatch(left, BinaryMember(op).value, Some(right), fuel);
    }

    /** Operator dispatch: the operand, its member, the argument (if any), the invocation. */
    method EvalDispatch(operand: Expr, member: string, arg: Option<Expr>, fuel: nat) returns (r: Result<Ref>)
      requires Valid()
      modifies this
      ensures Valid() && Step(r, State()) == SemDispatch(operand, member, arg, old(State()), fuel)
      decreases fuel, 4, 0
    {
      var recv := Eval(operand, fuel);
      if recv.Err? {
        return recv;
      }
      var callee := GetMember(heap, recv.value, member);
      if callee.Err? {
        return Err(callee.error);
      }
      var args: seq<Ref> := [];
      if arg.Some? {
        var v := Eval(arg.value, fuel);
        if v.Err? {
          return v;
        }
        args := [v.value];
      }
      r := Invoke(callee.value, args, fuel);
    }

    /** `==` and `!=`: both operands, then `equals`, then a new boolean. */
    method EvalEquality(left: Expr, right: Expr, negate: bool, fuel: nat) returns (r: Result<Ref>)
      requires Valid()
      modifies this
      ensures Valid() && Step(r, State()) == SemEquality(left, right, negate, old(State()), fuel)
      decreases fuel, 1, 0
    {
      ghost var c0 := State();
      var a := Eval(left, fuel);
      ghost var s1 := Step(a, State());
      if a.Err? {
        assert SemEquality(left, right, negate, c0, fuel) == s1;
        return a;
      }
      var b := Eval(right, fuel);
      ghost var s2 := Step(b, State());
      assert s2 == Sem(right, s1.c, fuel);
      if b.Err? {
        assert SemEquality(left, right, negate, c0, fuel) == s2;
        return b;
      }
      var eq := Equals(heap, a.value, b.value);
      if eq.Err? {
        assert SemEquality(left, right, negate, c0, fuel) == Step(Err(eq.error), s2.c);
        return Err(eq.error);
      }
      var x := |heap|;
      heap := Allocate(heap, Obj(Boolean(eq.value != negate), map[]));
      r := Ok(Addr(x));
      assert SemEquality(left, right, negate, c0, fuel) == New(s2.c, Boolean(eq.value != negate));
    }

    /** Assignment to a bare name: the frame is found before the right side is evaluated. */
    method AssignName(name: string, rhs: Expr, fuel: nat) returns (r: Result<Ref>)
      requires Valid()
      modifies this
      ensures Valid() && Step(r, State()) == SemAssignName(name, rhs, old(State()), fuel)
      decreases fuel, 1, 0
    {
      ghost var c0 := State();
      var found := FindScope(name);
      if found.None? {
        assert SemAssignName(name, rhs, c0, fuel) == Step(Err(UnboundSymbol(name)), c0);
        return Err(UnboundSymbol(name));
      }
      var frame := scopes[found.value];
      var v := Eval(rhs, fuel);
      ghost var s1 := Step(v, State());
      assert s1 == Sem(rhs, c0, fuel);
      if v.Err? {
        assert SemAssignName(name, rhs, c0, fuel) == s1;
        return v;
      }
      assert Kept(c0.heap[frame], heap[frame]);
      heap := SetField(heap, frame, name, v.value);
      r := v;
      assert SemAssignName(name, rhs, c0, fuel) == Step(s1.r, Config(heap, s1.c.scopes));
    }

    /** Assignment to a member path: the right side first, then the path. */
    method AssignMember(path: Expr, rhs: Expr, fuel: nat) returns (r: Result<Ref>)
      requires Valid() && path.Select?
      modifies this
      ensures Valid() && Step(r, State()) == SemAssignMember(path, rhs, old(State()), fuel)
      decreases fuel, 2, 0
    {
      ghost var c0 := State();
      var v := Eval(rhs, fuel);
      ghost var s1 := Step(v, State());
      assert s1 == Sem(rhs, c0, fuel);
      if v.Err? {
        assert SemAssignMember(path, rhs, c0, fuel) == s1;
        return v;
      }
      var p := ResolvePlace(path, fuel);
      ghost var sp := Step(p, State());
      assert sp == SemPlace(path, s1.c, fuel);
      if p.Err? {
        assert SemAssignMember(path, rhs, c0, fuel) == Step(Err(p.error), sp.c);
        return Err(p.error);
      }
      heap := SetField(heap, p.value.obj, p.value.name, v.value);
      r := v;
      assert SemAssignMember(path, rhs, c0, fuel) == Step(s1.r, Config(heap, sp.c.scopes));
    }

    /** `getFieldWrapper`: a handle on an existing member. */
    method ResolvePlace(e: Expr, fuel: nat) returns (r: Result<Place>)
      requires Valid()
      modifies this
      ensures Valid() && Step(r, State()) == SemPlace(e, old(State()), fuel)
      decreases fuel, 1, 0
    {
      match e
      case Select(receiver, member) =>
        var left := Eval(receiver, fuel);
        if left.Err? {
          return Err(left.error);
        }
        if left.value.Nil? {
          return Err(NullPointer);
        }
        if member !in heap[left.value.addr].fields {
          return Err(UnboundSymbol(member));
        }
        r := Ok(Place(left.value.addr, member));
      case Name(name) =>
        var found := FindScope(name);
        if found.None? {
          return Err(UnboundSymbol(name));
        }
        r := Ok(Place(scopes[found.value], name));
      case _ =>
        r := Err(InvalidTarget);
    }

    /** A member read: the handle, then the value it holds. */
    method EvalSelect(e: Expr, fuel: nat) returns (r: Result<Ref>)
      requires Valid() && e.Select?
      modifies this
      ensures Valid() && Step(r, State()) == SemSelect(e, old(State()), fuel)
      decreases fuel, 2, 0
    {
      var place := ResolvePlace(e, fuel);
      if place.Err? {
        return Err(place.error);
      }
      r := Ok(heap[place.value.obj].fields[place.value.name].value);
      assert r.value == Holder(State(), place.value);
    }

    /** Declares `name` on the object at `o`: the redefinition check, then the initializer,
        then `addField`. */
    method DeclareMember(o: nat, name: string, init: Expr, mutable: bool, fuel: nat) returns (r: Result<Ref>)
      requires Valid() && o < |heap|
      modifies this
      ensures Valid() && Step(r, State()) == Declare(o, name, init, mutable, old(State()), fuel)
      decreases fuel, 1, 0
    {
      ghost var c0 := State();
      if name in heap[o].fields {
        assert Declare(o, name, init, mutable, c0, fuel) == Step(Err(Redefinition(name)), c0);
        return Err(Redefinition(name));
      }
      var v := Eval(init, fuel);
      ghost var s1 := Step(v, State());
      assert s1 == Sem(init, c0, fuel);
      if v.Err? {
        assert Declare(o, name, init, mutable, c0, fuel) == s1;
        return v;
      }
      heap := AddField(heap, o, name, v.value, mutable);
      r := Ok(Addr(NullAddr));
      assert Declare(o, name, init, mutable, c0, fuel) == Step(r, Config(heap, s1.c.scopes));
    }

    /** `var target = init`: on the top frame for a bare name, or on the object the receiver
        path holds for `a.b`. */
    method EvalVar(target: Expr, init: Expr, mutable: bool, fuel: nat) returns (r: Result<Ref>)
      requires Valid()
      modifies this
      ensures Valid() && Step(r, State()) == SemVar(target, init, mutable, old(State()), fuel)
      decreases fuel, 2, 0
    {
      ghost var c0 := State();
      match target
      case Name(n) =>
        assert SemVar(target, init, mutable, c0, fuel) == Declare(scopes[0], n, init, mutable, c0, fuel);
        r := DeclareMember(scopes[0], n, init, mutable, fuel);
      case Select(receiver, m) =>
        assert SemVar(target, init, mutable, c0, fuel) == SemVarMember(receiver, m, init, mutable, c0, fuel);
        r := EvalVarMember(receiver, m, init, mutable, fuel);
      case _ =>
        r := Err(InvalidTarget);
    }

    /** `var a.m = init`. */
    method EvalVarMember(receiver: Expr, m: string, init: Expr, mutable: bool, fuel: nat) returns (r: Result<Ref>)
      requires Valid()
      modifies this
      ensures Valid() && Step(r, State()) == SemVarMember(receiver, m, init, mutable, old(State()), fuel)
      decreases fuel, 1, 1
    {
      ghost var c0 := State();
      var p := ResolvePlace(receiver, fuel);
      ghost var sp := Step(p, State());
      assert sp == SemPlace(receiver, c0, fuel);
      if p.Err? {
        assert SemVarMember(receiver, m, init, mutable, c0, fuel) == Step(Err(p.error), sp.c);
        return Err(p.error);
      }
      var holder := heap[p.value.obj].fields[p.value.name].value;
      assert holder == Holder(sp.c, p.value);
      if holder.Nil? {
        assert SemVarMember(receiver, m, init, mutable, c0, fuel) == Step(Err(NullPointer), sp.c);
        return Err(NullPointer);
      }
      r := DeclareMember(holder.addr, m, init, mutable, fuel);
      assert SemVarMember(receiver, m, init, mutable, c0, fuel) == Declare(holder.addr, m, init, mutable, sp.c, fuel);
    }

    /** `def name(params) body`. */
    method EvalDef(name: string, params: seq<string>, body: Expr) returns (r: Result<Ref>)
      requires Valid()
      modifies this
      ensures Valid() && Step(r, State()) == SemDef(name, params, body, old(State()))
    {
      var top := scopes[0];
      if name in heap[top].fields {
        return Err(Redefinition(name));
      }
      var f := |heap|;
      heap := Allocate(heap, Obj(LambdaObj(params, body), map[]));
      heap := AddField(heap, top, name, Addr(f), false);
      r := Ok(Addr(NullAddr));
    }

    /** A class declaration. */
    method EvalClass(name: string, params: seq<string>, body: seq<Expr>) returns (r: Result<Ref>)
      requires Valid()
      modifies this
      ensures Valid() && Step(r, State()) == SemClass(name, params, body, old(State()))
    {
      var c := |heap|;
      heap := Allocate(heap, Obj(ConstructorObj(params, body), map[]));
      heap := AddField(heap, scopes[0], name, Addr(c), false);
      r := Ok(Addr(NullAddr));
    }

    /** A block: push a fresh frame, evaluate the lines in order, pop the frame. */
    method EvalBlock(lines: seq<Expr>, fuel: nat) returns (r: Result<Ref>)
      requires Valid()
      modifies this
      ensures Valid() && Step(r, State()) == SemBlock(lines, old(State()), fuel)
      decreases fuel, 2, 0
    {
      ghost var c0 := State();
      var frame := |heap|;
      heap := Allocate(heap, Obj(Plain, map[]));
      scopes := [frame] + scopes;
      assert State() == Push(c0, map[]);
      r := EvalLines(lines, fuel);
      if r.Ok? {
        scopes := scopes[1..];
      }
    }

    /** The lines of a block or a constructor body, in order, stopping at the first failure;
        the value is the last line's. */
    method EvalLines(lines: seq<Expr>, fuel: nat) returns (r: Result<Ref>)
      requires Valid()
      modifies this
      ensures Valid() && Step(r, State()) == SemLines(lines, |lines|, old(State()), fuel)
      decreases fuel, 1, |lines|
    {
      ghost var c0 := State();
      var result := Addr(NullAddr);
      var i := 0;
      while i < |lines|
        invariant 0 <= i <= |lines|
        invariant Valid()
        invariant SemLines(lines, i, c0, fuel) == Step(Ok(result), State())
      {
        ghost var before := State();
        var v := Eval(lines[i], fuel);
        assert Step(v, State()) == Sem(lines[i], before, fuel);
        assert SemLines(lines, i + 1, c0, fuel) == Step(v, State());
        if v.Err? {
          SemLinesStops(lines, i + 1, |lines|, c0, fuel);
          return v;
        }
        result := v.value;
        i := i + 1;
      }
      r := Ok(result);
    }

    /** A tuple literal. */
    method EvalTuple(items: seq<Expr>, fuel: nat) returns (r: Result<Ref>)
      requires Valid()
      modifies this
      ensures Valid() && Step(r, State()) == SemTuple(items, old(State()), fuel)
      decreases fuel, 2, 0
    {
      if |items| == 1 {
        r := Eval(items[0], fuel);
      } else {
        var vs := EvalAll(items, fuel);
        if vs.Err? {
          return Err(vs.error);
        }
        var a := |heap|;
        RefsInGrow(vs.value, a, a + 1);
        heap := Allocate(heap, Obj(TupleObj(vs.value), map[]));
        r := Ok(Addr(a));
      }
    }

    /** Evaluates expressions left to right, stopping at the first failure. */
    method EvalAll(exprs: seq<Expr>, fuel: nat) returns (r: Result<seq<Ref>>)
      requires Valid()
      modifies this
      ensures Valid() && Step(r, State()) == SemAll(exprs, |exprs|, old(State()), fuel)
      decreases fuel, 1, |exprs|
    {
      ghost var c0 := State();
      var vs: seq<Ref> := [];
      var i := 0;
      while i < |exprs|
        invariant 0 <= i <= |exprs|
        invariant SemAll(exprs, i, c0, fuel) == Step(Ok(vs), Config(heap, scopes))
      {
        var next := EvalNext(exprs, i, vs, c0, fuel);
        if next.Err? {
          return next;
        }
        vs := next.value;
        i := i + 1;
      }
      r := Ok(vs);
    }

    /** One round of `EvalAll`: evaluates expression `i` and appends its value; a failure ends
        the whole list. */
    method EvalNext(exprs: seq<Expr>, i: nat, vs: seq<Ref>, ghost c0: Config, fuel: nat) returns (r: Result<seq<Ref>>)
      requires Wf(c0) && i < |exprs| && SemAll(exprs, i, c0, fuel) == Step(Ok(vs), State())
      modifies this
      ensures Step(r, State()) == SemAll(exprs, i + 1, c0, fuel)
      ensures r.Err? ==> Step(r, State()) == SemAll(exprs, |exprs|, c0, fuel)
      decreases fuel, 1, 0
    {
      var v := Eval(exprs[i], fuel);
      if v.Err? {
        r := Err(v.error);
        SemAllStops(exprs, i + 1, |exprs|, c0, fuel);
        return;
      }
      r := Ok(vs + [v.value]);
    }

    /** A call: the arguments, then the callee expression, then the invocation. */
    method EvalCall(callee: Expr, args: seq<Expr>, fuel: nat) returns (r: Result<Ref>)
      requires Valid()
      modifies this
      ensures Valid() && Step(r, State()) == SemCall(callee, args, old(State()), fuel)
      decreases fuel, 4, 0
    {
      var vs := EvalAll(args, fuel);
      if vs.Err? {
        return Err(vs.error);
      }
      ghost var h1 := heap;
      var f := Eval(callee, fuel);
      if f.Err? {
        return f;
      }
      RefsInGrow(vs.value, |h1|, |heap|);
      r := Invoke(Callee(f.value, Nil), vs.value, fuel);
    }

    /** Indexing through the receiver's `get` member; the expression yields Java `null`. */
    method EvalGet(indexed: Expr, indices: seq<Expr>, fuel: nat) returns (r: Result<Ref>)
      requires Valid()
      modifies this
      ensures Valid() && Step(r, State()) == SemGet(indexed, indices, old(State()), fuel)
      decreases fuel, 4, 0
    {
      var vs := EvalAll(indices, fuel);
      if vs.Err? {
        return Err(vs.error);
      }
      ghost var h1 := heap;
      var recv := Eval(indexed, fuel);
      if recv.Err? {
        return recv;
      }
      var getter := GetMember(heap, recv.value, "get");
      if getter.Err? {
        return Err(getter.error);
      }
      RefsInGrow(vs.value, |h1|, |heap|);
      var result := Invoke(getter.value, vs.value, fuel);
      if result.Err? {
        return result;
      }
      r := Ok(Nil);
    }

    /** A record literal: the initializers in order, then the new object. */
    method EvalRecord(fields: seq<(string, Expr)>, fuel: nat) returns (r: Result<Ref>)
      requires Valid()
      modifies this
      ensures Valid() && Step(r, State()) == SemRecord(fields, old(State()), fuel)
      decreases fuel, 2, 0
    {
      var members := EvalFields(fields, fuel);
      if members.Err? {
        return Err(members.error);
      }
      SemFieldsKeys(fields, |fields|, old(State()), fuel);
      SemFieldsSlots(fields, |fields|, old(State()), fuel);
      MembersGrow(members.value, |heap|, |heap| + 1);
      var a := |heap|;
      heap := Allocate(heap, Obj(Plain, members.value));
      r := Ok(Addr(a));
    }

    /** The members of a record literal, its initializers evaluated in order. */
    method EvalFields(fields: seq<(string, Expr)>, fuel: nat) returns (r: Result<map<string, Slot>>)
      requires Valid()
      modifies this
      ensures Valid() && Step(r, State()) == SemFields(fields, |fields|, old(State()), fuel)
      decreases fuel, 1, |fields|
    {
      ghost var c0 := State();
      var members: map<string, Slot> := map[];
      var i := 0;
      while i < |fields|
        invariant 0 <= i <= |fields|
        invariant SemFields(fields, i, c0, fuel) == Step(Ok(members), Config(heap, scopes))
      {
        var next := EvalField(fields, i, members, c0, fuel);
        if next.Err? {
          return next;
        }
        members := next.value;
        i := i + 1;
      }
      r := Ok(members);
    }

    /** One round of `EvalFields`: evaluates field `i` and binds its value, mutable, by the
        field's name; a failure ends the whole list. */
    method EvalField(fields: seq<(string, Expr)>, i: nat, members: map<string, Slot>, ghost c0: Config, fuel: nat)
      returns (r: Result<map<string, Slot>>)
      requires Wf(c0) && i < |fields| && SemFields(fields, i, c0, fuel) == Step(Ok(members), State())
      modifies this
      ensures Step(r, State()) == SemFields(fields, i + 1, c0, fuel)
      ensures r.Err? ==> Step(r, State()) == SemFields(fields, |fields|, c0, fuel)
      decreases fuel, 1, 0, 0
    {
      ghost var before := State();
      var v := Eval(fields[i].1, fuel);
      assert Step(v, State()) == Sem(fields[i].1, before, fuel);
      if v.Err? {
        r := Err(v.error);
        assert SemFields(fields, i + 1, c0, fuel) == Step(r, State());
        SemFieldsStops(fields, i + 1, |fields|, c0, fuel);
        return;
      }
      r := Ok(members[fields[i].0 := Slot(v.value, true)]);
      assert SemFields(fields, i + 1, c0, fuel) == Step(r, State());
    }

    /** Invokes a lambda, a constructor or a native; anything else fails. */
    method Invoke(callee: Callee, args: seq<Ref>, fuel: nat) returns (r: Result<Ref>)
      requires Valid() && RefIn(callee.fn, |heap|) && RefIn(callee.self, |heap|) && RefsIn(args, |heap|)
      modifies this
      ensures Valid() && Step(r, State()) == SemInvoke(callee, args, old(State()), fuel)
      decreases fuel, 3, 0
    {
      if callee.fn.Nil? {
        return Err(NullPointer);
      }
      match heap[callee.fn.addr].payload
      case LambdaObj(params, body) =>
        r := InvokeLambda(params, body, args, fuel);
      case ConstructorObj(params, body) =>
        r := InvokeConstructor(params, body, args, fuel);
      case NativeObj(op) =>
        r := InvokeNative(op, callee.self, args);
      case _ =>
        r := Err(NotCallable);
    }

    /** The parameter-binding loop of a call, as the code is written: before binding argument
        `i` it fails with "too many arguments" only when `i > |params|`, but at
        `i == |params|` reading the parameter list already fails with an index error. */
    method BindParams(frame: nat, params: seq<string>, args: seq<Ref>) returns (failure: Option<Error>)
      requires Valid() && frame < |heap| && RefsIn(args, |heap|)
      modifies this
      ensures Valid() && scopes == old(scopes)
      ensures failure == BindFailureAsWritten(|params|, |args|, 0)
      ensures failure.Some? <==> |args| > |params|
      ensures failure.Some? ==> failure.value == IndexOutOfBounds
      ensures heap == old(heap)[frame := Obj(old(heap)[frame].payload,
                                             old(heap)[frame].fields + Bindings(params, args, BoundCount(params, args)))]
    {
      AsWrittenFailsByIndex(|params|, |args|, 0);
      var i := 0;
      assert old(heap)[frame].fields + Bindings(params, args, 0) == old(heap)[frame].fields;
      assert heap == old(heap)[frame := Obj(old(heap)[frame].payload, old(heap)[frame].fields + Bindings(params, args, 0))];
      while i < |args|
        invariant 0 <= i <= |args| && i <= |params|
        invariant Valid() && scopes == old(scopes)
        invariant heap == old(heap)[frame := Obj(old(heap)[frame].payload, old(heap)[frame].fields + Bindings(params, args, i))]
      {
        if i > |params| {
          // The arity test never succeeds: `i` cannot pass the parameter count.
          assert false;
        }
        if i == |params| {
          return Some(IndexOutOfBounds);
        }
        heap := AddField(heap, frame, params[i], args[i], false);
        assert old(heap)[frame].fields + Bindings(params, args, i + 1) ==
               (old(heap)[frame].fields + Bindings(params, args, i))[params[i] := Slot(args[i], false)];
        i := i + 1;
      }
      return None;
    }

    /** The binding loop with the arity test the code evidently intends (`i >= |params|`):
        exactly the calls with a surplus argument fail, with "too many arguments", after the
        earlier arguments were bound. */
    method BindParamsIntended(frame: nat, params: seq<string>, args: seq<Ref>) returns (failure: Option<Error>)
      requires Valid() && frame < |heap| && RefsIn(args, |heap|)
      modifies this
      ensures Valid() && scopes == old(scopes)
      ensures failure.Some? <==> |args| > |params|
      ensures failure.Some? ==> failure.value == TooManyArguments
      ensures heap == old(heap)[frame := Obj(old(heap)[frame].payload,
                                             old(heap)[frame].fields + Bindings(params, args, BoundCount(params, args)))]
    {
      var i := 0;
      assert old(heap)[frame].fields + Bindings(params, args, 0) == old(heap)[frame].fields;
      assert heap == old(heap)[frame := Obj(old(heap)[frame].payload, old(heap)[frame].fields + Bindings(params, args, 0))];
      while i < |args|
        invariant 0 <= i <= |args| && i <= |params|
        invariant Valid() && scopes == old(scopes)
        invariant heap == old(heap)[frame := Obj(old(heap)[frame].payload, old(heap)[frame].fields + Bindings(params, args, i))]
      {
        if i >= |params| {
          return Some(TooManyArguments);
        }
        heap := AddField(heap, frame, params[i], args[i], false);
        assert old(heap)[frame].fields + Bindings(params, args, i + 1) ==
               (old(heap)[frame].fields + Bindings(params, args, i))[params[i] := Slot(args[i], false)];
        i := i + 1;
      }
      return None;
    }

    /** Pushes a fresh frame and binds the parameters in it. */
    method EnterCall(params: seq<string>, args: seq<Ref>) returns (failure: Option<Error>)
      requires Valid() && RefsIn(args, |heap|)
      modifies this
      ensures Valid() && State() == CallFrame(params, args, old(State()))
      ensures failure == BindFailureAsWritten(|params|, |args|, 0)
    {
      ghost var c0 := State();
      var frame := |heap|;
      heap := Allocate(heap, Obj(Plain, map[]));
      RefsInGrow(args, frame, |heap|);
      scopes := [frame] + scopes;
      assert State() == Push(c0, map[]);
      failure := BindParams(frame, params, args);
      var bound := Bindings(params, args, BoundCount(params, args));
      assert map[] + bound == bound;
      assert heap == c0.heap + [Obj(Plain, bound)];
    }

    /** A lambda call. */
    method InvokeLambda(params: seq<string>, body: Expr, args: seq<Ref>, fuel: nat) returns (r: Result<Ref>)
      requires Valid() && RefsIn(args, |heap|)
      modifies this
      ensures Valid() && Step(r, State()) == SemLambda(params, body, args, old(State()), fuel)
      decreases fuel, 2, 0
    {
      ghost var c0 := State();
      var failure := EnterCall(params, args);
      ghost var c1 := State();
      AsWrittenFailsByIndex(|params|, |args|, 0);
      if failure.Some? {
        assert SemLambda(params, body, args, c0, fuel) == Step(Err(failure.value), c1);
        return Err(failure.value);
      }
      r := Eval(body, fuel);
      ghost var s1 := Step(r, State());
      assert s1 == Sem(body, c1, fuel);
      if r.Ok? {
        scopes := scopes[1..];
        assert SemLambda(params, body, args, c0, fuel) == Step(s1.r, Config(s1.c.heap, c0.scopes));
      } else {
        assert SemLambda(params, body, args, c0, fuel) == s1;
      }
    }

    /** A constructor call: the body lines run for their effect on the frame, which is popped
        and returned as the new instance. */
    method InvokeConstructor(params: seq<string>, body: seq<Expr>, args: seq<Ref>, fuel: nat) returns (r: Result<Ref>)
      requires Valid() && RefsIn(args, |heap|)
      modifies this
      ensures Valid() && Step(r, State()) == SemConstructor(params, body, args, old(State()), fuel)
      decreases fuel, 2, 0
    {
      ghost var c0 := State();
      var frame := |heap|;
      var failure := EnterCall(params, args);
      ghost var c1 := State();
      AsWrittenFailsByIndex(|params|, |args|, 0);
      if failure.Some? {
        assert SemConstructor(params, body, args, c0, fuel) == Step(Err(failure.value), c1);
        return Err(failure.value);
      }
      var result := EvalLines(body, fuel);
      ghost var s1 := Step(result, State());
      assert s1 == SemLines(body, |body|, c1, fuel);
      if result.Err? {
        assert SemConstructor(params, body, args, c0, fuel) == s1;
        return result;
      }
      scopes := scopes[1..];
      r := Ok(Addr(frame));
      assert SemConstructor(params, body, args, c0, fuel) == Step(Ok(Addr(frame)), Config(s1.c.heap, c0.scopes));
    }

    /** A native call, as the host operation decides. */
    method InvokeNative(op: NativeOp, self: Ref, args: seq<Ref>) returns (r: Result<Ref>)
      requires Valid() && RefIn(self, |heap|) && RefsIn(args, |heap|)
      modifies this
      ensures Valid() && Step(r, State()) == SemNative(op, self, args, old(State()))
    {
      match CallNative(heap, op, self, args)
      case Fresh(p) =>
        var a := |heap|;
        heap := Allocate(heap, Obj(p, map[]));
        r := Ok(Addr(a));
      case Existing(v) =>
        r := Ok(v);
      case Raised(e) =>
        r := Err(e);
    }
  }
}
