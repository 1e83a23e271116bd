/** The reference semantics of evaluation: one pure function per expression form, mapping an
    expression and a configuration (the heap and the frame stack) to the outcome and the
    configuration left behind. Recursion is bounded by `fuel`. The evaluator class computes
    exactly these functions; the properties of evaluation are stated and proved about them. */
module Semantics {
  import opened Ast
  import opened Values
  import opened Intrinsics
  import opened Frames

  /** What evaluation reads and changes: the heap and the frame stack (index 0 innermost). */
  datatype Config = Config(heap: Heap, scopes: seq<nat>)

  /** The outcome of evaluating something, with the configuration it leaves behind. */
  datatype Step<T> = Step(r: Result<T>, c: Config)

  /** A settable member handle (`ObjField`): member `name` of the object at `obj`. */
  datatype Place = Place(obj: nat, name: string)

  /** The payloads `invoke` accepts. */
  predicate Callable(p: Payload)
  {
    p.LambdaObj? || p.ConstructorObj? || p.NativeObj?
  }

  /** A record built from `fields`: a plain object whose members are exactly the declared
      field names, each bound mutable. */
  predicate IsRecordOf(o: Obj, fields: seq<(string, Expr)>)
  {
    && o.payload == Plain
    && o.fields.Keys == (set j | 0 <= j < |fields| :: fields[j].0)
    && forall k :: k in o.fields ==> o.fields[k].mutable
  }

  /** A well-formed configuration: the shared null object in place, every reference inside
      the heap, and a stack of heap objects whose bottom is the global frame. */
  predicate Wf(c: Config)
  {
    && NullAddr < |c.heap| && c.heap[NullAddr].payload == NullObj
    && Closed(c.heap)
    && |c.scopes| >= 1 && c.scopes[|c.scopes| - 1] == GlobalAddr
    && StackIn(c.heap, c.scopes)
  }

  /** How any evaluation changes a configuration: it stays well-formed, the heap only grows,
      and the stack is the old one with zero or more frames left pushed on top (frames are
      popped on the success path only). */
  predicate Evolves(c0: Config, c1: Config)
  {
    Wf(c1) && Grew(c0.heap, c1.heap) && IsSuffix(c0.scopes, c1.scopes)
  }

  lemma EvolvesTransitive(c0: Config, c1: Config, c2: Config)
    requires Evolves(c0, c1) && Evolves(c1, c2)
    ensures Evolves(c0, c2)
  {
    GrewTransitive(c0.heap, c1.heap, c2.heap);
    SuffixTransitive(c0.scopes, c1.scopes, c2.scopes);
  }

  /** Popping what an evaluation pushed: the grown heap over the stack it started with. */
  lemma Restore(c0: Config, c1: Config)
    requires Wf(c0) && Wf(c1) && Grew(c0.heap, c1.heap)
    ensures Evolves(c0, Config(c1.heap, c0.scopes))
  {
  }

  lemma MembersGrow(members: map<string, Slot>, n: nat, n': nat)
    requires n <= n' && forall k :: k in members ==> RefIn(members[k].value, n)
    ensures forall k :: k in members ==> RefIn(members[k].value, n')
  {
    forall k | k in members
      ensures RefIn(members[k].value, n')
    {
      assert RefIn(members[k].value, n);
    }
  }

  /** A fresh frame holding `members`, allocated and pushed on top of the stack. */
  function Push(c: Config, members: map<string, Slot>): (c': Config)
    requires Wf(c) && forall k :: k in members ==> RefIn(members[k].value, |c.heap|)
    ensures Evolves(c, c') && c'.scopes == [|c.heap|] + c.scopes
    ensures c'.heap == c.heap + [Obj(Plain, members)]
  {
    SuffixPush(c.scopes, |c.heap|);
    MembersGrow(members, |c.heap|, |c.heap| + 1);
    var h := Allocate(c.heap, Obj(Plain, members));
    var s := [|c.heap|] + c.scopes;
    assert s[|s| - 1] == c.scopes[|c.scopes| - 1];
    assert forall i :: 1 <= i < |s| ==> s[i] == c.scopes[i - 1];
    Config(h, s)
  }

  /** A new object at the next free address, with the stack unchanged. */
  function New(c: Config, p: Payload): (s: Step<Ref>)
    requires Wf(c) && !p.TupleObj? && !p.NullObj?
    ensures Evolves(c, s.c) && s.c.scopes == c.scopes
    ensures s.r == Ok(Addr(|c.heap|)) && s.c.heap == c.heap + [Obj(p, map[])]
  {
    Step(Ok(Addr(|c.heap|)), Config(Allocate(c.heap, Obj(p, map[])), c.scopes))
  }

  /** Evaluation of one expression. */
  function Sem(e: Expr, c: Config, fuel: nat): (s: Step<Ref>)
    requires Wf(c)
    ensures Evolves(c, s.c)
    ensures s.r.Ok? ==> s.c.scopes == c.scopes && RefIn(s.r.value, |s.c.heap|)
    decreases fuel, 0, 0
  {
    if fuel == 0 then Step(Err(OutOfFuel), c)
    else if IsLeaf(e) then SemLeaf(e, c)
    else if e.Binary? || e.Prefix? || e.Select? then SemOperator(e, c, fuel - 1)
    else if e.VarDecl? || e.Def? || e.ClassDecl? then SemDeclaration(e, c, fuel - 1)
    else SemCompound(e, c, fuel - 1)
  }

  /** Operators and member reads. */
  function SemOperator(e: Expr, c: Config, fuel: nat): (s: Step<Ref>)
    requires Wf(c) && (e.Binary? || e.Prefix? || e.Select?)
    ensures Evolves(c, s.c)
    ensures s.r.Ok? ==> s.c.scopes == c.scopes && RefIn(s.r.value, |s.c.heap|)
    decreases fuel, 6, 0
  {
    match e
    case Binary(op, left, right) => SemBinary(op, left, right, c, fuel)
    case Prefix(op, operand) => SemDispatch(operand, PrefixMember(op), None, c, fuel)
    case Select(_, _) => SemSelect(e, c, fuel)
  }

  /** Declarations: `var`, `def` and `class`. */
  function SemDeclaration(e: Expr, c: Config, fuel: nat): (s: Step<Ref>)
    requires Wf(c) && (e.VarDecl? || e.Def? || e.ClassDecl?)
    ensures Evolves(c, s.c)
    ensures s.r.Ok? ==> s.c.scopes == c.scopes && s.r.value == Addr(NullAddr)
    decreases fuel, 3, 0
  {
    match e
    case VarDecl(target, init, mutable) => SemVar(target, init, mutable, c, fuel)
    case Def(name, params, body) => SemDef(name, params, body, c)
    case ClassDecl(name, params, body) => SemClass(name, params, body, c)
  }

  /** The forms built from several subexpressions: blocks, tuples, calls, indexing and
      records. */
  function SemCompound(e: Expr, c: Config, fuel: nat): (s: Step<Ref>)
    requires Wf(c) && (e.Block? || e.Tuple? || e.Call? || e.Get? || e.Record?)
    ensures Evolves(c, s.c)
    ensures s.r.Ok? ==> s.c.scopes == c.scopes && RefIn(s.r.value, |s.c.heap|)
    decreases fuel, 5, 0
  {
    match e
    case Block(lines) => SemBlock(lines, c, fuel)
    case Tuple(items) => SemTuple(items, c, fuel)
    case Call(callee, args) => SemCall(callee, args, c, fuel)
    case Get(indexed, indices) => SemGet(indexed, indices, c, fuel)
    case Record(fields) => SemRecord(fields, c, fuel)
  }

  /** The forms that evaluate no subexpression: a literal makes a new object (`null` is the
      shared null object), a name is looked up, and a lambda becomes a callable holding its
      parameters and body and capturing nothing. */
  function SemLeaf(e: Expr, c: Config): (s: Step<Ref>)
    requires Wf(c) && IsLeaf(e)
    ensures Evolves(c, s.c) && s.c.scopes == c.scopes
    ensures s.r.Ok? ==> RefIn(s.r.value, |s.c.heap|)
    ensures e.NumberLit? ==> s.r == Ok(Addr(|c.heap|)) && s.c.heap == c.heap + [Obj(Number(e.n), map[])]
    ensures e.StringLit? ==> s.r == Ok(Addr(|c.heap|)) && s.c.heap == c.heap + [Obj(Str(e.s), map[])]
    ensures e.BooleanLit? ==> s.r == Ok(Addr(|c.heap|)) && s.c.heap == c.heap + [Obj(Boolean(e.b), map[])]
    ensures e.NullLit? ==> s == Step(Ok(Addr(NullAddr)), c)
    ensures e.Name? ==> s == Step(Lookup(c.heap, c.scopes, e.name), c)
    ensures e.Lambda? ==>
              s.r == Ok(Addr(|c.heap|)) && s.c.heap == c.heap + [Obj(LambdaObj(e.params, e.body), map[])]
  {
    match e
    case NumberLit(n) => New(c, Number(n))
    case StringLit(str) => New(c, Str(str))
    case BooleanLit(b) => New(c, Boolean(b))
    case NullLit => Step(Ok(Addr(NullAddr)), c)
    case Name(name) =>
      var found := FindFrame(c.heap, c.scopes, name);
      if found.Some? then
        ClosedMember(c.heap, c.scopes[found.value], name);
        Step(Lookup(c.heap, c.scopes, name), c)
      else Step(Lookup(c.heap, c.scopes, name), c)
    case Lambda(params, body) => New(c, LambdaObj(params, body))
  }

  /** Binary operators: member dispatch, equality, or assignment. */
  function SemBinary(op: BinaryOp, left: Expr, right: Expr, c: Config, fuel: nat): (s: Step<Ref>)
    requires Wf(c)
    ensures Evolves(c, s.c)
    ensures s.r.Ok? ==> s.c.scopes == c.scopes && RefIn(s.r.value, |s.c.heap|)
    ensures op == Assign && !left.Name? && !left.Select? ==> s == Step(Err(Unsupported), c)
    decreases fuel, 5, 0
  {
    match op
    case EqEq => SemEquality(left, right, false, c, fuel)
    case BangEq => SemEquality(left, right, true, c, fuel)
    case Assign =>
      if left.Name? then SemAssignName(left.name, right, c, fuel)
      else if left.Select? then SemAssignMember(left, right, c, fuel)
      else Step(Err(Unsupported), c)
    case _ => SemDispatch(left, BinaryMember(op).value, Some(right), c, fuel)
  }

  /** Operator dispatch: evaluates the operand, fetches its member `member`, then evaluates
      the argument (if any) and invokes the member with it. */
  function SemDispatch(operand: Expr, member: string, arg: Option<Expr>, c: Config, fuel: nat): (s: Step<Ref>)
    requires Wf(c)
    ensures Evolves(c, s.c)
    ensures s.r.Ok? ==> s.c.scopes == c.scopes && RefIn(s.r.value, |s.c.heap|)
    decreases fuel, 4, 0
  {
    var s1 := Sem(operand, c, fuel);
    if s1.r.Err? then s1
    else match GetMember(s1.c.heap, s1.r.value, member)
      case Err(e) => Step(Err(e), s1.c)
      case Ok(callee) =>
        if arg.None? then
          var s3 := SemInvoke(callee, [], s1.c, fuel);
          EvolvesTransitive(c, s1.c, s3.c);
          s3
        else
          var s2 := Sem(arg.value, s1.c, fuel);
          EvolvesTransitive(c, s1.c, s2.c);
          if s2.r.Err? then s2
          else
            var s3 := SemInvoke(callee, [s2.r.value], s2.c, fuel);
            EvolvesTransitive(c, s2.c, s3.c);
            s3
  }

  /** The steps of operator dispatch: a failing operand or a missing member ends it; otherwise
      the argument is evaluated whatever the operand's value (`&&` and `||` do not
      short-circuit), and its failure is the result with its effects kept. */
  lemma DispatchSteps(operand: Expr, member: string, arg: Option<Expr>, c: Config, fuel: nat)
    requires Wf(c)
    ensures var s := SemDispatch(operand, member, arg, c, fuel);
            var s1 := Sem(operand, c, fuel);
            && (s1.r.Err? ==> s == s1)
            && (s1.r.Ok? && GetMember(s1.c.heap, s1.r.value, member).Err? ==>
                  s == Step(Err(GetMember(s1.c.heap, s1.r.value, member).error), s1.c))
            && (s1.r.Ok? && GetMember(s1.c.heap, s1.r.value, member).Ok? && arg.Some? ==>
                  var s2 := Sem(arg.value, s1.c, fuel);
                  Grew(s2.c.heap, s.c.heap) && (s2.r.Err? ==> s == s2))
  {
  }

  /** `==` and `!=`: both operands evaluated left to right, then compared by `equals`; the
      result is a new boolean, negated for `!=`. */
  function SemEquality(left: Expr, right: Expr, negate: bool, c: Config, fuel: nat): (s: Step<Ref>)
    requires Wf(c)
    ensures Evolves(c, s.c)
    ensures s.r.Ok? ==> s.c.scopes == c.scopes && RefIn(s.r.value, |s.c.heap|)
    decreases fuel, 1, 0
  {
    var s1 := Sem(left, c, fuel);
    if s1.r.Err? then s1
    else
      var s2 := Sem(right, s1.c, fuel);
      EvolvesTransitive(c, s1.c, s2.c);
      if s2.r.Err? then s2
      else match Equals(s2.c.heap, s1.r.value, s2.r.value)
        case Err(e) => Step(Err(e), s2.c)
        case Ok(b) =>
          var s3 := New(s2.c, Boolean(b != negate));
          EvolvesTransitive(c, s2.c, s3.c);
          s3
  }

  /** The steps of `==` and `!=`: the left operand, then the right one where it left off; a
      null left operand fails, and otherwise the result is a new boolean holding `equals` of
      the two values, negated for `!=`. */
  lemma EqualitySteps(left: Expr, right: Expr, negate: bool, c: Config, fuel: nat)
    requires Wf(c)
    ensures var s := SemEquality(left, right, negate, c, fuel);
            var s1 := Sem(left, c, fuel);
            && (s1.r.Err? ==> s == s1)
            && (s1.r.Ok? ==>
                  var s2 := Sem(right, s1.c, fuel);
                  && (s2.r.Err? ==> s == s2)
                  && (s2.r.Ok? ==> && (s.r.Ok? <==> s1.r.value.Addr?)
                                   && (s1.r.value.Nil? ==> s == Step(Err(NullPointer), s2.c))
                                   && (s.r.Ok? ==> && s.r.value == Addr(|s2.c.heap|)
                                                   && s.c.heap == s2.c.heap + [Obj(Boolean(Equals(s2.c.heap, s1.r.value, s2.r.value).value != negate), map[])])))
  {
  }

  /** `==` and `!=` on the same operands give the same outcome, the same configuration up to
      the one new boolean, and complementary booleans. */
  lemma EqualityComplementary(left: Expr, right: Expr, c: Config, fuel: nat)
    requires Wf(c)
    ensures var eq := SemEquality(left, right, false, c, fuel);
            var ne := SemEquality(left, right, true, c, fuel);
            && eq.r == ne.r && eq.c.scopes == ne.c.scopes && |eq.c.heap| == |ne.c.heap|
            && (eq.r.Err? ==> eq.c == ne.c)
            && (eq.r.Ok? ==> && eq.c.heap[..|eq.c.heap| - 1] == ne.c.heap[..|ne.c.heap| - 1]
                             && eq.c.heap[|eq.c.heap| - 1].payload.Boolean?
                             && ne.c.heap[|ne.c.heap| - 1].payload ==
                                  Boolean(!eq.c.heap[|eq.c.heap| - 1].payload.b))
  {
    var eq := SemEquality(left, right, false, c, fuel);
    var ne := SemEquality(left, right, true, c, fuel);
    var s1 := Sem(left, c, fuel);
    if s1.r.Err? {
      assert eq == s1 == ne;
    } else {
      var s2 := Sem(right, s1.c, fuel);
      if s2.r.Err? {
        assert eq == s2 == ne;
      } else if s1.r.value.Nil? {
        assert eq == Step(Err(NullPointer), s2.c) == ne;
      } else {
        var b := Equals(s2.c.heap, s1.r.value, s2.r.value).value;
        assert eq == New(s2.c, Boolean(b));
        assert ne == New(s2.c, Boolean(!b));
        assert eq.c.heap[..|eq.c.heap| - 1] == s2.c.heap == ne.c.heap[..|ne.c.heap| - 1];
      }
    }
  }

  /** Assignment to a bare name: the innermost frame that has the name is found first; when
      none has it the right side is never evaluated. Otherwise the right side is evaluated and
      written into that frame's existing member, and becomes the result. */
  function SemAssignName(name: string, rhs: Expr, c: Config, fuel: nat): (s: Step<Ref>)
    requires Wf(c)
    ensures Evolves(c, s.c)
    ensures s.r.Ok? ==> s.c.scopes == c.scopes && RefIn(s.r.value, |s.c.heap|)
    ensures FindFrame(c.heap, c.scopes, name).None? ==> s == Step(Err(UnboundSymbol(name)), c)
    ensures s.r.Ok? ==> FindFrame(c.heap, c.scopes, name).Some? &&
                        var target := c.scopes[FindFrame(c.heap, c.scopes, name).value];
                        target < |s.c.heap| && name in s.c.heap[target].fields &&
                        s.c.heap[target].fields[name].value == s.r.value
    // Nothing else changes: the right side's effects, then that one member rebound.
    ensures s.r.Ok? ==> FindFrame(c.heap, c.scopes, name).Some? &&
                        var target := c.scopes[FindFrame(c.heap, c.scopes, name).value];
                        var v := Sem(rhs, c, fuel);
                        v.r == s.r && target < |v.c.heap| && name in v.c.heap[target].fields &&
                        s.c.heap == SetField(v.c.heap, target, name, s.r.value)
    decreases fuel, 1, 0
  {
    match FindFrame(c.heap, c.scopes, name)
    case None => Step(Err(UnboundSymbol(name)), c)
    case Some(i) =>
      var frame := c.scopes[i];
      var s1 := Sem(rhs, c, fuel);
      if s1.r.Err? then s1
      else
        assert Kept(c.heap[frame], s1.c.heap[frame]);
        var h := SetField(s1.c.heap, frame, name, s1.r.value);
        GrewTransitive(c.heap, s1.c.heap, h);
        Step(s1.r, Config(h, s1.c.scopes))
  }

  /** When a frame has the name, the assignment's outcome is the right side's; a failing
      right side is the result with its effects, and otherwise exactly the member of the frame
      found before the right side ran is rebound, with no binding added anywhere. */
  lemma AssignNameSteps(name: string, rhs: Expr, c: Config, fuel: nat)
    requires Wf(c) && FindFrame(c.heap, c.scopes, name).Some?
    ensures var s := SemAssignName(name, rhs, c, fuel);
            var v := Sem(rhs, c, fuel);
            var target := c.scopes[FindFrame(c.heap, c.scopes, name).value];
            && s.r == v.r
            && (v.r.Err? ==> s == v)
            && (v.r.Ok? ==> && target < |v.c.heap| && name in v.c.heap[target].fields
                            && s.c == Config(SetField(v.c.heap, target, name, v.r.value), v.c.scopes))
  {
    var target := c.scopes[FindFrame(c.heap, c.scopes, name).value];
    var v := Sem(rhs, c, fuel);
    if v.r.Ok? {
      assert Kept(c.heap[target], v.c.heap[target]);
    }
  }

  /** Assignment to a member path `a.b = v`: the right side is evaluated first, then the path
      is resolved to an existing member, which is overwritten. */
  function SemAssignMember(path: Expr, rhs: Expr, c: Config, fuel: nat): (s: Step<Ref>)
    requires Wf(c) && path.Select?
    ensures Evolves(c, s.c)
    ensures s.r.Ok? ==> s.c.scopes == c.scopes && RefIn(s.r.value, |s.c.heap|)
    decreases fuel, 2, 0
  {
    var s1 := Sem(rhs, c, fuel);
    if s1.r.Err? then s1
    else
      var p := SemPlace(path, s1.c, fuel);
      EvolvesTransitive(c, s1.c, p.c);
      if p.r.Err? then Step(Err(p.r.error), p.c)
      else
        var h := SetField(p.c.heap, p.r.value.obj, p.r.value.name, s1.r.value);
        GrewTransitive(c.heap, p.c.heap, h);
        Step(s1.r, Config(h, p.c.scopes))
  }

  /** The steps of `a.b = v`: the right side first; then the path, whose failure is the
      result; otherwise the member the path names now holds the right side's value, which is
      the result. */
  lemma AssignMemberSteps(path: Expr, rhs: Expr, c: Config, fuel: nat)
    requires Wf(c) && path.Select?
    ensures var s := SemAssignMember(path, rhs, c, fuel);
            var s1 := Sem(rhs, c, fuel);
            && (s1.r.Err? ==> s == s1)
            && (s1.r.Ok? ==>
                  var p := SemPlace(path, s1.c, fuel);
                  && (s.r.Ok? <==> p.r.Ok?)
                  && (p.r.Err? ==> s == Step(Err(p.r.error), p.c))
                  && (p.r.Ok? ==> && s.r == s1.r && p.r.value.obj < |s.c.heap|
                                  && p.r.value.name in s.c.heap[p.r.value.obj].fields
                                  && s.c.heap[p.r.value.obj].fields[p.r.value.name].value == s1.r.value
                                  // nothing else changes
                                  && s.c == Config(SetField(p.c.heap, p.r.value.obj, p.r.value.name, s1.r.value), p.c.scopes)))
  {
  }

  /** `getFieldWrapper`: a handle on an existing member. A member path evaluates its receiver
      and requires the member there; a bare name uses the same innermost-first search as
      lookup; anything else is not a valid target. */
  function SemPlace(e: Expr, c: Config, fuel: nat): (s: Step<Place>)
    requires Wf(c)
    ensures Evolves(c, s.c)
    ensures s.r.Ok? ==> s.c.scopes == c.scopes && s.r.value.obj < |s.c.heap| &&
                        s.r.value.name in s.c.heap[s.r.value.obj].fields
    ensures e.Name? ==> s.c == c &&
                        (s.r.Ok? <==> FindFrame(c.heap, c.scopes, e.name).Some?) &&
                        (s.r.Ok? ==> s.r.value == Place(c.scopes[FindFrame(c.heap, c.scopes, e.name).value], e.name)) &&
                        (s.r.Err? ==> s.r.error == UnboundSymbol(e.name))
    ensures !e.Name? && !e.Select? ==> s == Step(Err(InvalidTarget), c)
    decreases fuel, 1, 0
  {
    match e
    case Select(receiver, member) =>
      var s1 := Sem(receiver, c, fuel);
      if s1.r.Err? then Step(Err(s1.r.error), s1.c)
      else if s1.r.value.Nil? then Step(Err(NullPointer), s1.c)
      else if member !in s1.c.heap[s1.r.value.addr].fields then Step(Err(UnboundSymbol(member)), s1.c)
      else Step(Ok(Place(s1.r.value.addr, member)), s1.c)
    case Name(name) =>
      (match FindFrame(c.heap, c.scopes, name)
       case None => Step(Err(UnboundSymbol(name)), c)
       case Some(i) => Step(Ok(Place(c.scopes[i], name)), c))
    case _ => Step(Err(InvalidTarget), c)
  }

  /** A member path's handle: the receiver is evaluated, and the handle exists exactly when
      its value is an object that has the member; a null value fails. */
  lemma PlaceSteps(e: Expr, c: Config, fuel: nat)
    requires Wf(c) && e.Select?
    ensures var s := SemPlace(e, c, fuel);
            var s1 := Sem(e.receiver, c, fuel);
            && s.c == s1.c
            && (s.r.Ok? <==> s1.r.Ok? && s1.r.value.Addr? && e.member in s1.c.heap[s1.r.value.addr].fields)
            && (s.r.Ok? ==> s.r.value == Place(s1.r.value.addr, e.member))
            && (s1.r.Ok? && s1.r.value.Nil? ==> s.r == Err(NullPointer))
  {
  }

  /** A member read `a.b`: the receiver is evaluated, and the result is the value of its
      existing member; a missing member or a null receiver fails. */
  function SemSelect(e: Expr, c: Config, fuel: nat): (s: Step<Ref>)
    requires Wf(c) && e.Select?
    ensures Evolves(c, s.c)
    ensures s.r.Ok? ==> s.c.scopes == c.scopes && RefIn(s.r.value, |s.c.heap|)
    decreases fuel, 2, 0
  {
    var p := SemPlace(e, c, fuel);
    if p.r.Err? then Step(Err(p.r.error), p.c)
    else Step(Ok(Holder(p.c, p.r.value)), p.c)
  }

  /** The steps of a member read: the receiver's failure is the result; a null receiver and a
      missing member fail; otherwise the result is the member's value. */
  lemma SelectSteps(e: Expr, c: Config, fuel: nat)
    requires Wf(c) && e.Select?
    ensures var s := SemSelect(e, c, fuel);
            var s1 := Sem(e.receiver, c, fuel);
            && s.c == s1.c
            && (s.r.Ok? <==> s1.r.Ok? && s1.r.value.Addr? && e.member in s1.c.heap[s1.r.value.addr].fields)
            && (s.r.Ok? ==> s.r.value == s1.c.heap[s1.r.value.addr].fields[e.member].value)
            && (s1.r.Err? ==> s.r == s1.r)
            && (s1.r.Ok? && s1.r.value.Nil? ==> s.r == Err(NullPointer))
            && (s1.r.Ok? && s1.r.value.Addr? && e.member !in s1.c.heap[s1.r.value.addr].fields ==>
                  s.r == Err(UnboundSymbol(e.member)))
  {
    PlaceSteps(e, c, fuel);
  }

  /** The value a member handle holds. */
  function Holder(c: Config, p: Place): (v: Ref)
    requires Wf(c) && p.obj < |c.heap| && p.name in c.heap[p.obj].fields
    ensures RefIn(v, |c.heap|)
  {
    ClosedMember(c.heap, p.obj, p.name);
    c.heap[p.obj].fields[p.name].value
  }

  /** Declaring `name` on the object at `o`: redefinition fails before the initializer is
      evaluated; otherwise the initializer's value is added there with the declared
      mutability. The result is the null object. */
  function Declare(o: nat, name: string, init: Expr, mutable: bool, c: Config, fuel: nat): (s: Step<Ref>)
    requires Wf(c) && o < |c.heap|
    ensures Evolves(c, s.c)
    ensures s.r.Ok? ==> s.c.scopes == c.scopes && s.r.value == Addr(NullAddr)
    ensures name in c.heap[o].fields ==> s == Step(Err(Redefinition(name)), c)
    decreases fuel, 1, 0
  {
    if name in c.heap[o].fields then Step(Err(Redefinition(name)), c)
    else
      var v := Sem(init, c, fuel);
      if v.r.Err? then v
      else
        var h := AddField(v.c.heap, o, name, v.r.value, mutable);
        GrewTransitive(c.heap, v.c.heap, h);
        Step(Ok(Addr(NullAddr)), Config(h, v.c.scopes))
  }

  /** Without a redefinition, the initializer is evaluated and, when it succeeds, exactly the
      new member is added to the object at `o`; nothing else changes. */
  lemma DeclareSteps(o: nat, name: string, init: Expr, mutable: bool, c: Config, fuel: nat)
    requires Wf(c) && o < |c.heap| && name !in c.heap[o].fields
    ensures var s := Declare(o, name, init, mutable, c, fuel);
            var v := Sem(init, c, fuel);
            && (s.r.Ok? <==> v.r.Ok?) && (v.r.Err? ==> s == v)
            && (s.r.Ok? ==> && s.c.scopes == v.c.scopes && |s.c.heap| == |v.c.heap|
                            && s.c.heap[o].fields == v.c.heap[o].fields[name := Slot(v.r.value, mutable)]
                            && forall a :: 0 <= a < |v.c.heap| && a != o ==> s.c.heap[a] == v.c.heap[a])
  {
    var v := Sem(init, c, fuel);
    if v.r.Ok? {
      var s := Declare(o, name, init, mutable, c, fuel);
      assert s.c.heap == AddField(v.c.heap, o, name, v.r.value, mutable);
      assert s.c.heap[o].fields == v.c.heap[o].fields[name := Slot(v.r.value, mutable)];
    }
  }

  /** `var target = init`: the target object is the top frame for a bare name, or the value
      the receiver path holds for `a.b`; the member is declared there. */
  function SemVar(target: Expr, init: Expr, mutable: bool, c: Config, fuel: nat): (s: Step<Ref>)
    requires Wf(c)
    ensures Evolves(c, s.c)
    ensures s.r.Ok? ==> s.c.scopes == c.scopes && s.r.value == Addr(NullAddr)
    ensures target.Name? && target.name in c.heap[c.scopes[0]].fields ==>
              s == Step(Err(Redefinition(target.name)), c)
    ensures !target.Name? && !target.Select? ==> s == Step(Err(InvalidTarget), c)
    decreases fuel, 2, 0
  {
    match target
    case Name(n) => Declare(c.scopes[0], n, init, mutable, c, fuel)
    case Select(receiver, m) => SemVarMember(receiver, m, init, mutable, c, fuel)
    case _ => Step(Err(InvalidTarget), c)
  }

  /** A successful `var name = init` added `name`, absent before, to the top frame, bound to
      the initializer's value; `var a.m = init` declares on the object `a` holds. */
  lemma VarSteps(target: Expr, init: Expr, mutable: bool, c: Config, fuel: nat)
    requires Wf(c)
    ensures var s := SemVar(target, init, mutable, c, fuel);
            && (target.Name? && s.r.Ok? ==>
                  && target.name !in c.heap[c.scopes[0]].fields
                  && target.name in s.c.heap[c.scopes[0]].fields
                  && Sem(init, c, fuel).r.Ok?
                  && s.c.heap[c.scopes[0]].fields[target.name] == Slot(Sem(init, c, fuel).r.value, mutable))
            && (target.Select? ==> s == SemVarMember(target.receiver, target.member, init, mutable, c, fuel))
            // a bare name is declared on the top frame, whatever outer frames hold
            && (target.Name? ==> s == Declare(c.scopes[0], target.name, init, mutable, c, fuel))
  {
    match target
    case Name(n) =>
      assert SemVar(target, init, mutable, c, fuel) == Declare(c.scopes[0], n, init, mutable, c, fuel);
      if n !in c.heap[c.scopes[0]].fields {
        DeclareSteps(c.scopes[0], n, init, mutable, c, fuel);
      }
    case _ =>
  }

  /** `var a.m = init`: the path `a` is resolved to a member handle, and `m` is declared on
      the object that member holds; a null holder fails, and so does an `m` already there. */
  function SemVarMember(receiver: Expr, m: string, init: Expr, mutable: bool, c: Config, fuel: nat): (s: Step<Ref>)
    requires Wf(c)
    ensures Evolves(c, s.c)
    ensures s.r.Ok? ==> s.c.scopes == c.scopes && s.r.value == Addr(NullAddr)
    decreases fuel, 1, 1
  {
    var p := SemPlace(receiver, c, fuel);
    if p.r.Err? then Step(Err(p.r.error), p.c)
    else
      var holder := Holder(p.c, p.r.value);
      if holder.Nil? then Step(Err(NullPointer), p.c)
      else
        var s := Declare(holder.addr, m, init, mutable, p.c, fuel);
        EvolvesTransitive(c, p.c, s.c);
        s
  }

  /** The steps of `var a.m = init`: the path's failure is the result; a null holder fails; an
      `m` the holder already has is a redefinition; otherwise `m`, absent before, is added to
      the holder, bound to the initializer's value. */
  lemma VarMemberSteps(receiver: Expr, m: string, init: Expr, mutable: bool, c: Config, fuel: nat)
    requires Wf(c)
    ensures var s := SemVarMember(receiver, m, init, mutable, c, fuel);
            var p := SemPlace(receiver, c, fuel);
            && (p.r.Err? ==> s == Step(Err(p.r.error), p.c))
            && (p.r.Ok? && Holder(p.c, p.r.value).Nil? ==> s == Step(Err(NullPointer), p.c))
            && (p.r.Ok? && Holder(p.c, p.r.value).Addr? && m in p.c.heap[Holder(p.c, p.r.value).addr].fields ==>
                  s == Step(Err(Redefinition(m)), p.c))
            && (s.r.Ok? ==> && p.r.Ok? && Holder(p.c, p.r.value).Addr?
                            && var o := Holder(p.c, p.r.value).addr;
                               && m !in p.c.heap[o].fields
                               && o < |s.c.heap| && m in s.c.heap[o].fields
                               && Sem(init, p.c, fuel).r.Ok?
                               && s.c.heap[o].fields[m] == Slot(Sem(init, p.c, fuel).r.value, mutable))
  {
    var s := SemVarMember(receiver, m, init, mutable, c, fuel);
    var p := SemPlace(receiver, c, fuel);
    if p.r.Ok? {
      var holder := Holder(p.c, p.r.value);
      if holder.Addr? {
        assert s == Declare(holder.addr, m, init, mutable, p.c, fuel);
        if m !in p.c.heap[holder.addr].fields {
          DeclareSteps(holder.addr, m, init, mutable, p.c, fuel);
        }
      }
    }
  }

  /** Once the path resolves to a non-null holder, `m` is declared on that holder, exactly as a
      bare name is declared on the top frame. */
  lemma VarMemberDeclares(receiver: Expr, m: string, init: Expr, mutable: bool, c: Config, fuel: nat)
    requires Wf(c)
    ensures var p := SemPlace(receiver, c, fuel);
            p.r.Ok? && Holder(p.c, p.r.value).Addr? ==>
              SemVarMember(receiver, m, init, mutable, c, fuel) ==
              Declare(Holder(p.c, p.r.value).addr, m, init, mutable, p.c, fuel)
  {
    var p := SemPlace(receiver, c, fuel);
    if p.r.Ok? && Holder(p.c, p.r.value).Addr? {
      assert SemVarMember(receiver, m, init, mutable, c, fuel) ==
             Declare(Holder(p.c, p.r.value).addr, m, init, mutable, p.c, fuel);
    }
  }

  /** `def name(params) body`: an immutable lambda bound in the top frame; redefinition in
      that frame fails. The result is the null object. */
  function SemDef(name: string, params: seq<string>, body: Expr, c: Config): (s: Step<Ref>)
    requires Wf(c)
    ensures Evolves(c, s.c) && s.c.scopes == c.scopes
    ensures name in c.heap[c.scopes[0]].fields ==> s == Step(Err(Redefinition(name)), c)
    ensures name !in c.heap[c.scopes[0]].fields ==>
              && s.r == Ok(Addr(NullAddr))
              && |s.c.heap| == |c.heap| + 1
              && s.c.heap[|c.heap|] == Obj(LambdaObj(params, body), map[])
              && s.c.heap[c.scopes[0]].fields.Keys == c.heap[c.scopes[0]].fields.Keys + {name}
              && s.c.heap[c.scopes[0]].fields[name] == Slot(Addr(|c.heap|), false)
              && forall a :: 0 <= a < |c.heap| && a != c.scopes[0] ==> s.c.heap[a] == c.heap[a]
  {
    var top := c.scopes[0];
    if name in c.heap[top].fields then Step(Err(Redefinition(name)), c)
    else
      var f := New(c, LambdaObj(params, body));
      var h := AddField(f.c.heap, top, name, Addr(|c.heap|), false);
      GrewTransitive(c.heap, f.c.heap, h);
      Step(Ok(Addr(NullAddr)), Config(h, c.scopes))
  }

  /** A class declaration: binds an immutable constructor in the top frame (no redefinition
      check is made here). The result is the null object. */
  function SemClass(name: string, params: seq<string>, body: seq<Expr>, c: Config): (s: Step<Ref>)
    requires Wf(c)
    ensures Evolves(c, s.c) && s.c.scopes == c.scopes
    ensures s.r == Ok(Addr(NullAddr))
    ensures |s.c.heap| == |c.heap| + 1 && s.c.heap[|c.heap|] == Obj(ConstructorObj(params, body), map[])
    ensures s.c.heap[c.scopes[0]].fields.Keys == c.heap[c.scopes[0]].fields.Keys + {name}
    ensures s.c.heap[c.scopes[0]].fields[name] == Slot(Addr(|c.heap|), false)
    ensures forall a :: 0 <= a < |c.heap| && a != c.scopes[0] ==> s.c.heap[a] == c.heap[a]
  {
    var f := New(c, ConstructorObj(params, body));
    var h := AddField(f.c.heap, c.scopes[0], name, Addr(|c.heap|), false);
    GrewTransitive(c.heap, f.c.heap, h);
    Step(Ok(Addr(NullAddr)), Config(h, c.scopes))
  }

  /** The first `n` lines evaluated in order; the value is the last one's, or the null
      object when there are none. */
  function SemLines(lines: seq<Expr>, n: nat, c: Config, fuel: nat): (s: Step<Ref>)
    requires Wf(c) && n <= |lines|
    ensures Evolves(c, s.c)
    ensures s.r.Ok? ==> s.c.scopes == c.scopes && RefIn(s.r.value, |s.c.heap|)
    decreases fuel, 1, n
  {
    if n == 0 then Step(Ok(Addr(NullAddr)), c)
    else
      var s1 := SemLines(lines, n - 1, c, fuel);
      if s1.r.Err? then s1
      else
        var s2 := Sem(lines[n - 1], s1.c, fuel);
        EvolvesTransitive(c, s1.c, s2.c);
        s2
  }

  /** Evaluation of lines stops at the first failure: later lines are never evaluated. */
  lemma {:induction false} SemLinesStops(lines: seq<Expr>, i: nat, n: nat, c: Config, fuel: nat)
    requires Wf(c) && i <= n <= |lines| && SemLines(lines, i, c, fuel).r.Err?
    ensures SemLines(lines, n, c, fuel) == SemLines(lines, i, c, fuel)
    decreases n
  {
    if i < n {
      SemLinesStops(lines, i, n - 1, c, fuel);
      assert SemLines(lines, n, c, fuel) == SemLines(lines, n - 1, c, fuel);
    }
  }

  /** A block: pushes a fresh empty frame, evaluates its lines in order in it and pops the
      frame. */
  function SemBlock(lines: seq<Expr>, c: Config, fuel: nat): (s: Step<Ref>)
    requires Wf(c)
    ensures Evolves(c, s.c)
    ensures s.r.Ok? ==> s.c.scopes == c.scopes && RefIn(s.r.value, |s.c.heap|)
    // An empty block is the null object.
    ensures lines == [] ==> s.r == Ok(Addr(NullAddr)) && |s.c.heap| == |c.heap| + 1
    // On failure the block's frame stays on the stack, directly above the old stack.
    ensures s.r.Err? ==> |c.scopes| < |s.c.scopes| && s.c.scopes[|s.c.scopes| - |c.scopes| - 1] == |c.heap|
    decreases fuel, 2, 0
  {
    var c1 := Push(c, map[]);
    var s1 := SemLines(lines, |lines|, c1, fuel);
    EvolvesTransitive(c, c1, s1.c);
    if s1.r.Err? then
      SuffixOfPush(c.scopes, |c.heap|, s1.c.scopes);
      s1
    else
      Restore(c, s1.c);
      Step(s1.r, Config(s1.c.heap, c.scopes))
  }

  /** A block's outcome is that of its lines run in a fresh frame: a failure is the result
      with the frame left pushed, and success pops the frame. A non-empty block's value is its
      last line's, evaluated in the block's frame after the others succeeded. */
  lemma BlockSteps(lines: seq<Expr>, c: Config, fuel: nat)
    requires Wf(c)
    ensures var s := SemBlock(lines, c, fuel);
            var body := SemLines(lines, |lines|, Push(c, map[]), fuel);
            && s.r == body.r
            && (body.r.Err? ==> s == body)
            && (body.r.Ok? ==> s.c == Config(body.c.heap, c.scopes))
    ensures lines != [] && SemBlock(lines, c, fuel).r.Ok? ==>
              var before := SemLines(lines, |lines| - 1, Push(c, map[]), fuel);
              before.r.Ok? && SemBlock(lines, c, fuel).r == Sem(lines[|lines| - 1], before.c, fuel).r
  {
  }

  /** The first `n` expressions evaluated left to right into their values, stopping at the
      first failure. */
  function SemAll(exprs: seq<Expr>, n: nat, c: Config, fuel: nat): (s: Step<seq<Ref>>)
    requires Wf(c) && n <= |exprs|
    ensures Evolves(c, s.c)
    ensures s.r.Ok? ==> s.c.scopes == c.scopes && |s.r.value| == n && RefsIn(s.r.value, |s.c.heap|)
    decreases fuel, 1, n
  {
    if n == 0 then Step(Ok([]), c)
    else
      var s1 := SemAll(exprs, n - 1, c, fuel);
      if s1.r.Err? then s1
      else
        var s2 := Sem(exprs[n - 1], s1.c, fuel);
        EvolvesTransitive(c, s1.c, s2.c);
        if s2.r.Err? then Step(Err(s2.r.error), s2.c)
        else
          RefsInAppend(s1.r.value, s2.r.value, |s1.c.heap|, |s2.c.heap|);
          Step(Ok(s1.r.value + [s2.r.value]), s2.c)
  }

  /** Evaluation of a list stops at the first failure: later expressions are never evaluated. */
  lemma {:induction false} SemAllStops(exprs: seq<Expr>, i: nat, n: nat, c: Config, fuel: nat)
    requires Wf(c) && i <= n <= |exprs| && SemAll(exprs, i, c, fuel).r.Err?
    ensures SemAll(exprs, n, c, fuel) == SemAll(exprs, i, c, fuel)
    decreases n
  {
    if i < n {
      SemAllStops(exprs, i, n - 1, c, fuel);
      var s1 := SemAll(exprs, n - 1, c, fuel);
      assert s1.r.Err? && SemAll(exprs, n, c, fuel) == s1;
    }
  }

  /** Left to right: when the first `n` expressions succeed, so do the first `i`, their values
      are a prefix, and value `i` is that of expression `i` evaluated where the first `i` left
      off. */
  lemma {:induction false} SemAllItem(exprs: seq<Expr>, n: nat, c: Config, fuel: nat, i: nat)
    requires Wf(c) && i < n <= |exprs| && SemAll(exprs, n, c, fuel).r.Ok?
    ensures SemAll(exprs, i, c, fuel).r.Ok?
    ensures SemAll(exprs, n, c, fuel).r.value[..i] == SemAll(exprs, i, c, fuel).r.value
    ensures var item := Sem(exprs[i], SemAll(exprs, i, c, fuel).c, fuel);
            item.r.Ok? && SemAll(exprs, n, c, fuel).r.value[i] == item.r.value
    decreases n
  {
    var all := SemAll(exprs, n, c, fuel);
    var s1 := SemAll(exprs, n - 1, c, fuel);
    assert s1.r.Ok?;
    var s2 := Sem(exprs[n - 1], s1.c, fuel);
    assert s2.r.Ok? && all.r.value == s1.r.value + [s2.r.value];
    if i < n - 1 {
      SemAllItem(exprs, n - 1, c, fuel, i);
      assert all.r.value[..i] == s1.r.value[..i];
    }
  }

  /** A failure comes from the first failing expression: every one before it succeeded, and
      the failure and configuration are that expression's. */
  lemma {:induction false} SemAllFailure(exprs: seq<Expr>, n: nat, c: Config, fuel: nat) returns (k: nat)
    requires Wf(c) && n <= |exprs| && SemAll(exprs, n, c, fuel).r.Err?
    ensures k < n && SemAll(exprs, k, c, fuel).r.Ok?
    ensures var failed := Sem(exprs[k], SemAll(exprs, k, c, fuel).c, fuel);
            failed.r == Err(SemAll(exprs, n, c, fuel).r.error) && failed.c == SemAll(exprs, n, c, fuel).c
    decreases n
  {
    if SemAll(exprs, n - 1, c, fuel).r.Err? {
      k := SemAllFailure(exprs, n - 1, c, fuel);
    } else {
      k := n - 1;
      var failed := Sem(exprs[k], SemAll(exprs, k, c, fuel).c, fuel);
      assert SemAll(exprs, n, c, fuel) == Step(Err(failed.r.error), failed.c);
    }
  }

  /** A tuple literal: one item gives that item's value itself; otherwise all items are
      evaluated left to right into a new tuple of their values. */
  function SemTuple(items: seq<Expr>, c: Config, fuel: nat): (s: Step<Ref>)
    requires Wf(c)
    ensures Evolves(c, s.c)
    ensures s.r.Ok? ==> s.c.scopes == c.scopes && RefIn(s.r.value, |s.c.heap|)
    // Several items (or none) make a new tuple with one value per item.
    ensures |items| != 1 && s.r.Ok? ==>
              && |c.heap| < |s.c.heap| && s.r.value == Addr(|s.c.heap| - 1)
              && s.c.heap[|s.c.heap| - 1].payload.TupleObj?
              && |s.c.heap[|s.c.heap| - 1].payload.items| == |items|
    decreases fuel, 2, 0
  {
    if |items| == 1 then Sem(items[0], c, fuel)
    else
      var vs := SemAll(items, |items|, c, fuel);
      if vs.r.Err? then Step(Err(vs.r.error), vs.c)
      else
        var o := Obj(TupleObj(vs.r.value), map[]);
        RefsInGrow(vs.r.value, |vs.c.heap|, |vs.c.heap| + 1);
        var h := Allocate(vs.c.heap, o);
        GrewTransitive(c.heap, vs.c.heap, h);
        Step(Ok(Addr(|vs.c.heap|)), Config(h, vs.c.scopes))
  }

  /** One item gives that item's own outcome; otherwise the items are evaluated left to right
      and, when they all succeed, the new tuple holds exactly their values. */
  lemma TupleSteps(items: seq<Expr>, c: Config, fuel: nat)
    requires Wf(c)
    ensures var s := SemTuple(items, c, fuel);
            && (|items| == 1 ==> s == Sem(items[0], c, fuel))
            && (|items| != 1 ==>
                  var vs := SemAll(items, |items|, c, fuel);
                  && (s.r.Ok? <==> vs.r.Ok?)
                  && (vs.r.Err? ==> s == Step(Err(vs.r.error), vs.c))
                  && (vs.r.Ok? ==> s.r == Ok(Addr(|vs.c.heap|)) && s.c.heap == vs.c.heap + [Obj(TupleObj(vs.r.value), map[])]))
  {
  }

  /** A call: every argument is evaluated left to right, then the callee expression, then the
      callee is invoked with the argument values. */
  function SemCall(callee: Expr, args: seq<Expr>, c: Config, fuel: nat): (s: Step<Ref>)
    requires Wf(c)
    ensures Evolves(c, s.c)
    ensures s.r.Ok? ==> s.c.scopes == c.scopes && RefIn(s.r.value, |s.c.heap|)
    decreases fuel, 4, 0
  {
    var vs := SemAll(args, |args|, c, fuel);
    if vs.r.Err? then Step(Err(vs.r.error), vs.c)
    else
      var f := Sem(callee, vs.c, fuel);
      EvolvesTransitive(c, vs.c, f.c);
      if f.r.Err? then f
      else
        RefsInGrow(vs.r.value, |vs.c.heap|, |f.c.heap|);
        var s3 := SemInvoke(Callee(f.r.value, Nil), vs.r.value, f.c, fuel);
        EvolvesTransitive(c, f.c, s3.c);
        s3
  }

  /** The order of a call: a failing argument ends the call before the callee expression is
      evaluated; the callee expression is evaluated after the arguments, where they left off,
      and a null callee fails. */
  lemma CallSteps(callee: Expr, args: seq<Expr>, c: Config, fuel: nat)
    requires Wf(c)
    ensures var s := SemCall(callee, args, c, fuel);
            var vs := SemAll(args, |args|, c, fuel);
            && (vs.r.Err? ==> s == Step(Err(vs.r.error), vs.c))
            && (vs.r.Ok? ==>
                  var f := Sem(callee, vs.c, fuel);
                  && (f.r.Err? ==> s == f)
                  && (f.r.Ok? && f.r.value.Nil? ==> s == Step(Err(NullPointer), f.c)))
  {
  }

  /** Indexing: the indices are evaluated, then the receiver, whose `get` member is invoked
      with them; the member's result is discarded and the expression yields Java `null`. */
  function SemGet(indexed: Expr, indices: seq<Expr>, c: Config, fuel: nat): (s: Step<Ref>)
    requires Wf(c)
    ensures Evolves(c, s.c)
    ensures s.r.Ok? ==> s.c.scopes == c.scopes && s.r.value == Nil
    decreases fuel, 4, 0
  {
    var vs := SemAll(indices, |indices|, c, fuel);
    if vs.r.Err? then Step(Err(vs.r.error), vs.c)
    else
      var recv := Sem(indexed, vs.c, fuel);
      EvolvesTransitive(c, vs.c, recv.c);
      if recv.r.Err? then recv
      else match GetMember(recv.c.heap, recv.r.value, "get")
        case Err(e) => Step(Err(e), recv.c)
        case Ok(getter) =>
          RefsInGrow(vs.r.value, |vs.c.heap|, |recv.c.heap|);
          var res := SemInvoke(getter, vs.r.value, recv.c, fuel);
          EvolvesTransitive(c, recv.c, res.c);
          if res.r.Err? then res else Step(Ok(Nil), res.c)
  }

  /** The order of indexing: the indices first, then the receiver where they left off; a
      null receiver fails. */
  lemma GetSteps(indexed: Expr, indices: seq<Expr>, c: Config, fuel: nat)
    requires Wf(c)
    ensures var s := SemGet(indexed, indices, c, fuel);
            var vs := SemAll(indices, |indices|, c, fuel);
            && (vs.r.Err? ==> s == Step(Err(vs.r.error), vs.c))
            && (vs.r.Ok? ==>
                  var recv := Sem(indexed, vs.c, fuel);
                  && (recv.r.Err? ==> s == recv)
                  && (recv.r.Ok? && recv.r.value.Nil? ==> s == Step(Err(NullPointer), recv.c)))
  {
  }

  /** The members of a record from its first `n` fields, evaluated in order, each bound
      mutable; a later field of the same name overrides an earlier one. */
  function SemFields(fields: seq<(string, Expr)>, n: nat, c: Config, fuel: nat): (s: Step<map<string, Slot>>)
    requires Wf(c) && n <= |fields|
    ensures Evolves(c, s.c)
    ensures s.r.Ok? ==> s.c.scopes == c.scopes
    decreases fuel, 1, n, 0
  {
    if n == 0 then Step(Ok(map[]), c)
    else
      var s1 := SemFields(fields, n - 1, c, fuel);
      if s1.r.Err? then s1
      else
        var v := Sem(fields[n - 1].1, s1.c, fuel);
        EvolvesTransitive(c, s1.c, v.c);
        if v.r.Err? then Step(Err(v.r.error), v.c)
        else Step(Ok(s1.r.value[fields[n - 1].0 := Slot(v.r.value, true)]), v.c)
  }

  /** The names of the first `n` fields are those of the first `n - 1` and field `n - 1`'s. */
  lemma NamesExtend(fields: seq<(string, Expr)>, n: nat)
    requires 0 < n <= |fields|
    ensures (set j | 0 <= j < n :: fields[j].0) == (set j | 0 <= j < n - 1 :: fields[j].0) + {fields[n - 1].0}
  {
    assert fields[n - 1].0 in (set j | 0 <= j < n :: fields[j].0);
  }

  /** The members built from the first `n` fields are exactly their names. */
  lemma {:induction false} SemFieldsKeys(fields: seq<(string, Expr)>, n: nat, c: Config, fuel: nat)
    requires Wf(c) && n <= |fields| && SemFields(fields, n, c, fuel).r.Ok?
    ensures SemFields(fields, n, c, fuel).r.value.Keys == (set j | 0 <= j < n :: fields[j].0)
    decreases fuel, 1, n, 1
  {
    if n > 0 {
      SemFieldsKeys(fields, n - 1, c, fuel);
      NamesExtend(fields, n);
    }
  }

  /** Each member built from the first `n` fields is bound mutable, to a value inside the heap. */
  lemma {:induction false} SemFieldsSlots(fields: seq<(string, Expr)>, n: nat, c: Config, fuel: nat)
    requires Wf(c) && n <= |fields| && SemFields(fields, n, c, fuel).r.Ok?
    ensures var s := SemFields(fields, n, c, fuel);
            forall k :: k in s.r.value ==> s.r.value[k].mutable && RefIn(s.r.value[k].value, |s.c.heap|)
    decreases fuel, 1, n, 1
  {
    if n > 0 {
      var s1 := SemFields(fields, n - 1, c, fuel);
      SemFieldsSlots(fields, n - 1, c, fuel);
      MembersGrow(s1.r.value, |s1.c.heap|, |Sem(fields[n - 1].1, s1.c, fuel).c.heap|);
    }
  }

  /** Evaluation of record fields stops at the first failing initializer. */
  lemma {:induction false} SemFieldsStops(fields: seq<(string, Expr)>, i: nat, n: nat, c: Config, fuel: nat)
    requires Wf(c) && i <= n <= |fields| && SemFields(fields, i, c, fuel).r.Err?
    ensures SemFields(fields, n, c, fuel) == SemFields(fields, i, c, fuel)
    decreases n
  {
    if i < n {
      SemFieldsStops(fields, i, n - 1, c, fuel);
    }
  }

  /** The value of each member: field `j`, when no later field has its name, is bound to the
      value of its initializer, evaluated where the fields before it left off. */
  lemma {:induction false} SemFieldsValues(fields: seq<(string, Expr)>, n: nat, c: Config, fuel: nat, j: nat)
    requires Wf(c) && j < n <= |fields| && SemFields(fields, n, c, fuel).r.Ok?
    requires forall k :: j < k < n ==> fields[k].0 != fields[j].0
    ensures SemFields(fields, j, c, fuel).r.Ok?
    ensures var v := Sem(fields[j].1, SemFields(fields, j, c, fuel).c, fuel);
            && v.r.Ok? && fields[j].0 in SemFields(fields, n, c, fuel).r.value
            && SemFields(fields, n, c, fuel).r.value[fields[j].0] == Slot(v.r.value, true)
    decreases n
  {
    var s1 := SemFields(fields, n - 1, c, fuel);
    assert s1.r.Ok?;
    var v := Sem(fields[n - 1].1, s1.c, fuel);
    assert v.r.Ok? && SemFields(fields, n, c, fuel).r.value == s1.r.value[fields[n - 1].0 := Slot(v.r.value, true)];
    if j < n - 1 {
      SemFieldsValues(fields, n - 1, c, fuel, j);
    }
  }

  /** A record literal: every field initializer is evaluated in the enclosing scope, in order,
      and the new object has exactly the declared field names, each bound mutable. */
  function SemRecord(fields: seq<(string, Expr)>, c: Config, fuel: nat): (s: Step<Ref>)
    requires Wf(c)
    ensures Evolves(c, s.c)
    ensures s.r.Ok? ==> s.c.scopes == c.scopes && s.r.value == Addr(|s.c.heap| - 1) && |c.heap| < |s.c.heap| &&
                        IsRecordOf(s.c.heap[|s.c.heap| - 1], fields)
    // the literal succeeds exactly when its initializers do, and holds the members they built
    ensures s.r.Ok? <==> SemFields(fields, |fields|, c, fuel).r.Ok?
    ensures s.r.Ok? ==> s.c.heap[|s.c.heap| - 1].fields == SemFields(fields, |fields|, c, fuel).r.value
    decreases fuel, 2, 0
  {
    var m := SemFields(fields, |fields|, c, fuel);
    if m.r.Err? then Step(Err(m.r.error), m.c)
    else
      SemFieldsKeys(fields, |fields|, c, fuel);
      SemFieldsSlots(fields, |fields|, c, fuel);
      MembersGrow(m.r.value, |m.c.heap|, |m.c.heap| + 1);
      var h := Allocate(m.c.heap, Obj(Plain, m.r.value));
      GrewTransitive(c.heap, m.c.heap, h);
      Step(Ok(Addr(|m.c.heap|)), Config(h, m.c.scopes))
  }

  /** A record literal succeeds exactly when its initializers do; its failure is theirs, and
      otherwise the one new object holds exactly the members they built. */
  lemma RecordSteps(fields: seq<(string, Expr)>, c: Config, fuel: nat)
    requires Wf(c)
    ensures var s := SemRecord(fields, c, fuel);
            var m := SemFields(fields, |fields|, c, fuel);
            && (s.r.Ok? <==> m.r.Ok?)
            && (m.r.Err? ==> s == Step(Err(m.r.error), m.c))
            && (m.r.Ok? ==> s.r == Ok(Addr(|m.c.heap|)) && s.c == Config(m.c.heap + [Obj(Plain, m.r.value)], m.c.scopes))
  {
  }

  /** Invokes a callable with an argument list: a user lambda, a class constructor, or a
      native (which also receives the receiver it was looked up on). Anything else fails. */
  function SemInvoke(callee: Callee, args: seq<Ref>, c: Config, fuel: nat): (s: Step<Ref>)
    requires Wf(c) && RefIn(callee.fn, |c.heap|) && RefIn(callee.self, |c.heap|) && RefsIn(args, |c.heap|)
    ensures Evolves(c, s.c)
    ensures s.r.Ok? ==> s.c.scopes == c.scopes && RefIn(s.r.value, |s.c.heap|)
    ensures callee.fn.Nil? ==> s == Step(Err(NullPointer), c)
    ensures callee.fn.Addr? && !Callable(c.heap[callee.fn.addr].payload) ==> s == Step(Err(NotCallable), c)
    decreases fuel, 3, 0
  {
    if callee.fn.Nil? then Step(Err(NullPointer), c)
    else match c.heap[callee.fn.addr].payload
      case LambdaObj(params, body) => SemLambda(params, body, args, c, fuel)
      case ConstructorObj(params, body) => SemConstructor(params, body, args, c, fuel)
      case NativeObj(op) => SemNative(op, callee.self, args, c)
      case _ => Step(Err(NotCallable), c)
  }

  /** A call's frame: a fresh frame pushed on the stack, holding the parameters bound to the
      arguments up to the first surplus argument. */
  function CallFrame(params: seq<string>, args: seq<Ref>, c: Config): (c': Config)
    requires Wf(c) && RefsIn(args, |c.heap|)
    ensures Evolves(c, c') && c'.scopes == [|c.heap|] + c.scopes
    ensures c'.heap == c.heap + [Obj(Plain, Bindings(params, args, BoundCount(params, args)))]
  {
    BindingsRefsIn(params, args, BoundCount(params, args), |c.heap|);
    Push(c, Bindings(params, args, BoundCount(params, args)))
  }

  /** A lambda call, as the code is written: a fresh frame is pushed and the parameters bound
      in it; an argument without a parameter fails with the list index error, leaving the
      frame on the stack. Otherwise the body is evaluated against the current stack and the
      frame popped. */
  function SemLambda(params: seq<string>, body: Expr, args: seq<Ref>, c: Config, fuel: nat): (s: Step<Ref>)
    requires Wf(c) && RefsIn(args, |c.heap|)
    ensures Evolves(c, s.c)
    ensures s.r.Ok? ==> s.c.scopes == c.scopes && RefIn(s.r.value, |s.c.heap|) && |args| <= |params|
    ensures |args| > |params| ==>
              && s.r == Err(IndexOutOfBounds)
              && s.c.scopes == [|c.heap|] + c.scopes
              && s.c.heap == c.heap + [Obj(Plain, Bindings(params, args, |params|))]
    decreases fuel, 2, 0
  {
    var c1 := CallFrame(params, args, c);
    AsWrittenFailsByIndex(|params|, |args|, 0);
    match BindFailureAsWritten(|params|, |args|, 0)
    case Some(e) => Step(Err(e), c1)
    case None =>
      var s1 := Sem(body, c1, fuel);
      EvolvesTransitive(c, c1, s1.c);
      if s1.r.Err? then s1
      else
        Restore(c, s1.c);
        Step(s1.r, Config(s1.c.heap, c.scopes))
  }

  /** Without a surplus argument, a lambda call's outcome is its body's, evaluated in a frame
      holding every parameter bound to its argument, on top of the caller's stack. */
  lemma LambdaSteps(params: seq<string>, body: Expr, args: seq<Ref>, c: Config, fuel: nat)
    requires Wf(c) && RefsIn(args, |c.heap|) && |args| <= |params|
    ensures var frame := CallFrame(params, args, c);
            && frame.scopes == [|c.heap|] + c.scopes
            && frame.heap[|c.heap|] == Obj(Plain, Bindings(params, args, |args|))
            && SemLambda(params, body, args, c, fuel).r == Sem(body, frame, fuel).r
            // a failing body leaves the frame on the stack; success pops it
            && (Sem(body, frame, fuel).r.Err? ==> SemLambda(params, body, args, c, fuel) == Sem(body, frame, fuel))
            && (Sem(body, frame, fuel).r.Ok? ==>
                  SemLambda(params, body, args, c, fuel).c == Config(Sem(body, frame, fuel).c.heap, c.scopes))
  {
    AsWrittenFailsByIndex(|params|, |args|, 0);
  }

  /** A constructor call, as the code is written: binds the parameters as for a lambda, then
      evaluates every body line for its effect on the frame, pops it and returns it as the
      new instance. */
  function SemConstructor(params: seq<string>, body: seq<Expr>, args: seq<Ref>, c: Config, fuel: nat): (s: Step<Ref>)
    requires Wf(c) && RefsIn(args, |c.heap|)
    ensures Evolves(c, s.c)
    ensures s.r.Ok? ==> && s.c.scopes == c.scopes && s.r.value == Addr(|c.heap|) && |c.heap| < |s.c.heap|
                        && s.c.heap[|c.heap|].payload == Plain && |args| <= |params|
                        // the instance still holds every parameter name
                        && Bindings(params, args, |args|).Keys <= s.c.heap[|c.heap|].fields.Keys
    ensures |args| > |params| ==>
              && s.r == Err(IndexOutOfBounds)
              && s.c.scopes == [|c.heap|] + c.scopes
              && s.c.heap == c.heap + [Obj(Plain, Bindings(params, args, |params|))]
    decreases fuel, 2, 0
  {
    var c1 := CallFrame(params, args, c);
    AsWrittenFailsByIndex(|params|, |args|, 0);
    match BindFailureAsWritten(|params|, |args|, 0)
    case Some(e) => Step(Err(e), c1)
    case None =>
      var s1 := SemLines(body, |body|, c1, fuel);
      EvolvesTransitive(c, c1, s1.c);
      if s1.r.Err? then s1
      else
        assert Kept(c1.heap[|c.heap|], s1.c.heap[|c.heap|]);
        Restore(c, s1.c);
        Step(Ok(Addr(|c.heap|)), Config(s1.c.heap, c.scopes))
  }

  /** Without a surplus argument, a constructor call runs every body line, in order, in a frame
      holding the parameters on top of the caller's stack. A failing line is the call's
      failure, with the frame left on the stack; otherwise that same frame, with every member
      its lines declared, is popped and returned. */
  lemma ConstructorSteps(params: seq<string>, body: seq<Expr>, args: seq<Ref>, c: Config, fuel: nat)
    requires Wf(c) && RefsIn(args, |c.heap|) && |args| <= |params|
    ensures var frame := CallFrame(params, args, c);
            var s := SemConstructor(params, body, args, c, fuel);
            var lines := SemLines(body, |body|, frame, fuel);
            && frame.scopes == [|c.heap|] + c.scopes
            && frame.heap[|c.heap|] == Obj(Plain, Bindings(params, args, |args|))
            && (s.r.Ok? <==> lines.r.Ok?)
            && (lines.r.Err? ==> s == lines)
            && (lines.r.Ok? ==> s == Step(Ok(Addr(|c.heap|)), Config(lines.c.heap, c.scopes)))
  {
    AsWrittenFailsByIndex(|params|, |args|, 0);
  }

  /** A native call, as the host operation decides: a new object for a fresh result, an
      existing object returned as it is, or the raised error. No existing object changes. */
  function SemNative(op: NativeOp, self: Ref, args: seq<Ref>, c: Config): (s: Step<Ref>)
    requires Wf(c) && RefIn(self, |c.heap|) && RefsIn(args, |c.heap|)
    ensures Evolves(c, s.c) && s.c.scopes == c.scopes
    ensures s.r.Ok? ==> RefIn(s.r.value, |s.c.heap|)
    ensures match CallNative(c.heap, op, self, args)
            case Fresh(p) => s.r == Ok(Addr(|c.heap|)) && s.c.heap == c.heap + [Obj(p, map[])]
            case Existing(v) => s == Step(Ok(v), c)
            case Raised(e) => s == Step(Err(e), c)
  {
    match CallNative(c.heap, op, self, args)
    case Fresh(p) => New(c, p)
    case Existing(v) => Step(Ok(v), c)
    case Raised(e) => Step(Err(e), c)
  }
}
