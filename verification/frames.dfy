/** The specification side of the scope stack: name resolution over a stack of frames
    (index 0 is the innermost frame), how a call binds its parameters, and how the stack may
    change across an evaluation. */
module Frames {
  import opened Ast
  import opened Values

  predicate StackIn(h: Heap, stack: seq<nat>)
  {
    forall i :: 0 <= i < |stack| ==> stack[i] < |h|
  }

  /** The position of the innermost frame that has member `name`. */
  function FindFrame(h: Heap, stack: seq<nat>, name: string): (r: Option<nat>)
    requires StackIn(h, stack)
    ensures r.Some? ==> r.value < |stack| && name in h[stack[r.value]].fields
    ensures r.Some? ==> forall j :: 0 <= j < r.value ==> name !in h[stack[j]].fields
    ensures r.None? ==> forall j :: 0 <= j < |stack| ==> name !in h[stack[j]].fields
    decreases |stack|
  {
    if stack == [] then None
    else if name in h[stack[0]].fields then Some(0)
    else match FindFrame(h, stack[1..], name)
      case None => None
      case Some(i) => Some(i + 1)
  }

  /** Name resolution: the value bound in the innermost frame that has the name, or
      "Symbol not found" when no frame has it. */
  function Lookup(h: Heap, stack: seq<nat>, name: string): (r: Result<Ref>)
    requires StackIn(h, stack)
    ensures r.Ok? <==> exists i :: 0 <= i < |stack| && name in h[stack[i]].fields
    ensures r.Ok? ==> exists i :: 0 <= i < |stack| && name in h[stack[i]].fields &&
                        r.value == h[stack[i]].fields[name].value &&
                        forall j :: 0 <= j < i ==> name !in h[stack[j]].fields
    ensures r.Err? ==> r.error == UnboundSymbol(name)
  {
    match FindFrame(h, stack, name)
    case None => Err(UnboundSymbol(name))
    case Some(i) => Ok(h[stack[i]].fields[name].value)
  }

  /** Resolution looks only at which members the frames have, so updates that keep every
      frame's member names keep the frame that resolution picks. */
  lemma {:induction false} FindFrameDependsOnNames(h: Heap, h': Heap, stack: seq<nat>, name: string)
    requires StackIn(h, stack) && StackIn(h', stack)
    requires forall i :: 0 <= i < |stack| ==> h[stack[i]].fields.Keys == h'[stack[i]].fields.Keys
    ensures FindFrame(h, stack, name) == FindFrame(h', stack, name)
    decreases |stack|
  {
    if stack != [] {
      assert h[stack[0]].fields.Keys == h'[stack[0]].fields.Keys;
      FindFrameDependsOnNames(h, h', stack[1..], name);
    }
  }

  /** After an assignment writes the innermost binding of `name`, resolving `name` yields the
      assigned value, and no frame gained or lost a member. */
  lemma LookupAfterAssign(h: Heap, stack: seq<nat>, name: string, v: Ref)
    requires StackIn(h, stack) && FindFrame(h, stack, name).Some?
    ensures var a := stack[FindFrame(h, stack, name).value];
            var h' := SetField(h, a, name, v);
            FindFrame(h', stack, name) == FindFrame(h, stack, name) && Lookup(h', stack, name) == Ok(v)
  {
    var a := stack[FindFrame(h, stack, name).value];
    var h' := SetField(h, a, name, v);
    FindFrameDependsOnNames(h, h', stack, name);
  }

  /** Declaring `name` in the top frame makes resolution find the new binding, whatever
      outer frames hold: a nested declaration shadows an outer one. */
  lemma LookupAfterDeclare(h: Heap, stack: seq<nat>, name: string, v: Ref, mutable: bool)
    requires StackIn(h, stack) && |stack| >= 1
    ensures var h' := AddField(h, stack[0], name, v, mutable);
            FindFrame(h', stack, name) == Some(0) && Lookup(h', stack, name) == Ok(v)
  {
  }

  /** A frame with no members is invisible to resolution: pushing a fresh frame changes no
      lookup until something is declared in it. */
  lemma LookupThroughEmptyFrame(h: Heap, f: nat, stack: seq<nat>, name: string)
    requires StackIn(h, stack) && f < |h| && h[f].fields == map[]
    ensures StackIn(h, [f] + stack)
    ensures Lookup(h, [f] + stack, name) == Lookup(h, stack, name)
  {
    assert ([f] + stack)[1..] == stack;
  }

  /** `t` is `s` with zero or more frames pushed on top. */
  predicate IsSuffix(s: seq<nat>, t: seq<nat>)
    decreases |t|
  {
    s == t || (|s| < |t| && IsSuffix(s, t[1..]))
  }

  /** A suffix is what is left after dropping the pushed frames. */
  lemma {:induction false} SuffixShape(s: seq<nat>, t: seq<nat>)
    requires IsSuffix(s, t)
    ensures |s| <= |t| && t[|t| - |s|..] == s
    decreases |t|
  {
    if s != t {
      SuffixShape(s, t[1..]);
      assert t[|t| - |s|..] == t[1..][|t| - 1 - |s|..];
    }
  }

  lemma SuffixPush(s: seq<nat>, f: nat)
    ensures IsSuffix(s, [f] + s)
  {
    assert ([f] + s)[1..] == s;
  }

  lemma {:induction false} SuffixTransitive(s: seq<nat>, t: seq<nat>, u: seq<nat>)
    requires IsSuffix(s, t) && IsSuffix(t, u)
    ensures IsSuffix(s, u)
    decreases |u|
  {
    if t != u {
      SuffixTransitive(s, t, u[1..]);
      SuffixShape(s, t);
    }
  }

  /** A stack that grew from `[f] + s` grew from `s`, and still holds `f` just above `s`. */
  lemma SuffixOfPush(s: seq<nat>, f: nat, t: seq<nat>)
    requires IsSuffix([f] + s, t)
    ensures IsSuffix(s, t) && |s| < |t| && t[|t| - |s| - 1] == f
  {
    SuffixPush(s, f);
    SuffixTransitive(s, [f] + s, t);
    SuffixShape([f] + s, t);
    assert t[|t| - |s| - 1] == t[|t| - |s| - 1..][0];
  }

  /** The members a call's parameter binding creates for its first `n` arguments: parameter
      `params[i]` bound to argument `args[i]`, immutable, later parameters overriding earlier
      ones of the same name. */
  function Bindings(params: seq<string>, args: seq<Ref>, n: nat): map<string, Slot>
    requires n <= |params| && n <= |args|
  {
    if n == 0 then map[] else Bindings(params, args, n - 1)[params[n - 1] := Slot(args[n - 1], false)]
  }

  /** The names bound are exactly the first `n` parameters, each immutable. */
  lemma {:induction false} BindingsNames(params: seq<string>, args: seq<Ref>, n: nat)
    requires n <= |params| && n <= |args|
    ensures forall k :: k in Bindings(params, args, n) <==> k in params[..n]
    ensures forall k :: k in Bindings(params, args, n) ==> !Bindings(params, args, n)[k].mutable
  {
    if n > 0 {
      BindingsNames(params, args, n - 1);
      assert params[..n] == params[..n - 1] + [params[n - 1]];
    }
  }

  /** With distinct parameter names, parameter `i` is bound to argument `i`. */
  lemma {:induction false} BindingsPositional(params: seq<string>, args: seq<Ref>, n: nat, i: nat)
    requires n <= |params| && n <= |args| && i < n
    requires forall p, q :: 0 <= p < q < n ==> params[p] != params[q]
    ensures params[i] in Bindings(params, args, n)
    ensures Bindings(params, args, n)[params[i]] == Slot(args[i], false)
  {
    if i < n - 1 {
      BindingsPositional(params, args, n - 1, i);
    }
  }

  /** How many arguments a call binds before its first surplus argument. */
  function BoundCount(params: seq<string>, args: seq<Ref>): (n: nat)
    ensures n <= |params| && n <= |args|
    ensures n == |args| <==> |args| <= |params|
  {
    if |args| <= |params| then |args| else |params|
  }

  /** Bindings hold only the arguments, so they refer into any heap the arguments do. */
  lemma {:induction false} BindingsRefsIn(params: seq<string>, args: seq<Ref>, n: nat, size: nat)
    requires n <= |params| && n <= |args| && RefsIn(args, size)
    ensures forall k :: k in Bindings(params, args, n) ==> RefIn(Bindings(params, args, n)[k].value, size)
  {
    if n > 0 {
      BindingsRefsIn(params, args, n - 1, size);
      assert RefIn(args[n - 1], size);
    }
  }

  /** The parameter-binding loop of a lambda or constructor call AS WRITTEN: at index `i` it
      raises "too many arguments" only when `i > |params|`, but reading `params[i]` already
      fails at `i == |params|`. The result is the failure of the first failing index. */
  function BindFailureAsWritten(nparams: nat, nargs: nat, i: nat): (r: Option<Error>)
    ensures r.Some? <==> i < nargs && nparams < nargs
    decreases nargs - i
  {
    if i >= nargs then None
    else if i > nparams then Some(TooManyArguments)
    else if i == nparams then Some(IndexOutOfBounds)
    else BindFailureAsWritten(nparams, nargs, i + 1)
  }

  /** As written, every call with more arguments than parameters fails with an index error;
      the "too many arguments" failure can never be reached. */
  lemma {:induction false} AsWrittenFailsByIndex(nparams: nat, nargs: nat, i: nat)
    requires i <= nparams
    ensures BindFailureAsWritten(nparams, nargs, i) == if nargs > nparams then Some(IndexOutOfBounds) else None
    ensures BindFailureAsWritten(nparams, nargs, i) != Some(TooManyArguments)
    decreases nparams - i
  {
    if i < nargs && i < nparams {
      AsWrittenFailsByIndex(nparams, nargs, i + 1);
    }
  }

  /** An input showing the discrepancy: a one-parameter lambda called with three
      arguments reports an index error, where the arity test evidently meant to report too many
      arguments. */
  lemma AsWrittenCounterexample()
    ensures BindFailureAsWritten(1, 3, 0) == Some(IndexOutOfBounds)
  {
    AsWrittenFailsByIndex(1, 3, 0);
  }
}
