/** The typed host operations that fill the String, Tuple and Number operation tables, and the
    untyped `throw` bound in the global frame. Each receives the receiver (`self`) and the call's
    arguments; the reserved `superObj` parameter of the host signatures is unused by all of them
    and is therefore not represented. */
module Intrinsics {
  import opened Ast
  import opened Values

  /** Java's narrowing of a 64-bit number to a 32-bit `int` (`intValue()`): wrap-around modulo 2^32. */
  function JavaInt(n: int): (r: int)
    ensures -0x8000_0000 <= r < 0x8000_0000
    ensures -0x8000_0000 <= n < 0x8000_0000 ==> r == n
    ensures (n - r) % 0x1_0000_0000 == 0
  {
    var m := n + 0x8000_0000;
    assert m - m % 0x1_0000_0000 == 0x1_0000_0000 * (m / 0x1_0000_0000);
    m % 0x1_0000_0000 - 0x8000_0000
  }

  /** `Long.compare`: -1, 0 or 1 according to the order of the two numbers. */
  function Compare(x: int, y: int): (c: int)
    ensures c == 0 <==> x == y
    ensures c < 0 <==> x < y
    ensures c > 0 <==> x > y
    ensures -1 <= c <= 1
  {
    if x < y then -1 else if x == y then 0 else 1
  }

  /** The sign of a comparison flips when its operands are swapped. */
  lemma CompareAntisymmetric(x: int, y: int)
    ensures Compare(x, y) == -Compare(y, x)
    ensures Compare(x, x) == 0
  {
  }

  /** `tupleGet`: the item at the (32-bit narrowed) index, or an index failure. */
  function TupleItem(items: seq<Ref>, index: int): (r: Result<Ref>)
    ensures r.Ok? <==> 0 <= JavaInt(index) < |items|
    ensures r.Ok? ==> r.value == items[JavaInt(index)]
    ensures 0 <= index < |items| && index < 0x8000_0000 ==> r == Ok(items[index])
    ensures index < 0 && -0x8000_0000 <= index ==> r == Err(IndexOutOfBounds)
    ensures r.Err? ==> r.error == IndexOutOfBounds
  {
    var i := JavaInt(index);
    if 0 <= i < |items| then Ok(items[i]) else Err(IndexOutOfBounds)
  }

  /** `stringPlus`: the receiver's characters followed by the argument's text. */
  function Concat(self: string, text: string): (s: string)
    ensures |s| == |self| + |text|
    ensures s[..|self|] == self && s[|self|..] == text
  {
    self + text
  }

  function DigitChar(d: nat): (ch: char)
    requires d < 10
    ensures '0' <= ch <= '9' && ch as int - '0' as int == d
  {
    (d + '0' as int) as char
  }

  predicate AllDigits(s: string)
  {
    forall i :: 0 <= i < |s| ==> '0' <= s[i] <= '9'
  }

  /** The number a string of decimal digits denotes, most significant digit first. */
  function DigitsValue(s: string): nat
    requires AllDigits(s)
  {
    if s == [] then 0 else DigitsValue(s[..|s| - 1]) * 10 + (s[|s| - 1] as int - '0' as int)
  }

  /** The decimal digits of a natural number, read back as that number. */
  function Digits(n: nat): (s: string)
    ensures |s| >= 1 && AllDigits(s)
    ensures DigitsValue(s) == n
  {
    if n < 10 then
      assert [DigitChar(n)][..0] == [];
      [DigitChar(n)]
    else
      var p := Digits(n / 10);
      var s := p + [DigitChar(n % 10)];
      assert s[..|s| - 1] == p;
      s
  }

  /** The number a decimal rendering denotes: an optional minus sign, then digits. */
  function DecimalValue(s: string): int
    requires |s| >= 1 && AllDigits(if s[0] == '-' then s[1..] else s)
  {
    if s[0] == '-' then -(DigitsValue(s[1..]) as int) else DigitsValue(s)
  }

  /** The decimal rendering of a number, which reads back as the number. */
  function Decimal(n: int): (s: string)
    ensures |s| >= 1 && (s[0] == '-' <==> n < 0)
    ensures AllDigits(if s[0] == '-' then s[1..] else s) && DecimalValue(s) == n
  {
    if n < 0 then
      var d := Digits(-n);
      assert ("-" + d)[1..] == d;
      "-" + d
    else Digits(n)
  }

  /** `toString`, as string concatenation and `throw` use it. Only the renderings of null,
      strings, numbers, booleans and the null object are modelled; everything else renders
      as one fixed placeholder. */
  function Text(h: Heap, r: Ref): (t: string)
    requires RefIn(r, |h|)
    ensures r.Nil? ==> t == "null"
    ensures r.Addr? && h[r.addr].payload.Str? ==> t == h[r.addr].payload.s
    ensures r.Addr? && h[r.addr].payload.Number? ==>
              |t| >= 1 && AllDigits(if t[0] == '-' then t[1..] else t) && DecimalValue(t) == h[r.addr].payload.n
    ensures r.Addr? && h[r.addr].payload.Boolean? ==> t == (if h[r.addr].payload.b then "true" else "false")
  {
    if r.Nil? then "null"
    else match h[r.addr].payload
      case Str(s) => s
      case Number(n) => Decimal(n)
      case Boolean(b) => if b then "true" else "false"
      case NullObj => "null"
      case _ => "<object>"
  }

  /** What a native call produces: a new object, an existing one, or a raised error. */
  datatype NativeOutcome = Fresh(payload: Payload) | Existing(ref: Ref) | Raised(error: Error)

  /** A native invoked on receiver `self` with `args`, through the host's reflective call:
      a wrong argument count or kind is a failed call, a `null` where an object is used
      is a null dereference. */
  function CallNative(h: Heap, op: NativeOp, self: Ref, args: seq<Ref>): (o: NativeOutcome)
    requires Closed(h) && RefIn(self, |h|) && RefsIn(args, |h|)
    ensures op == Throw ==> o.Raised?
    ensures op == Throw && |args| == 1 && args[0].Addr? ==> o == Raised(UserThrown(Text(h, args[0])))
    ensures op == Throw && |args| == 1 && args[0].Nil? ==> o == Raised(NullPointer)
    ensures o.Fresh? ==> (op == StringPlus && o.payload.Str?) || (op == NumberCompare && o.payload.Number?)
    ensures o.Existing? ==> op == TupleGet && RefIn(o.ref, |h|)
    ensures op == StringPlus && self.Addr? && h[self.addr].payload.Str? && |args| == 1 ==>
              o == Fresh(Str(Concat(h[self.addr].payload.s, Text(h, args[0]))))
    ensures op == NumberCompare && self.Addr? && h[self.addr].payload.Number? &&
            |args| == 1 && args[0].Addr? && h[args[0].addr].payload.Number? ==>
              o == Fresh(Number(Compare(h[self.addr].payload.n, h[args[0].addr].payload.n)))
    ensures o.Fresh? && op == StringPlus ==>
              (self.Addr? && h[self.addr].payload.Str? && |args| == 1 &&
               o.payload.s == Concat(h[self.addr].payload.s, Text(h, args[0])))
    ensures o.Fresh? && op == NumberCompare ==>
              (self.Addr? && h[self.addr].payload.Number? &&
               |args| == 1 && args[0].Addr? && h[args[0].addr].payload.Number? &&
               o.payload.n == Compare(h[self.addr].payload.n, h[args[0].addr].payload.n))
    ensures op == TupleGet && self.Addr? && h[self.addr].payload.TupleObj? && |args| == 1 &&
            args[0].Addr? && h[args[0].addr].payload.Number? ==>
              o == (match TupleItem(h[self.addr].payload.items, h[args[0].addr].payload.n)
                    case Ok(v) => Existing(v)
                    case Err(e) => Raised(e))
  {
    match op
    case Throw =>
      if |args| != 1 then Raised(BadNativeCall)
      else if args[0].Nil? then Raised(NullPointer)
      else Raised(UserThrown(Text(h, args[0])))
    case StringPlus =>
      if self.Nil? then Raised(NullPointer)
      else if !h[self.addr].payload.Str? || |args| != 1 then Raised(BadNativeCall)
      else Fresh(Str(Concat(h[self.addr].payload.s, Text(h, args[0]))))
    case TupleGet =>
      if self.Nil? then Raised(NullPointer)
      else if !h[self.addr].payload.TupleObj? || |args| != 1 then Raised(BadNativeCall)
      else if args[0].Nil? then Raised(NullPointer)
      else if !h[args[0].addr].payload.Number? then Raised(BadNativeCall)
      else
        assert ObjClosed(h[self.addr], |h|);
        (match TupleItem(h[self.addr].payload.items, h[args[0].addr].payload.n)
         case Ok(v) => Existing(v)
         case Err(e) => Raised(e))
    case NumberCompare =>
      if self.Nil? then Raised(NullPointer)
      else if !h[self.addr].payload.Number? || |args| != 1 then Raised(BadNativeCall)
      else if args[0].Nil? then Raised(NullPointer)
      else if !h[args[0].addr].payload.Number? then Raised(BadNativeCall)
      else Fresh(Number(Compare(h[self.addr].payload.n, h[args[0].addr].payload.n)))
  }
}
