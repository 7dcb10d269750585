/** Numbers as text, the way the C library prints and scans them: printf with a
    minimum width and zero padding on one side, strtoul and the numeric
    conversions of scanf on the other. */
module CText {
  import opened Bytes
  import opened Options

  datatype Base = Decimal | Hex {
    function Radix(): nat {
      match this
      case Decimal => 10
      case Hex => 16
    }

    /** All digits of `n` but the last. */
    function Quotient(n: nat): (q: nat)
      ensures q < n || q == n == 0
    {
      match this
      case Decimal => n / 10
      case Hex => n / 16
    }

    function LastDigit(n: nat): (d: nat)
      ensures d < Radix() && n == Shift(Quotient(n), d)
    {
      match this
      case Decimal => n % 10
      case Hex => n % 16
    }

    /** `q` with the digit `d` appended. */
    function Shift(q: nat, d: nat): nat {
      match this
      case Decimal => q * 10 + d
      case Hex => q * 16 + d
    }
  }

  function DigitChar(d: nat, upper: bool): char
    requires d < 16
  {
    if d < 10 then '0' + d as char
    else if upper then 'A' + (d - 10) as char
    else 'a' + (d - 10) as char
  }

  /** The value of a digit in either case, or -1. */
  function DigitOf(c: char): int {
    if '0' <= c <= '9' then (c - '0') as int
    else if 'a' <= c <= 'f' then (c - 'a') as int + 10
    else if 'A' <= c <= 'F' then (c - 'A') as int + 10
    else -1
  }

  predicate IsDigit(c: char, base: Base) {
    0 <= DigitOf(c) < base.Radix()
  }

  predicate AllDigits(s: string, base: Base) {
    forall c <- s :: IsDigit(c, base)
  }

  predicate IsSpace(c: char) {
    c == ' ' || '\t' <= c <= '\r'
  }

  lemma DigitRoundTrip(d: nat, upper: bool)
    requires d < 16
    ensures DigitOf(DigitChar(d, upper)) == d
  {
  }

  // Printing

  /** printf of `n` with minimum width `width`, padded with zeros. */
  function Print(n: nat, base: Base, width: nat, upper: bool): string
    decreases n, width
  {
    if n < base.Radix() && width <= 1 then [DigitChar(n, upper)]
    else
      Print(base.Quotient(n), base, if width == 0 then 0 else width - 1, upper)
      + [DigitChar(base.LastDigit(n), upper)]
  }

  /** The number a string of digits denotes. */
  function ValueOf(s: string, base: Base): nat
    requires AllDigits(s, base)
  {
    if s == [] then 0
    else
      assert IsDigit(s[|s| - 1], base);
      base.Shift(ValueOf(s[..|s| - 1], base), DigitOf(s[|s| - 1]))
  }

  lemma ValueOfSnoc(s: string, c: char, base: Base)
    requires AllDigits(s, base) && IsDigit(c, base)
    ensures AllDigits(s + [c], base) && ValueOf(s + [c], base) == base.Shift(ValueOf(s, base), DigitOf(c))
  {
    assert (s + [c])[..|s|] == s;
  }

  /** Printed numbers consist of digits, at least `width` of them, and denote
      the number printed. */
  lemma {:induction false} PrintedValue(n: nat, base: Base, width: nat, upper: bool)
    ensures var s := Print(n, base, width, upper);
            s != [] && |s| >= width && AllDigits(s, base) && ValueOf(s, base) == n
    decreases n, width
  {
    if n < base.Radix() && width <= 1 {
      DigitRoundTrip(n, upper);
      ValueOfSnoc([], DigitChar(n, upper), base);
      assert [] + [DigitChar(n, upper)] == [DigitChar(n, upper)];
    } else {
      var q, d := base.Quotient(n), base.LastDigit(n);
      var width' := if width == 0 then 0 else width - 1;
      DigitRoundTrip(d, upper);
      PrintedValue(q, base, width', upper);
      ValueOfSnoc(Print(q, base, width', upper), DigitChar(d, upper), base);
    }
  }

  /** The smallest number that needs more than `width` digits. */
  function Limit(base: Base, width: nat): nat {
    if width == 0 then 1 else base.Shift(Limit(base, width - 1), 0)
  }

  /** A number that fits the width is printed in exactly that width. */
  lemma {:induction false} PrintedWidth(n: nat, base: Base, width: nat, upper: bool)
    requires 1 <= width && n < Limit(base, width)
    ensures |Print(n, base, width, upper)| == width
    decreases width
  {
    if width == 1 {
      assert Limit(base, 1) == base.Shift(Limit(base, 0), 0);
    } else {
      PrintedWidth(base.Quotient(n), base, width - 1, upper);
    }
  }

  // Scanning

  function SkipSpace(s: string): string {
    if s != [] && IsSpace(s[0]) then SkipSpace(s[1..]) else s
  }

  /** The length of the longest prefix of digits, at most `width` long. */
  function DigitRun(s: string, base: Base, width: nat): (k: nat)
    ensures k <= |s| && k <= width && AllDigits(s[..k], base)
  {
    if s == [] || width == 0 || !IsDigit(s[0], base) then 0
    else
      var k := 1 + DigitRun(s[1..], base, width - 1);
      assert s[..k] == [s[0]] + s[1..][..k - 1];
      k
  }

  /** A number as written: its sign and its digits. */
  datatype Number = Number(negative: bool, magnitude: nat)

  datatype Scanned = Scanned(number: Number, rest: string)

  /** One numeric conversion of scanf, or strtoul: white space, an optional
      sign, an optional 0x in base 16, then digits, of which at least one. */
  function ScanNumber(s: string, base: Base, width: nat): Option<Scanned> {
    var s0 := SkipSpace(s);
    var signed := width > 0 && s0 != [] && (s0[0] == '-' || s0[0] == '+');
    var negative := signed && s0[0] == '-';
    var s1 := if signed then s0[1..] else s0;
    var w1 := if signed then width - 1 else width;
    var prefixed := base.Hex? && w1 >= 3 && |s1| >= 3 && s1[0] == '0' && (s1[1] == 'x' || s1[1] == 'X')
                    && IsDigit(s1[2], Hex);
    var s2 := if prefixed then s1[2..] else s1;
    var w2 := if prefixed then w1 - 2 else w1;
    var k := DigitRun(s2, base, w2);
    if k == 0 then None else Some(Scanned(Number(negative, ValueOf(s2[..k], base)), s2[k..]))
  }

  /** A run of digits is scanned whole if its width runs out or a character
      follows that cannot continue a number. */
  predicate Stops(rest: string) {
    rest == [] || (!IsDigit(rest[0], Hex) && rest[0] != 'x' && rest[0] != 'X')
  }

  lemma {:induction false} DigitRunIsMaximal(s: string, k: nat, base: Base, width: nat)
    requires k <= |s| && AllDigits(s[..k], base)
    requires k == width || (k < width && Stops(s[k..]))
    ensures DigitRun(s, base, width) == k
  {
    if k > 0 {
      assert s[..k][0] == s[0] && s[..k][1..] == s[1..][..k - 1];
      DigitRunIsMaximal(s[1..], k - 1, base, width - 1);
    }
  }

  /** A number of exactly the first `k` characters is scanned as such. */
  lemma ScanDigits(s: string, k: nat, base: Base, width: nat)
    requires 0 < k <= |s| && AllDigits(s[..k], base)
    requires k == width || (k < width && Stops(s[k..]))
    ensures ScanNumber(s, base, width) == Some(Scanned(Number(false, ValueOf(s[..k], base)), s[k..]))
  {
    assert s[..k][0] == s[0] && IsDigit(s[0], base);
    if k >= 2 {
      assert s[..k][1] == s[1] && IsDigit(s[1], base);
    }
    DigitRunIsMaximal(s, k, base, width);
  }

  // Formats: captioned numbers separated by blanks

  /** One numeric conversion of a format, with the caption in front of it, if any: how wide
      it is printed and, if the scanning format limits it, how wide it is scanned. */
  datatype Field = Field(caption: string, base: Base, width: nat, limit: Option<nat>)

  function PrintNumber(n: Number, base: Base, width: nat): string {
    if n.negative then "-" + Print(n.magnitude, base, if width == 0 then 0 else width - 1, false)
    else Print(n.magnitude, base, width, false)
  }

  function Lead(f: Field): string {
    if f.caption == [] then " " else " " + f.caption + " "
  }

  function PrintFields(fields: seq<Field>, ns: seq<Number>): string
    requires |fields| == |ns|
  {
    if fields == [] then []
    else
      var f := fields[0];
      Lead(f)
      + PrintNumber(ns[0], f.base, f.width) + PrintFields(fields[1..], ns[1..])
  }

  function Literal(s: string, lit: string): Option<string> {
    if lit <= s then Some(s[|lit|..]) else None
  }

  function ScanCaption(s: string, f: Field): Option<string> {
    if f.caption == [] then Some(s) else Literal(SkipSpace(s), f.caption)
  }

  function ScanField(s: string, f: Field): Option<Scanned> {
    var rest :- ScanCaption(s, f);
    ScanNumber(rest, f.base, if f.limit.Some? then f.limit.value else |rest| + 1)
  }

  /** scanf of the fields; None unless every conversion succeeds. */
  function ScanFields(s: string, fields: seq<Field>): (ns: Option<seq<Number>>)
    ensures ns.Some? ==> |ns.value| == |fields|
    decreases |fields|
  {
    if fields == [] then Some([])
    else
      var n :- ScanField(s, fields[0]);
      var ns :- ScanFields(n.rest, fields[1..]);
      Some([n.number] + ns)
  }

  lemma BlankIsSkipped(s: string, base: Base, width: nat)
    ensures SkipSpace(" " + s) == SkipSpace(s)
    ensures ScanNumber(" " + s, base, width) == ScanNumber(s, base, width)
  {
    assert (" " + s)[1..] == s;
  }

  /** A printed number after a blank is scanned back, up to what follows it. */
  lemma ScanPrinted(n: nat, base: Base, width: nat, rest: string, limit: nat)
    requires var d := Print(n, base, width, false); |d| == limit || (|d| < limit && Stops(rest))
    ensures ScanNumber(" " + Print(n, base, width, false) + rest, base, limit) == Some(Scanned(Number(false, n), rest))
  {
    var d := Print(n, base, width, false);
    PrintedValue(n, base, width, false);
    var s := d + rest;
    assert s[..|d|] == d && s[|d|..] == rest;
    ScanDigits(s, |d|, base, limit);
    assert " " + d + rest == " " + s;
    BlankIsSkipped(s, base, limit);
  }

  lemma CaptionIsScanned(f: Field, d: string, rest: string)
    requires f.caption != [] ==> !IsSpace(f.caption[0])
    ensures ScanCaption(Lead(f) + d + rest, f) == Some(" " + d + rest)
  {
    if f.caption != [] {
      var s := f.caption + (" " + d + rest);
      assert Lead(f) + d + rest == " " + s && (" " + s)[1..] == s;
      assert SkipSpace(s) == s;
    }
  }

  /** The number can be printed and scanned back through this field. */
  predicate Fits(f: Field, n: Number) {
    && !n.negative
    && (f.caption != [] ==> !IsSpace(f.caption[0]))
    && (f.limit.Some? ==> f.limit.value == f.width >= 1 && n.magnitude < Limit(f.base, f.width))
  }

  lemma FieldIsScanned(s: string, f: Field, n: Number, rest: string)
    requires Fits(f, n) && (rest == [] || IsSpace(rest[0]))
    requires s == Lead(f) + PrintNumber(n, f.base, f.width) + rest
    ensures ScanField(s, f) == Some(Scanned(n, rest))
  {
    var d := Print(n.magnitude, f.base, f.width, false);
    CaptionIsScanned(f, d, rest);
    if f.limit.Some? {
      PrintedWidth(n.magnitude, f.base, f.width, false);
    }
    ScanPrinted(n.magnitude, f.base, f.width, rest, if f.limit.Some? then f.limit.value else |" " + d + rest| + 1);
  }

  lemma ScanStep(s: string, fields: seq<Field>, n: Number, rest: string, ns: seq<Number>)
    requires fields != [] && ScanField(s, fields[0]) == Some(Scanned(n, rest))
    requires ScanFields(rest, fields[1..]) == Some(ns)
    ensures ScanFields(s, fields) == Some([n] + ns)
  {
  }

  lemma FieldsStartBlank(fields: seq<Field>, ns: seq<Number>, tail: string)
    requires |fields| == |ns| && (tail == [] || IsSpace(tail[0]))
    ensures var s := PrintFields(fields, ns) + tail; s == [] || IsSpace(s[0])
  {
    if fields == [] {
      assert PrintFields(fields, ns) + tail == tail;
    } else {
      assert Lead(fields[0])[0] == ' ';
      assert PrintFields(fields, ns)[0] == ' ';
    }
  }

  lemma PrintStep(fields: seq<Field>, ns: seq<Number>, tail: string)
    requires |fields| == |ns| > 0 && (tail == [] || IsSpace(tail[0]))
    ensures var rest := PrintFields(fields[1..], ns[1..]) + tail;
            && (rest == [] || IsSpace(rest[0]))
            && PrintFields(fields, ns) + tail ==
               Lead(fields[0]) + PrintNumber(ns[0], fields[0].base, fields[0].width) + rest
  {
    FieldsStartBlank(fields[1..], ns[1..], tail);
    Associative(Lead(fields[0]) + PrintNumber(ns[0], fields[0].base, fields[0].width),
                PrintFields(fields[1..], ns[1..]), tail);
  }

  /** Scanning what was printed gives the numbers back, whatever follows. */
  lemma {:induction false} ScanInvertsPrint(fields: seq<Field>, ns: seq<Number>, tail: string)
    requires |fields| == |ns| && forall i | 0 <= i < |fields| :: Fits(fields[i], ns[i])
    requires tail == [] || IsSpace(tail[0])
    ensures ScanFields(PrintFields(fields, ns) + tail, fields) == Some(ns)
    decreases |fields|
  {
    if fields != [] {
      var s, rest := PrintFields(fields, ns) + tail, PrintFields(fields[1..], ns[1..]) + tail;
      PrintStep(fields, ns, tail);
      FieldIsScanned(s, fields[0], ns[0], rest);
      ScanInvertsPrint(fields[1..], ns[1..], tail);
      ScanStep(s, fields, ns[0], rest, ns[1..]);
      assert [ns[0]] + ns[1..] == ns;
    }
  }

  // Conversions of a scanned number to C types

  const ULONG_MAX: int := 0xFFFF_FFFF_FFFF_FFFF

  /** strtoul and %lu: saturate, then negate modulo 2^64. */
  function ToUnsignedLong(n: Number): nat {
    if n.magnitude > ULONG_MAX then ULONG_MAX
    else if n.negative then (0 - n.magnitude as int) % (ULONG_MAX + 1)
    else n.magnitude
  }

  /** %d: strtol saturates, the store keeps 32 bits. */
  function ToInt(n: Number): int {
    var v := if n.negative then 0 - n.magnitude as int else n.magnitude as int;
    var long := if v > 0x7FFF_FFFF_FFFF_FFFF then 0x7FFF_FFFF_FFFF_FFFF
                else if v < -0x8000_0000_0000_0000 then -0x8000_0000_0000_0000 else v;
    var low := long % 0x1_0000_0000;
    if low < 0x8000_0000 then low else low - 0x1_0000_0000
  }

  /** strtoul(s, NULL, 16) */
  function Strtoul16(s: string): nat {
    match ScanNumber(s, Hex, |s| + 1)
    case None => 0
    case Some(n) => ToUnsignedLong(n.number)
  }

  /** strtoul on a string whose first `k` characters are its number. */
  method Strtoul(s: string, ghost k: nat) returns (v: nat)
    requires 0 < k <= |s| && AllDigits(s[..k], Hex) && Stops(s[k..]) && ValueOf(s[..k], Hex) <= ULONG_MAX
    ensures v == ValueOf(s[..k], Hex)
  {
    v := Strtoul16(s);
    ScanDigits(s, k, Hex, |s| + 1);
  }
}
