/** The text form of UUIDs (section 3 of RFC 4122): uuid_parse and uuid_unparse,
    proved against a digit-by-digit description of the text. */
module UuidText {
  import opened Bytes
  import opened UuidLayout
  import opened CText

  /** A C string without its terminator. */
  type CString = s: string | '\0' !in s

  /** What *cp reads at offset `i` of a C string. */
  function CharAt(s: CString, i: nat): char
    requires i <= |s|
  {
    if i == |s| then '\0' else s[i]
  }

  predicate IsHyphenPlace(i: int) {
    i == 8 || i == 13 || i == 18 || i == 23
  }

  /** Where the two digits of byte `k` stand. */
  function Place(k: nat): nat {
    2 * k + (if k >= 4 then 1 else 0) + (if k >= 6 then 1 else 0) + (if k >= 8 then 1 else 0)
    + (if k >= 10 then 1 else 0)
  }

  predicate IsUuidText(s: string) {
    && |s| == 36
    && forall i | 0 <= i < 36 :: if IsHyphenPlace(i) then s[i] == '-' else IsDigit(s[i], Hex)
  }

  /** The byte written as two digits at its place. */
  function ByteAt(s: string, k: nat): Byte
    requires IsUuidText(s) && k < 16
  {
    assert IsDigit(s[Place(k)], Hex) && IsDigit(s[Place(k) + 1], Hex);
    16 * DigitOf(s[Place(k)]) + DigitOf(s[Place(k) + 1])
  }

  function BytesOf(s: string): Packed
    requires IsUuidText(s)
  {
    seq(16, k requires 0 <= k < 16 => ByteAt(s, k))
  }

  /** Pairs of hexadecimal digits denote the big-endian value of their bytes. */
  lemma {:induction false} PairsAreBytes(d: string, b: seq<Byte>)
    requires AllDigits(d, Hex) && |d| == 2 * |b|
    requires forall k | 0 <= k < |b| :: b[k] == 16 * DigitOf(d[2 * k]) + DigitOf(d[2 * k + 1])
    ensures ValueOf(d, Hex) == Value(b)
  {
    if b != [] {
      var n := |b| - 1;
      PairsAreBytes(d[..2 * n], b[..n]);
      assert d[..2 * n + 1] == d[..2 * n] + [d[2 * n]] && d == d[..2 * n + 1] + [d[2 * n + 1]];
      assert IsDigit(d[2 * n], Hex) && IsDigit(d[2 * n + 1], Hex);
      ValueOfSnoc(d[..2 * n], d[2 * n], Hex);
      ValueOfSnoc(d[..2 * n + 1], d[2 * n + 1], Hex);
    }
  }

  /** Bytes `lo` to `hi` are written from offset `from` on, up to a hyphen. */
  predicate IsField(from: nat, lo: nat, hi: nat) {
    && lo < hi <= 10 && hi <= lo + 4
    && from + 2 * (hi - lo) < 36 && IsHyphenPlace(from + 2 * (hi - lo))
    && forall k | lo <= k < hi :: Place(k) == from + 2 * (k - lo)
  }

  lemma FieldDigits(s: string, from: nat, lo: nat, hi: nat)
    requires IsUuidText(s) && IsField(from, lo, hi)
    ensures var d := s[from..from + 2 * (hi - lo)];
            AllDigits(d, Hex) && ValueOf(d, Hex) == Value(BytesOf(s)[lo..hi])
  {
    var d := s[from..from + 2 * (hi - lo)];
    forall i | 0 <= i < |d| ensures IsDigit(d[i], Hex) {
      assert Place(lo + i / 2) == from + 2 * (i / 2);
      assert !IsHyphenPlace(from + i);
    }
    PairsAreBytes(d, BytesOf(s)[lo..hi]);
  }

  /** strtoul at a field of a valid text stops at the hyphen that ends the field
      and yields the value of the field's bytes. */
  method ScanField(s: CString, from: nat, ghost lo: nat, ghost hi: nat) returns (v: nat)
    requires IsUuidText(s) && IsField(from, lo, hi)
    ensures v == Value(BytesOf(s)[lo..hi])
  {
    ghost var k := 2 * (hi - lo);
    var field := s[from..];
    FieldDigits(s, from, lo, hi);
    assert field[..k] == s[from..from + k] && field[k..] == s[from + k..];
    ValueBound(BytesOf(s)[lo..hi]);
    v := Strtoul(field, k);
  }

  lemma {:induction false} ValueBound(b: seq<Byte>)
    requires |b| <= 4
    ensures Value(b) < TWO32
    ensures |b| <= 2 ==> Value(b) < TWO16
  {
    if |b| > 0 {
      var init := b[..|b| - 1];
      if |init| > 0 {
        ValueBound(init[..|init| - 1]);
      }
      ValueBound(init);
    }
  }

  /** strtoul on the two-character buffer of a node byte. */
  method ScanNodeByte(s: CString, k: nat) returns (v: nat)
    requires IsUuidText(s) && k < 6
    ensures v == BytesOf(s)[10 + k]
  {
    var buf := [s[24 + 2 * k], s[25 + 2 * k]];
    assert Place(10 + k) == 24 + 2 * k;
    assert IsDigit(buf[0], Hex) && IsDigit(buf[1], Hex);
    ghost var b := BytesOf(s)[10 + k];
    PairsAreBytes(buf, [b]);
    assert [b][..0] == [] && Value([b]) == b;
    assert buf[..2] == buf;
    v := Strtoul(buf, 2);
  }

  /** The validation loop of uuid_parse, terminator included. */
  method Check(text: CString) returns (ok: bool)
    ensures ok <==> IsUuidText(text)
  {
    if |text| != 36 {
      return false;
    }
    var i := 0;
    while i <= 36
      invariant 0 <= i <= 37
      invariant forall j | 0 <= j < i && j < 36 :: if IsHyphenPlace(j) then text[j] == '-' else IsDigit(text[j], Hex)
    {
      var c := CharAt(text, i);
      if i == 8 || i == 13 || i == 18 || i == 23 {
        if c != '-' {
          return false;
        }
      } else if !(i == 36 && c == '\0') {
        if !IsDigit(c, Hex) {
          return false;
        }
      }
      i := i + 1;
    }
    return true;
  }

  /** uuid_parse: check every character, then scan field by field. Accepts
      exactly the UUID texts, and stores the bytes its digits spell. */
  method Parse(text: CString, out: array<Byte>) returns (ok: bool)
    requires out.Length == 16
    modifies out
    ensures ok <==> IsUuidText(text)
    ensures ok ==> out[..] == BytesOf(text)
    ensures !ok ==> out[..] == old(out[..])
  {
    ok := Check(text);
    if !ok {
      return;
    }
    ghost var bytes := BytesOf(text);
    var node: seq<Byte> := [];
    for k := 0 to 6
      invariant node == bytes[10..10 + k]
      invariant out[..] == old(out[..])
    {
      var v := ScanNodeByte(text, k);
      node := node + [v % 256];
    }
    var timeLow := ScanField(text, 0, 0, 4);
    var timeMid := ScanField(text, 9, 4, 6);
    var timeHi := ScanField(text, 14, 6, 8);
    var clockSeq := ScanField(text, 19, 8, 10);
    var uuid := Uuid(timeLow % TWO32, timeMid % TWO16, timeHi % TWO16, clockSeq % TWO16, node);
    ReducedLayout(bytes, uuid, timeLow, timeMid, timeHi, clockSeq);
    Pack(uuid, out);
    LayoutIsBijective(out[..], uuid, bytes, uuid);
  }

  /** Storing a field into its C type loses nothing. */
  lemma ReducedLayout(b: Packed, uu: Uuid, timeLow: nat, timeMid: nat, timeHi: nat, clockSeq: nat)
    requires timeLow == Value(b[0..4]) && timeMid == Value(b[4..6])
    requires timeHi == Value(b[6..8]) && clockSeq == Value(b[8..10])
    requires uu == Uuid(timeLow % TWO32, timeMid % TWO16, timeHi % TWO16, clockSeq % TWO16, b[10..16])
    ensures Layout(b, uu)
  {
    ValueBound(b[0..4]);
    ValueBound(b[4..6]);
    ValueBound(b[6..8]);
    ValueBound(b[8..10]);
  }

  /** The hyphens in front of offset `i`. */
  function Hyphens(i: nat): nat {
    (if i > 8 then 1 else 0) + (if i > 13 then 1 else 0) + (if i > 18 then 1 else 0) + (if i > 23 then 1 else 0)
  }

  /** The character of the text form at offset `i`. */
  function TextChar(b: Packed, i: nat, upper: bool): char
    requires i < 36
  {
    if IsHyphenPlace(i) then '-'
    else
      DigitChar(Nibble(b, i - Hyphens(i)), upper)
  }

  /** The `n`th hexadecimal digit of a byte string. */
  function Nibble(b: seq<Byte>, n: nat): nat
    requires n < 2 * |b|
  {
    if n % 2 == 0 then b[n / 2] / 16 else b[n / 2] % 16
  }

  /** The text form, character by character. */
  function Text(b: Packed, upper: bool): string {
    seq(36, i requires 0 <= i < 36 => TextChar(b, i, upper))
  }

  /** The digits of the bytes, two by two. */
  function DigitPairs(b: seq<Byte>, upper: bool): string {
    if b == [] then []
    else
      var last := b[|b| - 1];
      DigitPairs(b[..|b| - 1], upper) + [DigitChar(last / 16, upper), DigitChar(last % 16, upper)]
  }

  lemma {:induction false} DigitPairsAt(b: seq<Byte>, upper: bool)
    ensures |DigitPairs(b, upper)| == 2 * |b|
    ensures forall n | 0 <= n < 2 * |b| :: DigitPairs(b, upper)[n] == DigitChar(Nibble(b, n), upper)
  {
    if b != [] {
      var init := b[..|b| - 1];
      DigitPairsAt(init, upper);
      forall n | 0 <= n < 2 * |b| ensures DigitPairs(b, upper)[n] == DigitChar(Nibble(b, n), upper) {
        if n < 2 * |init| {
          assert DigitPairs(b, upper)[n] == DigitPairs(init, upper)[n];
          NibbleOfSlice(b, 0, |init|, n);
        }
      }
    }
  }

  /** Printing a big-endian number in full width prints its bytes. */
  lemma {:induction false} PrintedBytes(b: seq<Byte>, upper: bool)
    requires b != []
    ensures Print(Value(b), Hex, 2 * |b|, upper) == DigitPairs(b, upper)
  {
    var init, last := b[..|b| - 1], b[|b| - 1];
    PrintTwoDigits(Value(init), last, 2 * |b|, upper);
    if init != [] {
      PrintedBytes(init, upper);
    }
  }

  lemma PrintTwoDigits(high: nat, low: Byte, width: nat, upper: bool)
    requires width >= 2 && (high == 0 || width > 2)
    ensures Print(256 * high + low, Hex, width, upper) ==
            (if width == 2 then [] else Print(high, Hex, width - 2, upper))
            + [DigitChar(low / 16, upper), DigitChar(low % 16, upper)]
  {
    var n := 256 * high + low;
    var q := 16 * high + low / 16;
    assert Hex.Quotient(n) == q && Hex.LastDigit(n) == low % 16;
    assert Hex.Quotient(q) == high && Hex.LastDigit(q) == low / 16;
  }

  lemma NibbleOfSlice(b: seq<Byte>, lo: nat, hi: nat, n: nat)
    requires lo <= hi <= |b| && n < 2 * (hi - lo)
    ensures Nibble(b[lo..hi], n) == Nibble(b, n + 2 * lo)
  {
  }

  /** One conversion of the format: bytes `lo` to `hi`, printed in full width,
      are the stretch of the text form that starts at `from`. */
  method PrintField(v: nat, width: nat, upper: bool, ghost b: Packed, ghost from: nat, ghost lo: nat, ghost hi: nat)
    returns (s: string)
    requires lo < hi <= 16 && v == Value(b[lo..hi]) && width == 2 * (hi - lo)
    requires from + width <= 36
    requires forall i | from <= i < from + width :: !IsHyphenPlace(i) && i - Hyphens(i) == i - from + 2 * lo
    ensures s == Text(b, upper)[from..from + width]
  {
    s := Print(v, Hex, width, upper);
    PrintedBytes(b[lo..hi], upper);
    DigitPairsAt(b[lo..hi], upper);
    forall i | 0 <= i < width ensures s[i] == Text(b, upper)[from + i] {
      NibbleOfSlice(b, lo, hi, i);
    }
  }

  method PrintByte(v: Byte, upper: bool, ghost b: Packed, ghost from: nat, ghost k: nat) returns (s: string)
    requires k < 16 && v == b[k] && from + 2 <= 36
    requires !IsHyphenPlace(from) && !IsHyphenPlace(from + 1)
    requires from - Hyphens(from) == 2 * k && from + 1 - Hyphens(from + 1) == 2 * k + 1
    ensures s == Text(b, upper)[from..from + 2]
  {
    assert b[k..k + 1] == [v] && [v][..0] == [] && Value([v]) == v;
    s := PrintField(v, 2, upper, b, from, k, k + 1);
  }

  lemma HyphensInText(b: Packed, upper: bool)
    ensures var t := Text(b, upper); t[8..9] == t[13..14] == t[18..19] == t[23..24] == "-"
  {
  }

  /** uuid_unparse_x, with the lower or the upper case format. */
  method Unparse(bytes: array<Byte>, upper: bool) returns (text: string)
    requires bytes.Length == 16
    ensures text == Text(bytes[..], upper)
  {
    ghost var b: Packed := bytes[..];
    ghost var t := Text(b, upper);
    var uu := Unpack(bytes);
    HyphensInText(b, upper);
    text := PrintField(uu.timeLow, 8, upper, b, 0, 0, 4);
    text := text + "-";
    assert text == t[..9];
    var timeMid := PrintField(uu.timeMid, 4, upper, b, 9, 4, 6);
    text := text + timeMid + "-";
    assert text == t[..14];
    var timeHi := PrintField(uu.timeHi, 4, upper, b, 14, 6, 8);
    text := text + timeHi + "-";
    assert text == t[..19];
    FieldValues(b);
    var seqHi := PrintByte(uu.clockSeq / 256, upper, b, 19, 8);
    var seqLow := PrintByte(uu.clockSeq % 256, upper, b, 21, 9);
    text := text + seqHi + seqLow + "-";
    assert text == t[..24];
    for k := 0 to 6
      invariant text == t[..24 + 2 * k]
    {
      assert uu.node[k] == b[10 + k];
      var digits := PrintByte(uu.node[k], upper, b, 24 + 2 * k, 10 + k);
      text := text + digits;
    }
  }

  function ToCase(c: char, upper: bool): char {
    if upper && 'a' <= c <= 'z' then c - 'a' + 'A'
    else if !upper && 'A' <= c <= 'Z' then c - 'A' + 'a'
    else c
  }

  lemma DigitInCase(c: char, upper: bool)
    requires IsDigit(c, Hex)
    ensures DigitChar(DigitOf(c), upper) == ToCase(c, upper)
  {
  }

  /** The two digits of byte `k` stand at its place. */
  lemma DigitsAtPlace(b: Packed, upper: bool, k: nat)
    requires k < 16
    ensures TextChar(b, Place(k), upper) == DigitChar(b[k] / 16, upper)
    ensures TextChar(b, Place(k) + 1, upper) == DigitChar(b[k] % 16, upper)
  {
    var i := Place(k);
    assert !IsHyphenPlace(i) && i - Hyphens(i) == 2 * k;
    assert !IsHyphenPlace(i + 1) && i + 1 - Hyphens(i + 1) == 2 * k + 1;
  }

  lemma PlaceOfDigit(i: nat)
    requires i < 36 && !IsHyphenPlace(i)
    ensures var n := i - Hyphens(i); 0 <= n < 32 && Place(n / 2) + n % 2 == i
  {
  }

  lemma TextIsUuidText(b: Packed, upper: bool)
    ensures IsUuidText(Text(b, upper))
    ensures '\0' !in Text(b, upper)
  {
    forall i | 0 <= i < 36
      ensures var c := TextChar(b, i, upper); c != '\0' && if IsHyphenPlace(i) then c == '-' else IsDigit(c, Hex)
    {
      if !IsHyphenPlace(i) {
        DigitRoundTrip(Nibble(b, i - Hyphens(i)), upper);
      }
    }
  }

  lemma ByteAtText(b: Packed, upper: bool, k: nat)
    requires IsUuidText(Text(b, upper)) && k < 16
    ensures ByteAt(Text(b, upper), k) == b[k]
  {
    DigitsAtPlace(b, upper, k);
    DigitRoundTrip(b[k] / 16, upper);
    DigitRoundTrip(b[k] % 16, upper);
  }

  /** Parsing what was unparsed, in either case, gives the UUID back. */
  lemma ParseInvertsUnparse(b: Packed, upper: bool)
    ensures '\0' !in Text(b, upper) && IsUuidText(Text(b, upper))
    ensures BytesOf(Text(b, upper)) == b
  {
    TextIsUuidText(b, upper);
    forall k | 0 <= k < 16 ensures ByteAt(Text(b, upper), k) == b[k] {
      ByteAtText(b, upper, k);
    }
  }

  /** Unparsing what was parsed changes nothing but the case of the digits. */
  lemma UnparseInvertsParse(s: CString, upper: bool)
    requires IsUuidText(s)
    ensures |Text(BytesOf(s), upper)| == 36
    ensures forall i | 0 <= i < 36 :: Text(BytesOf(s), upper)[i] == ToCase(s[i], upper)
  {
    forall i | 0 <= i < 36 ensures TextChar(BytesOf(s), i, upper) == ToCase(s[i], upper) {
      if !IsHyphenPlace(i) {
        PlaceOfDigit(i);
        NibbleIsDigit(s, i - Hyphens(i));
        DigitInCase(s[i], upper);
      }
    }
  }

  lemma NibbleIsDigit(s: string, n: nat)
    requires IsUuidText(s) && n < 32
    ensures Nibble(BytesOf(s), n) == DigitOf(s[Place(n / 2) + n % 2])
  {
    assert BytesOf(s)[n / 2] == ByteAt(s, n / 2);
  }
}
