/** The message by which a second start of the application hands its arguments to
    the running instance: every argument in Base64 (section 4 of RFC 4648), joined
    by single blanks. Arguments are byte strings in the local 8-bit encoding. */
module ArgumentMessage {
  import opened Bytes
  import opened Options

  type Sextet = x: int | 0 <= x < 64
  type Quartet = x: int | 0 <= x < 16
  type Duet = x: int | 0 <= x < 4

  const BLANK: Byte := 32
  const PAD: Byte := 61

  // Base64

  /** The alphabet: A-Z, a-z, 0-9, plus and slash. */
  function Symbol(d: Sextet): Byte {
    if d < 26 then 65 + d
    else if d < 52 then 97 + (d - 26)
    else if d < 62 then 48 + (d - 52)
    else if d == 62 then 43
    else 47
  }

  /** The value of a symbol, or -1. */
  function SymbolValue(c: Byte): int {
    if 65 <= c <= 90 then c - 65
    else if 97 <= c <= 122 then c - 97 + 26
    else if 48 <= c <= 57 then c - 48 + 52
    else if c == 43 then 62
    else if c == 47 then 63
    else -1
  }

  lemma SymbolRoundTrip(d: Sextet)
    ensures SymbolValue(Symbol(d)) == d && !IsSpace(Symbol(d))
  {
  }

  /** The bits of the bytes six by six, filled up with zeros. */
  function Cut(b: ByteString): seq<Sextet> {
    if b == [] then []
    else if |b| == 1 then [b[0] / 4, b[0] % 4 * 16]
    else if |b| == 2 then [b[0] / 4, b[0] % 4 * 16 + b[1] / 16, b[1] % 16 * 4]
    else [b[0] / 4, b[0] % 4 * 16 + b[1] / 16, b[1] % 16 * 4 + b[2] / 64, b[2] % 64] + Cut(b[3..])
  }

  function Symbols(ds: seq<Sextet>): ByteString {
    if ds == [] then [] else [Symbol(ds[0])] + Symbols(ds[1..])
  }

  function Padding(n: nat): ByteString {
    if n % 3 == 0 then [] else if n % 3 == 1 then [PAD, PAD] else [PAD]
  }

  /** QByteArray::toBase64, with padding. */
  function Encode(b: ByteString): ByteString {
    Symbols(Cut(b)) + Padding(|b|)
  }

  /** The values of the symbols in a text; everything outside the alphabet,
      padding included, is skipped. */
  function Values(s: ByteString): seq<Sextet> {
    if s == [] then []
    else if SymbolValue(s[0]) < 0 then Values(s[1..])
    else [SymbolValue(s[0])] + Values(s[1..])
  }

  /** The bits collected but not yet emitted by the decoder: none, or the low six,
      four or two bits. */
  datatype Residue = Empty | Six(six: Sextet) | Four(four: Quartet) | Two(two: Duet)

  /** Emit a byte whenever eight bits have come together; drop what is left over. */
  function Emit(ds: seq<Sextet>, r: Residue): ByteString {
    if ds == [] then []
    else
      var d := ds[0];
      match r
      case Empty => Emit(ds[1..], Six(d))
      case Six(bits) => [(bits * 64 + d) / 16] + Emit(ds[1..], Four((bits * 64 + d) % 16))
      case Four(bits) => [(bits * 64 + d) / 4] + Emit(ds[1..], Two((bits * 64 + d) % 4))
      case Two(bits) => [bits * 64 + d] + Emit(ds[1..], Empty)
  }

  /** QByteArray::fromBase64 */
  function Decode(s: ByteString): ByteString {
    Emit(Values(s), Empty)
  }

  lemma {:induction false} ValuesOfSymbols(ds: seq<Sextet>, pads: ByteString)
    requires forall i | 0 <= i < |pads| :: pads[i] == PAD
    ensures Values(Symbols(ds) + pads) == ds
  {
    if ds != [] {
      ValuesOfSymbols(ds[1..], pads);
      SymbolRoundTrip(ds[0]);
      assert (Symbols(ds) + pads)[1..] == Symbols(ds[1..]) + pads;
    } else if pads != [] {
      ValuesOfSymbols(ds, pads[1..]);
      assert (Symbols(ds) + pads)[1..] == Symbols(ds) + pads[1..];
    }
  }

  /** Three bytes cut into sextets and put together again. */
  lemma Sextets(x: Byte, y: Byte, z: Byte)
    ensures var bits := x / 4 * 64 + (x % 4 * 16 + y / 16); bits / 16 == x && bits % 16 == y / 16
    ensures var bits := y / 16 * 64 + (y % 16 * 4 + z / 64); bits / 4 == y && bits % 4 == z / 64
    ensures z / 64 * 64 + z % 64 == z
  {
  }

  lemma EmitOne(d: Sextet, ds: seq<Sextet>, r: Residue)
    ensures Emit([d] + ds, r) ==
            match r
            case Empty => Emit(ds, Six(d))
            case Six(bits) => [(bits * 64 + d) / 16] + Emit(ds, Four((bits * 64 + d) % 16))
            case Four(bits) => [(bits * 64 + d) / 4] + Emit(ds, Two((bits * 64 + d) % 4))
            case Two(bits) => [bits * 64 + d] + Emit(ds, Empty)
  {
    assert ([d] + ds)[1..] == ds;
  }

  /** The sextets of a byte, of two and of three, and what follows them. */
  lemma EmitFirst(x: Byte, y: Byte, ds: seq<Sextet>)
    ensures Emit([x / 4] + ([x % 4 * 16 + y / 16] + ds), Empty) == [x] + Emit(ds, Four(y / 16))
  {
    Sextets(x, y, 0);
    EmitOne(x / 4, [x % 4 * 16 + y / 16] + ds, Empty);
    EmitOne(x % 4 * 16 + y / 16, ds, Six(x / 4));
  }

  lemma EmitSecond(y: Byte, z: Byte, ds: seq<Sextet>)
    ensures Emit([y % 16 * 4 + z / 64] + ds, Four(y / 16)) == [y] + Emit(ds, Two(z / 64))
  {
    Sextets(0, y, z);
    EmitOne(y % 16 * 4 + z / 64, ds, Four(y / 16));
  }

  lemma EmitThird(z: Byte, ds: seq<Sextet>)
    ensures Emit([z % 64] + ds, Two(z / 64)) == [z] + Emit(ds, Empty)
  {
    Sextets(0, 0, z);
    EmitOne(z % 64, ds, Two(z / 64));
  }

  lemma EmitSingle(x: Byte)
    ensures Emit([x / 4, x % 4 * 16], Empty) == [x]
  {
    EmitFirst(x, 0, []);
    assert [x / 4] + ([x % 4 * 16 + 0 / 16] + []) == [x / 4, x % 4 * 16];
  }

  lemma EmitPair(x: Byte, y: Byte)
    ensures Emit([x / 4, x % 4 * 16 + y / 16, y % 16 * 4], Empty) == [x, y]
  {
    var ds := [y % 16 * 4 + 0 / 64] + [];
    EmitFirst(x, y, ds);
    EmitSecond(y, 0, []);
    assert [x / 4] + ([x % 4 * 16 + y / 16] + ds) == [x / 4, x % 4 * 16 + y / 16, y % 16 * 4];
  }

  lemma EmitTriple(x: Byte, y: Byte, z: Byte, ds: seq<Sextet>)
    ensures Emit([x / 4, x % 4 * 16 + y / 16, y % 16 * 4 + z / 64, z % 64] + ds, Empty) == [x, y, z] + Emit(ds, Empty)
  {
    var ds2 := [z % 64] + ds;
    var ds1 := [y % 16 * 4 + z / 64] + ds2;
    assert [x / 4, x % 4 * 16 + y / 16, y % 16 * 4 + z / 64, z % 64] + ds == [x / 4] + ([x % 4 * 16 + y / 16] + ds1);
    EmitFirst(x, y, ds1);
    EmitSecond(y, z, ds2);
    EmitThird(z, ds);
  }

  lemma {:induction false} EmitInvertsCut(b: ByteString)
    ensures Emit(Cut(b), Empty) == b
  {
    if |b| == 1 {
      EmitSingle(b[0]);
      assert b == [b[0]];
    } else if |b| == 2 {
      EmitPair(b[0], b[1]);
      assert b == [b[0], b[1]];
    } else if |b| >= 3 {
      EmitTriple(b[0], b[1], b[2], Cut(b[3..]));
      EmitInvertsCut(b[3..]);
      assert b == [b[0], b[1], b[2]] + b[3..];
    }
  }

  /** Decoding the encoding gives every byte string back, padded or not. */
  lemma DecodeInvertsEncode(b: ByteString)
    ensures Decode(Encode(b)) == b
  {
    ValuesOfSymbols(Cut(b), Padding(|b|));
    EmitInvertsCut(b);
  }

  // What the encoding looks like

  /** Table 1 of RFC 4648: the capital letters from A, the small letters from a, the
      digits from 0, plus and slash. */
  lemma AlphabetIsStandard()
    ensures Symbol(0) == 'A' as int && forall d | 0 <= d < 25 :: Symbol(d + 1) == Symbol(d) + 1
    ensures Symbol(26) == 'a' as int && forall d | 26 <= d < 51 :: Symbol(d + 1) == Symbol(d) + 1
    ensures Symbol(52) == '0' as int && forall d | 52 <= d < 61 :: Symbol(d + 1) == Symbol(d) + 1
    ensures Symbol(62) == '+' as int && Symbol(63) == '/' as int && PAD == '=' as int
  {
  }

  function ByteAt(b: ByteString, i: nat): Byte {
    if i < |b| then b[i] else 0
  }

  function SextetAt(ds: seq<Sextet>, i: nat): Sextet {
    if i < |ds| then ds[i] else 0
  }

  /** The k-th three bytes and the k-th four sextets are the same 24 bits, with zeros
      where there are none. */
  predicate SameBits(b: ByteString, ds: seq<Sextet>, k: nat) {
    ByteAt(b, 3 * k) as int * 65536 + ByteAt(b, 3 * k + 1) as int * 256 + ByteAt(b, 3 * k + 2) as int ==
    SextetAt(ds, 4 * k) as int * 262144 + SextetAt(ds, 4 * k + 1) as int * 4096 + SextetAt(ds, 4 * k + 2) as int * 64
    + SextetAt(ds, 4 * k + 3) as int
  }

  lemma {:induction false} CutKeepsBits(b: ByteString, k: nat)
    ensures |Cut(b)| == (4 * |b| + 2) / 3
    ensures SameBits(b, Cut(b), k)
    decreases |b|
  {
    if |b| >= 3 {
      CutKeepsBits(b[3..], if k == 0 then 0 else k - 1);
      if k > 0 {
        ShiftBits(b, Cut(b), k);
      }
    }
  }

  lemma ShiftBits(b: ByteString, ds: seq<Sextet>, k: nat)
    requires k > 0 && |b| >= 3 && |ds| >= 4
    ensures SameBits(b, ds, k) <==> SameBits(b[3..], ds[4..], k - 1)
  {
  }

  lemma {:induction false} SymbolsByPlace(ds: seq<Sextet>)
    ensures |Symbols(ds)| == |ds| && forall i | 0 <= i < |ds| :: Symbols(ds)[i] == Symbol(ds[i])
  {
    if ds != [] {
      SymbolsByPlace(ds[1..]);
    }
  }

  /** The encoding of every byte string is a whole number of groups of four: symbols
      for the bits of the bytes, filled up with zeros, and padding at exactly the
      last places. */
  lemma EncodeShape(b: ByteString)
    ensures |Encode(b)| == (|b| + 2) / 3 * 4 && |Encode(b)| == |Cut(b)| + (3 - |b| % 3) % 3
    ensures forall i | 0 <= i < |Cut(b)| :: Encode(b)[i] == Symbol(Cut(b)[i])
    ensures forall i | 0 <= i < |Encode(b)| :: Encode(b)[i] == PAD <==> |Cut(b)| <= i
    ensures forall k: nat :: SameBits(b, Cut(b), k)
  {
    CutKeepsBits(b, 0);
    Padded(Cut(b), Padding(|b|));
    GroupsOfFour(|b|);
    forall k: nat ensures SameBits(b, Cut(b), k) {
      CutKeepsBits(b, k);
    }
  }

  lemma GroupsOfFour(n: nat)
    ensures (4 * n + 2) / 3 + (3 - n % 3) % 3 == (n + 2) / 3 * 4 && |Padding(n)| == (3 - n % 3) % 3
  {
    var q, r := n / 3, n % 3;
    assert n == 3 * q + r;
    assert (4 * n + 2) / 3 == 4 * q + (4 * r + 2) / 3 && (n + 2) / 3 == q + (r + 2) / 3;
  }

  lemma Padded(ds: seq<Sextet>, pads: ByteString)
    requires forall i | 0 <= i < |pads| :: pads[i] == PAD
    ensures |Symbols(ds)| == |ds| && forall i | 0 <= i < |ds| :: (Symbols(ds) + pads)[i] == Symbol(ds[i])
    ensures forall i | 0 <= i < |ds| + |pads| :: (Symbols(ds) + pads)[i] == PAD <==> |ds| <= i
  {
    SymbolsByPlace(ds);
    forall i | 0 <= i < |ds| ensures Symbol(ds[i]) != PAD {
      SymbolRoundTrip(ds[i]);
    }
  }

  /** Byte number `i` of what any sextets decode to. */
  function DecodedByte(ds: seq<Sextet>, i: nat): int {
    var j := i / 3 * 4 + i % 3;
    if i % 3 == 0 then SextetAt(ds, j) * 4 + SextetAt(ds, j + 1) / 16
    else if i % 3 == 1 then SextetAt(ds, j) % 16 * 16 + SextetAt(ds, j + 1) / 4
    else SextetAt(ds, j) % 4 * 64 + SextetAt(ds, j + 1)
  }

  lemma EmitTwo(w: Sextet, x: Sextet, ds: seq<Sextet>)
    ensures Emit([w] + ([x] + ds), Empty) == [w as int * 4 + x / 16] + Emit(ds, Four(x % 16))
  {
    var bits: int := w as int * 64 + x as int;
    assert bits / 16 == w as int * 4 + x / 16 && bits % 16 == x % 16;
    EmitOne(w, [x] + ds, Empty);
    EmitOne(x, ds, Six(w));
  }

  lemma EmitThree(w: Sextet, x: Sextet, y: Sextet, ds: seq<Sextet>)
    ensures Emit([w] + ([x] + ([y] + ds)), Empty) ==
            [w as int * 4 + x / 16, x % 16 * 16 + y / 4] + Emit(ds, Two(y % 4))
  {
    var bits: int := x % 16 * 64 + y as int;
    assert bits / 4 == x % 16 * 16 + y / 4 && bits % 4 == y % 4;
    EmitTwo(w, x, [y] + ds);
    EmitOne(y, ds, Four(x % 16));
  }

  lemma EmitGroup(w: Sextet, x: Sextet, y: Sextet, z: Sextet, ds: seq<Sextet>)
    ensures Emit([w] + ([x] + ([y] + ([z] + ds))), Empty) ==
            [w as int * 4 + x / 16, x % 16 * 16 + y / 4, y % 4 * 64 + z] + Emit(ds, Empty)
  {
    EmitThree(w, x, y, [z] + ds);
    EmitOne(z, ds, Two(y % 4));
  }

  lemma DecodedShift(ds: seq<Sextet>, i: nat)
    requires |ds| >= 4 && i >= 3
    ensures DecodedByte(ds, i) == DecodedByte(ds[4..], i - 3)
  {
    var j, j' := i / 3 * 4 + i % 3, (i - 3) / 3 * 4 + (i - 3) % 3;
    assert (i - 3) / 3 == i / 3 - 1 && (i - 3) % 3 == i % 3 && j' == j - 4;
    assert SextetAt(ds, j) == SextetAt(ds[4..], j') && SextetAt(ds, j + 1) == SextetAt(ds[4..], j' + 1);
  }

  /** Decoding emits a byte for every eight bits and drops the bits that are left over,
      for any text, well formed or not. */
  lemma {:induction false} EmitByPlace(ds: seq<Sextet>, i: nat)
    ensures |Emit(ds, Empty)| == |ds| * 3 / 4
    ensures i < |Emit(ds, Empty)| ==> Emit(ds, Empty)[i] == DecodedByte(ds, i)
    decreases |ds|
  {
    if |ds| >= 4 {
      assert ds == [ds[0]] + ([ds[1]] + ([ds[2]] + ([ds[3]] + ds[4..])));
      EmitGroup(ds[0], ds[1], ds[2], ds[3], ds[4..]);
      EmitByPlace(ds[4..], if i < 3 then 0 else i - 3);
      if i >= 3 {
        DecodedShift(ds, i);
      }
    } else if |ds| == 3 {
      assert ds == [ds[0]] + ([ds[1]] + ([ds[2]] + []));
      EmitThree(ds[0], ds[1], ds[2], []);
    } else if |ds| == 2 {
      assert ds == [ds[0]] + ([ds[1]] + []);
      EmitTwo(ds[0], ds[1], []);
    }
  }

  predicate IsSpace(c: Byte) {
    c == 32 || 9 <= c <= 13
  }

  predicate HasNoSpace(s: ByteString) {
    forall i | 0 <= i < |s| :: !IsSpace(s[i])
  }

  lemma {:induction false} SymbolsHaveNoSpace(ds: seq<Sextet>)
    ensures HasNoSpace(Symbols(ds))
  {
    if ds != [] {
      SymbolRoundTrip(ds[0]);
      SymbolsHaveNoSpace(ds[1..]);
    }
  }

  lemma EncodingHasNoSpace(b: ByteString)
    ensures HasNoSpace(Encode(b))
  {
    SymbolsHaveNoSpace(Cut(b));
  }

  // Joining and splitting

  /** The blocks, each followed by a blank. */
  function Terminated(ts: seq<ByteString>): ByteString {
    if ts == [] then [] else Terminated(ts[..|ts| - 1]) + ts[|ts| - 1] + [BLANK]
  }

  /** QByteArray::split at blanks: one token more than there are blanks. */
  function Split(s: ByteString): (ts: seq<ByteString>)
    ensures ts != []
  {
    if s == [] then [[]]
    else
      var ts := Split(s[1..]);
      if s[0] == BLANK then [[]] + ts else [[s[0]] + ts[0]] + ts[1..]
  }

  lemma {:induction false} SplitToken(t: ByteString, rest: ByteString)
    requires HasNoSpace(t)
    ensures Split(t + [BLANK] + rest) == [t] + Split(rest)
    ensures Split(t) == [t]
  {
    if t == [] {
      assert t + [BLANK] + rest == [BLANK] + rest && ([BLANK] + rest)[1..] == rest;
    } else {
      SplitToken(t[1..], rest);
      assert (t + [BLANK] + rest)[1..] == t[1..] + [BLANK] + rest;
      assert [t[0]] + t[1..] == t;
    }
  }

  /** Blanks between tokens without white space are where the text is split. */
  lemma {:induction false} SplitJoined(ts: seq<ByteString>)
    requires ts != [] && forall t <- ts :: HasNoSpace(t)
    ensures |Terminated(ts)| > 0 && Split(Joined(ts)) == ts
  {
    if |ts| == 1 {
      SplitToken(ts[0], []);
      assert ts[..0] == [] && Terminated(ts) == [] + ts[0] + [BLANK];
      assert Joined(ts) == ts[0];
    } else {
      SplitJoined(ts[1..]);
      JoinedCons(ts);
      SplitToken(ts[0], Joined(ts[1..]));
    }
  }

  /** The message before it is sent: the last blank is chopped off. */
  function Joined(ts: seq<ByteString>): ByteString
    requires ts != []
  {
    var s := Terminated(ts);
    s[..|s| - 1]
  }

  lemma {:induction false} TerminatedCons(ts: seq<ByteString>)
    requires ts != []
    ensures Terminated(ts) == ts[0] + [BLANK] + Terminated(ts[1..])
  {
    var n := |ts| - 1;
    if n == 0 {
      assert ts[..0] == [] && ts[1..] == [];
    } else {
      TerminatedCons(ts[..n]);
      assert ts[..n][1..] == ts[1..][..n - 1];
    }
  }

  lemma JoinedCons(ts: seq<ByteString>)
    requires |ts| > 1
    ensures Joined(ts) == ts[0] + [BLANK] + Joined(ts[1..])
  {
    TerminatedCons(ts);
  }

  // White space in tokens

  /** The length of the first word. */
  function WordLength(s: ByteString): (k: nat)
    ensures k <= |s| && (HasNoSpace(s) ==> k == |s|) && (s != [] && !IsSpace(s[0]) ==> k > 0)
  {
    if s == [] || IsSpace(s[0]) then 0
    else
      assert HasNoSpace(s) ==> HasNoSpace(s[1..]);
      1 + WordLength(s[1..])
  }

  /** QByteArray::simplified: words joined by single blanks. */
  function Simplified(s: ByteString): ByteString
    decreases |s|
  {
    if s == [] then []
    else if IsSpace(s[0]) then Simplified(s[1..])
    else
      var k := WordLength(s);
      var rest := Simplified(s[k..]);
      if rest == [] then s[..k] else s[..k] + [BLANK] + rest
  }

  lemma SimplifiedToken(s: ByteString)
    requires HasNoSpace(s)
    ensures Simplified(s) == s
  {
    if s != [] {
      assert s[..|s|] == s && s[|s|..] == [];
    }
  }

  lemma {:induction false} ValuesAppend(a: ByteString, b: ByteString)
    ensures Values(a + b) == Values(a) + Values(b)
  {
    if a == [] {
      assert a + b == b;
    } else {
      ValuesAppend(a[1..], b);
      assert (a + b)[1..] == a[1..] + b;
    }
  }

  /** Simplifying a token never changes what it decodes to. */
  lemma {:induction false} SimplifiedDecodesTheSame(s: ByteString)
    ensures Values(Simplified(s)) == Values(s)
    decreases |s|
  {
    if s != [] {
      if IsSpace(s[0]) {
        SimplifiedDecodesTheSame(s[1..]);
      } else {
        var k := WordLength(s);
        var rest := Simplified(s[k..]);
        SimplifiedDecodesTheSame(s[k..]);
        assert s == s[..k] + s[k..];
        ValuesAppend(s[..k], s[k..]);
        if rest != [] {
          ValuesAppend(s[..k] + [BLANK], rest);
          ValuesAppend(s[..k], [BLANK]);
        }
      }
    }
  }

  // The message

  function Encodings(args: seq<ByteString>): seq<ByteString> {
    seq(|args|, i requires 0 <= i < |args| => Encode(args[i]))
  }

  function NonEmpty(args: seq<ByteString>): seq<ByteString> {
    if args == [] then []
    else NonEmpty(args[..|args| - 1]) + (if args[|args| - 1] == [] then [] else [args[|args| - 1]])
  }

  /** onDeliverMessage: the message sent, or None if there is nothing to send. */
  method Deliver(args: seq<ByteString>) returns (msg: Option<ByteString>)
    ensures msg == if args == [] then None else Some(Joined(Encodings(args)))
  {
    var data: ByteString := [];
    ghost var es := Encodings(args);
    for i := 0 to |args|
      invariant data == Terminated(es[..i])
    {
      data := data + Encode(args[i]);
      data := data + [BLANK];
      assert es[..i + 1][..i] == es[..i];
    }
    assert es[..|args|] == es;
    if data == [] {
      return None;
    }
    return Some(data[..|data| - 1]);
  }

  /** The arguments that the tokens of a message carry. */
  function Carried(ts: seq<ByteString>): seq<ByteString> {
    NonEmpty(seq(|ts|, i requires 0 <= i < |ts| => Decode(Simplified(ts[i]))))
  }

  /** readData: the application's own name, then every argument of the message. */
  method ReadData(app: ByteString, data: ByteString) returns (arguments: seq<ByteString>)
    ensures arguments == [app] + Carried(Split(data))
  {
    arguments := [app];
    var tokens := Split(data);
    ghost var decoded := seq(|tokens|, i requires 0 <= i < |tokens| => Decode(Simplified(tokens[i])));
    for i := 0 to |tokens|
      invariant arguments == [app] + NonEmpty(decoded[..i])
    {
      var arg := Decode(Simplified(tokens[i]));
      assert decoded[..i + 1][..i] == decoded[..i];
      if arg == [] {
        continue;
      }
      arguments := arguments + [arg];
    }
    assert decoded[..|tokens|] == decoded;
  }

  /** The running instance receives the arguments in order, less the empty ones. */
  lemma {:induction false} MessageCarriesArguments(args: seq<ByteString>)
    requires args != []
    ensures Carried(Split(Joined(Encodings(args)))) == NonEmpty(args)
  {
    var es := Encodings(args);
    forall t | t in es ensures HasNoSpace(t) {
      var i :| 0 <= i < |args| && t == Encode(args[i]);
      EncodingHasNoSpace(args[i]);
    }
    SplitJoined(es);
    forall i | 0 <= i < |args| ensures Decode(Simplified(es[i])) == args[i] {
      SimplifiedToken(es[i]);
      DecodeInvertsEncode(args[i]);
    }
    assert seq(|es|, i requires 0 <= i < |es| => Decode(Simplified(es[i]))) == args;
  }

  predicate NoneEmpty(args: seq<ByteString>) {
    forall i | 0 <= i < |args| :: args[i] != []
  }

  lemma {:induction false} NonEmptyKeepsAll(args: seq<ByteString>)
    ensures |NonEmpty(args)| <= |args|
    ensures NonEmpty(args) == args <==> NoneEmpty(args)
  {
    if args != [] {
      var init, last := args[..|args| - 1], args[|args| - 1];
      NonEmptyKeepsAll(init);
      assert args == init + [last];
      if last != [] {
        assert NonEmpty(args)[..|NonEmpty(args)| - 1] == NonEmpty(init);
        assert NoneEmpty(args) <==> NoneEmpty(init);
      }
    }
  }

  /** It receives exactly the arguments sent if and only if none is empty. */
  lemma {:induction false} ArgumentsArriveIff(args: seq<ByteString>)
    requires args != []
    ensures Carried(Split(Joined(Encodings(args)))) == args <==> NoneEmpty(args)
  {
    MessageCarriesArguments(args);
    NonEmptyKeepsAll(args);
  }
}
