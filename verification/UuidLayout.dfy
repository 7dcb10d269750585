/** struct uuid, its 16-byte wire form (section 4.1.2 of RFC 4122), the
    byte-by-byte conversions between the two, and the order on wire forms. */
module UuidLayout {
  import opened Bytes

  type Node = s: seq<Byte> | |s| == 6 witness [0, 0, 0, 0, 0, 0]

  type Packed = s: seq<Byte> | |s| == 16
    witness [0, 0, 0, 0, 0, 0, 0, 0, 0, 0, 0, 0, 0, 0, 0, 0]

  datatype Uuid = Uuid(timeLow: Word32, timeMid: Word16, timeHi: Word16, clockSeq: Word16, node: Node)

  /** The wire form: every numeric field big-endian, at its offset, then the node. */
  ghost predicate Layout(b: Packed, uu: Uuid) {
    && Value(b[0..4]) == uu.timeLow
    && Value(b[4..6]) == uu.timeMid
    && Value(b[6..8]) == uu.timeHi
    && Value(b[8..10]) == uu.clockSeq
    && b[10..16] == uu.node
  }

  /** The four bytes obtained by repeatedly taking the low byte and shifting. */
  function BigEndian32(w: Word32): (b: seq<Byte>)
    ensures |b| == 4 && Value(b) == w
  {
    var w1 := w / 256;
    var w2 := w1 / 256;
    var w3 := w2 / 256;
    Value4(w3 % 256, w2 % 256, w1 % 256, w % 256);
    [w3 % 256, w2 % 256, w1 % 256, w % 256]
  }

  function BigEndian16(w: Word16): (b: seq<Byte>)
    ensures |b| == 2 && Value(b) == w
  {
    Value2(w / 256 % 256, w % 256);
    [w / 256 % 256, w % 256]
  }

  lemma FieldValues(b: Packed)
    ensures Value(b[0..4]) == 256 * (256 * (256 * b[0] as int + b[1] as int) + b[2] as int) + b[3] as int
    ensures Value(b[4..6]) == 256 * b[4] as int + b[5] as int
    ensures Value(b[6..8]) == 256 * b[6] as int + b[7] as int
    ensures Value(b[8..10]) == 256 * b[8] as int + b[9] as int
  {
    assert b[0..4] == [b[0], b[1], b[2], b[3]];
    assert b[4..6] == [b[4], b[5]];
    assert b[6..8] == [b[6], b[7]];
    assert b[8..10] == [b[8], b[9]];
    Value4(b[0], b[1], b[2], b[3]);
    Value2(b[4], b[5]);
    Value2(b[6], b[7]);
    Value2(b[8], b[9]);
  }

  /** A layout determines both sides: the wire form and the struct. */
  lemma LayoutIsBijective(b: Packed, uu: Uuid, b': Packed, uu': Uuid)
    requires Layout(b, uu) && Layout(b', uu')
    ensures b == b' <==> uu == uu'
  {
    if uu == uu' {
      ValueInjective(b[0..4], b'[0..4]);
      ValueInjective(b[4..6], b'[4..6]);
      ValueInjective(b[6..8], b'[6..8]);
      ValueInjective(b[8..10], b'[8..10]);
      assert b == b[0..4] + b[4..6] + b[6..8] + b[8..10] + b[10..16];
      assert b' == b'[0..4] + b'[4..6] + b'[6..8] + b'[8..10] + b'[10..16];
    }
  }

  lemma LayoutByByte(b: Packed, uu: Uuid)
    requires b[0] == uu.timeLow / 256 / 256 / 256 % 256 && b[1] == uu.timeLow / 256 / 256 % 256
    requires b[2] == uu.timeLow / 256 % 256 && b[3] == uu.timeLow % 256
    requires b[4] == uu.timeMid / 256 % 256 && b[5] == uu.timeMid % 256
    requires b[6] == uu.timeHi / 256 % 256 && b[7] == uu.timeHi % 256
    requires b[8] == uu.clockSeq / 256 % 256 && b[9] == uu.clockSeq % 256
    requires b[10..] == uu.node
    ensures Layout(b, uu)
  {
    assert b[0..4] == BigEndian32(uu.timeLow) && b[4..6] == BigEndian16(uu.timeMid);
    assert b[6..8] == BigEndian16(uu.timeHi) && b[8..10] == BigEndian16(uu.clockSeq);
    assert b[10..16] == b[10..];
  }

  /** uuid_pack: peel the low byte off `tmp`, shift, store the next one. */
  method Pack(uu: Uuid, out: array<Byte>)
    requires out.Length == 16
    modifies out
    ensures Layout(out[..], uu)
  {
    var tmp: Word32 := uu.timeLow;
    out[3] := tmp % 256;
    tmp := tmp / 256;
    out[2] := tmp % 256;
    tmp := tmp / 256;
    out[1] := tmp % 256;
    tmp := tmp / 256;
    out[0] := tmp % 256;

    tmp := uu.timeMid;
    out[5] := tmp % 256;
    tmp := tmp / 256;
    out[4] := tmp % 256;

    tmp := uu.timeHi;
    out[7] := tmp % 256;
    tmp := tmp / 256;
    out[6] := tmp % 256;

    tmp := uu.clockSeq;
    out[9] := tmp % 256;
    tmp := tmp / 256;
    out[8] := tmp % 256;

    forall i | 0 <= i < 6 {
      out[10 + i] := uu.node[i];
    }
    LayoutByByte(out[..], uu);
  }

  /** uuid_unpack: shift `tmp` left, add the next byte, store the field. */
  method Unpack(bytes: array<Byte>) returns (uu: Uuid)
    requires bytes.Length == 16
    ensures Layout(bytes[..], uu)
  {
    var tmp: Word32 := bytes[0];
    tmp := tmp * 256 + bytes[1];
    tmp := tmp * 256 + bytes[2];
    tmp := tmp * 256 + bytes[3];
    var timeLow := tmp;

    tmp := bytes[4];
    tmp := tmp * 256 + bytes[5];
    var timeMid := tmp;

    tmp := bytes[6];
    tmp := tmp * 256 + bytes[7];
    var timeHi := tmp;

    tmp := bytes[8];
    tmp := tmp * 256 + bytes[9];
    var clockSeq := tmp;

    uu := Uuid(timeLow, timeMid, timeHi, clockSeq, bytes[10..16]);
    FieldValues(bytes[..]);
  }

  /** The wire form of `uu`, as a value. */
  ghost function Wire(uu: Uuid): (b: Packed)
    ensures Layout(b, uu)
  {
    WireExists(uu);
    var b: Packed :| Layout(b, uu);
    b
  }

  lemma WireExists(uu: Uuid)
    ensures exists b: Packed :: Layout(b, uu)
  {
    var b: Packed := BigEndian32(uu.timeLow) + BigEndian16(uu.timeMid) + BigEndian16(uu.timeHi)
                     + BigEndian16(uu.clockSeq) + uu.node;
    assert b[0..4] == BigEndian32(uu.timeLow) && b[4..6] == BigEndian16(uu.timeMid);
    assert b[6..8] == BigEndian16(uu.timeHi) && b[8..10] == BigEndian16(uu.clockSeq);
    assert b[10..16] == uu.node;
    assert Layout(b, uu);
  }

  /** The struct whose wire form is `b`. */
  function Fields(b: Packed): (uu: Uuid)
    ensures Layout(b, uu)
  {
    FieldValues(b);
    Uuid(Value(b[0..4]), Value(b[4..6]), Value(b[6..8]), Value(b[8..10]), b[10..16])
  }

  lemma WireRoundTrip(uu: Uuid, b: Packed)
    ensures Fields(Wire(uu)) == uu
    ensures Wire(Fields(b)) == b
  {
    LayoutIsBijective(Wire(uu), Fields(Wire(uu)), Wire(uu), uu);
    LayoutIsBijective(Wire(Fields(b)), Fields(b), b, Fields(b));
  }

  /** uuid_compare, up to the magnitude memcmp chooses for a difference in the nodes. */
  function Compare(b1: Packed, b2: Packed): int {
    var u1, u2 := Fields(b1), Fields(b2);
    if u1.timeLow != u2.timeLow then (if u1.timeLow < u2.timeLow then -1 else 1)
    else if u1.timeMid != u2.timeMid then (if u1.timeMid < u2.timeMid then -1 else 1)
    else if u1.timeHi != u2.timeHi then (if u1.timeHi < u2.timeHi then -1 else 1)
    else if u1.clockSeq != u2.clockSeq then (if u1.clockSeq < u2.clockSeq then -1 else 1)
    else Lex(u1.node, u2.node)
  }

  /** Field by field or byte by byte, the order is the same. */
  lemma CompareIsLexicographic(b1: Packed, b2: Packed)
    ensures Compare(b1, b2) == Lex(b1, b2)
  {
    FieldOrder(b1, b2, 0, 4);
    FieldOrder(b1, b2, 4, 6);
    FieldOrder(b1, b2, 6, 8);
    FieldOrder(b1, b2, 8, 10);
    assert b1[0..] == b1 && b2[0..] == b2;
    assert b1[10..16] == b1[10..] && b2[10..16] == b2[10..];
  }

  lemma FieldOrder(b1: Packed, b2: Packed, i: nat, j: nat)
    requires i <= j <= 16
    ensures Lex(b1[i..], b2[i..]) ==
            if Value(b1[i..j]) != Value(b2[i..j]) then Sign(Value(b1[i..j]) - Value(b2[i..j]))
            else Lex(b1[j..], b2[j..])
  {
    LexAppend(b1[i..j], b2[i..j], b1[j..], b2[j..]);
    LexIsValueOrder(b1[i..j], b2[i..j]);
    assert b1[i..] == b1[i..j] + b1[j..] && b2[i..] == b2[i..j] + b2[j..];
  }

  /** uuid_compare is a total order whose only ties are equal UUIDs. */
  lemma CompareIsTotalOrder(a: Packed, b: Packed, c: Packed)
    ensures Compare(a, b) == 0 <==> a == b
    ensures Compare(a, b) == -Compare(b, a)
    ensures Compare(a, b) <= 0 && Compare(b, c) <= 0 ==> Compare(a, c) <= 0
  {
    CompareIsLexicographic(a, b);
    CompareIsLexicographic(b, a);
    CompareIsLexicographic(b, c);
    CompareIsLexicographic(a, c);
    LexZero(a, b);
    LexAntisymmetric(a, b);
    if Lex(a, b) <= 0 && Lex(b, c) <= 0 {
      LexTransitive(a, b, c);
    }
  }
}
