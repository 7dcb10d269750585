/** Bytes, machine words, and the two readings of a byte string that the UUID
    code relies on: its big-endian value and its place in lexicographic order. */
module Bytes {

  const TWO16: int := 0x1_0000
  const TWO32: int := 0x1_0000_0000
  const TWO60: int := 0x1000_0000_0000_0000
  const TWO64: int := 0x1_0000_0000_0000_0000

  type Byte = x: int | 0 <= x < 0x100
  type ByteString = seq<Byte>
  type Word16 = x: int | 0 <= x < 0x1_0000
  type Word32 = x: int | 0 <= x < 0x1_0000_0000
  type Word64 = x: int | 0 <= x < 0x1_0000_0000_0000_0000

  /** The number whose big-endian bytes are `bs`. */
  function Value(bs: seq<Byte>): nat {
    if bs == [] then 0 else 256 * Value(bs[..|bs| - 1]) + bs[|bs| - 1]
  }

  lemma Value2(b0: Byte, b1: Byte)
    ensures Value([b0, b1]) == 256 * b0 + b1
  {
    assert [b0, b1][..1] == [b0];
    assert [b0][..0] == [] && Value([b0]) == b0;
  }

  lemma Value4(b0: Byte, b1: Byte, b2: Byte, b3: Byte)
    ensures Value([b0, b1, b2, b3]) == 256 * (256 * (256 * b0 + b1) + b2) + b3
  {
    assert [b0, b1, b2, b3][..3] == [b0, b1, b2];
    assert [b0, b1, b2][..2] == [b0, b1];
    Value2(b0, b1);
  }

  /** Equal values of equally long byte strings come from equal strings. */
  lemma {:induction false} ValueInjective(a: seq<Byte>, b: seq<Byte>)
    requires |a| == |b| && Value(a) == Value(b)
    ensures a == b
  {
    if a != [] {
      var n := |a| - 1;
      ValueInjective(a[..n], b[..n]);
      assert a == a[..n] + [a[n]] && b == b[..n] + [b[n]];
    }
  }

  function Sign(x: int): int {
    if x < 0 then -1 else if x == 0 then 0 else 1
  }

  /** Three-way lexicographic comparison; a proper prefix comes first. */
  function Lex(a: seq<Byte>, b: seq<Byte>): int {
    if a == [] || b == [] then Sign(|a| - |b|)
    else if a[0] != b[0] then Sign(a[0] as int - b[0] as int)
    else Lex(a[1..], b[1..])
  }

  lemma {:induction false} LexAppend(a: seq<Byte>, b: seq<Byte>, c: seq<Byte>, d: seq<Byte>)
    requires |a| == |b|
    ensures Lex(a + c, b + d) == if Lex(a, b) != 0 then Lex(a, b) else Lex(c, d)
  {
    if a == [] {
      assert a + c == c && b + d == d;
    } else {
      LexAppend(a[1..], b[1..], c, d);
      assert (a + c)[1..] == a[1..] + c && (b + d)[1..] == b[1..] + d;
    }
  }

  lemma {:induction false} LexZero(a: seq<Byte>, b: seq<Byte>)
    ensures Lex(a, b) == 0 <==> a == b
  {
    if a != [] && b != [] && a[0] == b[0] {
      LexZero(a[1..], b[1..]);
      assert a == [a[0]] + a[1..] && b == [b[0]] + b[1..];
    }
  }

  lemma {:induction false} LexAntisymmetric(a: seq<Byte>, b: seq<Byte>)
    ensures Lex(a, b) == -Lex(b, a)
  {
    if a != [] && b != [] && a[0] == b[0] {
      LexAntisymmetric(a[1..], b[1..]);
    }
  }

  lemma {:induction false} LexTransitive(a: seq<Byte>, b: seq<Byte>, c: seq<Byte>)
    requires Lex(a, b) <= 0 && Lex(b, c) <= 0
    ensures Lex(a, c) <= 0
  {
    if a != [] && b != [] && c != [] && a[0] == b[0] == c[0] {
      LexTransitive(a[1..], b[1..], c[1..]);
    }
  }

  /** Comparing big-endian numbers of one width is comparing their bytes. */
  lemma {:induction false} LexIsValueOrder(a: seq<Byte>, b: seq<Byte>)
    requires |a| == |b|
    ensures Lex(a, b) == Sign(Value(a) - Value(b))
  {
    if a != [] {
      var n := |a| - 1;
      LexIsValueOrder(a[..n], b[..n]);
      LexAppend(a[..n], b[..n], [a[n]], [b[n]]);
      assert a == a[..n] + [a[n]] && b == b[..n] + [b[n]];
    }
  }

  lemma Associative<T>(a: seq<T>, b: seq<T>, c: seq<T>)
    ensures a + (b + c) == a + b + c
  {
  }
}
