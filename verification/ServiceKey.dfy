/** The key of a service in the tables of the Avahi back end: its name followed
    directly by the printed interface index. */
module ServiceKey {
  import opened Bytes
  import opened CText

  /** QString::number */
  function Printed(n: int): string {
    if n >= 0 then Print(n, Decimal, 1, false) else "-" + Print(-n, Decimal, 1, false)
  }

  function Key(name: string, iface: int): string {
    name + Printed(iface)
  }

  const INT_MAX: int := 0x7FFF_FFFF

  /** A service as the network knows it. */
  datatype Peer = Peer(name: string, iface: int)

  /** The interface index is an int. */
  predicate IsPeer(p: Peer) {
    -INT_MAX - 1 <= p.iface <= INT_MAX
  }

  function KeyOf(p: Peer): string {
    Key(p.name, p.iface)
  }

  lemma StartsWithDigit(n: nat)
    ensures Printed(n) != [] && IsDigit(Printed(n)[0], Decimal)
  {
    PrintedValue(n, Decimal, 1, false);
  }

  /** The stored interface index is unsigned, so the key can be rebuilt from a
      stored service exactly if the index was not negative. */
  lemma KeyIsRebuiltIff(name: string, iface: int, stored: Word32)
    requires -INT_MAX - 1 <= iface <= INT_MAX && stored == iface % TWO32
    ensures Key(name, stored) == Key(name, iface) <==> 0 <= iface
  {
    if iface < 0 {
      StartsWithDigit(stored);
      assert Key(name, stored)[|name|] != '-' && Key(name, iface)[|name|] == '-';
    } else {
      assert stored == iface;
    }
  }

  lemma NatInjective(i: nat, j: nat)
    requires Printed(i) == Printed(j)
    ensures i == j
  {
    PrintedValue(i, Decimal, 1, false);
    PrintedValue(j, Decimal, 1, false);
  }

  lemma PrintedInjective(i: int, j: int)
    requires Printed(i) == Printed(j)
    ensures i == j
  {
    if 0 <= i {
      StartsWithDigit(i);
    }
    if 0 <= j {
      StartsWithDigit(j);
    }
    if 0 <= i && 0 <= j {
      NatInjective(i, j);
    } else {
      assert Printed(i)[1..] == Printed(-i) && Printed(j)[1..] == Printed(-j);
      NatInjective(-i, -j);
    }
  }

  /** A proper prefix of a printed positive number is a printed number, at least
      ten times smaller. */
  lemma {:induction false} PrefixIsPrinted(i: nat, k: nat) returns (v: nat)
    requires 0 < i && 0 < k < |Printed(i)|
    ensures Printed(i)[..k] == Printed(v) && 1 <= v && 10 * v <= i
    decreases i
  {
    assert i >= 10;
    assert Print(i, Decimal, 1, false) == Print(i / 10, Decimal, 0, false) + [DigitChar(i % 10, false)];
    WidthZeroOrOne(i / 10);
    if k == |Printed(i)| - 1 {
      v := i / 10;
    } else {
      v := PrefixIsPrinted(i / 10, k);
      assert Printed(i)[..k] == Printed(i / 10)[..k];
    }
  }

  lemma WidthZeroOrOne(n: nat)
    ensures Print(n, Decimal, 0, false) == Print(n, Decimal, 1, false)
  {
  }

  /** Appending a digit to a printed positive number prints ten times the number
      plus the digit. */
  lemma AppendDigit(v: nat, d: nat)
    requires 1 <= v && d < 10
    ensures Printed(10 * v + d) == Printed(v) + Printed(d)
  {
    assert Decimal.Quotient(10 * v + d) == v && Decimal.LastDigit(10 * v + d) == d;
    WidthZeroOrOne(v);
  }

  /** What can stand between a name and the rest of a key: a printed number that
      leaves room for one more digit in an int or, with negative indices, a minus
      sign or both. */
  predicate IsInfix(x: string, signed: bool) {
    || (exists v | 1 <= v <= INT_MAX / 10 :: x == Printed(v))
    || (signed && (x == "-" || exists v | 1 <= v <= INT_MAX / 10 :: x == "-" + Printed(v)))
  }

  /** No name is another name followed by the beginning of a printed index. */
  ghost predicate Unambiguous(names: set<string>, signed: bool) {
    forall n, x | n in names && IsInfix(x, signed) :: n + x !in names
  }

  /** Two services with these names that share a key; `signed` admits negative indices. */
  predicate HasKeyClash(names: set<string>, signed: bool, p: Peer, q: Peer) {
    && p.name in names && q.name in names && p != q
    && IsPeer(p) && IsPeer(q) && (signed || (0 <= p.iface && 0 <= q.iface))
    && KeyOf(p) == KeyOf(q)
  }

  /** A proper beginning of a printed index is an infix. */
  lemma PrefixIsInfix(i: int, k: nat)
    requires -INT_MAX - 1 <= i <= INT_MAX && 0 < k < |Printed(i)|
    ensures IsInfix(Printed(i)[..k], i < 0)
  {
    if i > 0 {
      var v := PrefixIsPrinted(i, k);
    } else if k == 1 {
      assert Printed(i)[..1] == "-";
    } else {
      var v := PrefixIsPrinted(-i, k - 1);
      assert Printed(i)[..k] == "-" + Printed(-i)[..k - 1];
    }
  }

  /** Two services clash only if the longer name is the shorter one and an infix. */
  lemma ClashIsAmbiguous(names: set<string>, signed: bool, p: Peer, q: Peer)
    requires HasKeyClash(names, signed, p, q) && |p.name| <= |q.name|
    ensures !Unambiguous(names, signed)
  {
    var s := KeyOf(p);
    var k := |q.name| - |p.name|;
    assert s[..|p.name|] == p.name && s[|p.name|..] == Printed(p.iface);
    assert s[..|q.name|] == q.name && s[|q.name|..] == Printed(q.iface);
    if k == 0 {
      PrintedInjective(p.iface, q.iface);
      assert false;
    }
    StartsSomehow(q.iface);
    PrefixIsInfix(p.iface, k);
    assert q.name == p.name + Printed(p.iface)[..k];
  }

  lemma StartsSomehow(i: int)
    ensures Printed(i) != []
  {
    if 0 <= i {
      StartsWithDigit(i);
    }
  }

  /** An infix followed by a one is a printed index. */
  lemma InfixAndOne(x: string, signed: bool) returns (i: int)
    requires IsInfix(x, signed)
    ensures Printed(i) == x + Printed(1) && -INT_MAX - 1 <= i <= INT_MAX && i != 1 && (i < 0 ==> signed)
  {
    if v :| 1 <= v <= INT_MAX / 10 && x == Printed(v) {
      i := 10 * v + 1;
      AppendDigit(v, 1);
    } else if x == "-" {
      i := -1;
    } else {
      var v :| 1 <= v <= INT_MAX / 10 && x == "-" + Printed(v);
      i := -(10 * v + 1);
      MinusAndOne(v);
    }
  }

  lemma MinusAndOne(v: nat)
    requires 1 <= v
    ensures Printed(-(10 * v + 1)) == "-" + Printed(v) + Printed(1)
  {
    AppendDigit(v, 1);
    Associative("-", Printed(v), Printed(1));
  }

  lemma AmbiguousClashes(names: set<string>, signed: bool, n: string, x: string) returns (p: Peer, q: Peer)
    requires n in names && IsInfix(x, signed) && n + x in names
    ensures HasKeyClash(names, signed, p, q)
  {
    var i := InfixAndOne(x, signed);
    p, q := Peer(n, i), Peer(n + x, 1);
    assert KeyOf(p) == n + (x + Printed(1)) == KeyOf(q);
  }

  /** Among services with these names no two share a key if and only if the names are
      unambiguous: for all interface indices, and for those that are not negative. */
  lemma KeysAreUniqueIff(names: set<string>, signed: bool)
    ensures Unambiguous(names, signed) <==> forall p, q :: !HasKeyClash(names, signed, p, q)
  {
    forall p, q | HasKeyClash(names, signed, p, q) ensures !Unambiguous(names, signed) {
      if |p.name| <= |q.name| {
        ClashIsAmbiguous(names, signed, p, q);
      } else {
        ClashIsAmbiguous(names, signed, q, p);
      }
    }
    if !Unambiguous(names, signed) {
      var n, x :| n in names && IsInfix(x, signed) && n + x in names;
      var p, q := AmbiguousClashes(names, signed, n, x);
    }
  }

  /** Names that end neither in a digit nor, with negative indices, in a minus sign
      are unambiguous. */
  lemma NoTrailingDigitIsEnough(names: set<string>, signed: bool)
    requires forall n | n in names && n != [] :: !IsDigit(n[|n| - 1], Decimal) && (signed ==> n[|n| - 1] != '-')
    ensures Unambiguous(names, signed)
  {
    forall n, x | n in names && IsInfix(x, signed) ensures n + x !in names {
      InfixEnds(x, signed);
      assert (n + x)[|n + x| - 1] == x[|x| - 1];
    }
  }

  lemma InfixEnds(x: string, signed: bool)
    requires IsInfix(x, signed)
    ensures x != [] && (IsDigit(x[|x| - 1], Decimal) || (signed && x == "-"))
  {
    if v :| 1 <= v <= INT_MAX / 10 && x == Printed(v) {
      PrintedValue(v, Decimal, 1, false);
    } else if x != "-" {
      var v :| 1 <= v <= INT_MAX / 10 && x == "-" + Printed(v);
      PrintedValue(v, Decimal, 1, false);
    }
  }
}
