/** DNS-SD TXT records (section 6 of RFC 6763): the length-prefixed buffer that a
    publisher builds, the loop that takes it apart, and the map from names to
    values that a browser keeps. */
module TxtRecords {
  import opened Bytes
  import opened Options

  type TxtMap = map<ByteString, ByteString>

  const EQUALS: Byte := 61

  // Records as names and values

  /** The first position of '=', or the length. */
  function EqualsAt(rec: ByteString): (k: nat)
    ensures k <= |rec| && (k < |rec| ==> rec[k] == EQUALS) && EQUALS !in rec[..k]
  {
    if rec == [] || rec[0] == EQUALS then 0
    else
      var k := 1 + EqualsAt(rec[1..]);
      assert rec[..k] == [rec[0]] + rec[1..][..k - 1];
      k
  }

  function NameOf(rec: ByteString): ByteString {
    rec[..EqualsAt(rec)]
  }

  function ValueOf(rec: ByteString): ByteString {
    var k := EqualsAt(rec);
    if k < |rec| then rec[k + 1..] else []
  }

  function AddRecord(m: TxtMap, rec: ByteString): TxtMap {
    m[NameOf(rec) := ValueOf(rec)]
  }

  /** Storing one record, as all the decoding loops do. */
  method Insert(m: TxtMap, rec: ByteString) returns (m': TxtMap)
    ensures m' == AddRecord(m, rec)
  {
    var pos := EqualsAt(rec);
    if pos == |rec| {
      assert rec[..pos] == rec;
      m' := m[rec := []];
    } else {
      m' := m[rec[..pos] := rec[pos + 1..]];
    }
  }

  /** Storing records in order. */
  function AddRecords(m: TxtMap, recs: seq<ByteString>): TxtMap
    decreases |recs|
  {
    if recs == [] then m else AddRecords(AddRecord(m, recs[0]), recs[1..])
  }

  /** The last record with this name, if any. */
  function LastNamed(recs: seq<ByteString>, name: ByteString): (i: Option<nat>)
    ensures i.Some? ==> i.value < |recs| && NameOf(recs[i.value]) == name
    ensures forall j | 0 <= j < |recs| && NameOf(recs[j]) == name :: i.Some? && j <= i.value
  {
    if recs == [] then None
    else
      var i := LastNamed(recs[1..], name);
      if i.Some? then Some(i.value + 1)
      else if NameOf(recs[0]) == name then Some(0)
      else None
  }

  /** After adding records, a name has the value of the last record that bears it,
      or else the value it had before. */
  lemma {:induction false} LastDuplicateWins(m: TxtMap, recs: seq<ByteString>, name: ByteString)
    ensures var m', i := AddRecords(m, recs), LastNamed(recs, name);
            if i.Some? then name in m' && m'[name] == ValueOf(recs[i.value])
            else (name in m' <==> name in m) && (name in m ==> m'[name] == m[name])
    decreases |recs|
  {
    if recs != [] {
      LastDuplicateWins(AddRecord(m, recs[0]), recs[1..], name);
    }
  }

  lemma {:induction false} RecordsAccumulate(m: TxtMap, recs: seq<ByteString>)
    ensures m.Keys <= AddRecords(m, recs).Keys
    decreases |recs|
  {
    if recs != [] {
      RecordsAccumulate(AddRecord(m, recs[0]), recs[1..]);
    }
  }

  /** Some record bears this name. */
  predicate IsNamed(recs: seq<ByteString>, name: ByteString) {
    exists rec <- recs :: NameOf(rec) == name
  }

  lemma NamedIffLast(recs: seq<ByteString>, name: ByteString)
    ensures IsNamed(recs, name) <==> LastNamed(recs, name).Some?
  {
    var i := LastNamed(recs, name);
    if i.Some? {
      assert recs[i.value] in recs;
    }
  }

  /** Adding records leaves exactly what they say if and only if they bear every
      name that was there before: a name that is no longer announced stays. */
  lemma {:induction false} RecordsReplaceIff(m: TxtMap, recs: seq<ByteString>)
    ensures AddRecords(m, recs) == AddRecords(map[], recs) <==> forall name <- m :: IsNamed(recs, name)
    ensures forall name :: name in AddRecords(map[], recs) <==> IsNamed(recs, name)
  {
    var m1, m0 := AddRecords(m, recs), AddRecords(map[], recs);
    forall name: ByteString
      ensures name in m0 <==> IsNamed(recs, name)
      ensures name in m1 <==> name in m || IsNamed(recs, name)
      ensures name in m0 ==> m1[name] == m0[name]
    {
      NamedIffLast(recs, name);
      LastDuplicateWins(m, recs, name);
      LastDuplicateWins(map[], recs, name);
    }
    if m1 == m0 {
      forall name | name in m ensures IsNamed(recs, name) {
        assert name in m1;
      }
    } else if forall name <- m :: IsNamed(recs, name) {
      assert forall name :: name in m1 <==> name in m0;
    }
  }

  lemma {:induction false} EqualsAfterName(name: ByteString, value: ByteString)
    requires EQUALS !in name
    ensures EqualsAt(name + [EQUALS] + value) == EqualsAt(name) == |name|
  {
    if name != [] {
      EqualsAfterName(name[1..], value);
      assert (name + [EQUALS] + value)[1..] == name[1..] + [EQUALS] + value;
    }
  }

  /** A record made of a name without '=' and a value splits back into them. */
  lemma NameAndValueSplit(name: ByteString, value: ByteString)
    requires EQUALS !in name
    ensures NameOf(name + [EQUALS] + value) == name && ValueOf(name + [EQUALS] + value) == value
    ensures NameOf(name) == name && ValueOf(name) == []
  {
    EqualsAfterName(name, value);
  }

  // Text

  /** A QString: Unicode scalar values. */
  type Text = string

  /** QString::size(): UTF-16 code units. */
  function Units(t: Text): nat {
    if t == [] then 0 else (if t[0] < '\U{10000}' then 1 else 2) + Units(t[1..])
  }

  /** The UTF-16 code units of one character: its number, or a pair of surrogates with ten
      bits each (section 2.1 of RFC 2781). */
  function Utf16Char(c: char): seq<Word16> {
    var n := c as int;
    if n < 0x1_0000 then [n] else [0xD800 + (n - 0x1_0000) / 0x400, 0xDC00 + (n - 0x1_0000) % 0x400]
  }

  function Utf16(t: Text): seq<Word16> {
    if t == [] then [] else Utf16Char(t[0]) + Utf16(t[1..])
  }

  /** The size of a text is the length of its UTF-16 form, in which a character is spelled
      by its number or by a surrogate of either kind. */
  lemma {:induction false} UnitsAreUtf16(t: Text)
    ensures Units(t) == |Utf16(t)|
    ensures forall c <- t :: var u, n := Utf16Char(c), c as int;
              if |u| == 1 then u[0] == n < 0x1_0000
              else |u| == 2 && 0xD800 <= u[0] < 0xDC00 <= u[1] < 0xE000
                   && n == 0x1_0000 + (u[0] as int - 0xD800) * 0x400 + (u[1] as int - 0xDC00)
  {
    if t != [] {
      UnitsAreUtf16(t[1..]);
    }
  }

  /** The UTF-8 bytes of one character. */
  function Utf8Char(c: char): ByteString {
    var n := c as int;
    if n < 0x80 then [n]
    else if n < 0x800 then [0xC0 + n / 0x40, 0x80 + n % 0x40]
    else if n < 0x1_0000 then [0xE0 + n / 0x1000, 0x80 + n / 0x40 % 0x40, 0x80 + n % 0x40]
    else [0xF0 + n / 0x4_0000 % 8, 0x80 + n / 0x1000 % 0x40, 0x80 + n / 0x40 % 0x40, 0x80 + n % 0x40]
  }

  /** The number that bytes spell, six bits to a trailing byte (section 3 of RFC 3629). */
  function Spelled(b: ByteString): int
    requires 1 <= |b| <= 4
  {
    var lead: int := b[0];
    if |b| == 1 then lead
    else if |b| == 2 then (lead - 0xC0) * 64 + Trail(b[1])
    else if |b| == 3 then (lead - 0xE0) * 4096 + Trail(b[1]) * 64 + Trail(b[2])
    else (lead - 0xF0) * 262144 + Trail(b[1]) * 4096 + Trail(b[2]) * 64 + Trail(b[3])
  }

  function Trail(b: Byte): int {
    b as int - 0x80
  }

  /** The bytes of a character spell its number in the shortest of the four forms. */
  lemma Utf8CharSpells(c: char)
    ensures var n, b := c as int, Utf8Char(c);
            && |b| == (if n < 0x80 then 1 else if n < 0x800 then 2 else if n < 0x1_0000 then 3 else 4)
            && Spelled(b) == n
            && (forall i | 0 < i < |b| :: 0x80 <= b[i] < 0xC0)
  {
    var n := c as int;
    SixBits(n, 0x40);
    SixBits(n, 0x1000);
    SixBits(n, 0x4_0000);
  }

  lemma SixBits(n: nat, unit: nat)
    requires n < 0x11_0000 && (unit == 0x40 || unit == 0x1000 || unit == 0x4_0000)
    ensures unit == 0x40 ==> n == n / 0x40 * 0x40 + n % 0x40
    ensures unit == 0x1000 ==> n / 0x40 == n / 0x1000 * 0x40 + n / 0x40 % 0x40
    ensures unit == 0x4_0000 ==> n / 0x1000 == n / 0x4_0000 * 0x40 + n / 0x1000 % 0x40
    ensures unit == 0x4_0000 ==> n / 0x4_0000 % 8 == n / 0x4_0000
  {
  }

  function Utf8(t: Text): ByteString {
    if t == [] then [] else Utf8Char(t[0]) + Utf8(t[1..])
  }

  predicate IsAscii(t: Text) {
    forall i | 0 <= i < |t| :: t[i] < '\U{80}'
  }

  /** A text has as many bytes as code units exactly when it is ASCII; otherwise
      it has more. */
  lemma {:induction false} AsciiIffOneBytePerUnit(t: Text)
    ensures Units(t) <= |Utf8(t)|
    ensures Units(t) == |Utf8(t)| <==> IsAscii(t)
  {
    if t != [] {
      AsciiIffOneBytePerUnit(t[1..]);
      assert IsAscii(t) <==> t[0] < '\U{80}' && IsAscii(t[1..]) by {
        assert forall i | 0 < i < |t| :: t[i] == t[1..][i - 1];
      }
    }
  }

  // The buffer

  /** addServiceTxtRecord: the length byte is the number of code units, cut to
      eight bits. */
  function Frame(t: Text): ByteString {
    [Units(t) % 256] + Utf8(t)
  }

  function Frames(ts: seq<Text>): ByteString {
    if ts == [] then [] else Frame(ts[0]) + Frames(ts[1..])
  }

  /** startServicePublish announces the size cut to 16 bits, so that many bytes
      are published. */
  function Published(ts: seq<Text>): ByteString {
    Frames(ts)[..|Frames(ts)| % TWO16]
  }

  function Utf8s(ts: seq<Text>): seq<ByteString> {
    if ts == [] then [] else [Utf8(ts[0])] + Utf8s(ts[1..])
  }

  /** The records that the loop of resolverCallback finds in a buffer of `txtLen`
      bytes, or None if it runs over the end of the buffer. */
  function Unframe(buf: ByteString, txtLen: Word16): Option<seq<ByteString>>
    decreases |buf|
  {
    if txtLen == 0 then Some([])
    else if buf == [] || |buf| < 1 + buf[0] as int then None
    else
      var next := 1 + buf[0] as int;
      var recs :- Unframe(buf[next..], (txtLen - next) % TWO16);
      Some([buf[1..next]] + recs)
  }

  function Prepend(recs: seq<ByteString>, rest: Option<seq<ByteString>>): Option<seq<ByteString>> {
    if rest.None? then None else Some(recs + rest.value)
  }

  /** The bytes that framing the records takes. */
  function FramedLength(recs: seq<ByteString>): nat {
    if recs == [] then 0 else 1 + |recs[0]| + FramedLength(recs[1..])
  }

  /** What is published is what fits: the first bytes of the buffer, fewer than 65536 of
      them, and a multiple of 65536 is lost. */
  lemma PublishedIsPrefix(ts: seq<Text>)
    ensures Published(ts) <= Frames(ts) && |Published(ts)| < 65536
    ensures (|Frames(ts)| - |Published(ts)|) % 65536 == 0
  {
  }

  /** The records found fill the beginning of the buffer, and they take up as many bytes
      as announced, give or take a multiple of 65536: the 16-bit counter wraps. */
  lemma {:induction false} UnframeCounts(buf: ByteString, txtLen: Word16)
    requires Unframe(buf, txtLen).Some?
    ensures var n := FramedLength(Unframe(buf, txtLen).value); n <= |buf| && n % 65536 == txtLen
    decreases |buf|
  {
    if txtLen > 0 {
      var next := 1 + buf[0] as int;
      var recs := Unframe(buf[next..], (txtLen - next) % TWO16).value;
      UnframeCounts(buf[next..], (txtLen - next) % TWO16);
      assert ([buf[1..next]] + recs)[1..] == recs;
      WrapsBack(txtLen, next, FramedLength(recs));
    }
  }

  lemma WrapsBack(len: int, next: int, n: nat)
    requires 0 <= len < TWO16 && n % 65536 == (len - next) % TWO16
    ensures (next + n) % 65536 == len
  {
  }

  /** A record is cut off where its length byte says: after as many bytes as the text has
      code units, modulo 256, be that in the middle of it or in the next one. */
  lemma FrameIsCut(t: Text, more: ByteString, txtLen: Word16, recs: seq<ByteString>)
    requires txtLen > 0 && Unframe(Frame(t) + more, txtLen) == Some(recs)
    ensures recs != [] && |recs[0]| == Units(t) % 256 && recs[0] <= Utf8(t) + more
  {
    var buf := Frame(t) + more;
    assert buf[0] == Units(t) % 256 && buf[1..] == Utf8(t) + more;
    assert recs[0] == buf[1..1 + Units(t) % 256];
  }

  /** A buffer that is read to its end is made up of its records. */
  lemma {:induction false} UnframeConsumesAll(buf: ByteString)
    requires |buf| < TWO16 && Unframe(buf, |buf|).Some?
    ensures FramedLength(Unframe(buf, |buf|).value) == |buf|
    decreases |buf|
  {
    if buf != [] {
      var next := 1 + buf[0] as int;
      UnframeConsumesAll(buf[next..]);
    }
  }

  lemma {:induction false} FramesLength(ts: seq<Text>)
    ensures |Frames(ts)| == FramedLength(Utf8s(ts))
  {
    if ts != [] {
      FramesLength(ts[1..]);
    }
  }

  /** The text can be framed: one byte per code unit, and a length of one byte. */
  predicate Framable(t: Text) {
    IsAscii(t) && |t| <= 255
  }

  lemma {:induction false} AsciiUnits(t: Text)
    requires IsAscii(t)
    ensures Units(t) == |t|
  {
    if t != [] {
      AsciiUnits(t[1..]);
    }
  }

  /** The length byte is the length of the bytes exactly for framable texts. */
  lemma LengthByteIsRight(t: Text)
    ensures Units(t) % 256 == |Utf8(t)| <==> Framable(t)
  {
    AsciiIffOneBytePerUnit(t);
    if IsAscii(t) {
      AsciiUnits(t);
    }
  }

  /** A frame whose length byte is right is read as one record. */
  lemma FrameIsRead(t: Text, more: ByteString, txtLen: Word16)
    requires Framable(t) && txtLen == |Frame(t) + more|
    ensures Unframe(Frame(t) + more, txtLen) == Prepend([Utf8(t)], Unframe(more, |more|))
  {
    LengthByteIsRight(t);
    FrontIsRead(Utf8(t), more, Frame(t) + more, txtLen);
  }

  lemma FrontIsRead(rec: ByteString, more: ByteString, buf: ByteString, txtLen: Word16)
    requires |rec| < 256 && buf == [|rec|] + rec + more && txtLen == |buf|
    ensures Unframe(buf, txtLen) == Prepend([rec], Unframe(more, |more|))
  {
    var next := 1 + |rec|;
    assert buf[0] == |rec| && buf[1..next] == rec && buf[next..] == more;
  }

  /** A frame whose length byte is wrong is not read as its text. */
  lemma FrameIsMisread(t: Text, more: ByteString, txtLen: Word16, recs: seq<ByteString>)
    requires !Framable(t) && txtLen > 0 && Unframe(Frame(t) + more, txtLen) == Some(recs)
    ensures recs != [] && recs[0] != Utf8(t)
  {
    LengthByteIsRight(t);
    assert (Frame(t) + more)[0] == Units(t) % 256;
  }

  /** Reading frames back gives the texts' bytes exactly if every text is framable. */
  lemma {:induction false} FramesAreRead(ts: seq<Text>)
    requires |Frames(ts)| < TWO16
    ensures Unframe(Frames(ts), |Frames(ts)|) == Some(Utf8s(ts)) <==> forall t <- ts :: Framable(t)
    decreases |ts|
  {
    if ts != [] {
      var t, more := ts[0], Frames(ts[1..]);
      FramesAreRead(ts[1..]);
      var recs := Unframe(Frames(ts), |Frames(ts)|);
      if Framable(t) {
        FrameIsRead(t, more, |Frames(ts)|);
        var rest := Unframe(more, |more|);
        if recs == Some(Utf8s(ts)) {
          assert ([Utf8(t)] + rest.value)[1..] == rest.value && Utf8s(ts)[1..] == Utf8s(ts[1..]);
        }
      } else if recs.Some? {
        FrameIsMisread(t, more, |Frames(ts)|, recs.value);
        assert Utf8s(ts)[0] == Utf8(t);
      }
      assert (forall x <- ts :: Framable(x)) <==> Framable(t) && forall x <- ts[1..] :: Framable(x) by {
        assert ts == [t] + ts[1..];
      }
    }
  }

  /** What is published is read back record by record -- no more, no less, and
      without running over the end -- if and only if every text is ASCII of at most
      255 characters and the whole buffer is below 65536 bytes. */
  lemma PublishedIsReadIff(ts: seq<Text>)
    ensures var buf := Published(ts);
            Unframe(buf, |buf|) == Some(Utf8s(ts)) <==>
            (forall t <- ts :: Framable(t)) && |Frames(ts)| < TWO16
  {
    var buf := Published(ts);
    if |Frames(ts)| < TWO16 {
      assert buf == Frames(ts);
      FramesAreRead(ts);
    } else if Unframe(buf, |buf|) == Some(Utf8s(ts)) {
      UnframeConsumesAll(buf);
      FramesLength(ts);
      assert false;
    }
  }

  /** The buffer being built for publication. */
  class TxtBuffer {
    var txt: ByteString
    ghost var texts: seq<Text>

    ghost predicate Valid()
      reads this
    {
      txt == Frames(texts)
    }

    constructor ()
      ensures Valid() && texts == []
    {
      txt, texts := [], [];
    }

    /** addServiceTxtRecord(nameOnly) */
    method AddName(nameOnly: Text)
      requires Valid()
      modifies this
      ensures Valid() && texts == old(texts) + [nameOnly]
    {
      var size := Units(nameOnly);
      txt := txt + [size % 256];
      txt := txt + Utf8(nameOnly);
      texts := texts + [nameOnly];
      FramesSnoc(old(texts), nameOnly);
    }

    /** addServiceTxtRecord(name, value) */
    method AddPair(name: Text, value: Text)
      requires Valid()
      modifies this
      ensures Valid() && texts == old(texts) + [name + "=" + value]
    {
      var text := name + "=";
      text := text + value;
      AddName(text);
    }

    /** clearServiceTxtRecords */
    method Clear()
      modifies this
      ensures Valid() && texts == []
    {
      txt, texts := [], [];
    }
  }

  lemma {:induction false} FramesSnoc(ts: seq<Text>, t: Text)
    ensures Frames(ts + [t]) == Frames(ts) + Frame(t)
  {
    if ts == [] {
      assert ts + [t] == [t] && [t][1..] == [];
    } else {
      FramesSnoc(ts[1..], t);
      assert (ts + [t])[0] == ts[0] && (ts + [t])[1..] == ts[1..] + [t];
      Associative(Frame(ts[0]), Frames(ts[1..]), Frame(t));
    }
  }

  /** The map after the records found have been added. */
  function Collected(m: TxtMap, recs: Option<seq<ByteString>>): Option<TxtMap> {
    if recs.None? then None else Some(AddRecords(m, recs.value))
  }

  /** The loop of resolverCallback over the received TXT data: the map with all
      records added in order, or None where it would read past the buffer. */
  method ReadTxt(buf: ByteString, len: Word16, m: TxtMap) returns (r: Option<TxtMap>)
    ensures r == Collected(m, Unframe(buf, len))
  {
    var txtLen, txtRecord := len, 0;
    var txt := m;
    assert buf[0..] == buf;
    ghost var goal := Collected(m, Unframe(buf, len));
    while txtLen > 0
      invariant 0 <= txtLen < TWO16 && 0 <= txtRecord <= |buf|
      invariant goal == Collected(txt, Unframe(buf[txtRecord..], txtLen))
      decreases |buf| - txtRecord
    {
      if txtRecord == |buf| {
        RunsOver(buf, txtRecord, txtLen);
        return None;
      }
      var recLen: int := buf[txtRecord];
      txtRecord := txtRecord + 1;
      if |buf| < txtRecord + recLen {
        RunsOver(buf, txtRecord - 1, txtLen);
        return None;
      }
      var rec := buf[txtRecord..txtRecord + recLen];
      ghost var before, at := txt, txtRecord - 1;
      txt := Insert(txt, rec);
      txtRecord := txtRecord + recLen;
      UnframeStep(buf, at, txtLen, before, rec, txtRecord);
      txtLen := (txtLen - (recLen + 1)) % TWO16;
    }
    r := Some(txt);
  }

  lemma RunsOver(buf: ByteString, at: nat, txtLen: Word16)
    requires 0 < txtLen && at <= |buf| && (at == |buf| || |buf| < at + 1 + buf[at] as int)
    ensures Unframe(buf[at..], txtLen) == None
  {
  }

  lemma UnframeStep(buf: ByteString, at: nat, txtLen: Word16, m: TxtMap, rec: ByteString, next: nat)
    requires 0 < txtLen && at < |buf| && next == at + 1 + buf[at] as int <= |buf| && rec == buf[at + 1..next]
    ensures Collected(m, Unframe(buf[at..], txtLen)) ==
            Collected(AddRecord(m, rec), Unframe(buf[next..], (txtLen - (next - at)) % TWO16))
  {
    var rest := buf[at..];
    assert rest[1..next - at] == rec && rest[next - at..] == buf[next..];
    var recs := Unframe(buf[next..], (txtLen - (next - at)) % TWO16);
    if recs.Some? {
      assert ([rec] + recs.value)[1..] == recs.value;
    }
  }

  // Names and values from publisher to browser

  lemma {:induction false} Utf8Concat(s: Text, t: Text)
    ensures Utf8(s + t) == Utf8(s) + Utf8(t)
  {
    if s == [] {
      assert s + t == t;
    } else {
      Utf8Concat(s[1..], t);
      assert (s + t)[0] == s[0] && (s + t)[1..] == s[1..] + t;
      Associative(Utf8Char(s[0]), Utf8(s[1..]), Utf8(t));
    }
  }

  /** All bytes of a character beyond ASCII have their high bit set. */
  lemma EqualsChar(c: char)
    ensures EQUALS in Utf8Char(c) <==> c == '='
  {
  }

  lemma {:induction false} EqualsByte(t: Text)
    ensures EQUALS in Utf8(t) <==> '=' in t
  {
    if t != [] {
      EqualsChar(t[0]);
      EqualsByte(t[1..]);
    }
  }

  /** What addServiceTxtRecord(name, value) publishes splits back into the name and
      the value if and only if there is no '=' in the name. */
  lemma PairSplitsIff(name: Text, value: Text)
    ensures var rec := Utf8(name + "=" + value);
            NameOf(rec) == Utf8(name) && ValueOf(rec) == Utf8(value) <==> '=' !in name
  {
    Utf8Concat(name + "=", value);
    Utf8Concat(name, "=");
    assert Utf8("=") == [EQUALS];
    EqualsByte(name);
    if '=' !in name {
      NameAndValueSplit(Utf8(name), Utf8(value));
    }
  }

  datatype Pair = Pair(name: Text, value: Text)

  function TextOf(p: Pair): Text {
    p.name + "=" + p.value
  }

  function Texts(ps: seq<Pair>): seq<Text> {
    if ps == [] then [] else [TextOf(ps[0])] + Texts(ps[1..])
  }

  /** The values last set, as a publisher thinks of them. */
  function LastValues(m: map<Text, Text>, ps: seq<Pair>): map<Text, Text>
    decreases |ps|
  {
    if ps == [] then m else LastValues(m[ps[0].name := ps[0].value], ps[1..])
  }

  /** The browser's map says what the publisher's map says, and no more. */
  ghost predicate Conveys(m: TxtMap, values: map<Text, Text>) {
    && (forall name <- values :: IsAscii(name) && Utf8(name) in m && m[Utf8(name)] == Utf8(values[name]))
    && (forall k <- m :: exists name :: name in values && Utf8(name) == k)
  }

  lemma {:induction false} AsciiIsInjective(s: Text, t: Text)
    requires IsAscii(s) && IsAscii(t) && Utf8(s) == Utf8(t)
    ensures s == t
  {
    if s != [] && t != [] {
      assert Utf8(s)[0] == s[0] as int && Utf8(t)[0] == t[0] as int;
      assert Utf8(s)[1..] == Utf8(s[1..]) && Utf8(t)[1..] == Utf8(t[1..]);
      AsciiIsInjective(s[1..], t[1..]);
      assert s == [s[0]] + s[1..] && t == [t[0]] + t[1..];
    }
  }

  lemma ConveysPut(m: TxtMap, values: map<Text, Text>, p: Pair)
    requires Conveys(m, values) && IsAscii(p.name)
    ensures Conveys(m[Utf8(p.name) := Utf8(p.value)], values[p.name := p.value])
  {
    var m', values' := m[Utf8(p.name) := Utf8(p.value)], values[p.name := p.value];
    forall name | name in values' ensures Utf8(name) in m' && m'[Utf8(name)] == Utf8(values'[name]) {
      if name != p.name && Utf8(name) == Utf8(p.name) {
        AsciiIsInjective(name, p.name);
      }
    }
    forall k | k in m' ensures exists name :: name in values' && Utf8(name) == k {
      if k == Utf8(p.name) {
        assert p.name in values';
      } else {
        var name :| name in values && Utf8(name) == k;
        assert name in values';
      }
    }
  }

  lemma {:induction false} PairsAreConveyed(m: TxtMap, values: map<Text, Text>, ps: seq<Pair>)
    requires Conveys(m, values) && forall p <- ps :: IsAscii(TextOf(p)) && '=' !in p.name
    ensures Conveys(AddRecords(m, Utf8s(Texts(ps))), LastValues(values, ps))
    decreases |ps|
  {
    if ps != [] {
      var p, recs := ps[0], Utf8s(Texts(ps));
      assert forall i | 0 <= i < |p.name| :: p.name[i] == TextOf(p)[i];
      ConveysPut(m, values, p);
      PairSplitsIff(p.name, p.value);
      assert Texts(ps)[1..] == Texts(ps[1..]) && recs[1..] == Utf8s(Texts(ps[1..]));
      PairsAreConveyed(AddRecord(m, recs[0]), values[p.name := p.value], ps[1..]);
    }
  }

  lemma {:induction false} TextsAreFramable(ps: seq<Pair>)
    requires forall p <- ps :: Framable(TextOf(p))
    ensures forall t <- Texts(ps) :: Framable(t)
  {
    if ps != [] {
      TextsAreFramable(ps[1..]);
    }
  }

  /** Publishing pairs whose records can be framed and whose names have no '=' in
      them, and reading them into an empty map, yields the values last set. */
  lemma PublishedPairsArrive(ps: seq<Pair>)
    requires (forall p <- ps :: Framable(TextOf(p)) && '=' !in p.name) && |Frames(Texts(ps))| < TWO16
    ensures var buf := Published(Texts(ps));
            var m := Collected(map[], Unframe(buf, |buf|));
            m.Some? && Conveys(m.value, LastValues(map[], ps))
  {
    TextsAreFramable(ps);
    PublishedIsReadIff(Texts(ps));
    PairsAreConveyed(map[], map[], ps);
  }
}
