/** get_clock as the code runs it: thread-local statics, a state file shared by
    all processes and read and rewritten under its lock (sections 4.2.1.2 to
    4.2.1.4 of RFC 4122), and the loop over clock readings. */
module ClockFile {
  import opened Bytes
  import opened Options
  import opened CText
  import opened UuidLayout
  import opened UuidTime
  import opened Clock

  // The state line

  /** The conversions of the line: printed as %04x, %016lu, %08lu and %08d,
      scanned as %04x, %lu, %lu and %d. */
  const FIELDS: seq<Field> := [
    Field("", Hex, 4, Some(4)), Field("tv:", Decimal, 16, None),
    Field("", Decimal, 8, None), Field("adj:", Decimal, 8, None)
  ]

  /** The printed numbers; signed longs are printed as unsigned ones. */
  function Numbers(s: State): seq<Number> {
    [Number(false, s.clockSeq), Number(false, s.last.sec % TWO64), Number(false, s.last.usec % TWO64),
     Number(s.adj < 0, if s.adj < 0 then -s.adj else s.adj)]
  }

  function StateLine(s: State): string {
    "clock:" + PrintFields(FIELDS, Numbers(s)) + "\n"
  }

  /** A 64-bit pattern stored into a signed type. */
  function Signed(v: int): int {
    if v < TWO64 / 2 then v else v - TWO64
  }

  /** fscanf of the state line; None unless all four conversions succeed. */
  function ScanState(text: string): Option<State> {
    ScanStateWith(text, FIELDS)
  }

  function ScanStateWith(text: string, fields: seq<Field>): Option<State>
    requires |fields| == 4
  {
    var rest :- Literal(text, "clock:");
    var ns :- ScanFields(rest, fields);
    Some(FromNumbers(ns))
  }

  function FromNumbers(ns: seq<Number>): State
    requires |ns| == 4
  {
    State(TimeVal(Signed(ToUnsignedLong(ns[1])), Signed(ToUnsignedLong(ns[2]))), ToInt(ns[3]),
          ToUnsignedLong(ns[0]) % SEQUENCES)
  }

  /** States that get_clock can leave behind and that fit their C types. */
  predicate Storable(s: State) {
    WellFormed(s) && -TWO64 / 2 <= s.last.sec < TWO64 / 2
  }

  /** Scanning a printed state gives the state back, whatever is left in the file
      after the line. */
  lemma StateLineRoundTrip(s: State, tail: string)
    requires Storable(s)
    ensures ScanState(StateLine(s) + tail) == Some(s)
  {
    FieldsFit(s);
    LineRoundTrip(FIELDS, Numbers(s), tail);
    NumbersRoundTrip(s);
  }

  /** The line written: fixed captions, a sequence of four hexadecimal digits, seconds
      of at least sixteen and microseconds and adjustment of at least eight decimal digits. */
  lemma StateLineFormat(s: State, hex: nat, sec: nat, rest: nat)
    requires WellFormed(s) && 0 <= s.last.sec < TWO64 && hex == 4 && sec == 16 && rest == 8
    ensures StateLine(s) ==
            "clock:"
            + ((" " + Print(s.clockSeq, Hex, hex, false))
               + ((" tv: " + Print(s.last.sec, Decimal, sec, false))
                  + ((" " + Print(s.last.usec, Decimal, rest, false))
                     + (" adj: " + Print(s.adj, Decimal, rest, false)))))
            + "\n"
  {
    FourFields(FIELDS, Numbers(s));
    Captions();
    SameNumbers(FIELDS, Numbers(s), s, hex, sec, rest);
  }

  lemma SameNumbers(fields: seq<Field>, ns: seq<Number>, s: State, hex: nat, sec: nat, rest: nat)
    requires |fields| == |ns| == 4 && ns == Numbers(s) && WellFormed(s) && 0 <= s.last.sec < TWO64
    requires fields[0].base == Hex && fields[1].base == fields[2].base == fields[3].base == Decimal
    requires fields[0].width == hex && fields[1].width == sec && fields[2].width == fields[3].width == rest
    ensures PrintField(fields[0], ns[0]) == Lead(fields[0]) + Print(s.clockSeq, Hex, hex, false)
    ensures PrintField(fields[1], ns[1]) == Lead(fields[1]) + Print(s.last.sec, Decimal, sec, false)
    ensures PrintField(fields[2], ns[2]) == Lead(fields[2]) + Print(s.last.usec, Decimal, rest, false)
    ensures PrintField(fields[3], ns[3]) == Lead(fields[3]) + Print(s.adj, Decimal, rest, false)
  {
  }

  lemma Captions()
    ensures Lead(FIELDS[0]) == " " && Lead(FIELDS[1]) == " tv: "
    ensures Lead(FIELDS[2]) == " " && Lead(FIELDS[3]) == " adj: "
  {
  }

  function PrintField(f: Field, n: Number): string {
    Lead(f) + PrintNumber(n, f.base, f.width)
  }

  lemma FieldsFrom(fields: seq<Field>, ns: seq<Number>, k: nat)
    requires k < |fields| == |ns|
    ensures PrintFields(fields[k..], ns[k..]) ==
            PrintField(fields[k], ns[k]) + PrintFields(fields[k + 1..], ns[k + 1..])
  {
    assert fields[k..][1..] == fields[k + 1..] && ns[k..][1..] == ns[k + 1..];
  }

  lemma FourFields(fields: seq<Field>, ns: seq<Number>)
    requires |fields| == |ns| == 4
    ensures PrintFields(fields, ns) ==
            PrintField(fields[0], ns[0])
            + (PrintField(fields[1], ns[1]) + (PrintField(fields[2], ns[2]) + PrintField(fields[3], ns[3])))
  {
    FieldsFrom(fields, ns, 3);
    FieldsFrom(fields, ns, 2);
    FieldsFrom(fields, ns, 1);
    FieldsFrom(fields, ns, 0);
    assert fields[0..] == fields && ns[0..] == ns && PrintFields(fields[4..], ns[4..]) == [];
    assert PrintField(fields[3], ns[3]) + [] == PrintField(fields[3], ns[3]);
  }

  lemma LineRoundTrip(fields: seq<Field>, ns: seq<Number>, tail: string)
    requires |fields| == |ns| == 4 && forall i | 0 <= i < 4 :: Fits(fields[i], ns[i])
    ensures ScanStateWith("clock:" + PrintFields(fields, ns) + "\n" + tail, fields) == Some(FromNumbers(ns))
  {
    CText.ScanInvertsPrint(fields, ns, "\n" + tail);
    LineScans(fields, ns, PrintFields(fields, ns), tail);
  }

  lemma {:induction false} LineScans(fields: seq<Field>, ns: seq<Number>, body: string, tail: string)
    requires |fields| == |ns| == 4 && ScanFields(body + ("\n" + tail), fields) == Some(ns)
    ensures ScanStateWith("clock:" + body + "\n" + tail, fields) == Some(FromNumbers(ns))
  {
    var rest, text := body + ("\n" + tail), "clock:" + body + "\n" + tail;
    assert text == "clock:" + rest;
    ScansAs(text, fields, rest, ns);
  }

  lemma ScansAs(text: string, fields: seq<Field>, rest: string, ns: seq<Number>)
    requires |fields| == |ns| == 4 && text == "clock:" + rest && ScanFields(rest, fields) == Some(ns)
    ensures ScanStateWith(text, fields) == Some(FromNumbers(ns))
  {
    assert text[6..] == rest;
    assert Literal(text, "clock:") == Some(rest);
  }

  /** A sequence of more than four hexadecimal digits is not scanned: the fifth digit
      stands where the next caption is expected. */
  lemma LongSequenceIsRefused(d: string, rest: string)
    requires |d| > 4 && AllDigits(d, Hex)
    ensures ScanState("clock:" + (" " + d + rest)) == None
  {
    var text, body, digits := "clock:" + (" " + d + rest), " " + d + rest, d + rest;
    assert text[6..] == body && body == " " + digits;
    DigitsWithin(d, digits, 4);
    BlankIsSkipped(digits, Hex, 4);
    ScanDigits(digits, 4, Hex, 4);
    assert IsDigit(digits[4], Hex) && digits[4..][0] == digits[4];
    NoCaption(digits[4..]);
    assert ScanFields(body, FIELDS) == None;
  }

  lemma DigitsWithin(d: string, s: string, k: nat)
    requires k <= |d| && d <= s && AllDigits(d, Hex)
    ensures AllDigits(s[..k], Hex) && forall i | 0 <= i < |d| :: IsDigit(s[i], Hex)
  {
    assert s[..k] == d[..k];
  }

  lemma NoCaption(s: string)
    requires s != [] && IsDigit(s[0], Hex)
    ensures ScanCaption(s, FIELDS[1]) == None
  {
  }

  lemma NumbersRoundTrip(s: State)
    requires Storable(s)
    ensures FromNumbers(Numbers(s)) == s
  {
  }

  lemma FieldsFit(s: State)
    requires Storable(s)
    ensures forall i | 0 <= i < 4 :: Fits(FIELDS[i], Numbers(s)[i])
  {
    assert Limit(Hex, 4) == 0x1_0000;
  }

  /** Rewriting the file from its start; if cutting it off after the line fails,
      blanks and the rest of the old text remain. */
  function Rewritten(old': string, line: string, truncated: bool): string {
    if truncated then line
    else
      var text := line + "                   \n";
      if |text| < |old'| then text + old'[|text|..] else text
  }

  lemma RewrittenStartsWithLine(old': string, line: string, truncated: bool) returns (tail: string)
    ensures Rewritten(old', line, truncated) == line + tail
  {
    var blanks := "                   \n";
    var text := line + blanks;
    tail := if truncated then "" else if |text| < |old'| then blanks + old'[|text|..] else blanks;
  }

  /** The text after rewriting, place by place: the line, then nothing, or nineteen
      blanks, a newline and whatever was further behind. */
  lemma RewrittenByPlace(old': string, line: string, truncated: bool)
    ensures var text := Rewritten(old', line, truncated);
            && |text| == (if truncated then |line| else if |line| + 20 < |old'| then |old'| else |line| + 20)
            && forall i | 0 <= i < |text| ::
                 text[i] == if i < |line| then line[i] else if i < |line| + 19 then ' '
                            else if i == |line| + 19 then '\n' else old'[i]
  {
  }

  // One call

  /** What a call of get_clock is given: the request, a random sequence and a
      first reading in case there is no state yet, and whether ftruncate works. */
  datatype Call = Call(request: Request, seed: Word16, first: TimeVal, truncated: bool)

  /** The statics of a thread that has not called get_clock before. */
  const FRESH: State := State(TimeVal(0, 0), 0, 0)

  /** The state a call starts from: the file's if it can be scanned, else the
      thread's own, else a new one from a second ago. */
  function Entry(own: State, text: Option<string>, c: Call): State {
    var s := if text.Some? && ScanState(text.value).Some? then ScanState(text.value).value else own;
    if s.last == TimeVal(0, 0) then State(TimeVal(c.first.sec - 1, c.first.usec), s.adj, c.seed % SEQUENCES) else s
  }

  function OwnOf(own: map<nat, State>, p: nat): State {
    if p in own then own[p] else FRESH
  }

  /** The state that a call by process or thread `p` starts from; one that is met for
      the first time has fresh statics. */
  function Loaded(text: string, own: map<nat, State>, p: nat, c: Call): State {
    Entry(OwnOf(own, p), Some(text), c)
  }

  function TextAfter(text: string, s: State, c: Call): string {
    if Accepted(s, c.request.polls).None? then text
    else Rewritten(text, StateLine(Step(s, c.request)), c.truncated)
  }

  class StateFile {
    var text: string

    constructor ()
      ensures text == ""
    {
      text := "";
    }
  }

  /** The thread-local statics of get_clock. */
  class ClockThread {
    var last: TimeVal
    var adjustment: int
    var clockSeq: ClockSeq

    constructor ()
      ensures Statics() == FRESH
    {
      last, adjustment, clockSeq := TimeVal(0, 0), 0, 0;
    }

    ghost function Statics(): State
      reads this
    {
      State(last, adjustment, clockSeq)
    }

    /** The first part of get_clock: take the state over from the file, or make
        up a first one. */
    method Load(file: StateFile?, c: Call)
      modifies this
      ensures Statics() == Entry(old(Statics()), if file == null then None else Some(file.text), c)
    {
      if file != null {
        var scanned := ScanState(file.text);
        if scanned.Some? {
          clockSeq := scanned.value.clockSeq;
          last := scanned.value.last;
          adjustment := scanned.value.adj;
        }
      }
      if last.sec == 0 && last.usec == 0 {
        clockSeq := c.seed % SEQUENCES;
        last := c.first;
        last := last.(sec := last.sec - 1);
      }
    }

    /** The loop at try_again: the reading that was accepted, if any was. */
    method Poll(polls: seq<TimeVal>) returns (tv: Option<TimeVal>)
      modifies this
      ensures tv == Accepted(old(Statics()), polls)
      ensures Statics() == if tv.Some? then Advance(old(Statics()), tv.value) else old(Statics())
    {
      for i := 0 to |polls|
        invariant Statics() == old(Statics())
        invariant Accepted(old(Statics()), polls) == Accepted(old(Statics()), polls[i..])
      {
        var poll := polls[i];
        if poll.sec < last.sec || (poll.sec == last.sec && poll.usec < last.usec) {
          clockSeq := (clockSeq + 1) % SEQUENCES;
          adjustment := 0;
          last := poll;
          return Some(poll);
        } else if poll.sec == last.sec && poll.usec == last.usec {
          if adjustment < MAX_ADJUSTMENT {
            adjustment := adjustment + 1;
            return Some(poll);
          }
        } else {
          adjustment := 0;
          last := poll;
          return Some(poll);
        }
      }
      return None;
    }

    /** The bulk reservation. */
    method ReserveBulk(num: int)
      modifies this
      ensures Statics() == Reserve(old(Statics()), num)
    {
      if num > 1 {
        adjustment := adjustment + num - 1;
        last := last.(usec := last.usec + CDiv(adjustment, 10));
        adjustment := CMod(adjustment, 10);
        last := last.(sec := last.sec + CDiv(last.usec, 1_000_000));
        last := last.(usec := CMod(last.usec, 1_000_000));
      }
    }

    /** get_clock: the register and sequence of the first tick reserved, or None
        while the clock has stalled on every poll so far. */
    method GetClock(file: StateFile?, c: Call) returns (r: Option<(Word64, ClockSeq)>)
      modifies this, file
      ensures var s := Entry(old(Statics()), if file == null then None else Some(old(file.text)), c);
              var tv := Accepted(s, c.request.polls);
              && Statics() == Step(s, c.request)
              && (r.Some? <==> tv.Some?)
              && (r.Some? ==> r.value == (Register(Tick(Advance(s, tv.value))), Advance(s, tv.value).clockSeq))
              && (file != null ==> file.text == TextAfter(old(file.text), s, c))
    {
      Load(file, c);
      ghost var s := Statics();
      var tv := Poll(c.request.polls);
      if tv.None? {
        return None;
      }
      var reg := SumUp(tv.value, adjustment);
      assert Tick(Advance(s, tv.value)) == TickOf(tv.value, adjustment);
      r := Some((reg, clockSeq));
      ReserveBulk(c.request.num);
      if file != null {
        file.text := Rewritten(file.text, StateLine(State(last, adjustment, clockSeq)), c.truncated);
      }
    }
  }

  /** Adding up the register with wrap-around after each addition. */
  method SumUp(tv: TimeVal, adjustment: int) returns (reg: Word64)
    ensures reg == Register(TickOf(tv, adjustment))
  {
    var sum := tv.usec * 10 + adjustment;
    sum := (sum + tv.sec * TICKS_PER_SECOND) % TWO64;
    WrapOnce(TickOf(tv, adjustment), OFFSET);
    reg := (sum + OFFSET) % TWO64;
  }

  lemma WrapOnce(a: int, b: int)
    ensures (a % TWO64 + b) % TWO64 == (a + b) % TWO64
  {
    assert a + b == a / TWO64 * TWO64 + (a % TWO64 + b);
  }

  /** uuid__generate_time: the UUID of the first tick reserved, or nothing while
      get_clock still spins. */
  method GenerateTime(t: ClockThread, file: StateFile?, c: Call, node: Node, out: array<Byte>) returns (ok: bool)
    requires out.Length == 16
    modifies t, file, out
    ensures var s := Entry(old(t.Statics()), if file == null then None else Some(old(file.text)), c);
            var tv := Accepted(s, c.request.polls);
            && (ok <==> tv.Some?)
            && t.Statics() == Step(s, c.request)
            && (file != null ==> file.text == TextAfter(old(file.text), s, c))
            && (ok ==> var s' := Advance(s, tv.value);
                       out[..] == Wire(Stamp(Register(Tick(s')), s'.clockSeq, node)))
  {
    var clock := t.GetClock(file, c);
    if clock.None? {
      return false;
    }
    PackTime(clock.value.0, clock.value.1, node, out);
    return true;
  }

  // Processes taking turns under the lock

  datatype Turn = Turn(process: nat, call: Call)

  function Requests(turns: seq<Turn>): seq<Request> {
    seq(|turns|, i requires 0 <= i < |turns| => turns[i].call.request)
  }

  /** The blocks given out when processes with statics `own` call get_clock in
      turn on one state file. */
  function SharedRun(text: string, own: map<nat, State>, epoch: nat, turns: seq<Turn>): seq<Block>
    decreases |turns|
  {
    if turns == [] then []
    else
      var p, c := turns[0].process, turns[0].call;
      var s := Loaded(text, own, p, c);
      Granted(s, epoch, c.request)
      + SharedRun(TextAfter(text, s, c), own[p := Step(s, c.request)], NextEpoch(s, epoch, c.request), turns[1..])
  }

  lemma {:induction false} TurnCons(text: string, own: map<nat, State>, epoch: nat, turn: Turn, rest: seq<Turn>,
                                    s: State)
    requires s == Loaded(text, own, turn.process, turn.call)
    ensures SharedRun(text, own, epoch, [turn] + rest) ==
            Granted(s, epoch, turn.call.request)
            + SharedRun(TextAfter(text, s, turn.call), own[turn.process := Step(s, turn.call.request)],
                        NextEpoch(s, epoch, turn.call.request), rest)
  {
    assert ([turn] + rest)[1..] == rest;
  }

  /** A reading that is a time_t with room for the bulk carry and that cannot be
      mistaken for a missing state. */
  predicate IsStorableReading(tv: TimeVal) {
    IsReading(tv) && tv != TimeVal(0, 0) && tv.sec < TWO60
  }

  /** A call whose count is an int. */
  predicate IsCall(c: Call) {
    IsStorableReading(c.first) && c.request.num < 0x8000_0000 && forall tv <- c.request.polls :: IsStorableReading(tv)
  }

  /** The file holds a state that the next call takes over. */
  predicate HasState(text: string, s: State) {
    ScanState(text) == Some(s) && Storable(s) && s.last != TimeVal(0, 0)
  }

  lemma StepIsStorable(s: State, c: Call)
    requires WellFormed(s) && IsCall(c) && Accepted(s, c.request.polls).Some?
    ensures Storable(Step(s, c.request)) && Step(s, c.request).last != TimeVal(0, 0)
  {
    var tv := Accepted(s, c.request.polls).value;
    assert IsStorableReading(tv);
    ReserveCountsTicks(Advance(s, tv), c.request.num);
  }

  lemma WrittenStateIsRead(text: string, s: State, c: Call)
    requires WellFormed(s) && IsCall(c) && Accepted(s, c.request.polls).Some?
    ensures HasState(TextAfter(text, s, c), Step(s, c.request))
  {
    var s' := Step(s, c.request);
    StepIsStorable(s, c);
    var tail := RewrittenStartsWithLine(text, StateLine(s'), c.truncated);
    StateLineRoundTrip(s', tail);
  }

  lemma StateStays(text: string, s: State, c: Call) returns (text': string)
    requires HasState(text, s) && IsCall(c)
    ensures text' == TextAfter(text, s, c) && HasState(text', Step(s, c.request))
  {
    text' := TextAfter(text, s, c);
    if Accepted(s, c.request.polls).Some? {
      WrittenStateIsRead(text, s, c);
    }
  }

  /** One turn on a file that holds a state. */
  lemma {:induction false} TurnOnState(text: string, own: map<nat, State>, epoch: nat, turns: seq<Turn>, s: State)
    returns (text': string, own': map<nat, State>)
    requires HasState(text, s) && turns != [] && IsCall(turns[0].call)
    ensures var r := turns[0].call.request;
            && HasState(text', Step(s, r))
            && SharedRun(text, own, epoch, turns) ==
               Granted(s, epoch, r) + SharedRun(text', own', NextEpoch(s, epoch, r), turns[1..])
  {
    var p, c := turns[0].process, turns[0].call;
    text' := StateStays(text, s, c);
    own' := own[p := Step(s, c.request)];
    assert Loaded(text, own, p, c) == s;
  }

  lemma {:induction false} RunOfTurns(s: State, epoch: nat, turns: seq<Turn>)
    requires turns != []
    ensures var r := turns[0].call.request;
            Run(s, epoch, Requests(turns)) ==
            Granted(s, epoch, r) + Run(Step(s, r), NextEpoch(s, epoch, r), Requests(turns[1..]))
  {
    var r := turns[0].call.request;
    assert Requests(turns) == [r] + Requests(turns[1..]);
    RunCons(s, epoch, r, Requests(turns[1..]));
  }

  /** While the file holds a state, the statics of the processes are irrelevant:
      their calls form one sequential run. */
  lemma {:induction false} SharedRunIsOneRun(text: string, own: map<nat, State>, epoch: nat, turns: seq<Turn>, s: State)
    requires HasState(text, s) && forall t <- turns :: IsCall(t.call)
    ensures SharedRun(text, own, epoch, turns) == Run(s, epoch, Requests(turns))
    decreases |turns|
  {
    if turns != [] {
      var r := turns[0].call.request;
      var text', own' := TurnOnState(text, own, epoch, turns, s);
      SharedRunIsOneRun(text', own', NextEpoch(s, epoch, r), turns[1..], Step(s, r));
      RunOfTurns(s, epoch, turns);
    }
  }

  /** The state that the first call on a new file makes up. */
  function FirstState(c: Call): State {
    State(TimeVal(c.first.sec - 1, c.first.usec), 0, c.seed % SEQUENCES)
  }

  /** Fresh processes sharing a state file that is new, or that cannot be scanned,
      form one sequential run, from the state the first of them makes up. */
  lemma {:induction false} ProcessesFormOneRun(text: string, turns: seq<Turn>)
    requires ScanState(text).None?
    requires turns != [] && turns[0].call.request.polls != [] && forall t <- turns :: IsCall(t.call)
    ensures SharedRun(text, map[], 0, turns) == Run(FirstState(turns[0].call), 0, Requests(turns))
  {
    var p, c := turns[0].process, turns[0].call;
    var s := FirstState(c);
    assert Entry(FRESH, Some(text), c) == s;
    assert Accepted(s, c.request.polls) == Some(c.request.polls[0]);
    WrittenStateIsRead(text, s, c);
    SharedRunIsOneRun(TextAfter(text, s, c), map[p := Step(s, c.request)], NextEpoch(s, 0, c.request), turns[1..],
                      Step(s, c.request));
    assert Requests(turns)[1..] == Requests(turns[1..]);
  }

  /** Hence no two processes ever reserve one tick under one sequence, if and only
      if no request collides, as long as the time goes back fewer than 2^14 times. */
  lemma {:induction false} ProcessesNeverShareATick(text: string, turns: seq<Turn>)
    requires ScanState(text).None?
    requires turns != [] && turns[0].call.request.polls != [] && forall t <- turns :: IsCall(t.call)
    requires BackwardSteps(FirstState(turns[0].call), Requests(turns)) < SEQUENCES
    ensures AllDisjoint(SharedRun(text, map[], 0, turns)) <==> CollisionFree(FirstState(turns[0].call), Requests(turns))
  {
    ProcessesFormOneRun(text, turns);
    RequestsOfCalls(turns);
    FreshRunIsUniqueIff(FirstState(turns[0].call), 0, Requests(turns));
  }

  lemma RequestsOfCalls(turns: seq<Turn>)
    requires forall t <- turns :: IsCall(t.call)
    ensures forall r <- Requests(turns) :: IsRequest(r)
  {
    forall r | r in Requests(turns) ensures IsRequest(r) {
      var i :| 0 <= i < |turns| && r == turns[i].call.request;
      assert IsCall(turns[i].call);
    }
  }

  /** A clock at the very beginning of 1970 is the exception: the state it leaves
      behind is taken for a missing one, so the next call makes up another, and two
      calls that read this time and draw the same sequence share a tick although
      nothing collides and the time never goes back. */
  lemma {:induction false} ZeroReadingRepeats(text: string, c: Call, p: nat, q: nat)
    requires ScanState(text).None? && p != q
    requires c.request == Request([TimeVal(0, 0)], 1) && c.first == TimeVal(0, 0)
    ensures CollisionFree(FirstState(c), [c.request, c.request])
    ensures BackwardSteps(FirstState(c), [c.request, c.request]) == 0
    ensures !AllDisjoint(SharedRun(text, map[], 0, [Turn(p, c), Turn(q, c)]))
  {
    var b := Block(0, 1, c.seed % SEQUENCES, 0);
    SameReadTwice(FirstState(c), c.request, TimeVal(0, 0));
    TwoFreshTurns(text, [Turn(p, c), Turn(q, c)], b);
    assert Holds([b, b][0], 0, b.clockSeq) && Holds([b, b][1], 0, b.clockSeq);
  }

  predicate ReadsFrom(c: Call, readings: set<TimeVal>) {
    c.first in readings && c.request.num < 0x8000_0000 && forall tv <- c.request.polls :: tv in readings
  }

  /** A run of fresh processes on a clock that shows only these times, without
      collisions and with fewer than 2^14 backward steps. */
  ghost predicate IsTameRun(readings: set<TimeVal>, turns: seq<Turn>) {
    && turns != [] && turns[0].call.request.polls != [] && (forall t <- turns :: ReadsFrom(t.call, readings))
    && CollisionFree(FirstState(turns[0].call), Requests(turns))
    && BackwardSteps(FirstState(turns[0].call), Requests(turns)) < SEQUENCES
  }

  ghost predicate NoTickIsShared(text: string, readings: set<TimeVal>) {
    forall turns | IsTameRun(readings, turns) :: AllDisjoint(SharedRun(text, map[], 0, turns))
  }

  /** Processes that share a new state file never share a tick, whatever times the
      clock shows, if and only if time zero is not among them. */
  lemma {:induction false} NoTickIsSharedIff(text: string, readings: set<TimeVal>)
    requires ScanState(text).None? && forall tv <- readings :: IsReading(tv) && tv.sec < TWO60
    ensures NoTickIsShared(text, readings) <==> TimeVal(0, 0) !in readings
  {
    if TimeVal(0, 0) in readings {
      var c := Call(Request([TimeVal(0, 0)], 1), 0, TimeVal(0, 0), true);
      ZeroReadingRepeats(text, c, 0, 1);
      ZeroRunIsTame(readings, [Turn(0, c), Turn(1, c)]);
    } else {
      forall turns: seq<Turn> | IsTameRun(readings, turns) ensures AllDisjoint(SharedRun(text, map[], 0, turns)) {
        forall t: Turn | t in turns ensures IsCall(t.call) {
          assert ReadsFrom(t.call, readings);
        }
        ProcessesNeverShareATick(text, turns);
      }
    }
  }

  lemma {:induction false} ZeroRunIsTame(readings: set<TimeVal>, turns: seq<Turn>)
    requires |turns| == 2 && turns[0].call == turns[1].call && ReadsFrom(turns[0].call, readings)
    requires var c := turns[0].call;
             && c.request.polls != [] && CollisionFree(FirstState(c), [c.request, c.request])
             && BackwardSteps(FirstState(c), [c.request, c.request]) == 0
    ensures IsTameRun(readings, turns)
  {
    assert Requests(turns) == [turns[0].call.request, turns[0].call.request];
  }

  predicate ReadsZero(c: Call, b: Block) {
    && c.request == Request([TimeVal(0, 0)], 1) && c.first == TimeVal(0, 0)
    && b == Block(0, 1, c.seed % SEQUENCES, 0)
  }

  lemma {:induction false} TwoFreshTurns(text: string, turns: seq<Turn>, b: Block)
    requires ScanState(text).None? && |turns| == 2 && turns[0].process != turns[1].process
    requires ReadsZero(turns[0].call, b) && ReadsZero(turns[1].call, b)
    ensures SharedRun(text, map[], 0, turns) == [b, b]
  {
    var text1, own1 := FreshTurn(text, map[], turns, b);
    var text2, own2 := FreshTurn(text1, own1, turns[1..], b);
  }

  /** A process that is new starts over if the file holds no state, or one of time zero,
      and leaves one of time zero behind if that is what it reads. */
  lemma {:induction false} FreshTurn(text: string, own: map<nat, State>, turns: seq<Turn>, b: Block)
    returns (text': string, own': map<nat, State>)
    requires turns != [] && turns[0].process !in own && ReadsZero(turns[0].call, b)
    requires ScanState(text) == None || ScanState(text) == Some(State(TimeVal(0, 0), 0, b.clockSeq))
    ensures ScanState(text') == Some(State(TimeVal(0, 0), 0, b.clockSeq)) && own'.Keys == own.Keys + {turns[0].process}
    ensures SharedRun(text, own, 0, turns) == [b] + SharedRun(text', own', 0, turns[1..])
  {
    var c := turns[0].call;
    var s, s1 := FirstState(c), State(TimeVal(0, 0), 0, b.clockSeq);
    text', own' := TextAfter(text, s, c), own[turns[0].process := s1];
    assert Accepted(s, c.request.polls) == Some(TimeVal(0, 0)) && Step(s, c.request) == s1;
    var tail := RewrittenStartsWithLine(text, StateLine(s1), c.truncated);
    StateLineRoundTrip(s1, tail);
    TurnCons(text, own, 0, turns[0], turns[1..], s);
    assert turns == [turns[0]] + turns[1..];
  }

  // A thread without a state file

  /** The blocks given out by the calls of a thread that has no file. */
  function OwnRun(own: State, epoch: nat, calls: seq<Call>): seq<Block>
    decreases |calls|
  {
    if calls == [] then []
    else
      var s, r := Entry(own, None, calls[0]), calls[0].request;
      Granted(s, epoch, r) + OwnRun(Step(s, r), NextEpoch(s, epoch, r), calls[1..])
  }

  function RequestsOf(calls: seq<Call>): seq<Request> {
    seq(|calls|, i requires 0 <= i < |calls| => calls[i].request)
  }

  /** All readings are proper and other than time zero. */
  predicate ReadsNonZero(c: Call) {
    IsReading(c.first) && forall tv <- c.request.polls :: IsReading(tv) && tv != TimeVal(0, 0)
  }

  /** Where a call starts: always with the adjustment it finds; with the time and the
      sequence it finds as well, unless that time is zero, which is replaced by a second
      before the first reading under a random sequence. */
  lemma EntryKeepsState(own: State, text: Option<string>, c: Call)
    ensures var found := if text.Some? && ScanState(text.value).Some? then ScanState(text.value).value else own;
            var s := Entry(own, text, c);
            && s.adj == found.adj
            && (found.last != TimeVal(0, 0) ==> s == found)
            && (found.last == TimeVal(0, 0) ==>
                  s.last.sec + 1 == c.first.sec && s.last.usec == c.first.usec && s.clockSeq == c.seed % 16384)
  {
  }

  lemma StepIsNonZero(s: State, r: Request)
    requires WellFormed(s) && s.last != TimeVal(0, 0)
    requires forall tv <- r.polls :: IsReading(tv) && tv != TimeVal(0, 0)
    ensures WellFormed(Step(s, r)) && Step(s, r).last != TimeVal(0, 0)
  {
    StepKeepsWellFormed(s, 0, r);
    var tv := Accepted(s, r.polls);
    if tv.Some? {
      assert IsReading(tv.value) && Advance(s, tv.value).last == tv.value;
    }
  }

  lemma {:induction false} OwnRunCons(own: State, epoch: nat, calls: seq<Call>, s: State)
    requires calls != [] && s == Entry(own, None, calls[0])
    requires OwnRun(Step(s, calls[0].request), NextEpoch(s, epoch, calls[0].request), calls[1..]) ==
             Run(Step(s, calls[0].request), NextEpoch(s, epoch, calls[0].request), RequestsOf(calls[1..]))
    ensures OwnRun(own, epoch, calls) == Run(s, epoch, RequestsOf(calls))
  {
    assert RequestsOf(calls) == [calls[0].request] + RequestsOf(calls[1..]);
    RunCons(s, epoch, calls[0].request, RequestsOf(calls[1..]));
  }

  /** A thread without a file goes on from where its last call left off. */
  lemma {:induction false} OwnRunIsOneRun(own: State, epoch: nat, calls: seq<Call>)
    requires WellFormed(own) && own.last != TimeVal(0, 0) && forall c <- calls :: ReadsNonZero(c)
    ensures OwnRun(own, epoch, calls) == Run(own, epoch, RequestsOf(calls))
    decreases |calls|
  {
    if calls != [] {
      var r := calls[0].request;
      assert ReadsNonZero(calls[0]);
      EntryKeepsState(own, None, calls[0]);
      StepIsNonZero(own, r);
      OwnRunIsOneRun(Step(own, r), NextEpoch(own, epoch, r), calls[1..]);
      OwnRunCons(own, epoch, calls, own);
    }
  }

  /** The calls of a new thread without a file form one run, from the state that the
      first of them makes up. */
  lemma {:induction false} NewThreadFormsOneRun(calls: seq<Call>)
    requires calls != [] && calls[0].request.polls != [] && forall c <- calls :: ReadsNonZero(c)
    ensures OwnRun(FRESH, 0, calls) == Run(FirstState(calls[0]), 0, RequestsOf(calls))
  {
    var s, r := FirstState(calls[0]), calls[0].request;
    assert Entry(FRESH, None, calls[0]) == s && ReadsNonZero(calls[0]);
    FirstStepIsNonZero(s, r);
    OwnRunIsOneRun(Step(s, r), NextEpoch(s, 0, r), calls[1..]);
    OwnRunCons(FRESH, 0, calls, s);
  }

  lemma FirstStepIsNonZero(s: State, r: Request)
    requires WellFormed(s) && s.adj < MAX_ADJUSTMENT && r.polls != []
    requires forall tv <- r.polls :: IsReading(tv) && tv != TimeVal(0, 0)
    ensures WellFormed(Step(s, r)) && Step(s, r).last != TimeVal(0, 0)
  {
    StepKeepsWellFormed(s, 0, r);
    var tv := r.polls[0];
    assert Accepted(s, r.polls) == Some(tv) && IsReading(tv) && Advance(s, tv).last == tv;
  }

  /** Hence its ticks are disjoint if and only if no request collides, as long as the
      time goes back fewer than 2^14 times. */
  lemma {:induction false} NewThreadIsUniqueIff(calls: seq<Call>)
    requires calls != [] && calls[0].request.polls != [] && forall c <- calls :: ReadsNonZero(c)
    requires BackwardSteps(FirstState(calls[0]), RequestsOf(calls)) < SEQUENCES
    ensures AllDisjoint(OwnRun(FRESH, 0, calls)) <==> CollisionFree(FirstState(calls[0]), RequestsOf(calls))
  {
    NewThreadFormsOneRun(calls);
    forall r | r in RequestsOf(calls) ensures IsRequest(r) {
      var i :| 0 <= i < |calls| && r == calls[i].request;
      assert ReadsNonZero(calls[i]);
    }
    assert ReadsNonZero(calls[0]);
    FreshRunIsUniqueIff(FirstState(calls[0]), 0, RequestsOf(calls));
  }
}
