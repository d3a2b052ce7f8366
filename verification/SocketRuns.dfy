/** What each read of a socket may do to the stream behind it, and what follows for every
    sequence of reads, whatever pieces the network delivers the bytes in. The class in
    Socket.dfy is proved to take only the steps allowed here. */
module SocketRuns {
  import opened ByteStream

  /** `buffered` is the read-ahead, `unread` what the connection will still deliver. */
  datatype State = State(open: bool, buffered: Bytes, unread: Bytes) {
    function Pending(): Bytes { buffered + unread }
  }

  datatype Call = Readline(size: int) | Recv(amount: int) | Read(size: int) | Readlines(hint: int) | Next

  datatype Reply =
    | Data(bytes: Bytes)
    | LineList(lines: seq<Bytes>)
    | StopIteration
    | NsprError   // PR_Recv failed
    | IoClosed    // SOCKET_CHECK_OPEN
    | BadSize     // a negative size for a bytes object

  /** The read-ahead alone settles what readline(size) returns. */
  predicate LineBuffered(buffered: Bytes, size: int) {
    NEWLINE in buffered || (size > 0 && |buffered| >= size)
  }

  /** The read-ahead alone satisfies recv(amount). */
  predicate AmountBuffered(buffered: Bytes, amount: int) {
    buffered != [] && |buffered| >= amount
  }

  /** The connection only moves forward. */
  predicate Forward(s: State, s': State) {
    |s'.unread| <= |s.unread| && s'.unread == s.unread[|s.unread| - |s'.unread|..]
  }

  predicate RecvStep(s: State, amount: int, reply: Reply, s': State) {
    if amount < 0 then reply == BadSize && s' == s
    else match reply
      case Data(bytes) =>
        && bytes <= s.Pending() && s'.Pending() == s.Pending()[|bytes|..]
        && |bytes| <= amount && (|bytes| >= amount || |bytes| >= |s.buffered|)
        && (bytes == [] ==> amount == 0 || s.Pending() == [])
        && (if AmountBuffered(s.buffered, amount) then s'.unread == s.unread else s'.buffered == [])
      case NsprError =>
        !AmountBuffered(s.buffered, amount) && s' == s.(buffered := [])
      case _ => false
  }

  predicate LineStep(s: State, size: int, reply: Reply, s': State) {
    match reply
    case Data(bytes) =>
      && Splits(s.Pending(), size, bytes, s'.Pending())
      && (LineBuffered(s.buffered, size) ==> s'.unread == s.unread)
    case NsprError => s'.buffered == [] && !LineBuffered(s.buffered, size)
    case _ => false
  }

  predicate DrainStep(s: State, reply: Reply, s': State) {
    match reply
    case Data(bytes) => bytes == s.Pending() && s'.Pending() == []
    case NsprError => s'.buffered == []
    case _ => false
  }

  predicate ListStep(s: State, hint: int, reply: Reply, s': State) {
    match reply
    case LineList(lines) =>
      && lines == HintedLines(s.Pending(), hint)
      && s.Pending() == Flatten(lines) + s'.Pending()
    case NsprError => s'.buffered == []
    case _ => false
  }

  predicate NextStep(s: State, reply: Reply, s': State) {
    match reply
    case StopIteration => s.Pending() == [] && s'.Pending() == []
    case Data(bytes) => bytes != [] && LineStep(s, 0, reply, s')
    case _ => LineStep(s, 0, reply, s')
  }

  predicate Step(s: State, call: Call, reply: Reply, s': State) {
    if !s.open then reply == IoClosed && s' == s
    else
      s'.open && Forward(s, s') &&
      match call
      case Readline(size) => LineStep(s, size, reply, s')
      case Recv(amount) => RecvStep(s, amount, reply, s')
      case Read(size) => if size >= 0 then RecvStep(s, size, reply, s') else DrainStep(s, reply, s')
      case Readlines(hint) => ListStep(s, hint, reply, s')
      case Next => NextStep(s, reply, s')
  }

  // ----- no byte is lost, repeated or reordered

  function BytesOf(reply: Reply): Bytes {
    match reply
    case Data(bytes) => bytes
    case LineList(lines) => Flatten(lines)
    case _ => []
  }

  /** What a step takes off the front of the stream. */
  function Taken(s: State, s': State): Bytes {
    if |s'.Pending()| <= |s.Pending()| then s.Pending()[..|s.Pending()| - |s'.Pending()|] else []
  }

  lemma TakenIsFront(s: State, s': State, front: Bytes)
    requires s.Pending() == front + s'.Pending()
    ensures Taken(s, s') == front
  {
  }

  lemma SuccessTakes(s: State, call: Call, reply: Reply, s': State)
    requires Step(s, call, reply, s') && reply != NsprError
    ensures s.Pending() == BytesOf(reply) + s'.Pending()
  {
    if s.open && (call.Recv? || call.Read?) && reply.Data? {
      assert s.Pending() == s.Pending()[..|reply.bytes|] + s.Pending()[|reply.bytes|..];
    }
  }

  lemma FailureTakes(s: State, call: Call, s': State)
    requires Step(s, call, NsprError, s')
    ensures |s'.unread| <= |s.unread|
    ensures s.Pending() == (s.buffered + s.unread[..|s.unread| - |s'.unread|]) + s'.Pending()
  {
    var n := |s.unread| - |s'.unread|;
    assert s.unread == s.unread[..n] + s.unread[n..];
    assert s'.Pending() == s'.unread;
  }

  /** Every step takes a prefix of the stream. A read that succeeds delivers exactly it; one that
      fails loses exactly the read-ahead and what it had already read. */
  lemma StepTakes(s: State, call: Call, reply: Reply, s': State)
    requires Step(s, call, reply, s')
    ensures s.Pending() == Taken(s, s') + s'.Pending()
    ensures reply != NsprError ==> Taken(s, s') == BytesOf(reply)
    ensures reply == NsprError ==>
              |s'.unread| <= |s.unread| && Taken(s, s') == s.buffered + s.unread[..|s.unread| - |s'.unread|]
  {
    if reply == NsprError {
      FailureTakes(s, call, s');
      TakenIsFront(s, s', s.buffered + s.unread[..|s.unread| - |s'.unread|]);
    } else {
      SuccessTakes(s, call, reply, s');
      TakenIsFront(s, s', BytesOf(reply));
    }
  }

  datatype Event = Event(call: Call, reply: Reply, after: State)

  predicate IsRun(s: State, events: seq<Event>)
    decreases |events|
  {
    events == [] ||
    (Step(s, events[0].call, events[0].reply, events[0].after) && IsRun(events[0].after, events[1..]))
  }

  function Final(s: State, events: seq<Event>): State
    decreases |events|
  {
    if events == [] then s else Final(events[0].after, events[1..])
  }

  datatype Segment = Delivered(bytes: Bytes) | Lost(bytes: Bytes)

  /** What became of the bytes each step took, in order. */
  function Ledger(s: State, events: seq<Event>): seq<Segment>
    decreases |events|
  {
    if events == [] then []
    else
      var e := events[0];
      [if e.reply == NsprError then Lost(Taken(s, e.after)) else Delivered(BytesOf(e.reply))] +
        Ledger(e.after, events[1..])
  }

  function Total(ledger: seq<Segment>): Bytes {
    if ledger == [] then [] else ledger[0].bytes + Total(ledger[1..])
  }

  function AllDelivered(events: seq<Event>): Bytes {
    if events == [] then [] else BytesOf(events[0].reply) + AllDelivered(events[1..])
  }

  predicate NoFailure(events: seq<Event>) {
    events == [] || (events[0].reply != NsprError && NoFailure(events[1..]))
  }

  /** How often PR_Recv failed during a read: once if the read fails, which ends it. */
  function Failed(reply: Reply): nat {
    if reply == NsprError then 1 else 0
  }

  function Failures(events: seq<Event>): nat {
    if events == [] then 0 else Failed(events[0].reply) + Failures(events[1..])
  }

  lemma {:induction false} NoFailureCounts(events: seq<Event>)
    ensures NoFailure(events) <==> Failures(events) == 0
    decreases |events|
  {
    if events != [] {
      NoFailureCounts(events[1..]);
    }
  }

  /** Over every run the delivered, the lost and the still pending bytes are the original stream,
      in its order and without overlap. */
  lemma {:induction false} RunConserves(s: State, events: seq<Event>)
    requires IsRun(s, events)
    ensures Total(Ledger(s, events)) + Final(s, events).Pending() == s.Pending()
    decreases |events|
  {
    if events != [] {
      var e := events[0];
      StepTakes(s, e.call, e.reply, e.after);
      RunConserves(e.after, events[1..]);
      assert Ledger(s, events)[1..] == Ledger(e.after, events[1..]);
      Associative(Taken(s, e.after), Total(Ledger(e.after, events[1..])), Final(s, events).Pending());
    }
  }

  /** Without failures, delivered bytes, read-ahead and unread bytes make up the stream. */
  lemma {:induction false} RunDelivers(s: State, events: seq<Event>)
    requires IsRun(s, events) && NoFailure(events)
    ensures AllDelivered(events) + Final(s, events).Pending() == s.Pending()
    decreases |events|
  {
    if events != [] {
      var e := events[0];
      SuccessTakes(s, e.call, e.reply, e.after);
      RunDelivers(e.after, events[1..]);
      Associative(BytesOf(e.reply), AllDelivered(events[1..]), Final(s, events).Pending());
    }
  }

  lemma Associative(a: Bytes, b: Bytes, c: Bytes)
    ensures a + (b + c) == (a + b) + c
  {
  }

  // ----- how the network cuts the stream cannot be seen

  /** Calls other than recv, whose reply the stream alone decides. */
  predicate StreamOnly(call: Call) {
    !call.Recv? && (call.Read? ==> call.size < 0)
  }

  /** Both runs make the same such calls, and none of them fails. */
  predicate SameCalls(es: seq<Event>, fs: seq<Event>) {
    if es == [] || fs == [] then es == fs
    else
      && es[0].call == fs[0].call && StreamOnly(es[0].call)
      && es[0].reply != NsprError && fs[0].reply != NsprError
      && SameCalls(es[1..], fs[1..])
  }

  function Replies(events: seq<Event>): seq<Reply> {
    if events == [] then [] else [events[0].reply] + Replies(events[1..])
  }

  lemma StepIsDetermined(s: State, e: Event, t: State, f: Event)
    requires s.open && t.open && s.Pending() == t.Pending()
    requires e.call == f.call && StreamOnly(e.call) && e.reply != NsprError && f.reply != NsprError
    requires Step(s, e.call, e.reply, e.after) && Step(t, f.call, f.reply, f.after)
    ensures e.reply == f.reply && e.after.Pending() == f.after.Pending() && e.after.open && f.after.open
  {
    match e.call
    case Readline(size) =>
      SplitsUnique(s.Pending(), size, e.reply.bytes, e.after.Pending(), f.reply.bytes, f.after.Pending());
    case Next =>
      NextIsDetermined(s, e.reply, e.after, t, f.reply, f.after);
    case Readlines(hint) =>
      assert e.after.Pending() == s.Pending()[|Flatten(e.reply.lines)|..] == f.after.Pending();
    case Read(size) =>
  }

  lemma NextIsDetermined(s: State, r: Reply, s': State, t: State, q: Reply, t': State)
    requires s.Pending() == t.Pending() && r != NsprError && q != NsprError
    requires NextStep(s, r, s') && NextStep(t, q, t')
    ensures r == q && s'.Pending() == t'.Pending()
  {
    SplitsUnique(s.Pending(), 0, BytesOf(r), s'.Pending(), BytesOf(q), t'.Pending());
  }

  /** The same calls on the same stream give the same replies, however it is split between
      read-ahead and network and whatever pieces it arrives in. */
  lemma {:induction false} ChunkingInvisible(s: State, es: seq<Event>, t: State, fs: seq<Event>)
    requires s.open && t.open && s.Pending() == t.Pending()
    requires IsRun(s, es) && IsRun(t, fs)
    requires SameCalls(es, fs)
    ensures Replies(es) == Replies(fs)
    ensures Final(s, es).Pending() == Final(t, fs).Pending()
    decreases |es|
  {
    if es != [] {
      StepIsDetermined(s, es[0], t, fs[0]);
      ChunkingInvisible(es[0].after, es[1..], fs[0].after, fs[1..]);
      assert Replies(es) == [es[0].reply] + Replies(es[1..]);
    }
  }

  // ----- iteration and bounded reads

  predicate OnlyNext(events: seq<Event>) {
    events == [] || (events[0].call == Next && OnlyNext(events[1..]))
  }

  /** The first `n` items of an iterator over the lines: the lines, and then StopIteration. */
  function Items(lines: seq<Bytes>, n: nat): seq<Reply> {
    if n == 0 then []
    else if lines == [] then [StopIteration] + Items([], n - 1)
    else [Data(lines[0])] + Items(lines[1..], n - 1)
  }

  lemma {:induction false} ItemsAre(lines: seq<Bytes>, n: nat)
    ensures |Items(lines, n)| == n
    ensures forall k | 0 <= k < n ::
              Items(lines, n)[k] == if k < |lines| then Data(lines[k]) else StopIteration
    decreases n
  {
    if n > 0 {
      ItemsAre(if lines == [] then [] else lines[1..], n - 1);
    }
  }

  lemma ItemsGoOn(lines: seq<Bytes>, first: Reply, n: nat)
    requires first == if lines == [] then StopIteration else Data(lines[0])
    ensures Items(lines, n + 1) == [first] + Items(Rest(lines), n)
  {
  }

  function Rest(lines: seq<Bytes>): seq<Bytes> {
    if lines == [] then [] else lines[1..]
  }

  /** One step of an iterator over a stream that divides into `lines`. */
  lemma NextTakes(s: State, e: Event, lines: seq<Bytes>)
    requires s.open && e.reply != NsprError && Step(s, Next, e.reply, e.after)
    requires IsDivision(lines) && Flatten(lines) == s.Pending()
    ensures e.after.open && e.reply == if lines == [] then StopIteration else Data(lines[0])
    ensures IsDivision(Rest(lines)) && Flatten(Rest(lines)) == e.after.Pending()
  {
    SplitsIsLine(s.Pending(), 0, BytesOf(e.reply), e.after.Pending());
    if lines != [] {
      assert IsLineText(lines[0]);
      FirstItemIsLine(lines);
    }
  }

  lemma {:induction false} IterationYieldsItems(s: State, events: seq<Event>, lines: seq<Bytes>)
    requires s.open && IsRun(s, events) && NoFailure(events) && OnlyNext(events)
    requires IsDivision(lines) && Flatten(lines) == s.Pending()
    ensures Replies(events) == Items(lines, |events|)
    decreases |events|
  {
    if events != [] {
      NextTakes(s, events[0], lines);
      IterationYieldsItems(events[0].after, events[1..], Rest(lines));
      ItemsGoOn(lines, events[0].reply, |events| - 1);
    }
  }

  /** Iterating yields the lines of the stream, one each time, and then stops for good. */
  lemma IterationYieldsLines(s: State, events: seq<Event>)
    requires s.open && IsRun(s, events) && NoFailure(events) && OnlyNext(events)
    ensures Replies(events) == Items(Lines(s.Pending()), |events|)
  {
    var lines := Lines(s.Pending());
    LinesUnique(s.Pending(), lines);
    IterationYieldsItems(s, events, lines);
  }

  /** No read failed; all bytes that left the stream were delivered; and if all reads are steps of
      an iteration, they delivered its lines and then stopped. */
  predicate Undisturbed(s: State, events: seq<Event>, s': State) {
    && NoFailure(events) && AllDelivered(events) + s'.Pending() == s.Pending()
    && (s.open && OnlyNext(events) ==> Replies(events) == Items(Lines(s.Pending()), |events|))
  }

  lemma RunUndisturbed(s: State, events: seq<Event>)
    requires IsRun(s, events) && Failures(events) == 0
    ensures Undisturbed(s, events, Final(s, events))
  {
    NoFailureCounts(events);
    RunDelivers(s, events);
    if s.open && OnlyNext(events) {
      IterationYieldsLines(s, events);
    }
  }

  /** readline(size) is called until a piece ends the line or is empty, and no longer. */
  predicate ReadsOneLine(size: int, events: seq<Event>)
    decreases |events|
  {
    && events != [] && events[0].call == Readline(size) && events[0].reply.Data?
    && var piece := events[0].reply.bytes;
       if EndsLine(piece) || piece == [] then |events| == 1 else ReadsOneLine(size, events[1..])
  }

  /** Repeated bounded reads compose: together the pieces are the line, and the stream is left
      just behind it. */
  lemma {:induction false} BoundedReadsCompose(s: State, size: int, events: seq<Event>)
    requires s.open && size > 0 && IsRun(s, events) && ReadsOneLine(size, events)
    ensures AllDelivered(events) == Line(s.Pending(), 0)
    ensures Final(s, events).Pending() == AfterLine(s.Pending(), 0)
    decreases |events|
  {
    var e := events[0];
    ReadlineTakes(s, size, e);
    BoundedThenRest(s.Pending(), size);
    if |events| == 1 {
      assert AllDelivered(events[1..]) == [];
    } else {
      BoundedReadsCompose(e.after, size, events[1..]);
    }
  }

  lemma ReadlineTakes(s: State, size: int, e: Event)
    requires s.open && e.reply.Data? && Step(s, Readline(size), e.reply, e.after)
    ensures e.after.open
    ensures e.reply.bytes == Line(s.Pending(), size) && e.after.Pending() == AfterLine(s.Pending(), size)
  {
    SplitsIsLine(s.Pending(), size, e.reply.bytes, e.after.Pending());
  }
}
