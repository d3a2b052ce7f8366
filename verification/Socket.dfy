/** The buffered reads of a Socket (src/py_nspr_io.c:2410-2738, src/py_nspr_io.h:64-92), over an
    array that grows by reallocation and is shifted in place. */
module Sockets {
  import opened ByteStream
  import opened SocketRuns

  const ALLOC_INCREMENT := 1024

  function Larger(m: nat, n: nat): nat { if m < n then n else m }

  /** The connection under a socket: the bytes the peer has still to deliver before it closes. */
  class PRFileDesc {
    var unread: Bytes
    var recvCalls: nat        // how often PR_Recv was called
    ghost var failures: nat   // how often it failed

    constructor (stream: Bytes)
      ensures unread == stream && recvCalls == 0 && failures == 0
    {
      unread, recvCalls, failures := stream, 0, 0;
    }

    /** PR_Recv: some bytes, at least one unless none was asked for or the stream is at its end;
        or a failure, which takes nothing. How many, and whether it fails, is not determined. */
    method Recv(dst: array<byte>, offset: nat, count: nat) returns (amount: int)
      requires offset + count <= dst.Length
      modifies this, dst
      ensures recvCalls == old(recvCalls) + 1
      ensures failures == old(failures) + if amount < 0 then 1 else 0
      ensures amount < 0 ==> unread == old(unread) && dst[..] == old(dst[..])
      ensures amount >= 0 ==> amount <= count && amount <= |old(unread)|
      ensures amount == 0 ==> count == 0 || old(unread) == []
      ensures amount >= 0 ==> unread == old(unread)[amount..]
      ensures amount >= 0 ==> dst[..offset] == old(dst[..offset])
      ensures amount >= 0 ==> dst[offset..offset + amount] == old(unread)[..amount]
    {
      recvCalls := recvCalls + 1;
      if * {
        failures := failures + 1;
        return -1;
      }
      if count == 0 || unread == [] {
        return 0;
      }
      amount :| 1 <= amount <= count && amount <= |unread|;
      forall j | 0 <= j < amount {
        dst[offset + j] := unread[j];
      }
      unread := unread[amount..];
    }
  }

  /** memmove towards the front of the same array, byte by byte. */
  method Memmove(a: array<byte>, offset: nat, count: nat)
    requires offset + count <= a.Length
    modifies a
    ensures a[..count] == old(a[offset..offset + count]) && a[count..] == old(a[count..])
  {
    var i := 0;
    while i < count
      invariant 0 <= i <= count
      invariant forall j | 0 <= j < i :: a[j] == old(a[offset + j])
      invariant forall j | i <= j < a.Length :: a[j] == old(a[j])
    {
      a[i] := a[offset + i];
      i := i + 1;
    }
  }

  /** One network read into the rest of an array, behind the `filled` bytes that are there. */
  method RecvBehind(conn: PRFileDesc, dst: array<byte>, filled: nat)
    returns (ok: bool, bytes: Bytes, ghost amount: nat)
    requires filled <= dst.Length
    modifies conn, dst
    ensures conn.recvCalls == old(conn.recvCalls) + 1
    ensures conn.failures == old(conn.failures) + if ok then 0 else 1
    ensures !ok ==> conn.unread == old(conn.unread)
    ensures ok ==> amount <= |old(conn.unread)| && filled + amount <= dst.Length
    ensures ok && amount == 0 ==> filled == dst.Length || old(conn.unread) == []
    ensures ok ==> conn.unread == old(conn.unread)[amount..]
    ensures ok ==> bytes == old(dst[..filled]) + old(conn.unread)[..amount]
  {
    var n := conn.Recv(dst, filled, dst.Length - filled);
    if n < 0 {
      return false, [], 0;
    }
    assert dst[..filled + n] == dst[..filled] + dst[filled..filled + n];
    ok, bytes, amount := true, dst[..filled + n], n;
  }

  /** A scan of the read-ahead that stops at a newline or at the limit has found the line. */
  lemma LineFound(buffered: Bytes, unread: Bytes, size: int, n: nat)
    requires 0 < n <= |buffered| && (forall j | 0 <= j < n - 1 :: buffered[j] != NEWLINE)
    requires size > 0 ==> n <= size
    requires buffered[n - 1] == NEWLINE || n == size
    ensures IsLineLength(buffered + unread, size, n)
  {
    assert forall j | 0 <= j < n :: (buffered + unread)[j] == buffered[j];
  }

  /** At the end of the stream, everything buffered is the line. */
  lemma LineAtEnd(t: State, size: int)
    requires t.unread == [] && !LineBuffered(t.buffered, size)
    ensures IsLineLength(t.Pending(), size, |t.buffered|)
  {
    assert t.Pending() == t.buffered;
  }

  /** `t` is `s` after some refills: part of the unread bytes has moved to the read-ahead. */
  predicate Refilled(s: State, t: State) {
    && s.open && t.open && t.Pending() == s.Pending() && Forward(s, t)
    && (t.unread == s.unread ==> t.buffered == s.buffered)
  }

  /** `t` is `s` after refills that were needed to find a line. */
  predicate Filling(s: State, t: State, size: int) {
    Refilled(s, t) && (t.unread == s.unread || !LineBuffered(s.buffered, size))
  }

  lemma FillingStarts(s: State, size: int)
    requires s.open
    ensures Filling(s, s, size)
  {
  }

  /** One refill, of `amount` bytes; none means the end of the stream, which ends the line. */
  lemma FillingGoesOn(s: State, t: State, t': State, amount: nat, size: int)
    requires Filling(s, t, size) && !LineBuffered(t.buffered, size) && amount <= |t.unread|
    requires t' == State(true, t.buffered + t.unread[..amount], t.unread[amount..])
    requires amount == 0 ==> t.unread == []
    ensures Filling(s, t', size)
    ensures amount == 0 ==> Ready(t', size, |t'.buffered|)
  {
    RefillKeeps(s, t, t', amount);
    if amount == 0 {
      assert t' == t;
      LineAtEnd(t, size);
    }
  }

  lemma RefillKeeps(s: State, t: State, t': State, amount: nat)
    requires Refilled(s, t) && amount <= |t.unread|
    requires t' == State(true, t.buffered + t.unread[..amount], t.unread[amount..])
    ensures Refilled(s, t')
  {
    assert t.unread == t.unread[..amount] + t.unread[amount..];
    assert amount == 0 ==> t.buffered + t.unread[..0] == t.buffered && t.unread[0..] == t.unread;
  }

  /** A line of `n` bytes is buffered. */
  predicate Ready(t: State, size: int, n: nat) {
    n <= |t.buffered| && IsLineLength(t.Pending(), size, n)
  }

  lemma LineTaken(s: State, t: State, size: int, n: nat, t': State)
    requires Filling(s, t, size) && Ready(t, size, n) && t' == State(true, t.buffered[n..], t.unread)
    ensures Step(s, SocketRuns.Readline(size), Data(t.buffered[..n]), t')
  {
    assert s.Pending() == t.buffered[..n] + t'.Pending();
  }

  lemma BufferedTaken(s: State, amount: nat, t: State)
    requires AmountBuffered(s.buffered, amount) && t == s.(buffered := s.buffered[amount..])
    ensures Forward(s, t) && RecvStep(s, amount, Data(s.buffered[..amount]), t)
  {
    assert s.Pending() == s.buffered[..amount] + t.Pending();
  }

  lemma ReadTaken(s: State, requested: nat, amount: nat, t: State)
    requires !AmountBuffered(s.buffered, requested) && |s.buffered| + amount <= requested && amount <= |s.unread|
    requires amount == 0 ==> requested == |s.buffered| || s.unread == []
    requires t == State(s.open, [], s.unread[amount..])
    ensures Forward(s, t) && RecvStep(s, requested, Data(s.buffered + s.unread[..amount]), t)
  {
    assert s.Pending() == (s.buffered + s.unread[..amount]) + t.Pending();
  }

  /** readlines has collected `list` and is at `t`; when it is done, nothing is missing. */
  predicate Collecting(s: State, hint: int, list: seq<Bytes>, t: State, done: bool) {
    && t.open == s.open && (!s.open ==> t == s && list == [] && !done)
    && Forward(s, t) && s.Pending() == Flatten(list) + t.Pending()
    && (if done then list == HintedLines(s.Pending(), hint)
        else
          var total := |Flatten(list)|;
          (hint > 0 ==> total < hint) &&
          HintedLines(s.Pending(), hint) == list + HintedLines(t.Pending(), if hint > 0 then hint - total else hint))
  }

  lemma CollectingStarts(s: State, hint: int)
    ensures Collecting(s, hint, [], s, false)
  {
    assert [] + HintedLines(s.Pending(), hint) == HintedLines(s.Pending(), hint);
    assert s.unread[0..] == s.unread && Flatten([]) + s.Pending() == s.Pending();
  }

  lemma CollectingDone(s: State, hint: int, list: seq<Bytes>, t: State)
    requires Collecting(s, hint, list, t, true)
    ensures Step(s, SocketRuns.Readlines(hint), LineList(list), t)
  {
  }

  lemma CollectingEnds(s: State, hint: int, list: seq<Bytes>, t: State, reply: Reply, t': State)
    requires Collecting(s, hint, list, t, false) && Step(t, SocketRuns.Readline(0), reply, t') && !reply.Data?
    ensures Step(s, SocketRuns.Readlines(hint), reply, t')
  {
  }

  lemma CollectingGoesOn(s: State, hint: int, list: seq<Bytes>, t: State, reply: Reply, t': State)
    requires Collecting(s, hint, list, t, false) && Step(t, SocketRuns.Readline(0), reply, t') && reply.Data?
    ensures var longer := list + [reply.bytes];
            Collecting(s, hint, longer, t', (hint > 0 && |Flatten(longer)| >= hint) || reply.bytes == [])
    ensures |Flatten(list + [reply.bytes])| == |Flatten(list)| + |reply.bytes|
    ensures reply.bytes == [] || |t'.Pending()| < |t.Pending()|
  {
    SplitsIsLine(t.Pending(), 0, reply.bytes, t'.Pending());
    LineListed(s.Pending(), list, t.Pending());
    HintGoesOn(t.Pending(), if hint > 0 then hint - |Flatten(list)| else hint, list);
  }

  lemma HintGoesOn(pending: Bytes, hint: int, list: seq<Bytes>)
    ensures var line := Line(pending, 0);
            list + HintedLines(pending, hint) ==
              list + [line] + if line == [] || (hint > 0 && |line| >= hint) then []
                              else HintedLines(AfterLine(pending, 0), if hint > 0 then hint - |line| else hint)
  {
  }

  /** One more line of a list that readlines is collecting. */
  lemma LineListed(pending: Bytes, list: seq<Bytes>, rest: Bytes)
    requires pending == Flatten(list) + rest
    ensures pending == Flatten(list + [Line(rest, 0)]) + AfterLine(rest, 0)
    ensures |Flatten(list + [Line(rest, 0)])| == |Flatten(list)| + |Line(rest, 0)|
  {
    FlattenConcat(list, [Line(rest, 0)]);
    assert Flatten([Line(rest, 0)]) == Line(rest, 0) + Flatten([]);
  }

  class Socket {
    var prSocket: PRFileDesc?
    var buf: array?<byte>
    var len: nat
    var allocLen: nat
    ghost var buffered: Bytes   // the bytes in buf that are in use
    ghost var peak: nat         // the largest len since the buffer was last free
    ghost var limit: nat        // the most bytes that were ever buffered and unread together

    /** Length within capacity, capacity in whole increments and never two of them above the peak,
        a buffer of exactly that capacity, and no peak above what the stream ever held. */
    ghost predicate Valid()
      reads this, buf, prSocket
    {
      && len <= allocLen && len <= peak <= limit
      && len + (if prSocket == null then 0 else |prSocket.unread|) <= limit
      && allocLen % ALLOC_INCREMENT == 0
      && (allocLen == 0 || allocLen < peak + 2 * ALLOC_INCREMENT)
      && (if allocLen == 0 then buf == null && buffered == [] && peak == 0
          else buf != null && buf.Length == allocLen && buffered == buf[..len])
    }

    /** As INIT_READAHEAD leaves it. */
    ghost predicate Reset()
      reads this
    {
      buf == null && len == 0 && allocLen == 0 && buffered == [] && peak == 0
    }

    ghost function View(): State
      reads this, prSocket
    {
      State(prSocket != null, buffered, if prSocket == null then [] else prSocket.unread)
    }

    constructor (conn: PRFileDesc)
      ensures Valid() && prSocket == conn && Reset() && limit == |conn.unread|
    {
      prSocket, buf, len, allocLen, buffered, peak := conn, null, 0, 0, [], 0;
      limit := |conn.unread|;
    }

    /** Socket_init on a socket that is already open: another connection, the same read-ahead. */
    method Reinit(conn: PRFileDesc)
      requires Valid()
      modifies this`prSocket, this`limit
      ensures Valid() && prSocket == conn && limit == Larger(old(limit), len + |conn.unread|)
      ensures View().Pending() == old(buffered) + conn.unread
    {
      prSocket := conn;
      limit := Larger(limit, len + |conn.unread|);
    }

    /** Socket_close, the last one: the read-ahead stays, but no read gets at it any more. */
    method Close()
      requires Valid()
      modifies this`prSocket
      ensures Valid() && View() == old(View()).(open := false, unread := [])
    {
      prSocket := null;
    }

    /** FREE_READAHEAD */
    method FreeReadahead()
      requires Valid()
      modifies this`buf, this`len, this`allocLen, this`buffered, this`peak
      ensures Valid() && Reset()
    {
      buf, len, allocLen, buffered, peak := null, 0, 0, [], 0;
    }

    /** Make room for at least one increment behind the buffered bytes; realloc keeps them. */
    method EnsureRoom()
      requires Valid()
      modifies this`buf, this`allocLen
      ensures Valid()
      ensures buf != null && (buf == old(buf) || fresh(buf))
      ensures allocLen - len >= 1024
    {
      if allocLen - len < ALLOC_INCREMENT {
        var bigger := new byte[allocLen + ALLOC_INCREMENT];
        if buf != null {
          forall j | 0 <= j < len {
            bigger[j] := buf[j];
          }
        }
        assert bigger[..len] == buffered;
        buf := bigger;
        allocLen := allocLen + ALLOC_INCREMENT;
      }
    }

    /** One refill of the read-ahead. A failure frees it. */
    method Refill() returns (amount: int)
      requires Valid() && prSocket != null
      modifies this`buf, this`len, this`allocLen, this`buffered, this`peak, buf, prSocket
      ensures Valid() && (buf == null || buf == old(buf) || fresh(buf)) && (amount >= 0 ==> buf != null)
      ensures amount < 0 ==> Reset() && prSocket.unread == old(prSocket.unread)
      ensures amount >= 0 ==> peak == Larger(old(peak), len)
      ensures amount >= 0 ==> amount <= |old(prSocket.unread)|
      ensures amount >= 0 ==> buffered == old(buffered) + old(prSocket.unread)[..amount]
      ensures amount >= 0 ==> prSocket.unread == old(prSocket.unread)[amount..]
      ensures amount == 0 ==> old(prSocket.unread) == []
      ensures prSocket.failures == old(prSocket.failures) + if amount < 0 then 1 else 0
    {
      EnsureRoom();
      ghost var arriving := prSocket.unread;
      amount := prSocket.Recv(buf, len, allocLen - len);
      if amount >= 0 {
        assert buf[..len + amount] == buf[..len] + buf[len..len + amount];
        len, buffered := len + amount, buffered + arriving[..amount];
        peak := Larger(peak, len);
      } else {
        FreeReadahead();
      }
    }

    /** Hand out the first `n` buffered bytes and shift the rest down. */
    method TakeFront(n: nat) returns (bytes: Bytes)
      requires Valid() && buf != null && n <= len
      modifies this`len, this`buffered, buf
      ensures Valid() && buf == old(buf)
      ensures bytes == old(buffered)[..n] && buffered == old(buffered)[n..]
    {
      bytes := buf[..n];
      Memmove(buf, n, len - n);
      assert buf[..len - n] == buffered[n..];
      len, buffered := len - n, buffered[n..];
    }

    /** Is there a complete line already buffered? Its length, whatever comes behind it, or 0 when
        more data is needed. */
    method BufferedLine(size: int) returns (lineLen: nat)
      requires Valid() && prSocket != null
      ensures lineLen == 0 ==> !LineBuffered(buffered, size)
      ensures lineLen > 0 ==> Ready(View(), size, lineLen)
    {
      if len == 0 {
        return 0;
      }
      var end := if size > 0 && size < len then size else len;
      var p := 0;
      while p < end && buf[p] != NEWLINE
        invariant 0 <= p <= end
        invariant forall j | 0 <= j < p :: buf[j] != NEWLINE
      {
        p := p + 1;
      }
      if size > 0 && p == size {
        lineLen := p;
      } else if p == len {
        return 0;
      } else {
        lineLen := p + 1;
      }
      LineFound(buffered, prSocket.unread, size, lineLen);
    }

    /** One refill on the way to a line. */
    method RefillLine(size: int, ghost s: State) returns (amount: int)
      requires Valid() && prSocket != null && Filling(s, View(), size) && !LineBuffered(buffered, size)
      modifies this`buf, this`len, this`allocLen, this`buffered, this`peak, buf, prSocket
      ensures Valid() && (buf == null || buf == old(buf) || fresh(buf))
      ensures amount >= 0 ==> buf != null && Filling(s, View(), size)
      ensures amount > 0 ==> |prSocket.unread| < |old(prSocket.unread)|
      ensures amount == 0 ==> Ready(View(), size, len)
      ensures amount < 0 ==> Step(s, SocketRuns.Readline(size), NsprError, View()) && Reset()
      ensures prSocket.failures == old(prSocket.failures) + if amount < 0 then 1 else 0
    {
      ghost var t := View();
      amount := Refill();
      if amount >= 0 {
        FillingGoesOn(s, t, View(), amount, size);
      }
    }

    /** The loop of _readline: refill until a line, or the end of the stream, is buffered. */
    method FillLine(size: int) returns (ok: bool, lineLen: nat)
      requires Valid() && prSocket != null
      modifies this`buf, this`len, this`allocLen, this`buffered, this`peak, buf, prSocket
      ensures Valid() && (buf == null || buf == old(buf) || fresh(buf))
      ensures ok ==> buf != null && Filling(old(View()), View(), size) && Ready(View(), size, lineLen)
      ensures !ok ==> Step(old(View()), SocketRuns.Readline(size), NsprError, View()) && Reset()
      ensures prSocket.failures == old(prSocket.failures) + if ok then 0 else 1
    {
      ghost var s, f := View(), prSocket.failures;
      FillingStarts(s, size);
      lineLen := BufferedLine(size);
      while lineLen == 0
        invariant Valid() && (buf == null || buf == old(buf) || fresh(buf))
        invariant Filling(s, View(), size) && prSocket.failures == f
        invariant if lineLen == 0 then !LineBuffered(buffered, size) else Ready(View(), size, lineLen)
        decreases |prSocket.unread|, lineLen == 0
      {
        var amount := RefillLine(size, s);
        if amount < 0 {
          return false, 0;
        }
        if amount == 0 {
          return true, len;
        }
        lineLen := BufferedLine(size);
      }
      ok := true;
    }

    /** Hand out the line that is buffered. */
    method TakeLine(size: int, lineLen: nat, ghost s: State) returns (line: Bytes)
      requires Valid() && buf != null && Filling(s, View(), size) && Ready(View(), size, lineLen)
      modifies this`len, this`buffered, buf
      ensures Valid() && buf == old(buf)
      ensures Step(s, SocketRuns.Readline(size), Data(line), View())
    {
      ghost var t := View();
      line := TakeFront(lineLen);
      LineTaken(s, t, size, lineLen, View());
    }

    /** _readline on an open socket */
    method NextLine(size: int) returns (ok: bool, line: Bytes)
      requires Valid() && prSocket != null
      modifies this`buf, this`len, this`allocLen, this`buffered, this`peak, buf, prSocket
      ensures Valid() && (buf == null || buf == old(buf) || fresh(buf))
      ensures Step(old(View()), SocketRuns.Readline(size), if ok then Data(line) else NsprError, View())
      ensures !ok ==> Reset()
      ensures prSocket.failures == old(prSocket.failures) + if ok then 0 else 1
    {
      ghost var s := View();
      var lineLen;
      ok, lineLen := FillLine(size);
      if !ok {
        return false, [];
      }
      line := TakeLine(size, lineLen, s);
    }

    /** _readline */
    method Readline(size: int) returns (r: Reply)
      requires Valid()
      modifies this`buf, this`len, this`allocLen, this`buffered, this`peak, buf, prSocket
      ensures Valid() && (buf == null || buf == old(buf) || fresh(buf))
      ensures Step(old(View()), SocketRuns.Readline(size), r, View())
      ensures r == NsprError ==> Reset()
      ensures prSocket != null ==> prSocket.failures == old(prSocket.failures) + Failed(r)
    {
      if prSocket == null {
        return IoClosed;
      }
      var ok, line := NextLine(size);
      r := if ok then Data(line) else NsprError;
    }

    /** The part of _recv that the read-ahead satisfies. */
    method RecvBuffered(requestedAmount: nat) returns (bytes: Bytes)
      requires Valid() && len > 0 && len >= requestedAmount
      modifies this`buf, this`len, this`allocLen, this`buffered, this`peak, buf
      ensures Valid() && (buf == null || buf == old(buf))
      ensures bytes == old(buffered)[..requestedAmount] && buffered == old(buffered)[requestedAmount..]
      ensures buffered == [] ==> Reset()
    {
      if len == requestedAmount {
        bytes := buf[..len];
        FreeReadahead();
      } else {
        bytes := TakeFront(requestedAmount);
      }
    }

    /** Copy the read-ahead to the front of the result and free it. */
    method DrainInto(dst: array<byte>)
      requires Valid() && len <= dst.Length && dst != buf
      modifies this`buf, this`len, this`allocLen, this`buffered, this`peak, dst
      ensures Valid() && Reset()
      ensures |old(buffered)| <= dst.Length && dst[..|old(buffered)|] == old(buffered)
    {
      if buf != null {
        forall j | 0 <= j < len {
          dst[j] := buf[j];
        }
      }
      assert dst[..len] == buffered;
      FreeReadahead();
    }

    /** The part of _recv that empties the read-ahead, frees it, and reads the rest directly into
        the result. A failure abandons what was already copied there. */
    method RecvThrough(requestedAmount: nat) returns (ok: bool, bytes: Bytes, ghost amount: nat)
      requires Valid() && prSocket != null && (len == 0 || len < requestedAmount)
      modifies this`buf, this`len, this`allocLen, this`buffered, this`peak, prSocket
      ensures Valid() && (buf == null || buf == old(buf)) && buffered == []
      ensures prSocket.recvCalls == old(prSocket.recvCalls) + 1
      ensures prSocket.failures == old(prSocket.failures) + if ok then 0 else 1
      ensures !ok || old(len) > 0 ==> Reset()
      ensures !ok ==> prSocket.unread == old(prSocket.unread)
      ensures ok ==> amount <= |old(prSocket.unread)| && |old(buffered)| + amount <= requestedAmount
      ensures ok && amount == 0 ==> requestedAmount == |old(buffered)| || old(prSocket.unread) == []
      ensures ok ==> prSocket.unread == old(prSocket.unread)[amount..]
      ensures ok ==> bytes == old(buffered) + old(prSocket.unread)[..amount]
    {
      var pyBuf := new byte[requestedAmount];
      var resultLen := len;
      if len > 0 {
        DrainInto(pyBuf);
      }
      ok, bytes, amount := RecvBehind(prSocket, pyBuf, resultLen);
      if !ok {
        FreeReadahead();
      }
    }

    /** _recv */
    method Recv(requestedAmount: int) returns (r: Reply)
      requires Valid()
      modifies this`buf, this`len, this`allocLen, this`buffered, this`peak, buf, prSocket
      ensures Valid() && (buf == null || buf == old(buf))
      ensures if !old(View()).open then r == IoClosed && View() == old(View())
              else View().open && Forward(old(View()), View()) && RecvStep(old(View()), requestedAmount, r, View())
      ensures r == NsprError ==> Reset()
      ensures prSocket != null ==> prSocket.failures == old(prSocket.failures) + Failed(r)
      ensures old(prSocket) != null && requestedAmount >= 0 ==>
                prSocket.recvCalls == old(prSocket.recvCalls) +
                  if AmountBuffered(old(buffered), requestedAmount) then 0 else 1
    {
      if prSocket == null {
        return IoClosed;
      }
      if requestedAmount < 0 {
        return BadSize;
      }
      ghost var s := View();
      if len > 0 && len >= requestedAmount {
        var front := RecvBuffered(requestedAmount);
        BufferedTaken(s, requestedAmount, View());
        return Data(front);
      }
      var ok, bytes, amount := RecvThrough(requestedAmount);
      if !ok {
        return NsprError;
      }
      ReadTaken(s, requestedAmount, amount, View());
      r := Data(bytes);
    }

    /** The loop of Socket_read: refill until the end of the stream. */
    method FillAll() returns (ok: bool)
      requires Valid() && prSocket != null
      modifies this`buf, this`len, this`allocLen, this`buffered, this`peak, buf, prSocket
      ensures Valid() && (buf == null || buf == old(buf) || fresh(buf))
      ensures ok ==> buf != null && Refilled(old(View()), View()) && prSocket.unread == []
      ensures !ok ==> Reset() && Forward(old(View()), View())
      ensures prSocket.failures == old(prSocket.failures) + if ok then 0 else 1
    {
      ghost var s, f := View(), prSocket.failures;
      var amount := 1;
      while amount != 0
        invariant Valid() && (buf == null || buf == old(buf) || fresh(buf))
        invariant Refilled(s, View()) && prSocket.failures == f
        invariant amount == 0 ==> buf != null && prSocket.unread == []
        decreases |prSocket.unread|, amount != 0
      {
        ghost var t := View();
        amount := Refill();
        if amount < 0 {
          return false;
        }
        RefillKeeps(s, t, View(), amount);
      }
      ok := true;
    }

    /** Socket_read */
    method Read(requestedAmount: int) returns (r: Reply)
      requires Valid()
      modifies this`buf, this`len, this`allocLen, this`buffered, this`peak, buf, prSocket
      ensures Valid() && (buf == null || buf == old(buf) || fresh(buf))
      ensures Step(old(View()), SocketRuns.Read(requestedAmount), r, View())
      ensures r == NsprError ==> Reset()
      ensures prSocket != null ==> prSocket.failures == old(prSocket.failures) + Failed(r)
    {
      if prSocket == null {
        return IoClosed;
      }
      if requestedAmount >= 0 {
        r := Recv(requestedAmount);
        return;
      }
      var ok := FillAll();
      if !ok {
        return NsprError;
      }
      var bytes := buf[..len];
      FreeReadahead();
      r := Data(bytes);
    }

    /** Socket_readlines */
    method Readlines(sizehint: int) returns (r: Reply)
      requires Valid()
      modifies this`buf, this`len, this`allocLen, this`buffered, this`peak, buf, prSocket
      ensures Valid() && (buf == null || buf == old(buf) || fresh(buf))
      ensures Step(old(View()), SocketRuns.Readlines(sizehint), r, View())
      ensures r == NsprError ==> Reset()
      ensures prSocket != null ==> prSocket.failures == old(prSocket.failures) + Failed(r)
    {
      ghost var s, f := View(), if prSocket == null then 0 else prSocket.failures;
      var list: seq<Bytes> := [];
      var amountRead := 0;
      var done := false;
      CollectingStarts(s, sizehint);
      while !done
        invariant Valid() && (buf == null || buf == old(buf) || fresh(buf))
        invariant Collecting(s, sizehint, list, View(), done)
        invariant amountRead == |Flatten(list)|
        invariant prSocket != null ==> prSocket.failures == f
        decreases !done, |View().Pending()|
      {
        ghost var t := View();
        var reply := Readline(0);
        if !reply.Data? {
          CollectingEnds(s, sizehint, list, t, reply, View());
          return reply;
        }
        CollectingGoesOn(s, sizehint, list, t, reply, View());
        list := list + [reply.bytes];
        amountRead := amountRead + |reply.bytes|;
        done := (sizehint > 0 && amountRead >= sizehint) || |reply.bytes| == 0;
      }
      CollectingDone(s, sizehint, list, View());
      r := LineList(list);
    }

    /** Socket_iternext */
    method Next() returns (r: Reply)
      requires Valid()
      modifies this`buf, this`len, this`allocLen, this`buffered, this`peak, buf, prSocket
      ensures Valid() && (buf == null || buf == old(buf) || fresh(buf))
      ensures Step(old(View()), SocketRuns.Next, r, View())
      ensures r == NsprError ==> Reset()
      ensures prSocket != null ==> prSocket.failures == old(prSocket.failures) + Failed(r)
    {
      r := Readline(0);
      if r.Data? && |r.bytes| == 0 {
        r := StopIteration;
      }
    }
  }

  method Perform(socket: Socket, call: Call) returns (r: Reply)
    requires socket.Valid()
    modifies socket`buf, socket`len, socket`allocLen, socket`buffered, socket`peak, socket.buf, socket.prSocket
    ensures socket.Valid() && (socket.buf == null || socket.buf == old(socket.buf) || fresh(socket.buf))
    ensures Step(old(socket.View()), call, r, socket.View())
    ensures r == NsprError ==> socket.Reset()
    ensures socket.prSocket != null ==> socket.prSocket.failures == old(socket.prSocket.failures) + Failed(r)
  {
    match call {
      case Readline(size) => r := socket.Readline(size);
      case Recv(amount) => r := socket.Recv(amount);
      case Read(size) => r := socket.Read(size);
      case Readlines(hint) => r := socket.Readlines(hint);
      case Next => r := socket.Next();
    }
  }

  /** A client that makes any sequence of reads: what it sees is a run. */
  method Play(socket: Socket, calls: seq<Call>) returns (ghost events: seq<Event>)
    requires socket.Valid()
    modifies socket`buf, socket`len, socket`allocLen, socket`buffered, socket`peak, socket.buf, socket.prSocket
    ensures socket.Valid() && (socket.buf == null || socket.buf == old(socket.buf) || fresh(socket.buf))
    ensures IsRun(old(socket.View()), events) && Final(old(socket.View()), events) == socket.View()
    ensures |events| == |calls| && forall k | 0 <= k < |calls| :: events[k].call == calls[k]
    ensures socket.prSocket != null ==> socket.prSocket.failures == old(socket.prSocket.failures) + Failures(events)
    decreases |calls|
  {
    events := [];
    if calls != [] {
      var r := Perform(socket, calls[0]);
      ghost var after := socket.View();
      ghost var rest := Play(socket, calls[1..]);
      events := [Event(calls[0], r, after)] + rest;
    }
  }

  /** Whatever the network does, no byte of the stream is repeated, reordered, or lost other than in
      a failed read, and a read fails exactly when PR_Recv does: if it never does, nothing is lost. */
  method AnyClient(socket: Socket, calls: seq<Call>) returns (ghost events: seq<Event>)
    requires socket.Valid()
    modifies socket`buf, socket`len, socket`allocLen, socket`buffered, socket`peak, socket.buf, socket.prSocket
    ensures socket.Valid() && (socket.buf == null || socket.buf == old(socket.buf) || fresh(socket.buf))
    ensures IsRun(old(socket.View()), events) && Final(old(socket.View()), events) == socket.View()
    ensures |events| == |calls| && forall k | 0 <= k < |calls| :: events[k].call == calls[k]
    ensures Total(Ledger(old(socket.View()), events)) + socket.View().Pending() == old(socket.View()).Pending()
    ensures socket.prSocket != null ==> socket.prSocket.failures == old(socket.prSocket.failures) + Failures(events)
    ensures socket.prSocket != null && socket.prSocket.failures == old(socket.prSocket.failures) ==>
              Undisturbed(old(socket.View()), events, socket.View())
    ensures socket.allocLen < socket.limit + 2048
  {
    events := Play(socket, calls);
    RunConserves(old(socket.View()), events);
    if Failures(events) == 0 {
      RunUndisturbed(old(socket.View()), events);
    }
  }

  /** The whole of a connection from a new socket on: however it is read, the array is never two
      increments larger than the stream is long, and if PR_Recv never fails then no read does. */
  method WholeConnection(stream: Bytes, calls: seq<Call>) returns (socket: Socket, ghost events: seq<Event>)
    ensures socket.Valid() && IsRun(State(true, [], stream), events) && |events| == |calls|
    ensures forall k | 0 <= k < |calls| :: events[k].call == calls[k]
    ensures Total(Ledger(State(true, [], stream), events)) + socket.View().Pending() == stream
    ensures socket.prSocket != null && socket.prSocket.failures == Failures(events)
    ensures socket.prSocket.failures == 0 ==> Undisturbed(State(true, [], stream), events, socket.View())
    ensures socket.allocLen < |stream| + 2048
  {
    var conn := new PRFileDesc(stream);
    socket := new Socket(conn);
    assert socket.View() == State(true, [], stream) && [] + stream == stream;
    events := AnyClient(socket, calls);
  }
}
