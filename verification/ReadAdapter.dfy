/**
 The `AsyncRead` adapter: it reads into its own buffer, copies what fits into
 the caller's buffer and caches the rest for later polls.
 */
module ReadAdapter {
  import opened Wrappers
  import opened BufferOwnership

  const ADAPTER_BUFFER_SIZE: nat := 8192

  datatype ReadError = OperationFailed(message: string) | BufferUnavailable

  function Min(a: nat, b: nat): nat { if a < b then a else b }

  // ----- Specification of one poll ---------------------------------------

  datatype Adapter = Adapter(cached: Bytes, pos: nat, hasBuffer: bool, reading: bool)

  /**
   What the read in flight answers when polled.  `Done` carries the buffer's
   bytes, how many of them were read, and whether the returned buffer can be
   accessed.
   */
  datatype Answer = StillReading | ReadFailed(message: string) | Done(count: nat, bytes: Bytes, accessible: bool)

  const NEW_ADAPTER := Adapter([], 0, true, false)

  predicate SaneAnswer(a: Answer) {
    a.Done? ==> a.count <= |a.bytes|
  }

  predicate Inv(s: Adapter) {
    && s.pos <= |s.cached|
    && (s.pos == |s.cached| ==> s.cached == [])
    && !(s.hasBuffer && s.reading)
  }

  function Unread(s: Adapter): Bytes
    requires s.pos <= |s.cached|
  {
    s.cached[s.pos..]
  }

  predicate ServedFromCache(s: Adapter, remaining: nat) {
    s.pos < |s.cached| && remaining > 0
  }

  predicate ReachesRead(s: Adapter, remaining: nat) {
    !ServedFromCache(s, remaining) && (s.reading || s.hasBuffer)
  }

  /** New state, bytes put into the caller's buffer, and the answer. */
  function AfterPoll(s: Adapter, remaining: nat, a: Answer): (Adapter, Bytes, Poll<Result<(), ReadError>>)
    requires Inv(s) && SaneAnswer(a)
  {
    if ServedFromCache(s, remaining) then
      var n := Min(|s.cached| - s.pos, remaining);
      (if s.pos + n == |s.cached| then s.(cached := [], pos := 0) else s.(pos := s.pos + n),
       s.cached[s.pos..s.pos + n], Ready(Ok(())))
    else if !ReachesRead(s, remaining) then
      (s, [], Ready(Err(BufferUnavailable)))
    else match a
      case StillReading => (s.(hasBuffer := false, reading := true), [], Pending)
      case ReadFailed(message) => (s.(hasBuffer := false, reading := false), [], Ready(Err(OperationFailed(message))))
      case Done(count, bytes, accessible) =>
        var idle := s.(hasBuffer := true, reading := false);
        if count == 0 || !accessible then (idle, [], Ready(Ok(())))
        else
          var n := Min(count, remaining);
          (if n < count then idle.(cached := s.cached + bytes[n..count], pos := 0) else idle,
           bytes[..n], Ready(Ok(())))
  }

  // ----- The adapter ------------------------------------------------------

  /** The caller's buffer. */
  class ReadBuf {
    var filled: Bytes
    const capacity: nat

    constructor (capacity: nat)
      ensures filled == [] && this.capacity == capacity
    {
      filled := [];
      this.capacity := capacity;
    }

    predicate Valid()
      reads this
    {
      |filled| <= capacity
    }

    function Remaining(): nat
      requires Valid()
      reads this
    {
      capacity - |filled|
    }

    method PutSlice(data: Bytes)
      requires Valid() && |data| <= Remaining()
      modifies this
      ensures Valid() && filled == old(filled) + data
    {
      filled := filled + data;
    }
  }

  /** What the read future yields when polled: the count and the buffer it gives back. */
  datatype FutureAnswer = FuturePending | FutureFailed(message: string) | FutureDone(count: nat, buffer: OwnedBuffer)

  function CellBytes(cell: Cell, size: nat): Bytes {
    if cell.state.Returning? then seq(size, _ => 0) else cell.state.bytes
  }

  class AsyncReadAdapter {
    var internalBuffer: Option<OwnedBuffer>
    var cachedData: Bytes
    var cachedPos: nat
    var readFuture: bool

    function View(): Adapter
      reads this
    {
      Adapter(cachedData, cachedPos, internalBuffer.Some?, readFuture)
    }

    constructor ()
      ensures View() == NEW_ADAPTER && Inv(View())
    {
      var buffer := new OwnedBuffer(ADAPTER_BUFFER_SIZE);
      internalBuffer := Some(buffer);
      cachedData := [];
      cachedPos := 0;
      readFuture := false;
    }

    /** The specification's view of an answer, taken when the poll starts. */
    static function ViewAnswer(a: FutureAnswer): Answer
      reads if a.FutureDone? then {a.buffer.inner} else {}
    {
      match a
      case FuturePending => StillReading
      case FutureFailed(message) => ReadFailed(message)
      case FutureDone(count, buffer) =>
        Done(count, CellBytes(buffer.inner.View(), buffer.size), buffer.inner.state.User?)
    }

    /** Fills the caller's buffer from a completed read and caches what does not fit. */
    method CopyOut(buf: ReadBuf, count: nat, returned: OwnedBuffer)
      requires buf.Valid() && !returned.inner.poisoned
      requires count <= |CellBytes(returned.inner.View(), returned.size)|
      modifies this`cachedData, this`cachedPos, buf, returned.inner
      ensures buf.Valid() && returned.inner.View() == old(returned.inner.View())
      ensures var n := Min(count, old(buf.Remaining())); var bytes := CellBytes(old(returned.inner.View()), returned.size);
        if returned.inner.state.User? then
          && buf.filled == old(buf.filled) + bytes[..n]
          && (cachedData, cachedPos) == if n < count then (old(cachedData) + bytes[n..count], 0) else old((cachedData, cachedPos))
        else
          buf.filled == old(buf.filled) && (cachedData, cachedPos) == old((cachedData, cachedPos))
    {
      var guard := returned.TryAccess();
      if guard.value.Some? {
        var data := guard.value.value.buffer[..count];
        var toCopy := Min(|data|, buf.Remaining());
        buf.PutSlice(data[..toCopy]);
        if toCopy < |data| {
          cachedData := cachedData + data[toCopy..];
          cachedPos := 0;
        }
        var _ := guard.value.value.Drop();
      }
    }

    /**
     One poll; `answer` is what the read in flight says if it is polled.  The
     slice of the returned buffer panics when more bytes are reported than the
     buffer holds, and a poisoned buffer panics when accessed.
     */
    method PollRead(buf: ReadBuf, answer: FutureAnswer) returns (r: Poll<Result<(), ReadError>>)
      requires Inv(View()) && buf.Valid()
      requires SaneAnswer(ViewAnswer(answer))
      requires answer.FutureDone? ==> !answer.buffer.inner.poisoned
      modifies this, buf, if answer.FutureDone? then {answer.buffer.inner} else {}
      ensures buf.Valid() && Inv(View())
      ensures var (s, put, result) := AfterPoll(old(View()), old(buf.Remaining()), old(ViewAnswer(answer)));
        View() == s && buf.filled == old(buf.filled) + put && r == result
      ensures answer.FutureDone? ==> answer.buffer.inner.View() == old(answer.buffer.inner.View())
      decreases if readFuture then 0 else 1
    {
      if cachedPos < |cachedData| {
        var available := |cachedData| - cachedPos;
        var toCopy := Min(available, buf.Remaining());
        if toCopy > 0 {
          buf.PutSlice(cachedData[cachedPos..cachedPos + toCopy]);
          cachedPos := cachedPos + toCopy;
          if cachedPos >= |cachedData| {
            cachedData := [];
            cachedPos := 0;
          }
          return Ready(Ok(()));
        }
      }
      if readFuture {
        readFuture := false;
        match answer {
          case FutureDone(count, returned) =>
            internalBuffer := Some(returned);
            if count > 0 {
              CopyOut(buf, count, returned);
            }
            r := Ready(Ok(()));
          case FutureFailed(message) =>
            r := Ready(Err(OperationFailed(message)));
          case FuturePending =>
            readFuture := true;
            r := Pending;
        }
      } else if internalBuffer.Some? {
        internalBuffer := None;
        readFuture := true;
        r := PollRead(buf, answer);
      } else {
        r := Ready(Err(BufferUnavailable));
      }
    }
  }

  // ----- The byte stream --------------------------------------------------

  /** Bytes the kernel read in the read this poll completes, if it completes one. */
  function Produced(s: Adapter, remaining: nat, a: Answer): Bytes
    requires SaneAnswer(a)
  {
    if ReachesRead(s, remaining) && a.Done? then a.bytes[..a.count] else []
  }

  /**
   The polls that damage the stream: a completed read whose buffer cannot be
   accessed, or one that completes while the caller has no room and part of
   the cache was already handed out, which is then handed out again.
   */
  predicate Damages(s: Adapter, remaining: nat, a: Answer) {
    && ReachesRead(s, remaining) && a.Done? && a.count > 0
    && (!a.accessible || (remaining == 0 && s.pos > 0))
  }

  lemma PollKeepsInv(s: Adapter, remaining: nat, a: Answer)
    requires Inv(s) && SaneAnswer(a)
    ensures Inv(AfterPoll(s, remaining, a).0)
    ensures |AfterPoll(s, remaining, a).1| <= remaining
  {
  }

  /** One poll moves bytes without loss, duplication or reordering exactly when it is not a damaging one. */
  lemma PollPreservesStreamIff(s: Adapter, remaining: nat, a: Answer)
    requires Inv(s) && SaneAnswer(a)
    ensures var (t, put, _) := AfterPoll(s, remaining, a);
      put + Unread(t) == Unread(s) + Produced(s, remaining, a) <==> !Damages(s, remaining, a)
  {
  }

  /** One entry per poll: the caller's room and the answer of the read in flight. */
  type Polls = seq<(nat, Answer)>

  predicate SanePolls(polls: Polls) {
    forall p | p in polls :: SaneAnswer(p.1)
  }

  /** The adapter after a run, everything it delivered and everything the kernel read. */
  function AfterPolls(s: Adapter, polls: Polls): (r: (Adapter, Bytes, Bytes))
    requires Inv(s) && SanePolls(polls)
    ensures Inv(r.0)
    decreases |polls|
  {
    if polls == [] then (s, [], [])
    else
      var (remaining, a) := polls[0];
      PollKeepsInv(s, remaining, a);
      var (t, put, _) := AfterPoll(s, remaining, a);
      var (u, delivered, produced) := AfterPolls(t, polls[1..]);
      (u, put + delivered, Produced(s, remaining, a) + produced)
  }

  predicate NeverDamages(s: Adapter, polls: Polls)
    requires Inv(s) && SanePolls(polls)
    decreases |polls|
  {
    polls == [] ||
    (&& !Damages(s, polls[0].0, polls[0].1)
     && (PollKeepsInv(s, polls[0].0, polls[0].1); NeverDamages(AfterPoll(s, polls[0].0, polls[0].1).0, polls[1..])))
  }

  /** Stream fidelity over a run: what was delivered, followed by what is cached, is what was read. */
  lemma {:induction false} StreamIsPreserved(s: Adapter, polls: Polls)
    requires Inv(s) && SanePolls(polls) && NeverDamages(s, polls)
    ensures var (t, delivered, produced) := AfterPolls(s, polls);
      delivered + Unread(t) == Unread(s) + produced
    decreases |polls|
  {
    if polls != [] {
      var (remaining, a) := polls[0];
      var (t, put, _) := AfterPoll(s, remaining, a);
      PollKeepsInv(s, remaining, a);
      PollPreservesStreamIff(s, remaining, a);
      StreamIsPreserved(t, polls[1..]);
      var (u, delivered, produced) := AfterPolls(t, polls[1..]);
      Regroup(put, delivered, Unread(u), Unread(t), produced, Unread(s), Produced(s, remaining, a));
    } else {
      assert [] + Unread(s) == Unread(s) + [];
    }
  }

  lemma Regroup(put: Bytes, delivered: Bytes, last: Bytes, middle: Bytes, produced: Bytes, first: Bytes, now: Bytes)
    requires delivered + last == middle + produced
    requires put + middle == first + now
    ensures (put + delivered) + last == first + (now + produced)
  {
    assert (put + delivered) + last == put + (delivered + last);
    assert put + (middle + produced) == (put + middle) + produced;
    assert (first + now) + produced == first + (now + produced);
  }

  /** At every poll of the run, what it delivers and what is cached then are what was cached and what it read. */
  predicate FaithfulThroughout(s: Adapter, polls: Polls)
    requires Inv(s) && SanePolls(polls)
    decreases |polls|
  {
    polls == [] ||
    (PollKeepsInv(s, polls[0].0, polls[0].1);
     var (t, put, _) := AfterPoll(s, polls[0].0, polls[0].1);
     put + Unread(t) == Unread(s) + Produced(s, polls[0].0, polls[0].1) && FaithfulThroughout(t, polls[1..]))
  }

  /** The stream is preserved all along a run exactly when no poll of it is a damaging one. */
  lemma {:induction false} FaithfulIffNeverDamages(s: Adapter, polls: Polls)
    requires Inv(s) && SanePolls(polls)
    ensures FaithfulThroughout(s, polls) <==> NeverDamages(s, polls)
    decreases |polls|
  {
    if polls != [] {
      var (remaining, a) := polls[0];
      PollKeepsInv(s, remaining, a);
      PollPreservesStreamIff(s, remaining, a);
      FaithfulIffNeverDamages(AfterPoll(s, remaining, a).0, polls[1..]);
    }
  }

  predicate Roomy(polls: Polls) {
    forall p | p in polls :: p.0 > 0 && (p.1.Done? ==> p.1.accessible)
  }

  lemma {:induction false} RoomyPollsNeverDamage(s: Adapter, polls: Polls)
    requires Inv(s) && SanePolls(polls) && Roomy(polls)
    ensures NeverDamages(s, polls)
    decreases |polls|
  {
    if polls != [] {
      assert polls[0] in polls;
      PollKeepsInv(s, polls[0].0, polls[0].1);
      RoomyPollsNeverDamage(AfterPoll(s, polls[0].0, polls[0].1).0, polls[1..]);
    }
  }

  /** A caller that always offers room, with buffers that can be accessed, sees the exact stream from the start. */
  lemma RoomyCallersSeeTheStream(polls: Polls)
    requires SanePolls(polls) && Roomy(polls)
    ensures var (t, delivered, produced) := AfterPolls(NEW_ADAPTER, polls);
      delivered + Unread(t) == produced
  {
    RoomyPollsNeverDamage(NEW_ADAPTER, polls);
    StreamIsPreserved(NEW_ADAPTER, polls);
    var (_, _, produced) := AfterPolls(NEW_ADAPTER, polls);
    assert Unread(NEW_ADAPTER) + produced == produced;
  }

  /** The adapter has its buffer, or a read that will give it back. */
  predicate Usable(s: Adapter) {
    s.hasBuffer || s.reading
  }

  /** The exact answer of a poll: cached bytes first, then what the read says, then an error for good. */
  lemma PollAnswers(s: Adapter, remaining: nat, a: Answer)
    requires Inv(s) && SaneAnswer(a)
    ensures AfterPoll(s, remaining, a).2 ==
      if Unread(s) != [] && remaining > 0 then Ready(Ok(()))
      else if !Usable(s) then Ready(Err(BufferUnavailable))
      else match a
        case StillReading => Pending
        case ReadFailed(message) => Ready(Err(OperationFailed(message)))
        case Done(_, _, _) => Ready(Ok(()))
  {
  }

  /** A successful poll keeps nothing back that fits: the caller's buffer is full or the cache is empty. */
  lemma PollFillsTheCaller(s: Adapter, remaining: nat, a: Answer)
    requires Inv(s) && SaneAnswer(a) && (a.Done? ==> a.accessible)
    ensures var (t, put, r) := AfterPoll(s, remaining, a);
      r == Ready(Ok(())) ==> |put| == remaining || Unread(t) == []
  {
  }

  predicate FailsRead(s: Adapter, remaining: nat, a: Answer)
    requires Inv(s)
  {
    !(Unread(s) != [] && remaining > 0) && Usable(s) && a.ReadFailed?
  }

  predicate NeverFailsRead(s: Adapter, polls: Polls)
    requires Inv(s) && SanePolls(polls)
    decreases |polls|
  {
    polls == [] ||
    (&& !FailsRead(s, polls[0].0, polls[0].1)
     && (PollKeepsInv(s, polls[0].0, polls[0].1); NeverFailsRead(AfterPoll(s, polls[0].0, polls[0].1).0, polls[1..])))
  }

  lemma {:induction false} UnusableStays(s: Adapter, polls: Polls)
    requires Inv(s) && SanePolls(polls) && !Usable(s)
    ensures !Usable(AfterPolls(s, polls).0)
    decreases |polls|
  {
    if polls != [] {
      PollKeepsInv(s, polls[0].0, polls[0].1);
      UnusableStays(AfterPoll(s, polls[0].0, polls[0].1).0, polls[1..]);
    }
  }

  /** The adapter stays usable over a run exactly when no read of it failed; a failed one keeps the buffer. */
  lemma {:induction false} UsableIffNoReadFailed(s: Adapter, polls: Polls)
    requires Inv(s) && SanePolls(polls) && Usable(s)
    ensures Usable(AfterPolls(s, polls).0) <==> NeverFailsRead(s, polls)
    decreases |polls|
  {
    if polls != [] {
      var t := AfterPoll(s, polls[0].0, polls[0].1).0;
      PollKeepsInv(s, polls[0].0, polls[0].1);
      if Usable(t) {
        UsableIffNoReadFailed(t, polls[1..]);
      } else {
        UnusableStays(t, polls[1..]);
      }
    }
  }

  /** With room and an accessible buffer, an empty successful read means the kernel reported end of file. */
  lemma EmptyReadMeansEndOfFile(s: Adapter, remaining: nat, a: Answer)
    requires Inv(s) && SaneAnswer(a) && remaining > 0 && (a.Done? ==> a.accessible)
    ensures var (_, put, r) := AfterPoll(s, remaining, a);
      r == Ready(Ok(())) && put == [] <==> ReachesRead(s, remaining) && a.Done? && a.count == 0
  {
  }

  /** A poll without room rewinds a half-read cache; the next poll hands its front out again. */
  lemma RewindReplaysBytes(b: byte, c: byte, d: byte)
    ensures var polls := [(0, Done(1, [d], true)), (4, StillReading)];
      SanePolls(polls) && AfterPolls(Adapter([b, c], 1, true, false), polls)
        == (Adapter([], 0, true, false), [b, c, d], [d])
  {
    var p, q: (nat, Answer) := (0, Done(1, [d], true)), (4, StillReading);
    var s, t := Adapter([b, c], 1, true, false), Adapter([b, c, d], 0, true, false);
    assert [b, c] + [d][0..1] == [b, c, d];
    assert AfterPoll(s, p.0, p.1) == (t, [], Ready(Ok(())));
    assert [b, c, d][0..3] == [b, c, d];
    OnePollMore(t, q, []);
    OnePollMore(s, p, [q]);
    assert [q] + [] == [q] && [p] + [q] == [p, q];
    assert [] + ([b, c, d] + []) == [b, c, d] && [d][..1] + (Produced(t, q.0, q.1) + []) == [d];
  }

  /** After "abc" was read and "ab" delivered, such a poll makes 'b' come a second time. */
  lemma ZeroRoomPollReplaysBytes(a: byte, b: byte, c: byte, d: byte)
    ensures var polls := [(1, Done(3, [a, b, c], true)), (1, StillReading), (0, Done(1, [d], true)), (4, StillReading)];
      SanePolls(polls) && AfterPolls(Adapter([], 0, true, false), polls)
        == (Adapter([], 0, true, false), [a, b, b, c, d], [a, b, c, d])
  {
    var p0, p1: (nat, Answer) := (1, Done(3, [a, b, c], true)), (1, StillReading);
    var rest: Polls := [(0, Done(1, [d], true)), (4, StillReading)];
    var s0, s1, s2 := Adapter([], 0, true, false), Adapter([b, c], 0, true, false), Adapter([b, c], 1, true, false);
    assert [a, b, c][..1] == [a] && [] + [a, b, c][1..3] == [b, c] && [b, c][0..1] == [b];
    assert AfterPoll(s0, p0.0, p0.1) == (s1, [a], Ready(Ok(())));
    assert AfterPoll(s1, p1.0, p1.1) == (s2, [b], Ready(Ok(())));
    RewindReplaysBytes(b, c, d);
    OnePollMore(s1, p1, rest);
    OnePollMore(s0, p0, [p1] + rest);
    assert [p0] + ([p1] + rest) == [p0, p1, rest[0], rest[1]];
    assert [a] + ([b] + [b, c, d]) == [a, b, b, c, d] && [a, b, c][..3] + ([] + [d]) == [a, b, c, d];
  }

  lemma OnePollMore(s: Adapter, poll: (nat, Answer), rest: Polls)
    requires Inv(s) && SaneAnswer(poll.1) && SanePolls(rest)
    ensures SanePolls([poll] + rest) && Inv(AfterPoll(s, poll.0, poll.1).0)
    ensures var (t, put, _) := AfterPoll(s, poll.0, poll.1); var (u, delivered, produced) := AfterPolls(t, rest);
      AfterPolls(s, [poll] + rest) == (u, put + delivered, Produced(s, poll.0, poll.1) + produced)
  {
  }
}
