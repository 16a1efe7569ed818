/** update_keeper (src/ircom.cpp, include/ircom/ircom.h): the outbound ring of
    payloads drained by a single flusher, and the inbound "latest update" slot.
    Everything here runs on the connection's single executor, so each method is
    one uninterrupted step of that executor. */
module Keeper {
  import opened Wrappers
  import opened Packet

  const UPDATE_BUF_CAP: nat := 200

  // ---------------------------------------------------------------------------
  // The ring as a value

  /** The last n elements of s, or all of s when it is shorter. */
  function Newest<T>(s: seq<T>, n: nat): seq<T>
  {
    if |s| <= n then s else s[|s| - n..]
  }

  /** boost::circular_buffer::push_back on a ring of capacity UPDATE_BUF_CAP:
      a full ring overwrites its oldest element. */
  function Push<T>(ring: seq<T>, x: T): (r: seq<T>)
    requires |ring| <= UPDATE_BUF_CAP
    ensures r == Newest(ring + [x], UPDATE_BUF_CAP)
    ensures 0 < |r| <= UPDATE_BUF_CAP && r[|r| - 1] == x
    ensures |ring| < UPDATE_BUF_CAP ==> r[..|ring|] == ring
    ensures |ring| == UPDATE_BUF_CAP ==> r[..|ring| - 1] == ring[1..]
  {
    if |ring| == UPDATE_BUF_CAP then ring[1..] + [x] else ring + [x]
  }

  /** The ring after pushing every element of xs in turn. */
  function PushAll<T>(ring: seq<T>, xs: seq<T>): seq<T>
    requires |ring| <= UPDATE_BUF_CAP
    decreases |xs|
  {
    if xs == [] then ring else PushAll(Push(ring, xs[0]), xs[1..])
  }

  lemma NewestOfNewest<T>(s: seq<T>, t: seq<T>, n: nat)
    ensures Newest(Newest(s, n) + t, n) == Newest(s + t, n)
  {
    if |s| > n {
      var u := s[|s| - n..];
      assert (s + t)[|s + t| - |u + t|..] == u + t;
    }
  }

  /** However many elements are pushed, the ring holds exactly the newest
      UPDATE_BUF_CAP of everything it has seen, oldest first. */
  lemma {:induction false} PushAllKeepsNewest<T>(ring: seq<T>, xs: seq<T>)
    requires |ring| <= UPDATE_BUF_CAP
    ensures PushAll(ring, xs) == Newest(ring + xs, UPDATE_BUF_CAP)
    decreases |xs|
  {
    if xs != [] {
      var x, rest := xs[0], xs[1..];
      assert ring + xs == (ring + [x]) + rest by {
        assert xs == [x] + rest;
      }
      PushAllKeepsNewest(Push(ring, x), rest);
      NewestOfNewest(ring + [x], rest, UPDATE_BUF_CAP);
    }
  }

  /** Overflow: pushing more than UPDATE_BUF_CAP payloads onto an empty ring
      drops the oldest ones and keeps the last UPDATE_BUF_CAP in order
      (250 pushes drop the first 50). */
  lemma {:induction false} OverflowDropsOldest<T>(xs: seq<T>)
    requires |xs| >= UPDATE_BUF_CAP
    ensures PushAll([], xs) == xs[|xs| - UPDATE_BUF_CAP..]
    ensures |PushAll([], xs)| == UPDATE_BUF_CAP
  {
    PushAllKeepsNewest([], xs);
    assert [] + xs == xs;
  }

  // ---------------------------------------------------------------------------
  // Bookkeeping used to state the ordering property

  /** Strictly increasing positions. */
  predicate Increasing(ids: seq<nat>)
  {
    forall i, j :: 0 <= i < j < |ids| ==> ids[i] < ids[j]
  }

  /** ids[i] is the position in src at which s[i] was pushed. */
  predicate Tracks(s: seq<Payload>, ids: seq<nat>, src: seq<Payload>)
  {
    |ids| == |s| && forall i :: 0 <= i < |s| ==> ids[i] < |src| && src[ids[i]] == s[i]
  }

  lemma TracksExtend(s: seq<Payload>, ids: seq<nat>, src: seq<Payload>, x: Payload)
    requires Tracks(s, ids, src)
    ensures Tracks(s, ids, src + [x])
  {
    forall i | 0 <= i < |s|
      ensures (src + [x])[ids[i]] == s[i]
    {
    }
  }

  lemma TracksAppend(s: seq<Payload>, ids: seq<nat>, src: seq<Payload>, x: Payload, id: nat)
    requires Tracks(s, ids, src) && id < |src| && src[id] == x
    ensures Tracks(s + [x], ids + [id], src)
  {
    assert forall i :: 0 <= i < |s| ==> (s + [x])[i] == s[i] && (ids + [id])[i] == ids[i];
  }

  /** Appending a position after the last one keeps the positions increasing. */
  lemma AppendIncreasing(ids: seq<nat>, id: nat)
    requires Increasing(ids) && (ids != [] ==> ids[|ids| - 1] < id)
    ensures Increasing(ids + [id])
  {
    var r := ids + [id];
    forall i, j | 0 <= i < j < |r|
      ensures r[i] < r[j]
    {
      if j == |ids| && i < |ids| - 1 {
        assert ids[i] < ids[|ids| - 1];
      }
    }
  }

  /** A suffix of a sequence stays a suffix when something is appended; with
      a full ring it loses its first element. */
  lemma PushSuffix<T>(src: seq<T>, head: nat, x: T)
    requires head <= |src| && |src| - head <= UPDATE_BUF_CAP
    ensures Push(src[head..], x) == (src + [x])[if |src| - head == UPDATE_BUF_CAP then head + 1 else head..]
  {
    assert src[head..] + [x] == (src + [x])[head..];
  }

  // ---------------------------------------------------------------------------
  // The input side

  /** Number of complete 32-byte frames at the front of a byte stream. */
  function FrameCount(incoming: seq<Byte>): nat
  {
    |incoming| / FRAME_SIZE
  }

  /** A stream with n complete frames and less than one more holds n frames. */
  lemma FrameCountOf(len: nat, n: nat)
    requires FRAME_SIZE * n <= len < FRAME_SIZE * n + FRAME_SIZE
    ensures len / FRAME_SIZE == n
  {
  }

  /** The last complete frame of a stream that holds at least one. */
  function LastFrame(incoming: seq<Byte>): (f: seq<Byte>)
    requires FrameCount(incoming) > 0
    ensures |f| == FRAME_SIZE
  {
    var n := FrameCount(incoming);
    incoming[FRAME_SIZE * (n - 1)..FRAME_SIZE * n]
  }

  /** What one side writes is what the other side ends up holding: reading
      the frames of ps one after another leaves the last payload of ps. */
  lemma {:induction false} LastFrameOfStream(ps: seq<Payload>)
    requires ps != []
    ensures FrameCount(Frames(ps)) == |ps|
    ensures DecodeFrame(LastFrame(Frames(ps))) == ps[|ps| - 1]
  {
    FramesChunk(ps, |ps| - 1);
    FrameLayout(ps[|ps| - 1]);
  }

  // ---------------------------------------------------------------------------
  // The outbound side as a value

  /** The outbound side of an update_keeper: update_buf_, update_buf_rotated_,
      whether the socket is open, the live flusher's copy of the front while
      its async_write is pending (None when no flusher runs), and the payloads
      whose frames the socket has taken, in order (the bytes on the socket are
      Frames(written)). */
  datatype Outbound = Outbound(
    ring: seq<Payload>,
    rotated: bool,
    open: bool,
    inFlight: Option<Payload>,
    written: seq<Payload>)

  /** Bookkeeping behind an Outbound state: every payload ever pushed, where
      the ring starts in that history, and the history positions of the payload
      in flight and of each written payload. */
  datatype History = History(pushed: seq<Payload>, head: nat, inFlightId: nat, writtenIds: seq<nat>)

  /** The ring is the suffix of the history from head on and fits its capacity;
      a live flusher needs an open socket and a non-empty ring, and writes the
      front unless a rotation evicted it; written payloads and the payload in
      flight all come from the history. */
  predicate Consistent(s: Outbound, h: History)
  {
    && |s.ring| <= UPDATE_BUF_CAP
    && h.head <= |h.pushed| && s.ring == h.pushed[h.head..]
    && (s.inFlight.Some? ==> s.open && s.ring != [])
    && (s.inFlight.Some? && !s.rotated ==> s.inFlight.value == s.ring[0])
    && Tracks(s.written, h.writtenIds, h.pushed)
    && (s.inFlight.Some? ==> h.inFlightId < |h.pushed| && h.pushed[h.inFlightId] == s.inFlight.value)
  }

  /** Position of the last written payload, -1 before the first write. */
  function LastWritten(h: History): int
  {
    if h.writtenIds == [] then -1 else h.writtenIds[|h.writtenIds| - 1]
  }

  /** The single-flusher discipline: the written payloads are an in-order
      subsequence of the pushed ones, none written twice and none still in the
      ring; the payload in flight comes after all of them and is still the
      ring's front unless a rotation evicted it; and a set rotation flag always
      has a front to skip. */
  predicate InOrder(s: Outbound, h: History)
  {
    && Increasing(h.writtenIds)
    && LastWritten(h) < h.head
    && (s.inFlight.Some? ==>
          && LastWritten(h) < h.inFlightId
          && (if s.rotated then h.inFlightId < h.head else h.inFlightId == h.head))
    && (s.rotated ==> s.ring != [])
  }

  /** flush_queue with the socket open, up to its first co_await: push the
      payload (a full ring rotates and raises the flag); only the call that
      found the ring empty becomes the flusher and starts writing the front. */
  function AfterPushOpen(s: Outbound, pl: Payload): Outbound
    requires |s.ring| <= UPDATE_BUF_CAP
  {
    s.(ring := Push(s.ring, pl),
       rotated := s.rotated || |s.ring| == UPDATE_BUF_CAP,
       inFlight := if s.ring == [] then Some(pl) else s.inFlight)
  }

  /** send_update as written: with the socket closed the backlog is dropped
      and the rotation flag is left as it was. */
  function AfterEnqueue(s: Outbound, pl: Payload): Outbound
    requires |s.ring| <= UPDATE_BUF_CAP
  {
    if !s.open then s.(ring := []) else AfterPushOpen(s, pl)
  }

  /** send_update with the drop also lowering the rotation flag. */
  function AfterEnqueueCorrected(s: Outbound, pl: Payload): Outbound
    requires |s.ring| <= UPDATE_BUF_CAP
  {
    if !s.open then s.(ring := [], rotated := false) else AfterPushOpen(s, pl)
  }

  /** The flusher's async_write completes: the frame of the copy is on the
      socket; the front is popped unless the flag is up; the flag is lowered;
      a non-empty ring makes the loop write its new front. */
  function AfterWrite(s: Outbound): Outbound
    requires s.inFlight.Some? && s.ring != []
  {
    var ring := if s.rotated then s.ring else s.ring[1..];
    s.(ring := ring,
       rotated := false,
       inFlight := if ring == [] then None else Some(ring[0]),
       written := s.written + [s.inFlight.value])
  }

  /** sock_.close(): the pending async_write is aborted and the flusher dies;
      the ring and the flag stay. */
  function AfterClose(s: Outbound): Outbound
  {
    s.(open := false, inFlight := None)
  }

  /** sock_.close() together with dropping what the lost connection left
      behind: the backlog and the rotation flag go with the aborted flusher. */
  function AfterCloseCorrected(s: Outbound): Outbound
  {
    s.(open := false, inFlight := None, ring := [], rotated := false)
  }

  /** Nothing is left waiting without a writer: on an open socket a non-empty
      ring has a live flusher, and a closed socket has no backlog, no raised
      flag and no flusher. */
  predicate Live(s: Outbound)
  {
    && (s.open && s.ring != [] ==> s.inFlight.Some?)
    && (!s.open ==> s.ring == [] && !s.rotated && s.inFlight.None?)
  }

  /** send_update as written over a sequence of payloads. */
  function EnqueueAll(s: Outbound, pls: seq<Payload>): Outbound
    requires |s.ring| <= UPDATE_BUF_CAP
    decreases |pls|
  {
    if pls == [] then s
    else
      var t := AfterEnqueue(s, pls[0]);
      assert |t.ring| <= UPDATE_BUF_CAP;
      EnqueueAll(t, pls[1..])
  }

  /** As written, a keeper whose socket is open with a backlog but no flusher
      stays that way under every send_update: no write can ever start. */
  lemma {:induction false} IdleBacklogStaysIdle(s: Outbound, pls: seq<Payload>)
    requires |s.ring| <= UPDATE_BUF_CAP && s.open && s.ring != [] && s.inFlight.None?
    ensures var t := EnqueueAll(s, pls); t.open && t.ring != [] && t.inFlight.None?
    decreases |pls|
  {
    if pls != [] {
      IdleBacklogStaysIdle(AfterEnqueue(s, pls[0]), pls[1..]);
    }
  }

  /** With the corrected close and send_update, every step of the keeper keeps
      Live: opening, closing, sending and completing a write. */
  lemma {:induction false} CorrectedKeepsLive(s: Outbound, pl: Payload)
    requires Live(s) && |s.ring| <= UPDATE_BUF_CAP
    ensures Live(s.(open := true))
    ensures Live(AfterCloseCorrected(s))
    ensures Live(AfterEnqueueCorrected(s, pl))
    ensures s.inFlight.Some? && s.ring != [] ==> Live(AfterWrite(s))
  {
    var t := AfterEnqueueCorrected(s, pl);
    if s.open && s.ring == [] {
      assert t.inFlight == Some(pl);
    }
  }

  function PushHistory(s: Outbound, h: History, pl: Payload): History
    requires |s.ring| <= UPDATE_BUF_CAP
  {
    var head := if |s.ring| == UPDATE_BUF_CAP then h.head + 1 else h.head;
    h.(pushed := h.pushed + [pl], head := head, inFlightId := if s.ring == [] then head else h.inFlightId)
  }

  function DropHistory(h: History): History
  {
    h.(head := |h.pushed|)
  }

  function CompleteHistory(s: Outbound, h: History): History
  {
    var head := if s.rotated then h.head else h.head + 1;
    h.(head := head, inFlightId := head, writtenIds := h.writtenIds + [h.inFlightId])
  }

  lemma {:induction false} PushOpenKeepsOrder(s: Outbound, h: History, pl: Payload)
    requires Consistent(s, h) && s.open
    ensures Consistent(AfterPushOpen(s, pl), PushHistory(s, h, pl))
    ensures InOrder(s, h) ==> InOrder(AfterPushOpen(s, pl), PushHistory(s, h, pl))
  {
    PushSuffix(h.pushed, h.head, pl);
    TracksExtend(s.written, h.writtenIds, h.pushed, pl);
    if s.inFlight.Some? {
      assert h.pushed[h.inFlightId] == (h.pushed + [pl])[h.inFlightId];
    }
  }

  /** send_update keeps the state consistent, and keeps the single-flusher
      discipline unless it runs on an open socket with the flag already up and
      the ring empty, which a drop on a closed socket can leave behind. */
  lemma {:induction false} EnqueueKeepsOrder(s: Outbound, h: History, pl: Payload)
    requires Consistent(s, h)
    ensures var h' := if s.open then PushHistory(s, h, pl) else DropHistory(h);
      && Consistent(AfterEnqueue(s, pl), h')
      && (InOrder(s, h) && (s.open || !s.rotated) ==> InOrder(AfterEnqueue(s, pl), h'))
  {
    if s.open {
      PushOpenKeepsOrder(s, h, pl);
    }
  }

  /** The corrected send_update keeps both the state and the single-flusher
      discipline, on every input. */
  lemma {:induction false} EnqueueCorrectedKeepsOrder(s: Outbound, h: History, pl: Payload)
    requires Consistent(s, h)
    ensures var h' := if s.open then PushHistory(s, h, pl) else DropHistory(h);
      && Consistent(AfterEnqueueCorrected(s, pl), h')
      && (InOrder(s, h) ==> InOrder(AfterEnqueueCorrected(s, pl), h'))
  {
    if s.open {
      PushOpenKeepsOrder(s, h, pl);
    }
  }

  /** A completed write appends the payload in flight to what the socket took
      and keeps the state consistent and in order. */
  lemma {:induction false} CompleteWriteKeepsOrder(s: Outbound, h: History)
    requires Consistent(s, h) && s.inFlight.Some?
    ensures Consistent(AfterWrite(s), CompleteHistory(s, h))
    ensures InOrder(s, h) ==> InOrder(AfterWrite(s), CompleteHistory(s, h))
  {
    var front := s.inFlight.value;
    TracksAppend(s.written, h.writtenIds, h.pushed, front, h.inFlightId);
    if InOrder(s, h) {
      AppendIncreasing(h.writtenIds, h.inFlightId);
    }
    if !s.rotated {
      assert h.pushed[h.head..][1..] == h.pushed[h.head + 1..];
    }
  }

  // ---------------------------------------------------------------------------
  // The keeper

  class UpdateKeeper {
    /** update_buf_ */
    var ring: seq<Payload>
    /** update_buf_rotated_ */
    var rotated: bool
    /** sock_.is_open() */
    var open: bool
    /** The live flusher's copy `front` while its async_write is pending. */
    var inFlight: Option<Payload>
    /** The payloads whose frames the socket has taken, in order. */
    var written: seq<Payload>
    /** latest_update_ */
    var latest: Payload

    ghost var history: History

    ghost function State(): Outbound
      reads this
    {
      Outbound(ring, rotated, open, inFlight, written)
    }

    ghost predicate Valid()
      reads this
    {
      Consistent(State(), history)
    }

    /** A keeper bound to a socket that is not yet open; latest_update_ starts
        with an arbitrary value. */
    constructor (initial: Payload)
      ensures Valid() && InOrder(State(), history)
      ensures State() == Outbound([], false, false, None, []) && latest == initial
      ensures history == History([], 0, 0, [])
    {
      ring, rotated, open, inFlight, written, latest := [], false, false, None, [], initial;
      history := History([], 0, 0, []);
    }

    /** A connection is accepted or established on the socket. */
    method Open()
      requires Valid()
      modifies this
      ensures Valid() && State() == old(State()).(open := true)
      ensures latest == old(latest) && history == old(history)
    {
      open := true;
    }

    /** sock_.close() */
    method Close()
      requires Valid()
      modifies this
      ensures Valid() && State() == AfterClose(old(State()))
      ensures latest == old(latest) && history == old(history)
      ensures old(InOrder(State(), history)) ==> InOrder(State(), history)
    {
      open := false;
      inFlight := None;
    }

    /** sock_.close() that also drops the lost connection's backlog and
        rotation flag. */
    method CloseCorrected()
      requires Valid()
      modifies this
      ensures Valid() && State() == AfterCloseCorrected(old(State()))
      ensures latest == old(latest) && history == DropHistory(old(history))
      ensures old(InOrder(State(), history)) ==> InOrder(State(), history)
    {
      history := DropHistory(history);
      open, inFlight, ring, rotated := false, None, [], false;
    }

    /** flush_queue(pl) on an open socket, up to its first co_await
        (src/ircom.cpp:31-46). */
    method PushOpen(pl: Payload)
      requires |ring| <= UPDATE_BUF_CAP
      modifies this
      ensures State() == AfterPushOpen(old(State()), pl)
      ensures history == PushHistory(old(State()), old(history), pl)
      ensures latest == old(latest)
    {
      history := PushHistory(State(), history, pl);
      var isFirst := ring == [];
      if |ring| == UPDATE_BUF_CAP {
        rotated := true;
      }
      ring := Push(ring, pl);
      if isFirst {
        inFlight := Some(ring[0]);
      }
    }

    /** send_update(pl) as written (src/ircom.cpp:13-16, 23-41). */
    method Enqueue(pl: Payload)
      requires Valid()
      modifies this
      ensures Valid() && State() == AfterEnqueue(old(State()), pl)
      ensures latest == old(latest)
      ensures history == if old(open) then PushHistory(old(State()), old(history), pl) else DropHistory(old(history))
      ensures old(InOrder(State(), history)) && (old(open) || !old(rotated)) ==> InOrder(State(), history)
    {
      EnqueueKeepsOrder(State(), history, pl);
      if !open {
        ring := [];
        history := DropHistory(history);
        return;
      }
      PushOpen(pl);
    }

    /** send_update(pl) with the drop also lowering update_buf_rotated_. */
    method EnqueueCorrected(pl: Payload)
      requires Valid()
      modifies this
      ensures Valid() && State() == AfterEnqueueCorrected(old(State()), pl)
      ensures latest == old(latest)
      ensures history == if old(open) then PushHistory(old(State()), old(history), pl) else DropHistory(old(history))
      ensures old(InOrder(State(), history)) ==> InOrder(State(), history)
    {
      EnqueueCorrectedKeepsOrder(State(), history, pl);
      if !open {
        ring := [];
        rotated := false;
        history := DropHistory(history);
        return;
      }
      PushOpen(pl);
    }

    /** The flusher's async_write completes and its loop goes on
        (src/ircom.cpp:43-63). */
    method CompleteWrite()
      requires Valid() && inFlight.Some?
      modifies this
      ensures Valid() && State() == AfterWrite(old(State()))
      ensures latest == old(latest)
      ensures history == CompleteHistory(old(State()), old(history))
      ensures old(InOrder(State(), history)) ==> InOrder(State(), history)
    {
      CompleteWriteKeepsOrder(State(), history);
      history := CompleteHistory(State(), history);
      var front := inFlight.value;
      written := written + [front];
      if !rotated {
        ring := ring[1..];
      }
      rotated := false;
      if ring == [] {
        inFlight := None;
      } else {
        inFlight := Some(ring[0]);
      }
    }

    /** One iteration of handle_updates: a 32-byte frame is read and the
        payload at offset 5 replaces the latest value. */
    method Receive(frame: seq<Byte>)
      requires |frame| == FRAME_SIZE
      modifies this`latest
      ensures latest == DecodeFrame(frame)
    {
      var pl := ReadPayload(frame[HEADER_SIZE..]);
      DeserializeSerialize(pl);
      DeserializeReadsPrefix(Serialize(pl), frame[HEADER_SIZE..]);
      latest := pl;
    }

    /** handle_updates over the bytes the peer sends: every complete frame in
        turn overwrites the latest value; a trailing partial frame ends the
        loop with a read error and is not decoded. */
    method HandleUpdates(incoming: seq<Byte>)
      modifies this`latest
      ensures latest == if FrameCount(incoming) == 0 then old(latest) else DecodeFrame(LastFrame(incoming))
    {
      var n, pos := 0, 0;
      ghost var last: seq<Byte> := [];
      while pos + FRAME_SIZE <= |incoming|
        invariant pos == FRAME_SIZE * n <= |incoming|
        invariant n > 0 ==> pos >= FRAME_SIZE && last == incoming[pos - FRAME_SIZE..pos]
        invariant latest == if n == 0 then old(latest) else DecodeFrame(last)
        decreases |incoming| - pos
      {
        var frame := incoming[pos..pos + FRAME_SIZE];
        Receive(frame);
        last := frame;
        assert FRAME_SIZE * (n + 1) == pos + FRAME_SIZE;
        n, pos := n + 1, pos + FRAME_SIZE;
      }
      FrameCountOf(|incoming|, n);
      if n > 0 {
        assert FRAME_SIZE * (n - 1) == pos - FRAME_SIZE;
        assert LastFrame(incoming) == last;
      }
    }

    /** latest_update(): a copy of the latest value. */
    method LatestUpdate() returns (p: Payload)
      ensures p == latest
    {
      p := latest;
    }
  }

  // ---------------------------------------------------------------------------
  // A run that writes the same frame twice

  /** Fills the ring of an open keeper whose flusher is writing p, pushing p
      until the ring rotates. */
  method FillUntilRotated(k: UpdateKeeper, p: Payload)
    requires k.Valid() && k.open && k.ring == [p] && k.inFlight == Some(p) && !k.rotated
    modifies k
    ensures k.Valid() && k.open && |k.ring| == UPDATE_BUF_CAP && k.inFlight == Some(p) && k.rotated
    ensures k.written == old(k.written)
  {
    var i := 0;
    while i < UPDATE_BUF_CAP
      invariant 0 <= i <= UPDATE_BUF_CAP
      invariant k.Valid() && k.open && k.inFlight == Some(p) && k.written == old(k.written)
      invariant |k.ring| == if i < UPDATE_BUF_CAP then i + 1 else UPDATE_BUF_CAP
      invariant k.rotated <==> i == UPDATE_BUF_CAP
    {
      k.Enqueue(p);
      i := i + 1;
    }
  }

  /** A keeper whose connection was lost while its ring was rotating, and on
      which send_update(q) then ran with the socket closed. */
  method LoseRotatingConnection(initial: Payload, p: Payload, q: Payload, corrected: bool) returns (k: UpdateKeeper)
    ensures fresh(k) && k.Valid() && !k.open && k.ring == [] && k.inFlight == None && k.written == []
    ensures k.rotated == !corrected
  {
    k := new UpdateKeeper(initial);
    k.Open();
    k.Enqueue(p);
    FillUntilRotated(k, p);
    k.Close();
    if corrected {
      k.EnqueueCorrected(q);
    } else {
      k.Enqueue(q);
    }
  }

  /** As written: a connection is lost while the ring is rotating; the next
      send_update, on the closed socket, clears the ring but leaves the flag
      up; on the new connection the first payload r is written, the stale flag
      stops its pop, and r goes out a second time. */
  method StaleFlagResendsFrame(initial: Payload, p: Payload, q: Payload, r: Payload) returns (sent: seq<Payload>)
    ensures sent == [r, r]
  {
    var k := LoseRotatingConnection(initial, p, q, false);
    k.Open();
    k.Enqueue(r);
    k.CompleteWrite();
    k.CompleteWrite();
    sent := k.written;
  }

  /** On the socket the run above is two copies of the frame of r, back to back. */
  lemma {:induction false} ResentBytes(r: Payload)
    ensures Frames([r, r]) == Frame(r) + Frame(r)
  {
    FramesSnoc([], r);
    FramesSnoc([r], r);
    assert [] + [r] == [r] && [r] + [r] == [r, r];
  }

  /** The same run with the corrected send_update: the drop lowers the flag,
      the new connection gets r exactly once, and the ring ends empty with no
      flusher left. */
  method CorrectedFlagSendsOnce(initial: Payload, p: Payload, q: Payload, r: Payload) returns (sent: seq<Payload>)
    ensures sent == [r]
  {
    var k := LoseRotatingConnection(initial, p, q, true);
    k.Open();
    k.EnqueueCorrected(r);
    k.CompleteWrite();
    assert k.ring == [] && k.inFlight == None;
    sent := k.written;
  }

  // ---------------------------------------------------------------------------
  // A run that stops writing altogether

  /** As written: the connection is lost while the frame of p is being written;
      a new connection comes up before any send_update, so send_update(r) finds
      the old backlog, does not become the flusher, and no write is pending
      although two payloads wait. IdleBacklogStaysIdle shows it never recovers. */
  method StaleBacklogStallsWrites(initial: Payload, p: Payload, r: Payload) returns (k: UpdateKeeper)
    ensures fresh(k) && k.Valid() && k.open && k.ring == [p, r] && k.inFlight == None && k.written == []
  {
    k := LoseWritingConnection(initial, p);
    k.Open();
    k.Enqueue(r);
  }

  /** A keeper whose connection was lost while the frame of p was being
      written: p stays in the ring and no flusher is left. */
  method LoseWritingConnection(initial: Payload, p: Payload) returns (k: UpdateKeeper)
    ensures fresh(k) && k.Valid() && !k.open && k.ring == [p] && !k.rotated && k.inFlight == None && k.written == []
  {
    k := new UpdateKeeper(initial);
    k.Open();
    k.Enqueue(p);
    k.Close();
  }

  /** The same run with the corrected close: the new connection's first
      send_update becomes the flusher and r is written, and nothing of the
      lost connection is. */
  method CorrectedCloseResumesWrites(initial: Payload, p: Payload, r: Payload) returns (sent: seq<Payload>)
    ensures sent == [r]
  {
    var k := new UpdateKeeper(initial);
    k.Open();
    k.EnqueueCorrected(p);
    k.CloseCorrected();
    k.Open();
    k.EnqueueCorrected(r);
    k.CompleteWrite();
    sent := k.written;
  }
}
