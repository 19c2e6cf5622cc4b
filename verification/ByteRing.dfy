/** rigs/tls-smoke/main.c: the receive ring between lwIP callbacks and axtls reads, as a bounded byte FIFO. */
module ByteRing {
  import opened Machine

  const RING: int := 4096

  /** The buffer index of stream position `k`; `& (sizeof(rx) - 1)` in the code. */
  function Slot(k: nat): (i: int)
    ensures 0 <= i < RING
  {
    k % RING
  }

  /** The counters may wrap at 2^32: 4096 divides it. */
  lemma SlotWraps(k: nat)
    ensures Slot(k % WORD_BASE) == Slot(k)
  {
  }

  lemma SlotDistinct(a: nat, b: nat)
    requires a < b < a + RING
    ensures Slot(a) != Slot(b)
  {
  }

  lemma SlotAdd(k: nat, n: nat)
    ensures Slot(Slot(k) + n) == Slot(k + n)
  {
  }

  type buffer = s: seq<byte> | |s| == RING witness seq(RING, _ => 0)

  /** Stream positions `from ..` hold `data`. */
  ghost predicate Holds(rx: buffer, from: nat, data: seq<byte>)
  {
    forall k :: from <= k < from + |data| ==> rx[Slot(k)] == data[k - from]
  }

  /** Overwrites the positions `from ..` with `data`. */
  ghost predicate Wrote(was: buffer, now: buffer, from: nat, data: seq<byte>)
  {
    && Holds(now, from, data)
    && forall i :: 0 <= i < RING && (forall k :: from <= k < from + |data| ==> Slot(k) != i) ==> now[i] == was[i]
  }

  /** Writing behind the stream extends it, as long as all of it fits. */
  lemma WriteExtends(was: buffer, now: buffer, from: nat, data: seq<byte>, more: seq<byte>)
    requires Holds(was, from, data) && |data| + |more| <= RING
    requires Wrote(was, now, from + |data|, more)
    ensures Holds(now, from, data + more)
  {
    hide Slot;
    var end := from + |data|;
    forall k | from <= k < end + |more| ensures now[Slot(k)] == (data + more)[k - from] {
      if k < end {
        forall j | end <= j < end + |more| ensures Slot(j) != Slot(k) {
          SlotDistinct(k, j);
        }
      }
    }
  }

  lemma HoldsDrop(rx: buffer, from: nat, data: seq<byte>, n: nat)
    requires Holds(rx, from, data) && n <= |data|
    ensures Holds(rx, from + n, data[n..])
  {
  }

  /** Only positions within the ring matter. */
  lemma HoldsTurns(rx: buffer, a: nat, b: nat, data: seq<byte>)
    requires Holds(rx, a, data) && Slot(a) == Slot(b)
    ensures Holds(rx, b, data)
  {
    forall k | b <= k < b + |data| ensures rx[Slot(k)] == data[k - b] {
      var j := a + (k - b);
      SlotAdd(a, k - b);
      SlotAdd(b, k - b);
      assert rx[Slot(j)] == data[j - a];
    }
  }

  /** An lwIP packet buffer: a chain of payloads. */
  datatype Pbuf = End | Buf(payload: seq<byte>, next: Pbuf)

  function Bytes(p: Pbuf): seq<byte>
  {
    match p
    case End => []
    case Buf(payload, next) => payload + Bytes(next)
  }

  lemma BytesStep(p: Pbuf)
    ensures Bytes(p) == match p case End => [] case Buf(payload, next) => payload + Bytes(next)
  {
  }

  /** The argument of the callback: lwIP passes null for the peer's FIN. */
  datatype Chain = NoChain | Chain(head: Pbuf)

  datatype Err = Ok | Mem | Other(code: int)

  class Sock {
    const rx: array<byte>
    var head: word
    var tail: word
    var closed: bool
    ghost var stream: seq<byte>

    ghost predicate Valid()
      reads this, rx
    {
      && rx.Length == RING
      && |stream| <= RING && (tail - head) % WORD_BASE == |stream|
      && Holds(rx[..], head, stream)
    }

    constructor ()
      ensures Valid() && fresh(rx) && stream == [] && !closed
    {
      rx := new byte[RING];
      head, tail, closed, stream := 0, 0, false, [];
    }

    /** memcpy into the ring from `t` on, in two pieces when it runs past the end. */
    method CopyIn(t: nat, data: seq<byte>)
      requires rx.Length == RING && t < RING && |data| <= RING
      modifies rx
      ensures Wrote(old(rx[..]), rx[..], t, data)
    {
      hide Slot;
      var first := RING - t;
      ghost var was: buffer := rx[..];
      if |data| <= first {
        Memcpy(rx, t, data);
      } else {
        Memcpy(rx, t, data[..first]);
        Memcpy(rx, 0, data[first..]);
      }
      WroteByIndex(was, rx[..], t, data);
    }

    /**
     * `smoke_recv_cb`. `totLen` is lwIP's total for the chain; a null chain is the peer's FIN.
     */
    method RecvCb(p: Chain, totLen: nat, err: Err) returns (r: Err)
      requires Valid() && (p.Chain? ==> totLen == |Bytes(p.head)|)
      modifies this`tail, this`closed, this`stream, rx
      ensures Valid()
      ensures p.NoChain? ==> r == Ok && closed && stream == old(stream)
      ensures p.Chain? ==> closed == old(closed)
      ensures p.Chain? && err != Ok ==> r == err && stream == old(stream)
      ensures p.Chain? && err == Ok && |old(stream)| + totLen > RING ==>
                r == Mem && stream == old(stream) && tail == old(tail) && rx[..] == old(rx[..])
      ensures p.Chain? && err == Ok && |old(stream)| + totLen <= RING ==>
                r == Ok && stream == old(stream) + Bytes(p.head)
    {
      hide Holds, Slot;
      if p.NoChain? {
        closed := true;
        return Ok;
      }
      if err != Ok {
        return err;
      }
      var freeRoom := (RING - (tail - head) % WORD_BASE) % WORD_BASE;
      if totLen > freeRoom {
        return Mem;
      }
      TailMoves(head, tail, |stream|, totLen);
      var copied := Append(p.head);
      tail := (tail + copied) % WORD_BASE;
      stream := stream + Bytes(p.head);
      return Ok;
    }

    /** The loop over the chain: the payloads go in one after the other behind `tail`. */
    method Append(p: Pbuf) returns (copied: nat)
      requires Valid() && |stream| + |Bytes(p)| <= RING
      modifies rx
      ensures copied == |Bytes(p)|
      ensures Holds(rx[..], head, stream + Bytes(p))
    {
      hide Slot, Holds, Wrote, Bytes, NextIndex;
      var t := Slot(tail);
      var q := p;
      copied := 0;
      ghost var done: seq<byte> := [];
      assert stream + [] == stream;
      TailSlot(head, tail, |stream|);
      while q.Buf?
        invariant copied == |done| && done + Bytes(q) == Bytes(p)
        invariant Holds(rx[..], head, stream + done)
        invariant t == Slot(head + |stream| + copied)
        decreases q
      {
        BytesStep(q);
        Concats(done, q.payload, Bytes(q.next));
        Concats(stream, done, q.payload);
        var n := |q.payload|;
        ghost var was: buffer := rx[..];
        CopyIn(t, q.payload);
        SlotAdd(head + |stream| + copied, 0);
        WroteTurns(was, rx[..], t, head + |stream + done|, q.payload);
        WriteExtends(was, rx[..], head, stream + done, q.payload);
        t := NextIndex(t, n);
        NextIndexIsSlot(head + |stream| + copied, n);
        done := done + q.payload;
        copied := copied + n;
        q := q.next;
      }
      BytesStep(q);
      assert done == Bytes(p);
    }

    /** `smoke_sock_read_nb`: -1 means no data yet, 0 end of stream. */
    method ReadNb(buf: array<byte>, max: nat) returns (n: int)
      requires Valid() && max <= buf.Length && buf != rx
      modifies this`head, this`stream, buf
      ensures Valid()
      ensures old(stream) == [] ==> n == (if closed then 0 else -1) && stream == [] && buf[..] == old(buf[..])
      ensures old(stream) != [] ==>
                && n == (if max <= |old(stream)| then max else |old(stream)|)
                && buf[..n] == old(stream)[..n] && buf[n..] == old(buf[n..])
                && stream == old(stream)[n..]
    {
      var avail := (tail - head) % WORD_BASE;
      if avail == 0 {
        return if closed then 0 else -1;
      }
      n := Drain(buf, if max > avail then avail else max);
    }

    /** Copies `n` bytes out, in two pieces when they run past the end of the buffer. */
    method CopyOut(buf: array<byte>, n: nat)
      requires Valid() && n <= |stream| && n <= buf.Length && buf != rx
      modifies buf
      ensures buf[..n] == stream[..n] && buf[n..] == old(buf[n..])
    {
      hide Slot, Holds;
      var h := Slot(head);
      var first := RING - h;
      HoldsPieces(rx[..], head, stream, n);
      if n <= first {
        Memcpy(buf, 0, rx[h..h + n]);
      } else {
        Memcpy(buf, 0, rx[h..]);
        Memcpy(buf, first, rx[..n - first]);
      }
    }

    /** Takes `n` bytes out and moves `head`. */
    method Drain(buf: array<byte>, n: nat) returns (r: nat)
      requires Valid() && n <= |stream| && n <= buf.Length && buf != rx
      modifies this`head, this`stream, buf
      ensures Valid() && r == n
      ensures stream == old(stream)[n..]
      ensures buf[..n] == old(stream)[..n] && buf[n..] == old(buf[n..])
    {
      hide Slot, Holds;
      CopyOut(buf, n);
      HoldsDrop(rx[..], head, stream, n);
      SlotWraps(head + n);
      HoldsTurns(rx[..], head + n, (head + n) % WORD_BASE, stream[n..]);
      HeadMoves(head, tail, |stream|, n);
      head := (head + n) % WORD_BASE;
      stream := stream[n..];
      r := n;
    }
  }

  /** `t = (t + n) & 4095`, or what is left past the end. */
  function NextIndex(t: nat, n: nat): int
    requires t < RING
  {
    if n <= RING - t then Slot(t + n) else n - (RING - t)
  }

  lemma NextIndexIsSlot(k: nat, n: nat)
    requires n <= RING
    ensures NextIndex(Slot(k), n) == Slot(k + n)
  {
  }

  lemma TailSlot(head: word, tail: word, n: nat)
    requires (tail - head) % WORD_BASE == n
    ensures Slot(tail) == Slot(head + n)
  {
  }

  lemma HeadMoves(head: word, tail: word, len: nat, n: nat)
    requires (tail - head) % WORD_BASE == len && n <= len
    ensures (tail - (head + n) % WORD_BASE) % WORD_BASE == len - n
  {
  }

  lemma TailMoves(head: word, tail: word, len: nat, n: nat)
    requires (tail - head) % WORD_BASE == len && len + n <= RING
    ensures ((tail + n) % WORD_BASE - head) % WORD_BASE == len + n
  {
    var q := (tail - head) / WORD_BASE;
    var u := (tail + n) / WORD_BASE;
    assert (tail + n) % WORD_BASE - head == WORD_BASE * (q - u) + (len + n);
    QuotientUnique((tail + n) % WORD_BASE - head, WORD_BASE, q - u, len + n);
  }

  lemma WroteTurns(was: buffer, now: buffer, a: nat, b: nat, data: seq<byte>)
    requires Wrote(was, now, a, data) && Slot(a) == Slot(b)
    ensures Wrote(was, now, b, data)
  {
    HoldsTurns(now, a, b, data);
    forall i | 0 <= i < RING && (forall k :: b <= k < b + |data| ==> Slot(k) != i) ensures now[i] == was[i] {
      forall k | a <= k < a + |data| ensures Slot(k) != i {
        SlotAdd(a, k - a);
        SlotAdd(b, k - a);
        assert Slot(b + (k - a)) != i;
      }
    }
  }

  /** The first `n` stream bytes, as the one or two stretches of the buffer they lie in. */
  lemma HoldsPieces(rx: buffer, from: nat, data: seq<byte>, n: nat)
    requires Holds(rx, from, data) && n <= |data| <= RING
    ensures var h := Slot(from);
            if n <= RING - h then rx[h..h + n] == data[..n] else rx[h..] + rx[..n - (RING - h)] == data[..n]
  {
    var h := Slot(from);
    forall i | 0 <= i < n ensures data[i] == if i < RING - h then rx[h + i] else rx[i - (RING - h)] {
      SlotAdd(from, i);
      assert rx[Slot(from + i)] == data[from + i - from];
      if i < RING - h {
        assert Slot(h + i) == h + i;
      } else {
        assert Slot(h + i) == h + i - RING;
      }
    }
  }

  lemma WroteByIndex(was: buffer, now: buffer, t: nat, data: seq<byte>)
    requires t < RING && |data| <= RING
    requires forall i :: 0 <= i < RING ==>
               now[i] == if t <= i < t + |data| then data[i - t]
                         else if i + RING < t + |data| then data[i + RING - t]
                         else was[i]
    ensures Wrote(was, now, t, data)
  {
    forall k | t <= k < t + |data| ensures now[Slot(k)] == data[k - t] {
      if k < RING {
        assert Slot(k) == k;
      } else {
        assert Slot(k) == k - RING;
      }
    }
    forall i | 0 <= i < RING && (forall k :: t <= k < t + |data| ==> Slot(k) != i) ensures now[i] == was[i] {
      assert Slot(i) == i && Slot(i + RING) == i;
    }
  }

  // ---- the FIFO ----

  /** The bounded FIFO a run is compared with: `accepted` and `delivered` record its whole history. */
  datatype Fifo = Fifo(stream: seq<byte>, closed: bool, accepted: seq<byte>, delivered: seq<byte>)

  const START: Fifo := Fifo([], false, [], [])

  /** The arguments of a callback. */
  datatype Call = Call(p: Chain, err: Err)

  predicate Fits(f: Fifo, p: Chain) { p.Chain? && |f.stream| + |Bytes(p.head)| <= RING }

  function Accept(f: Fifo, c: Call): Fifo
  {
    if c.p.NoChain? then f.(closed := true)
    else if c.err == Ok && Fits(f, c.p) then
      var data := Bytes(c.p.head);
      f.(stream := f.stream + data, accepted := f.accepted + data)
    else f
  }

  /** A chain is appended exactly when no error came with it and it fits in 4096 bytes; nothing at all means FIN. */
  lemma AcceptExactly(f: Fifo, p: Pbuf, err: Err)
    ensures Accept(f, Call(NoChain, err)) == f.(closed := true)
    ensures Accept(f, Call(Chain(p), err)) ==
            if err == Ok && |f.stream| + |Bytes(p)| <= 4096
            then f.(stream := f.stream + Bytes(p), accepted := f.accepted + Bytes(p)) else f
  {
  }

  function AcceptAll(f: Fifo, calls: seq<Call>): Fifo
  {
    if calls == [] then f else Accept(AcceptAll(f, calls[..|calls| - 1]), calls[|calls| - 1])
  }

  function HandOut(f: Fifo, n: nat): Fifo
    requires n <= |f.stream|
  {
    f.(stream := f.stream[n..], delivered := f.delivered + f.stream[..n])
  }

  function AtMost(f: Fifo, max: nat): (n: nat)
    ensures n <= |f.stream| && n <= max
  {
    if max <= |f.stream| then max else |f.stream|
  }

  // ---- the blocking read ----

  /** One `tick_pump`: the callbacks it makes, and the BIOS tick count read after it. */
  datatype Pump = Pump(calls: seq<Call>, clock: word)

  predicate Expired(start: word, clock: word) { (clock - start) % WORD_BASE > 10 * 18 }

  /** More than 180 ticks, also when the tick count wraps. */
  lemma ExpiredExactly(start: word, ticks: word)
    ensures Expired(start, (start + ticks) % WORD_BASE) <==> ticks >= 181
  {
    var q := (start + ticks) / WORD_BASE;
    QuotientUnique((start + ticks) % WORD_BASE - start, WORD_BASE, -q, ticks);
  }

  function AfterPumps(f: Fifo, pumps: seq<Pump>): Fifo
  {
    if pumps == [] then f
    else AcceptAll(AfterPumps(f, pumps[..|pumps| - 1]), pumps[|pumps| - 1].calls)
  }

  /** After `i` pumps there is data, or the peer has closed, or the last of them ran out of time. */
  predicate StopsAt(f: Fifo, start: word, pumps: seq<Pump>, i: nat)
    requires i <= |pumps|
  {
    TimedOut(start, pumps, i) || var g := AfterPumps(f, pumps[..i]); g.stream != [] || g.closed
  }

  lemma StopsExactly(f: Fifo, start: word, pumps: seq<Pump>, i: nat)
    requires i <= |pumps|
    ensures StopsAt(f, start, pumps, i) <==>
            || (i > 0 && (pumps[i - 1].clock - start) % WORD_BASE > 180)
            || AfterPumps(f, pumps[..i]).stream != []
            || AfterPumps(f, pumps[..i]).closed
  {
    hide AfterPumps;
  }

  predicate TimedOut(start: word, pumps: seq<Pump>, i: nat)
    requires i <= |pumps|
  {
    i > 0 && Expired(start, pumps[i - 1].clock)
  }

  /** The first number of pumps, from `i` on, after which the read stops. */
  function StopAt(f: Fifo, start: word, pumps: seq<Pump>, i: nat): (k: nat)
    requires i <= |pumps|
    ensures i <= k <= |pumps| && (k < |pumps| ==> StopsAt(f, start, pumps, k))
    ensures forall j :: i <= j < k ==> !StopsAt(f, start, pumps, j)
    decreases |pumps| - i
  {
    if i == |pumps| || StopsAt(f, start, pumps, i) then i else StopAt(f, start, pumps, i + 1)
  }

  /** The pumps go on long enough for the read to stop; the clock sees to that. */
  predicate Ends(f: Fifo, start: word, pumps: seq<Pump>) { StopsAt(f, start, pumps, StopAt(f, start, pumps, 0)) }

  function AtStop(f: Fifo, start: word, pumps: seq<Pump>): Fifo { AfterPumps(f, pumps[..StopAt(f, start, pumps, 0)]) }

  /** What the read returns: nothing on a timeout, else the front of the stream. */
  function ReadLength(f: Fifo, start: word, pumps: seq<Pump>, max: nat): (n: nat)
    ensures n <= |AtStop(f, start, pumps).stream| && n <= max
  {
    if TimedOut(start, pumps, StopAt(f, start, pumps, 0)) then 0 else AtMost(AtStop(f, start, pumps), max)
  }

  predicate AtEof(g: Fifo) { g.closed && g.stream == [] }

  /**
   * `smoke_sock_read` is documented to return 0 at the end of the stream. It returns 0 exactly there
   * if and only if the first stop is not a timeout before the end.
   */
  lemma ZeroExactly(f: Fifo, start: word, pumps: seq<Pump>, max: nat)
    requires Ends(f, start, pumps) && max > 0
    ensures var g, late := AtStop(f, start, pumps), TimedOut(start, pumps, StopAt(f, start, pumps, 0));
            && ((ReadLength(f, start, pumps, max) == 0 <==> AtEof(g)) <==> !(late && !AtEof(g)))
            && (!g.closed ==> (ReadLength(f, start, pumps, max) == 0 <==> late))
  {
    hide StopAt, AfterPumps;
  }

  /** One pump that brings a byte and runs out of time: 0, with the byte waiting and the socket open. */
  lemma TimeoutWithData(b: byte, max: nat)
    ensures var pumps := [Pump([Call(Chain(Buf([b], End)), Ok)], 181)];
            && Ends(START, 0, pumps) && ReadLength(START, 0, pumps, max) == 0
            && AtStop(START, 0, pumps).stream == [b] && !AtStop(START, 0, pumps).closed
  {
    var c := Call(Chain(Buf([b], End)), Ok);
    var pumps := [Pump([c], 181)];
    assert Bytes(Buf([b], End)) == [b];
    assert [c][..0] == [] && AcceptAll(START, [c]) == Accept(START, c);
    assert pumps[..0] == [] && pumps[..1] == pumps;
    assert AfterPumps(START, pumps) == Accept(START, c);
    assert !StopsAt(START, 0, pumps, 0) && StopsAt(START, 0, pumps, 1);
    assert StopAt(START, 0, pumps, 0) == 1;
  }

  // ---- every run ----

  datatype Event = Callback(c: Call) | ReadNow(max: nat) | Read(max: nat, start: word, pumps: seq<Pump>)

  function Step(f: Fifo, e: Event): Fifo
  {
    match e
    case Callback(c) => Accept(f, c)
    case ReadNow(max) => HandOut(f, AtMost(f, max))
    case Read(max, start, pumps) => HandOut(AtStop(f, start, pumps), ReadLength(f, start, pumps, max))
  }

  function Steps(events: seq<Event>): Fifo
  {
    if events == [] then START else Step(Steps(events[..|events| - 1]), events[|events| - 1])
  }

  /** Every blocking read of the run comes to a stop. */
  predicate Finite(events: seq<Event>)
  {
    forall i :: 0 <= i < |events| && events[i].Read? ==> Ends(Steps(events[..i]), events[i].start, events[i].pumps)
  }

  /** What was delivered, then what waits, is what was accepted, and never more than 4096 bytes wait. */
  ghost predicate Conserved(f: Fifo) { f.delivered + f.stream == f.accepted && |f.stream| <= RING }

  lemma AcceptConserves(f: Fifo, c: Call)
    requires Conserved(f)
    ensures Conserved(Accept(f, c))
  {
    if c.p.Chain? {
      Concats(f.delivered, f.stream, Bytes(c.p.head));
    }
  }

  lemma HandOutConserves(f: Fifo, n: nat)
    requires Conserved(f) && n <= |f.stream|
    ensures Conserved(HandOut(f, n))
  {
    assert f.stream == f.stream[..n] + f.stream[n..];
    Concats(f.delivered, f.stream[..n], f.stream[n..]);
  }

  lemma {:induction false} AcceptAllConserves(f: Fifo, calls: seq<Call>)
    requires Conserved(f)
    ensures Conserved(AcceptAll(f, calls))
  {
    if calls != [] {
      hide Conserved, Accept;
      AcceptAllConserves(f, calls[..|calls| - 1]);
      AcceptConserves(AcceptAll(f, calls[..|calls| - 1]), calls[|calls| - 1]);
    }
  }

  lemma {:induction false} PumpsConserve(f: Fifo, pumps: seq<Pump>)
    requires Conserved(f)
    ensures Conserved(AfterPumps(f, pumps))
  {
    if pumps != [] {
      hide Conserved, AcceptAll;
      PumpsConserve(f, pumps[..|pumps| - 1]);
      AcceptAllConserves(AfterPumps(f, pumps[..|pumps| - 1]), pumps[|pumps| - 1].calls);
    }
  }

  /** Over every run, whatever reads it makes, bytes come out in the order they were accepted, none lost or repeated. */
  lemma FifoConserves(events: seq<Event>)
    ensures var f := Steps(events); f.delivered + f.stream == f.accepted && |f.stream| <= 4096
  {
    AllConserved(events);
  }

  lemma {:induction false} AllConserved(events: seq<Event>)
    ensures Conserved(Steps(events))
  {
    if events != [] {
      hide Conserved, Accept, HandOut, AfterPumps, StopAt;
      var f := Steps(events[..|events| - 1]);
      AllConserved(events[..|events| - 1]);
      match events[|events| - 1] {
        case Callback(c) =>
          AcceptConserves(f, c);
        case ReadNow(max) =>
          HandOutConserves(f, AtMost(f, max));
        case Read(max, start, pumps) =>
          PumpsConserve(f, pumps[..StopAt(f, start, pumps, 0)]);
          HandOutConserves(AtStop(f, start, pumps), ReadLength(f, start, pumps, max));
      }
    }
  }

  // ---- the ring behaves as the FIFO ----

  ghost predicate Same(stream: seq<byte>, closed: bool, f: Fifo) { stream == f.stream && closed == f.closed }

  /** The callback does on the ring what the event does on the FIFO. */
  method DoCallback(s: Sock, c: Call, ghost f: Fifo)
    requires s.Valid() && Same(s.stream, s.closed, f)
    modifies s, s.rx
    ensures s.Valid() && Same(s.stream, s.closed, Accept(f, c))
  {
    hide Holds;
    var totLen := if c.p.Chain? then |Bytes(c.p.head)| else 0;
    var r := s.RecvCb(c.p, totLen, c.err);
  }

  method DoPump(s: Sock, calls: seq<Call>, ghost f: Fifo)
    requires s.Valid() && Same(s.stream, s.closed, f)
    modifies s, s.rx
    ensures s.Valid() && Same(s.stream, s.closed, AcceptAll(f, calls))
  {
    hide Holds, Accept;
    var i := 0;
    while i < |calls|
      invariant 0 <= i <= |calls| && s.Valid() && Same(s.stream, s.closed, AcceptAll(f, calls[..i]))
    {
      assert calls[..i + 1][..i] == calls[..i];
      DoCallback(s, calls[i], AcceptAll(f, calls[..i]));
      i := i + 1;
    }
    assert calls[..i] == calls;
  }

  method DoReadNow(s: Sock, max: nat, ghost f: Fifo) returns (bytes: seq<byte>)
    requires s.Valid() && Same(s.stream, s.closed, f)
    modifies s, s.rx
    ensures s.Valid() && |bytes| == if |f.stream| < max then |f.stream| else max
    ensures var g := HandOut(f, AtMost(f, max)); Same(s.stream, s.closed, g) && g.delivered == f.delivered + bytes
  {
    hide Holds;
    var buf := new byte[max];
    var n := s.ReadNb(buf, max);
    bytes := if n > 0 then buf[..n] else [];
  }

  /**
   * `smoke_sock_read`: pumps until data arrives, the peer closes or ten seconds pass, and stops at the
   * first of these. Bytes it does not hand out stay for the next read.
   */
  method SockRead(s: Sock, buf: array<byte>, max: nat, start: word, pumps: seq<Pump>, ghost f: Fifo) returns (n: nat)
    requires s.Valid() && max <= buf.Length && buf != s.rx
    requires Same(s.stream, s.closed, f) && Ends(f, start, pumps)
    modifies s, s.rx, buf
    ensures s.Valid() && n == ReadLength(f, start, pumps, max)
    ensures var g, late := AtStop(f, start, pumps), TimedOut(start, pumps, StopAt(f, start, pumps, 0));
            n == if late then 0 else if |g.stream| < max then |g.stream| else max
    ensures var g := AtStop(f, start, pumps);
            Same(s.stream, s.closed, HandOut(g, n)) && buf[..n] == g.stream[..n] && buf[n..] == old(buf[n..])
  {
    hide Holds, AcceptAll, StopAt, Expired;
    ghost var g := f;
    ghost var stop := StopAt(f, start, pumps, 0);
    var i := 0;
    while true
      invariant 0 <= i <= stop && !TimedOut(start, pumps, i)
      invariant s.Valid() && buf[..] == old(buf[..])
      invariant g == AfterPumps(f, pumps[..i]) && Same(s.stream, s.closed, g)
      decreases stop - i
    {
      var avail := (s.tail - s.head) % WORD_BASE;
      if avail > 0 {
        assert StopsAt(f, start, pumps, i);
        n := s.Drain(buf, if max > avail then avail else max);
        return;
      }
      if s.closed {
        assert StopsAt(f, start, pumps, i);
        return 0;
      }
      assert i < stop;
      DoPump(s, pumps[i].calls, g);
      g := AcceptAll(g, pumps[i].calls);
      assert pumps[..i + 1][..i] == pumps[..i];
      i := i + 1;
      if Expired(start, pumps[i - 1].clock) {
        assert StopsAt(f, start, pumps, i);
        return 0;
      }
    }
  }

  method DoRead(s: Sock, max: nat, start: word, pumps: seq<Pump>, ghost f: Fifo) returns (bytes: seq<byte>)
    requires s.Valid() && Same(s.stream, s.closed, f) && Ends(f, start, pumps)
    modifies s, s.rx
    ensures s.Valid()
    ensures var g := Step(f, Read(max, start, pumps)); Same(s.stream, s.closed, g) && g.delivered == f.delivered + bytes
  {
    hide Holds, StopAt, AfterPumps, TimedOut;
    PumpsDeliverNothing(f, pumps[..StopAt(f, start, pumps, 0)]);
    var buf := new byte[max];
    var n := SockRead(s, buf, max, start, pumps, f);
    bytes := buf[..n];
  }

  lemma {:induction false} CallsDeliverNothing(f: Fifo, calls: seq<Call>)
    ensures AcceptAll(f, calls).delivered == f.delivered
  {
    if calls != [] {
      CallsDeliverNothing(f, calls[..|calls| - 1]);
    }
  }

  lemma {:induction false} PumpsDeliverNothing(f: Fifo, pumps: seq<Pump>)
    ensures AfterPumps(f, pumps).delivered == f.delivered
  {
    if pumps != [] {
      hide AcceptAll;
      PumpsDeliverNothing(f, pumps[..|pumps| - 1]);
      CallsDeliverNothing(AfterPumps(f, pumps[..|pumps| - 1]), pumps[|pumps| - 1].calls);
    }
  }

  lemma StepsNext(events: seq<Event>, i: nat)
    requires i < |events|
    ensures Steps(events[..i + 1]) == Step(Steps(events[..i]), events[i])
  {
    hide Step;
    assert events[..i + 1][..i] == events[..i];
  }

  /** Any mixture of callbacks, blocking reads and reads that do not block behaves on the ring as on the FIFO. */
  method Run(s: Sock, events: seq<Event>) returns (delivered: seq<byte>)
    requires s.Valid() && s.stream == [] && !s.closed && Finite(events)
    modifies s, s.rx
    ensures s.Valid()
    ensures var f := Steps(events); delivered == f.delivered && s.stream == f.stream && s.closed == f.closed
  {
    hide Holds, Ends, AtStop, ReadLength, Accept;
    delivered := [];
    var i := 0;
    while i < |events|
      invariant 0 <= i <= |events| && s.Valid()
      invariant var f := Steps(events[..i]); delivered == f.delivered && Same(s.stream, s.closed, f)
    {
      StepsNext(events, i);
      ghost var f := Steps(events[..i]);
      var bytes: seq<byte> := [];
      match events[i] {
        case Callback(c) =>
          DoCallback(s, c, f);
          CallDeliversNothing(f, c);
        case ReadNow(max) =>
          bytes := DoReadNow(s, max, f);
        case Read(max, start, pumps) =>
          bytes := DoRead(s, max, start, pumps, f);
      }
      delivered := delivered + bytes;
      i := i + 1;
    }
    assert events[..i] == events;
  }

  lemma CallDeliversNothing(f: Fifo, c: Call)
    ensures Accept(f, c).delivered == f.delivered
  {
  }
}
