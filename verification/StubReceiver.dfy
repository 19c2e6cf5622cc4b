/**
 * src/freedos_micro_python/port/pktdrv_uc386dos.c: frames through the real-mode stub: the packet driver calls
 * the stub's code and copies into the bounce buffer, `pktdrv_recv` drains it. Arrivals are atomic to the program.
 */
module StubReceiver {
  import opened Machine
  import opened RxStub
  import opened Frames

  datatype Option<T> = None | Some(value: T)

  /** The stub's words say that `slot` waits in the bounce buffer. */
  ghost predicate Waiting(m: segment, bounce: seq<byte>, slot: Option<frame>)
  {
    && Loaded(m)
    && match slot
       case None => Word(m, PENDING) == 0
       case Some(f) =>
         && Word(m, PENDING) == 1 && Word(m, LENGTH) == |f| <= MAX_FRAME
         && |f| <= |bounce| && bounce[..|f|] == f
  }

  /** The registers at a call of the stub: phase in AX, length in CX, the others as they happen to be. */
  function Entry(regs: registers, es: word16, phase: word16, len: word16, m: segment): Cpu
  {
    Cpu(regs[AX := phase][CX := len], es, ENTRY, false, false, m)
  }

  /** Phase 0 keeps what waits unless it accepts; then only the length changes. */
  lemma Phase0Answer(regs: registers, es: word16, len: word16, m: segment)
    requires Loaded(m)
    ensures var c := Entry(regs, es, 0, len, m);
            && Run(c, 12) == Returned(Answer(c)) && Answer(c).regs[DI] == 0
            && (if len <= MAX_FRAME then Answer(c).es == Word(m, BOUNCE) && Answer(c).mem == PutWord(m, LENGTH, len)
                else Answer(c).es == 0 && Answer(c).mem == m)
  {
    hide Run, Loaded, Word, PutWord;
    StubAnswers(Entry(regs, es, 0, len, m));
  }

  lemma Phase1Answer(regs: registers, es: word16, len: word16, m: segment)
    requires Loaded(m)
    ensures var c := Entry(regs, es, 1, len, m);
            Run(c, 12) == Returned(Answer(c)) && Answer(c).mem == PutWord(m, PENDING, 1)
  {
    hide Run, Loaded, Word, PutWord;
    StubAnswers(Entry(regs, es, 1, len, m));
  }

  /** What an accepted length leaves: the frame of that length waits once phase 1 has run. */
  lemma Accepted(m: segment, len: word16)
    requires Loaded(m)
    ensures var l := PutWord(m, LENGTH, len); var p := PutWord(l, PENDING, 1);
            && Loaded(l) && Word(l, PENDING) == Word(m, PENDING) && Word(l, BOUNCE) == Word(m, BOUNCE)
            && Loaded(p) && Word(p, PENDING) == 1 && Word(p, LENGTH) == len && Word(p, BOUNCE) == Word(m, BOUNCE)
  {
  }

  lemma Cleared(m: segment)
    requires Loaded(m)
    ensures var p := PutWord(m, PENDING, 0); Loaded(p) && Word(p, PENDING) == 0 && Word(p, BOUNCE) == Word(m, BOUNCE)
  {
  }

  class Receiver {
    /** The thunk's segment and the bounce buffer, in conventional memory. */
    var mem: segment
    const bounce: array<byte>
    const rxBuf: array<byte>
    var pending: bool
    var rxLen: nat
    /** The frame in the bounce buffer, and the one in `rxBuf`. */
    ghost var slot: Option<frame>
    ghost var ready: Option<frame>

    ghost predicate Valid()
      reads this, bounce, rxBuf
    {
      && bounce.Length == BOUNCE_SIZE && rxBuf.Length == MAX_FRAME && bounce != rxBuf
      && Waiting(mem, bounce[..], slot) && Word(mem, BOUNCE) != 0
      && match ready
         case None => !pending
         case Some(f) => pending && rxLen == |f| <= MAX_FRAME && rxBuf[..rxLen] == f
    }

    constructor (thunk: segment)
      requires Loaded(thunk) && Word(thunk, PENDING) == 0 && Word(thunk, BOUNCE) != 0
      ensures Valid() && slot == None && ready == None && fresh(bounce) && fresh(rxBuf)
    {
      mem := thunk;
      bounce := new byte[BOUNCE_SIZE];
      rxBuf := new byte[MAX_FRAME];
      pending, rxLen, slot, ready := false, 0, None, None;
    }

    /** The packet driver's interrupt: phase 0, the copy to ES:DI unless it is 0:0, phase 1. */
    method Arrive(f: frame, regs: registers, es: word16)
      requires Valid() && |f| < 0x1_0000
      modifies this`mem, this`slot, bounce
      ensures Valid()
      ensures slot == if |f| <= MAX_FRAME then Some(f) else old(slot)
    {
      hide Loaded, Word, PutWord, Run, Answer;
      Phase0Answer(regs, es, |f|, mem);
      Accepted(mem, |f|);
      var answer := Run(Entry(regs, es, 0, |f|, mem), 12).cpu;
      mem := answer.mem;
      if answer.es != 0 || answer.regs[DI] != 0 {
        Memcpy(bounce, 0, f);
        Phase1Answer(regs, es, |f|, mem);
        mem := Run(Entry(regs, es, 1, |f|, mem), 12).cpu.mem;
        slot := Some(f);
      }
    }

    /** `pktdrv_poll_rmstub`: moves the waiting frame into `rxBuf`; an empty one is discarded. */
    method PollStub()
      requires Valid()
      modifies this`mem, this`pending, this`rxLen, this`slot, this`ready, rxBuf
      ensures Valid()
      ensures old(ready).Some? || old(slot).None? ==> slot == old(slot) && ready == old(ready)
      ensures old(ready).None? && old(slot).Some? ==>
                slot == None && ready == if old(slot).value == [] then None else old(slot)
    {
      hide Loaded, Word, PutWord;
      if pending {
        return;
      }
      if Word(mem, PENDING) == 0 {
        return;
      }
      Cleared(mem);
      var n := Word(mem, LENGTH);
      if n == 0 || n > MAX_FRAME {
        mem := PutWord(mem, PENDING, 0);
        slot := None;
        return;
      }
      Memcpy(rxBuf, 0, bounce[..n]);
      assert rxBuf[..n] == bounce[..n];
      rxLen := n;
      mem := PutWord(mem, PENDING, 0);
      pending := true;
      slot, ready := None, slot;
    }

    /** `pktdrv_recv` without the native NIC driver. */
    method Recv(out: array<byte>, maxlen: nat) returns (n: nat)
      requires Valid() && maxlen <= out.Length && out != rxBuf && out != bounce
      modifies this`mem, this`pending, this`rxLen, this`slot, this`ready, rxBuf, out
      ensures Valid() && ready == None && n <= maxlen
      ensures old(ready).Some? || (old(slot).Some? && old(slot).value != []) ==> rxLen == 0
      ensures slot == if old(ready).Some? then old(slot) else None
      ensures out[..n] == Cut(Front(old(ready), old(slot)), maxlen) && out[n..] == old(out[n..])
    {
      hide Waiting, Loaded, Word, PutWord;
      PollStub();
      if !pending {
        return 0;
      }
      n := rxLen;
      if n > maxlen {
        n := maxlen;
      }
      Memcpy(out, 0, rxBuf[..n]);
      assert out[..n] == rxBuf[..n];
      pending := false;
      rxLen := 0;
      ready := None;
    }
  }

  /** The frame a receive hands out; none counts as empty. */
  function Front(ready: Option<frame>, slot: Option<frame>): frame
  {
    match ready
    case Some(f) => f
    case None => (match slot case Some(f) => f case None => [])
  }

  // ---- every run ----

  datatype Event = Arrival(f: frame, regs: registers, es: word16) | Receive(maxlen: nat)

  /** `arrived` are the frames the stub accepted; the slot and the log are numbers into it. */
  datatype History = History(arrived: seq<frame>, slot: Option<nat>, log: seq<Receipt<nat>>)

  function FrameOf(h: History): Option<frame>
  {
    match h.slot
    case Some(k) => if k < |h.arrived| then Some(h.arrived[k]) else None
    case None => None
  }

  /** How frame number `k` is handed out. */
  function Hand(arrived: seq<frame>): (nat, nat) -> frame
  {
    (k: nat, maxlen: nat) => if k < |arrived| then Cut(arrived[k], maxlen) else []
  }

  function Find(slot: Option<nat>, maxlen: nat): Receipt<nat>
  {
    match slot case Some(k) => Got(k, maxlen) case None => Nothing
  }

  function Step(h: History, e: Event): History
  {
    match e
    case Arrival(f, _, _) => if |f| <= MAX_FRAME then h.(arrived := h.arrived + [f], slot := Some(|h.arrived|)) else h
    case Receive(maxlen) => h.(slot := None, log := h.log + [Find(h.slot, maxlen)])
  }

  /** A frame of up to 1518 bytes takes the slot and is the newest; a longer one is not seen. */
  lemma ArrivalExactly(h: History, f: frame, regs: registers, es: word16)
    ensures Step(h, Arrival(f, regs, es)) ==
            if |f| <= 1518 then h.(arrived := h.arrived + [f], slot := Some(|h.arrived|)) else h
  {
  }

  function Steps(events: seq<Event>): History
  {
    if events == [] then History([], None, []) else Step(Steps(events[..|events| - 1]), events[|events| - 1])
  }

  /** Numbers in the log come in order and belong to frames that arrived; the slot holds the newest. */
  ghost predicate InOrder(h: History)
  {
    var taken := Items(h.log);
    && (forall i, j :: 0 <= i < j < |taken| ==> taken[i] < taken[j])
    && (forall i :: 0 <= i < |taken| ==> taken[i] < |h.arrived|)
    && (h.slot.Some? ==> |h.arrived| > 0 && h.slot.value == |h.arrived| - 1)
    && (h.slot.Some? ==> forall i :: 0 <= i < |taken| ==> taken[i] < h.slot.value)
  }

  /** Results that refer to frames that arrived do not change when more arrive. */
  lemma {:induction false} RepliesStable(log: seq<Receipt<nat>>, arrived: seq<frame>, f: frame)
    requires forall i :: 0 <= i < |Items(log)| ==> Items(log)[i] < |arrived|
    ensures Replies(log, Hand(arrived + [f])) == Replies(log, Hand(arrived))
  {
    if log != [] {
      hide Cut, Items, Replies;
      var n := |log| - 1;
      var init := log[..n];
      LogSnoc(init, log[n], Hand(arrived));
      LogSnoc(init, log[n], Hand(arrived + [f]));
      assert log == init + [log[n]];
      var all, part := Items(log), Items(init);
      assert forall i :: 0 <= i < |part| ==> all[i] == part[i];
      RepliesStable(init, arrived, f);
      if log[n].Got? {
        assert all[|part|] == log[n].item;
      }
    }
  }

  lemma OrderSnoc(taken: seq<nat>, slot: Option<nat>, arrived: nat)
    requires forall i, j :: 0 <= i < j < |taken| ==> taken[i] < taken[j]
    requires forall i :: 0 <= i < |taken| ==> taken[i] < arrived
    requires slot.Some? ==> slot.value < arrived && forall i :: 0 <= i < |taken| ==> taken[i] < slot.value
    ensures var more := taken + (if slot.Some? then [slot.value] else []);
            && (forall i, j :: 0 <= i < j < |more| ==> more[i] < more[j])
            && (forall i :: 0 <= i < |more| ==> more[i] < arrived)
  {
  }

  /**
   * Newer frames replace older ones, but what is delivered is a subsequence of what arrived: in order,
   * no frame twice, and always the newest frame at the time.
   */
  lemma DeliveredInOrder(events: seq<Event>)
    ensures var h := Steps(events); var taken := Items(h.log);
            && (forall i, j :: 0 <= i < j < |taken| ==> taken[i] < taken[j])
            && (forall i :: 0 <= i < |taken| ==> taken[i] < |h.arrived|)
            && (h.slot.Some? ==> |h.arrived| > 0 && h.slot.value == |h.arrived| - 1)
  {
    AllInOrder(events);
  }

  lemma {:induction false} AllInOrder(events: seq<Event>)
    ensures InOrder(Steps(events))
  {
    if events != [] {
      var n := |events| - 1;
      AllInOrder(events[..n]);
      var h := Steps(events[..n]);
      hide Items;
      if events[n].Receive? {
        LogSnoc(h.log, Find(h.slot, events[n].maxlen), Hand(h.arrived));
        OrderSnoc(Items(h.log), h.slot, |h.arrived|);
      }
    } else {
      assert Items<nat>([]) == [];
    }
  }

  /** On the results: each frame delivered is one that arrived, cut to the room of its receive, and a later one. */
  lemma DeliveredFrames(events: seq<Event>, k: nat)
    requires k < |Items(Steps(events).log)|
    ensures var h := Steps(events); var taken, at := Items(h.log), Place(h.log, k);
            && taken[k] < |h.arrived|
            && Replies(h.log, Hand(h.arrived))[at] == Cut(h.arrived[taken[k]], h.log[at].maxlen)
            && (k > 0 ==> taken[k - 1] < taken[k])
  {
    hide Cut;
    DeliveredInOrder(events);
    RepliedItem(Steps(events).log, Hand(Steps(events).arrived), k);
  }

  /** Every run of the stub's machine code, the driver and the drain returns what that history says. */
  method RunEvents(r: Receiver, events: seq<Event>) returns (results: seq<frame>)
    requires r.Valid() && r.slot == None && r.ready == None
    requires forall i :: 0 <= i < |events| && events[i].Arrival? ==> |events[i].f| < 0x1_0000
    modifies r, r.bounce, r.rxBuf
    ensures r.Valid() && r.ready == None
    ensures var h := Steps(events); r.slot == FrameOf(h) && results == Replies(h.log, Hand(h.arrived))
  {
    hide Waiting, Cut, Replies, Items;
    results := [];
    NoLog();
    var i := 0;
    while i < |events|
      invariant 0 <= i <= |events|
      invariant r.Valid() && r.ready == None
      invariant var h := Steps(events[..i]); r.slot == FrameOf(h) && results == Replies(h.log, Hand(h.arrived))
    {
      assert events[..i + 1][..i] == events[..i];
      ghost var h := Steps(events[..i]);
      DeliveredInOrder(events[..i]);
      match events[i] {
        case Arrival(f, regs, es) =>
          RepliesStable(h.log, h.arrived, f);
          r.Arrive(f, regs, es);
        case Receive(maxlen) =>
          LogSnoc(h.log, Find(h.slot, maxlen), Hand(h.arrived));
          EmptyCut(maxlen);
          var out := new byte[maxlen];
          var n := r.Recv(out, maxlen);
          results := results + [out[..n]];
      }
      i := i + 1;
    }
    assert events[..i] == events;
  }

  lemma NoLog()
    ensures Replies<nat>([], Hand([])) == []
  {
  }

  lemma EmptyCut(maxlen: nat)
    ensures Cut([], maxlen) == []
  {
  }
}
