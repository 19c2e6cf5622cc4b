/**
 * src/freedos_micro_python/port/pktdrv_uc386dos.c: the two-phase packet-driver receiver and `pktdrv_recv`,
 * without the real-mode stub and without the native NIC driver.
 */
module PktReceiver {
  import opened Machine
  import opened Frames

  /** Where phase 0 tells the driver to put the bytes. */
  datatype Target = Null | RxBuf | Bounce

  /** The slot: free, promised to a frame of a given length, or holding a frame. */
  datatype Slot = Free | Promised(len: nat) | Full(f: frame)

  class Receiver {
    const rxBuf: array<byte>
    const bounce: array<byte>
    /** `pktdrv_bounce_seg != 0` */
    const hasBounce: bool
    var pending: bool
    var rxLen: nat
    ghost var slot: Slot

    ghost predicate Valid()
      reads this, rxBuf
    {
      && rxBuf.Length == MAX_FRAME && bounce.Length == BOUNCE_SIZE && rxBuf != bounce
      && match slot
         case Free => !pending
         case Promised(len) => !pending && rxLen == len <= MAX_FRAME
         case Full(f) => pending && rxLen == |f| <= MAX_FRAME && rxBuf[..rxLen] == f
    }

    constructor (withBounce: bool)
      ensures Valid() && slot == Free && rxLen == 0 && fresh(rxBuf) && fresh(bounce) && hasBounce == withBounce
    {
      rxBuf := new byte[MAX_FRAME];
      bounce := new byte[BOUNCE_SIZE];
      hasBounce := withBounce;
      pending, rxLen, slot := false, 0, Free;
    }

    /** `uc386dos_pktdrv_receiver(0, len)`: a buffer, or nothing to drop the frame. */
    method Phase0(len: nat) returns (t: Target)
      requires Valid()
      modifies this`rxLen, this`slot
      ensures Valid()
      ensures t == Null <==> old(slot).Full? || len > MAX_FRAME
      ensures t == Null ==> slot == old(slot)
      ensures t != Null ==> slot == Promised(len) && t == (if hasBounce then Bounce else RxBuf)
    {
      if pending || len > MAX_FRAME {
        return Null;
      }
      rxLen := len;
      slot := Promised(len);
      if hasBounce && len <= BOUNCE_SIZE {
        return Bounce;
      }
      return RxBuf;
    }

    /** The driver copies the frame into the buffer it was given, then calls phase 1. */
    method Deliver(f: frame)
      requires Valid() && slot == Promised(|f|)
      modifies this`pending, this`slot, rxBuf, bounce
      ensures Valid() && slot == Full(f)
    {
      Memcpy(if hasBounce then bounce else rxBuf, 0, f);
      Phase1();
      slot := Full(f);
    }

    method Phase1()
      requires rxBuf.Length == MAX_FRAME && bounce.Length == BOUNCE_SIZE && rxBuf != bounce && rxLen <= MAX_FRAME
      modifies this`pending, rxBuf
      ensures pending
      ensures rxBuf[..rxLen] == if hasBounce then bounce[..rxLen] else old(rxBuf[..rxLen])
    {
      if hasBounce && rxLen <= MAX_FRAME {
        Memcpy(rxBuf, 0, bounce[..rxLen]);
      }
      pending := true;
    }

    /** `pktdrv_recv`: the pending frame, cut to `maxlen`; 0 when nothing is queued. */
    method Recv(out: array<byte>, maxlen: nat) returns (n: nat)
      requires Valid() && maxlen <= out.Length && out != rxBuf
      modifies this`pending, this`rxLen, this`slot, out
      ensures Valid()
      ensures old(slot).Full? ==>
                && slot == Free && rxLen == 0 && n <= maxlen
                && out[..n] == Cut(old(slot).f, maxlen) && out[n..] == old(out[n..])
      ensures !old(slot).Full? ==> slot == old(slot) && n == 0 && out[..] == old(out[..])
    {
      if !pending {
        return 0;
      }
      n := rxLen;
      if n > maxlen {
        n := maxlen;
      }
      Memcpy(out, 0, rxBuf[..n]);
      assert out[..n] == rxBuf[..n];
      pending := false;
      rxLen := 0;
      slot := Free;
    }
  }

  // ---- every run ----

  datatype Event = Offer(len: nat) | Fill(f: frame) | Receive(maxlen: nat)

  /** `frames` are the accepted frames in order, `log` what each receive found. */
  datatype History = History(slot: Slot, frames: seq<frame>, log: seq<Receipt<frame>>)

  const START: History := History(Free, [], [])

  /**
   * The driver's side of the protocol: phase 1 only after an accepted phase 0, with the bytes promised.
   * A promise may also be abandoned and another frame offered.
   */
  predicate Legal(h: History, e: Event)
  {
    match e
    case Offer(_) => true
    case Fill(f) => h.slot == Promised(|f|)
    case Receive(_) => true
  }

  function Step(h: History, e: Event): History
    requires Legal(h, e)
  {
    match e
    case Offer(len) => if h.slot.Full? || len > MAX_FRAME then h else h.(slot := Promised(len))
    case Fill(f) => h.(slot := Full(f), frames := h.frames + [f])
    case Receive(maxlen) =>
      if h.slot.Full? then h.(slot := Free, log := h.log + [Got(h.slot.f, maxlen)])
      else h.(log := h.log + [Nothing])
  }

  /** An offer is turned down exactly when a frame waits or the length is over 1518. */
  lemma OfferExactly(h: History, len: nat)
    ensures Step(h, Offer(len)) == if h.slot.Full? || len > 1518 then h else h.(slot := Promised(len))
  {
  }

  predicate LegalRun(events: seq<Event>)
    decreases |events|, 0
  {
    events == [] ||
    var n := |events| - 1;
    LegalRun(events[..n]) && Legal(Steps(events[..n]), events[n])
  }

  function Steps(events: seq<Event>): History
    requires LegalRun(events)
    decreases |events|, 1
  {
    if events == [] then START else Step(Steps(events[..|events| - 1]), events[|events| - 1])
  }

  /** Frames are drained in the order they were accepted, once each; at most one waits, and none is overwritten. */
  lemma NothingOverwritten(events: seq<Event>)
    requires LegalRun(events)
    ensures var h := Steps(events); h.frames == Items(h.log) + (if h.slot.Full? then [h.slot.f] else [])
  {
    AllConserved(events);
  }

  lemma {:induction false} AllConserved(events: seq<Event>)
    requires LegalRun(events)
    ensures Conserved(Steps(events))
  {
    if events != [] {
      hide Step, Conserved;
      var n := |events| - 1;
      AllConserved(events[..n]);
      StepConserves(Steps(events[..n]), events[n]);
    } else {
      assert Items<frame>([]) == [];
    }
  }

  ghost predicate Conserved(h: History) { h.frames == Items(h.log) + Waiting(h.slot) }

  function Waiting(s: Slot): seq<frame> { if s.Full? then [s.f] else [] }

  lemma StepConserves(h: History, e: Event)
    requires Legal(h, e) && Conserved(h)
    ensures Conserved(Step(h, e))
  {
    hide Items, Cut;
    if e.Receive? {
      LogSnoc(h.log, if h.slot.Full? then Got(h.slot.f, e.maxlen) else Nothing, Cut);
    }
  }

  /** On the results: the receive that took the `k`-th frame returned the `k`-th accepted frame, cut to its room. */
  lemma DrainedFrames(events: seq<Event>, k: nat)
    requires LegalRun(events) && k < |Items(Steps(events).log)|
    ensures var h := Steps(events); var at := Place(h.log, k);
            k < |h.frames| && Replies(h.log, Cut)[at] == Cut(h.frames[k], h.log[at].maxlen)
  {
    hide Items, Cut;
    NothingOverwritten(events);
    RepliedItem(Steps(events).log, Cut, k);
  }

  /** Any legal interleaving on the code gives the results of the single-slot history, each cut to its own room. */
  method Run(r: Receiver, events: seq<Event>) returns (results: seq<frame>)
    requires r.Valid() && r.slot == Free && LegalRun(events)
    modifies r, r.rxBuf, r.bounce
    ensures r.Valid() && r.slot == Steps(events).slot && results == Replies(Steps(events).log, Cut)
  {
    hide Replies, Items, Cut, Handed, Taken, LegalRun, Steps;
    EmptyLog();
    results := [];
    var i := 0;
    LegalPrefix(events, 0);
    while i < |events|
      invariant 0 <= i <= |events| && LegalRun(events[..i])
      invariant r.Valid() && r.slot == Steps(events[..i]).slot && results == Replies(Steps(events[..i]).log, Cut)
    {
      LegalPrefix(events, i + 1);
      RunNext(events, i);
      ghost var h := Steps(events[..i]);
      match events[i] {
        case Offer(len) =>
          var t := r.Phase0(len);
        case Fill(f) =>
          r.Deliver(f);
        case Receive(maxlen) =>
          var out := new byte[maxlen];
          LogSnoc(h.log, if h.slot.Full? then Got(h.slot.f, maxlen) else Nothing, Cut);
          SlotHanded(h.slot, maxlen);
          var n := r.Recv(out, maxlen);
          results := results + [out[..n]];
      }
      i := i + 1;
    }
    assert events[..i] == events;
  }

  lemma EmptyLog()
    ensures LegalRun([]) && Steps([]) == START && Replies<frame>([], Cut) == []
  {
  }

  lemma RunNext(events: seq<Event>, i: nat)
    requires i < |events| && LegalRun(events[..i + 1])
    ensures LegalRun(events[..i]) && Legal(Steps(events[..i]), events[i])
    ensures Steps(events[..i + 1]) == Step(Steps(events[..i]), events[i])
  {
    hide Step, Legal;
    assert events[..i + 1][..i] == events[..i];
  }

  lemma SlotHanded(slot: Slot, maxlen: nat)
    ensures Handed(if slot.Full? then Got(slot.f, maxlen) else Nothing, Cut)
         == if slot.Full? then Cut(slot.f, maxlen) else []
  {
  }

  lemma {:induction false} LegalPrefix(events: seq<Event>, i: nat)
    requires LegalRun(events) && i <= |events|
    ensures LegalRun(events[..i])
    decreases |events|
  {
    var n := |events| - 1;
    if i <= n {
      LegalPrefix(events[..n], i);
      assert events[..n][..i] == events[..i];
    } else {
      assert events[..i] == events;
    }
  }
}
