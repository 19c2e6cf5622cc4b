/**
 * src/freedos_micro_python/port/pktdrv_uc386dos.c: the polled NE2000 driver on a register-level model of the NIC.
 * The NIC is the environment: its registers are a value, its reaction to a register access a function.
 */
module Ne2000 {
  import opened Machine
  import opened Ne2000Ring
  import opened Frames

  // Register offsets; CR selects the page for the others.
  const NE_CR: nat := 0x00
  const NE_PSTART: nat := 0x01
  const NE_PSTOP: nat := 0x02
  const NE_BNRY: nat := 0x03
  const NE_ISR: nat := 0x07
  const NE_CURR: nat := 0x07
  const NE_RSAR0: nat := 0x08
  const NE_RSAR1: nat := 0x09
  const NE_RBCR0: nat := 0x0A
  const NE_RBCR1: nat := 0x0B
  const NE_RCR: nat := 0x0C

  const NE_TPSR: nat := 0x04
  const NE_TCR: nat := 0x0D
  const NE_DCR: nat := 0x0E
  const NE_IMR: nat := 0x0F
  const NE_PAR0: nat := 0x01
  const NE_MAR0: nat := 0x08

  type address = a: seq<byte> | |a| == 6 witness [0, 0, 0, 0, 0, 0]
  type filter = a: seq<byte> | |a| == 8 witness [0, 0, 0, 0, 0, 0, 0, 0]

  /**
   * `rdc` is bit 6 of ISR, `prx`, `rxe` and `ovw` are bits 0, 2 and 4. `stops` counts how often the command
   * register stopped the NIC.
   */
  datatype Regs = Regs(cr: byte, pstart: byte, pstop: byte, bnry: byte, curr: byte, rcr: byte,
                       tpsr: byte, tcr: byte, dcr: byte, imr: byte, par: address, mar: filter,
                       rdc: bool, prx: bool, rxe: bool, ovw: bool, rsar: nat, rbcr: nat, stops: nat)
  {
    /** Bits 6 and 7 of CR. */
    function Page(): (p: nat)
      ensures 64 * p <= cr < 64 * (p + 1)
    {
      cr / 64
    }

    /** The NIC stores frames when started, not stopped and not in monitor mode. */
    predicate Receiving() { cr % 2 == 0 && (cr / 2) % 2 == 1 && (rcr / 32) % 2 == 0 }

    /** Bit 0 of DCR: the data port moves words. */
    predicate WordWide() { dcr % 2 == 1 }

    /** The address filter: bit 4 of RCR takes everything, bit 2 broadcasts; otherwise only the own address. */
    predicate Hears(body: seq<byte>)
    {
      (rcr / 16) % 2 == 1 ||
      (|body| >= 6 && (body[..6] == par || ((rcr / 4) % 2 == 1 && body[..6] == [255, 255, 255, 255, 255, 255])))
    }
  }

  const RESET_SPIN: nat := 100000

  function Bit7(x: byte): bool { x >= 0x80 }

  /** The first reading from `k` on that shows RST, or the number of readings. */
  function FirstReset(isr: nat -> byte, k: nat): (i: nat)
    requires k <= RESET_SPIN
    ensures k <= i <= RESET_SPIN && (forall j :: k <= j < i ==> !Bit7(isr(j))) && (i < RESET_SPIN ==> Bit7(isr(i)))
    decreases RESET_SPIN - k
  {
    if k == RESET_SPIN || Bit7(isr(k)) then k else FirstReset(isr, k + 1)
  }

  /** A NIC that never shows RST, which passes, and one that shows it at the last reading, which is refused. */
  lemma ResetWitnesses()
    ensures RESET_SPIN == 100000
    ensures FirstReset(ResetAt(RESET_SPIN), 0) == RESET_SPIN
    ensures FirstReset(ResetAt(RESET_SPIN - 1), 0) == RESET_SPIN - 1
  {
    hide FirstReset;
    assert Bit7(ResetAt(RESET_SPIN - 1)(RESET_SPIN - 1));
  }

  /** Readings that show RST at number `n` only. */
  function ResetAt(n: nat): nat -> byte { k => if k == n then 0x80 else 0 }

  lemma FirstResetStep(isr: nat -> byte, k: nat)
    requires k <= RESET_SPIN
    ensures FirstReset(isr, k) == if k == RESET_SPIN || Bit7(isr(k)) then k else FirstReset(isr, k + 1)
  {
    hide Bit7;
  }

  function Bit6(x: byte): bool { (x / 64) % 2 == 1 }

  /** Writing ones to ISR clears the bits. */
  function Acknowledge(r: Regs, v: byte): Regs
  {
    r.(rdc := r.rdc && !Bit6(v), prx := r.prx && v % 2 == 0,
       rxe := r.rxe && v / 4 % 2 == 0, ovw := r.ovw && v / 16 % 2 == 0)
  }

  function WriteReg(r: Regs, reg: nat, v: byte): Regs
  {
    if reg == NE_CR then r.(cr := v, stops := r.stops + v % 2)
    else if r.Page() == 0 then
      if reg == NE_PSTART then r.(pstart := v)
      else if reg == NE_PSTOP then r.(pstop := v)
      else if reg == NE_BNRY then r.(bnry := v)
      else if reg == NE_ISR then Acknowledge(r, v)
      else if reg == NE_RSAR0 then r.(rsar := r.rsar / 256 * 256 + v)
      else if reg == NE_RSAR1 then r.(rsar := r.rsar % 256 + 256 * v)
      else if reg == NE_RBCR0 then r.(rbcr := r.rbcr / 256 * 256 + v)
      else if reg == NE_RBCR1 then r.(rbcr := r.rbcr % 256 + 256 * v)
      else if reg == NE_RCR then r.(rcr := v)
      else if reg == NE_TPSR then r.(tpsr := v)
      else if reg == NE_TCR then r.(tcr := v)
      else if reg == NE_DCR then r.(dcr := v)
      else if reg == NE_IMR then r.(imr := v)
      else r
    else if r.Page() == 1 then
      if reg == NE_CURR then r.(curr := v)
      else if NE_PAR0 <= reg < NE_PAR0 + 6 then r.(par := r.par[reg - NE_PAR0 := v])
      else if NE_MAR0 <= reg < NE_MAR0 + 8 then r.(mar := r.mar[reg - NE_MAR0 := v])
      else r
    else r
  }

  function ReadReg(r: Regs, reg: nat): byte
  {
    if reg == NE_CR then r.cr
    else if r.Page() == 0 && reg == NE_BNRY then r.bnry
    else if r.Page() == 0 && reg == NE_ISR then
      (if r.rdc then 0x40 else 0) + (if r.prx then 1 else 0) + (if r.rxe then 4 else 0) + (if r.ovw then 16 else 0)
    else if r.Page() == 1 && reg == NE_CURR then r.curr
    else 0xFF
  }

  /** The register map, by offset: page 0. */
  lemma PageZero(r: Regs, v: byte)
    requires r.Page() == 0
    ensures WriteReg(r, 0x01, v) == r.(pstart := v) && WriteReg(r, 0x02, v) == r.(pstop := v)
    ensures WriteReg(r, 0x03, v) == r.(bnry := v) && WriteReg(r, 0x04, v) == r.(tpsr := v)
    ensures WriteReg(r, 0x07, v) == Acknowledge(r, v)
    ensures WriteReg(r, 0x0C, v) == r.(rcr := v) && WriteReg(r, 0x0D, v) == r.(tcr := v)
    ensures WriteReg(r, 0x0E, v) == r.(dcr := v) && WriteReg(r, 0x0F, v) == r.(imr := v)
    ensures ReadReg(r, 0x03) == r.bnry && (ReadReg(r, 0x07) >= 0x40 <==> r.rdc)
  {
    hide Acknowledge;
  }

  /** The address and count of remote DMA, low byte and high byte. */
  lemma DmaRegisters(r: Regs, v: byte)
    requires r.Page() == 0
    ensures WriteReg(r, 0x08, v) == r.(rsar := r.rsar / 256 * 256 + v)
    ensures WriteReg(r, 0x09, v) == r.(rsar := r.rsar % 256 + 256 * v)
    ensures WriteReg(r, 0x0A, v) == r.(rbcr := r.rbcr / 256 * 256 + v)
    ensures WriteReg(r, 0x0B, v) == r.(rbcr := r.rbcr % 256 + 256 * v)
  {
  }

  lemma AcknowledgeExactly(r: Regs, v: byte)
    ensures var a := Acknowledge(r, v);
            && a == r.(rdc := a.rdc, prx := a.prx, rxe := a.rxe, ovw := a.ovw)
            && (a.rdc <==> r.rdc && v / 64 % 2 == 0) && (a.prx <==> r.prx && v % 2 == 0)
            && (a.rxe <==> r.rxe && v / 4 % 2 == 0) && (a.ovw <==> r.ovw && v / 16 % 2 == 0)
  {
  }

  /** Page 1, and the command register on every page. */
  lemma PageOne(r: Regs, i: nat, v: byte)
    ensures WriteReg(r, 0x00, v) == r.(cr := v, stops := if v % 2 == 1 then r.stops + 1 else r.stops)
    ensures ReadReg(r, 0x00) == r.cr
    ensures r.Page() == 1 && i < 6 ==> WriteReg(r, 0x01 + i, v) == r.(par := r.par[i := v])
    ensures r.Page() == 1 ==> WriteReg(r, 0x07, v) == r.(curr := v) && ReadReg(r, 0x07) == r.curr
    ensures r.Page() == 1 && i < 8 ==> WriteReg(r, 0x08 + i, v) == r.(mar := r.mar[i := v])
  {
  }

  /** Started and not stopped, and no monitor mode; words on the data port; the filter the driver sets. */
  lemma ControlBits(r: Regs, body: seq<byte>)
    ensures r.Receiving() <==> r.cr % 4 == 2 && r.rcr % 64 < 32
    ensures r.WordWide() <==> r.dcr == 2 * (r.dcr / 2) + 1
    ensures r.rcr == 0x04 ==>
              (r.Hears(body) <==>
                 && |body| >= 6
                 && ((forall i :: 0 <= i < 6 ==> body[i] == r.par[i]) || (forall i :: 0 <= i < 6 ==> body[i] == 0xFF)))
    ensures r.rcr % 32 >= 16 ==> r.Hears(body)
  {
    var all: seq<byte> := [255, 255, 255, 255, 255, 255];
    if |body| >= 6 {
      assert body[..6] == r.par <==> forall i :: 0 <= i < 6 ==> body[i] == r.par[i];
      assert body[..6] == all <==> forall i :: 0 <= i < 6 ==> body[i] == 0xFF;
    }
  }

  /** One word of a remote read: two bytes on, or back to the start of the ring, and two fewer to go. */
  lemma WordTransfer(r: Regs)
    ensures var n := AfterWord(r);
            && n == r.(rsar := n.rsar, rbcr := n.rbcr, rdc := n.rdc)
            && n.rsar == (if r.rsar + 2 == 256 * r.pstop then 256 * r.pstart else r.rsar + 2)
            && n.rbcr == (if r.rbcr < 2 then 0 else r.rbcr - 2)
            && (n.rdc <==> r.rdc || r.rbcr <= 2)
  {
  }

  /** Remote DMA reads words upwards and jumps from the end of the ring to its start. */
  function NextWordAddr(r: Regs, x: nat): nat
  {
    if x + 2 == 256 * r.pstop then 256 * r.pstart else x + 2
  }

  function AfterWord(r: Regs): Regs
  {
    var left := if r.rbcr <= 2 then 0 else r.rbcr - 2;
    r.(rsar := NextWordAddr(r, r.rsar), rbcr := left, rdc := r.rdc || left == 0)
  }

  function WordAddr(r: Regs, start: nat, k: nat): nat
  {
    if k == 0 then start else NextWordAddr(r, WordAddr(r, start, k - 1))
  }

  /** Memory as remote DMA sees it; nothing answers above the SRAM. */
  function MemAt(m: sram, x: nat): byte
  {
    if x < SRAM_BYTES then m[x] else 0xFF
  }

  /** The bytes that `n` word reads from `start` deliver. */
  function Fetched(m: sram, r: Regs, start: nat, n: nat): (s: seq<byte>)
    ensures |s| == 2 * n
  {
    if n == 0 then []
    else
      var x := WordAddr(r, start, n - 1);
      Fetched(m, r, start, n - 1) + [MemAt(m, x), MemAt(m, x + 1)]
  }

  class Nic {
    var regs: Regs
    var mem: sram

    constructor (r: Regs, m: sram)
      ensures regs == r && mem == m
    {
      regs, mem := r, m;
    }

    method Outb(reg: nat, v: byte)
      modifies this`regs
      ensures regs == WriteReg(old(regs), reg, v)
    {
      regs := WriteReg(regs, reg, v);
    }

    method Inb(reg: nat) returns (v: byte)
      ensures v == ReadReg(regs, reg)
    {
      v := ReadReg(regs, reg);
    }

    /** One 16-bit read of the data port. */
    method Inw() returns (lo: byte, hi: byte)
      requires regs.WordWide()
      modifies this`regs
      ensures regs == AfterWord(old(regs))
      ensures lo == MemAt(mem, old(regs.rsar)) && hi == MemAt(mem, old(regs.rsar) + 1)
    {
      lo, hi := MemAt(mem, regs.rsar), MemAt(mem, regs.rsar + 1);
      regs := AfterWord(regs);
    }

    /** `rep insw` from the data port; `RDC` comes up with the last word of the programmed count. */
    method Insw(dst: array<byte>, words: nat)
      requires 2 * words <= dst.Length
      requires 0 < words && regs.rbcr <= 2 * words && regs.WordWide()
      modifies this`regs, dst
      ensures regs == old(regs).(rsar := regs.rsar, rbcr := 0, rdc := true)
      ensures dst[..2 * words] == Fetched(mem, old(regs), old(regs.rsar), words)
      ensures dst[2 * words..] == old(dst[2 * words..])
    {
      hide Fetched, WordAddr, MemAt, AfterWord, Moved;
      ghost var r0 := regs;
      ghost var d0 := dst[..];
      var w := 0;
      FetchedStep(mem, r0, r0.rsar, 0);
      MovedStart(r0);
      while w < words
        invariant 0 <= w <= words
        invariant Moved(r0, regs, w)
        invariant dst[..2 * w] == Fetched(mem, r0, r0.rsar, w)
        invariant dst[2 * w..] == d0[2 * w..]
      {
        FetchedStep(mem, r0, r0.rsar, w);
        MovedStep(r0, regs, w);
        ghost var before, after := dst[..2 * w], dst[2 * w..];
        var lo, hi := Inw();
        dst[2 * w], dst[2 * w + 1] := lo, hi;
        assert dst[..2 * (w + 1)] == before + [lo, hi];
        assert dst[2 * (w + 1)..] == after[2..];
        w := w + 1;
      }
      MovedEnd(r0, regs, w);
    }
  }

  /** The registers after `w` words of a read that began at `r0`. */
  ghost predicate Moved(r0: Regs, r: Regs, w: nat)
  {
    && r == r0.(rsar := WordAddr(r0, r0.rsar, w), rbcr := r.rbcr, rdc := r.rdc)
    && r.rbcr == (if r0.rbcr <= 2 * w then 0 else r0.rbcr - 2 * w)
    && (w > 0 && r0.rbcr <= 2 * w ==> r.rdc)
  }

  lemma MovedStart(r: Regs)
    ensures Moved(r, r, 0)
  {
  }

  lemma MovedStep(r0: Regs, r: Regs, w: nat)
    requires Moved(r0, r, w)
    ensures Moved(r0, AfterWord(r), w + 1) && r.rsar == WordAddr(r0, r0.rsar, w) && r.WordWide() == r0.WordWide()
  {
  }

  lemma MovedEnd(r0: Regs, r: Regs, w: nat)
    requires Moved(r0, r, w) && w > 0 && r0.rbcr <= 2 * w
    ensures r == r0.(rsar := r.rsar, rbcr := 0, rdc := true)
  {
    hide WordAddr;
  }

  lemma FetchedStep(m: sram, r: Regs, start: nat, n: nat)
    ensures WordAddr(r, start, 0) == start && Fetched(m, r, start, 0) == []
    ensures WordAddr(r, start, n + 1) == NextWordAddr(r, WordAddr(r, start, n))
    ensures var x := WordAddr(r, start, n);
            Fetched(m, r, start, n + 1) == Fetched(m, r, start, n) + [MemAt(m, x), MemAt(m, x + 1)]
  {
  }

  // ---- the ring invariant over registers and memory ----

  ghost predicate RingHolds(r: Regs, m: sram, head: nat, q: seq<Packet>)
  {
    && r.Page() == 0 && r.Receiving() && r.WordWide() && r.rcr == 0x04
    && r.pstart == RX_PAGE_START && r.pstop == RX_PAGE_STOP
    && r.bnry == PageOf(head + 57) && r.curr == PageOf(head + PagesOf(q))
    && PagesOf(q) < RING_PAGES
    && ChainAt(m, head, q)
  }

  /** What a poll hands up for a packet: the body cut to `maxlen`, or nothing for a bad receive status. */
  function Delivered(p: Packet, maxlen: nat): (d: seq<byte>)
    ensures |d| <= maxlen
  {
    if p.status % 2 == 0 then [] else Cut(p.body, maxlen)
  }

  /** A queue whose next poll returns 0: nothing waits, or the first packet is bad or empty, or there is no room. */
  predicate Silent(q: seq<Packet>, maxlen: nat)
  {
    q == [] || q[0].status % 2 == 0 || q[0].body == [] || maxlen == 0
  }

  /**
   * The comment on `ne2k_poll_rx` says 0 when nothing is pending. It is 0 exactly for a silent queue,
   * so it means that nothing is pending exactly when the first packet, if any, is good and not empty
   * and there is room.
   */
  lemma ZeroReply(q: seq<Packet>, maxlen: nat)
    ensures var n := (if q == [] then 0 else |Delivered(q[0], maxlen)|);
            && (n == 0 <==> Silent(q, maxlen))
            && ((n == 0 <==> q == []) <==> (q == [] || !Silent(q, maxlen)))
  {
  }

  /** A packet with a bad status is pending, and the poll that takes it returns 0. */
  lemma BadPacketSilent(body: seq<byte>, maxlen: nat)
    ensures Silent([Packet(0, body, 1)], maxlen) && Delivered(Packet(0, body, 1), maxlen) == []
  {
  }

  /** Bytes a poll stores for a packet: word transfers round an odd count up. */
  function CopiedLength(p: Packet, maxlen: nat): nat
  {
    var n := |Delivered(p, maxlen)|;
    n + n % 2
  }

  /** What a poll stores: behind an odd count comes one byte more, of the body or, at its end, `slack`. */
  function Copied(p: Packet, maxlen: nat, slack: byte): (s: frame)
    ensures |s| == CopiedLength(p, maxlen) && Delivered(p, maxlen) <= s
  {
    var d := Delivered(p, maxlen);
    if |d| % 2 == 0 then d else d + [if |d| < |p.body| then p.body[|d|] else slack]
  }

  /**
   * The comment on `ne2k_poll_rx` says that maxlen caps the copy. It does exactly when the packet is bad,
   * or shorter than maxlen, or maxlen is even; otherwise the byte after the buffer is overwritten.
   */
  lemma CapExactly(p: Packet, maxlen: nat)
    ensures CopiedLength(p, maxlen) <= maxlen <==> p.status % 2 == 0 || |p.body| < maxlen || maxlen % 2 == 0
    ensures CopiedLength(p, maxlen) <= maxlen + maxlen % 2
  {
  }

  lemma CopiedFront(p: Packet, maxlen: nat, slack: byte)
    ensures Copied(p, maxlen, slack)[..|Delivered(p, maxlen)|] == Delivered(p, maxlen)
  {
    hide Delivered;
  }

  /** A frame of 60 bytes, polled with room for 59, is stored whole. */
  lemma CapOverrun(body: seq<byte>, slack: byte)
    requires |body| == 60
    ensures var p := Packet(1, body, 1);
            WellFormed(p) && Delivered(p, 59) == body[..59] && Copied(p, 59, slack) == body
  {
  }

  /** The byte of NIC memory behind the body of the packet at `head`. */
  ghost function Slack(m: sram, head: nat, p: Packet): byte { m[Addr(256 * head + 4 + |p.body|)] }

  /** The pages of a chain hold the same bytes in both memories. */
  ghost predicate Kept(m: sram, m': sram, head: nat, pages: nat)
  {
    forall a :: 256 * head <= a < 256 * (head + pages) ==> m'[Addr(a)] == m[Addr(a)]
  }

  lemma KeptStep(m: sram, m': sram, m'': sram, head: nat, pages: nat, more: nat)
    requires Kept(m, m', head, pages) && Kept(m', m'', head, more) && pages <= more
    ensures Kept(m, m'', head, pages)
  {
    hide Addr;
  }

  lemma KeptSame(m: sram, head: nat, pages: nat)
    ensures Kept(m, m, head, pages)
  {
  }

  /** The byte behind an odd body lies in the packet's own pages. */
  lemma SlackKept(m: sram, m': sram, head: nat, q: seq<Packet>)
    requires q != [] && WellFormed(q[0]) && |q[0].body| % 2 == 1 && Kept(m, m', head, PagesOf(q))
    ensures Slack(m', head, q[0]) == Slack(m, head, q[0])
  {
    hide Addr, PagesOf;
    FirstPages(q);
  }

  /** The last byte of a word transfer of an odd part of the body. */
  lemma FetchedOdd(m: sram, r: Regs, head: nat, q: seq<Packet>, count: nat)
    requires RingHolds(r, m, head, q) && q != [] && count <= |q[0].body| && count % 2 == 1
    ensures Fetched(m, r, Addr(256 * head + 4), (count + 1) / 2)[count]
         == if count < |q[0].body| then q[0].body[count] else Slack(m, head, q[0])
  {
    hide Fetched, Addr, Image, RingHolds;
    FetchedFront(m, r, head, q, 4, (count + 1) / 2, count);
    RingFirst(m, r, head, q, 0);
    FetchedAt(m, r, 256 * head + 4, (count + 1) / 2, count);
    if count < |q[0].body| {
      assert Image(q[0], head)[4 + count] == Image(q[0], head)[4..][count];
    }
  }

  lemma {:induction false} FetchedRing(m: sram, r: Regs, a: nat, n: nat)
    requires r.pstart == RX_PAGE_START && r.pstop == RX_PAGE_STOP && a % 2 == 0
    ensures WordAddr(r, Addr(a), n) == Addr(a + 2 * n)
    ensures forall b :: a <= b < a + 2 * n ==> Fetched(m, r, Addr(a), n)[b - a] == m[Addr(b)]
  {
    hide Addr, WordAddr, Fetched;
    FetchedStep(m, r, Addr(a), if n > 0 then n - 1 else 0);
    if n > 0 {
      FetchedRing(m, r, a, n - 1);
      AddrNext(a + 2 * (n - 1));
    }
  }

  lemma {:induction false} FetchedLow(m: sram, r: Regs, n: nat)
    requires r.pstop == 0x80 && n <= 0x100
    ensures WordAddr(r, 0, n) == 2 * n
    ensures forall b :: 0 <= b < 2 * n ==> Fetched(m, r, 0, n)[b] == m[b]
  {
    if n > 0 {
      FetchedLow(m, r, n - 1);
    }
  }

  lemma RingFirst(m: sram, r: Regs, head: nat, q: seq<Packet>, i: nat)
    requires RingHolds(r, m, head, q) && q != []
    ensures WellFormed(q[0]) && r.pstart == RX_PAGE_START && r.pstop == RX_PAGE_STOP
    ensures i < |Image(q[0], head)| ==> m[Addr(256 * head + i)] == Image(q[0], head)[i]
  {
  }

  lemma FetchedAt(m: sram, r: Regs, a: nat, n: nat, i: nat)
    requires r.pstart == RX_PAGE_START && r.pstop == RX_PAGE_STOP && a % 2 == 0 && i < 2 * n
    ensures Fetched(m, r, Addr(a), n)[i] == m[Addr(a + i)]
  {
    hide Addr, Fetched;
    FetchedRing(m, r, a, n);
    assert Fetched(m, r, Addr(a), n)[a + i - a] == m[Addr(a + i)];
  }

  lemma EvenSum(head: nat, from: nat)
    requires from % 2 == 0
    ensures (256 * head + from) % 2 == 0
  {
  }

  /** What a remote read of the packet at the front of the ring delivers, from byte `from` on. */
  lemma FetchedFront(m: sram, r: Regs, head: nat, q: seq<Packet>, from: nat, n: nat, i: nat)
    requires RingHolds(r, m, head, q) && q != [] && from % 2 == 0
    ensures WellFormed(q[0])
    ensures i < 2 * n && from + i < 4 + |q[0].body| ==>
              Fetched(m, r, Addr(256 * head + from), n)[i] == Image(q[0], head)[from + i]
  {
    hide *;
    RingFirst(m, r, head, q, from + i);
    if i < 2 * n {
      EvenSum(head, from);
      FetchedAt(m, r, 256 * head + from, n, i);
      assert 256 * head + from + i == 256 * head + (from + i);
    }
  }

  lemma FetchedHeader(m: sram, r: Regs, head: nat, q: seq<Packet>)
    requires RingHolds(r, m, head, q) && q != []
    ensures WellFormed(q[0]) && |Image(q[0], head)| >= 4
    ensures Fetched(m, r, Addr(256 * head), 2) == Image(q[0], head)[..4]
  {
    hide *;
    FetchedFront(m, r, head, q, 0, 2, 0);
    FetchedFront(m, r, head, q, 0, 2, 1);
    FetchedFront(m, r, head, q, 0, 2, 2);
    FetchedFront(m, r, head, q, 0, 2, 3);
  }

  lemma FetchedBody(m: sram, r: Regs, head: nat, q: seq<Packet>, count: nat)
    requires RingHolds(r, m, head, q) && q != [] && count <= |q[0].body|
    ensures |q[0].body| < 0x1_0000
    ensures Fetched(m, r, Addr(256 * head + 4), (count + 1) / 2)[..count] == q[0].body[..count]
  {
    hide Fetched, Addr, Image, RingHolds;
    FetchedFront(m, r, head, q, 4, 0, 0);
    var n, body := (count + 1) / 2, q[0].body;
    var f := Fetched(m, r, Addr(256 * head + 4), n);
    forall i | 0 <= i < count ensures f[i] == body[i] {
      FetchedFront(m, r, head, q, 4, n, i);
      assert Image(q[0], head)[4 + i] == Image(q[0], head)[4..][i];
    }
  }

  /** The next-packet page meets CURR exactly when nothing is queued. */
  lemma EmptyExactly(r: Regs, m: sram, head: nat, q: seq<Packet>)
    requires RingHolds(r, m, head, q)
    ensures PageOf(head) == r.curr <==> q == []
    ensures PageOf(head) == if r.bnry + 1 >= RX_PAGE_STOP then RX_PAGE_START else r.bnry + 1
  {
    PageNext(head);
    PageNext(head + 57);
    PageSame(head, PagesOf(q));
  }

  /** The DMA registers and the command bits are not part of the ring. */
  lemma RegsKeep(r: Regs, r': Regs, m: sram, head: nat, q: seq<Packet>)
    requires RingHolds(r, m, head, q)
    requires r'.Page() == 0 && r'.Receiving() && r'.dcr == r.dcr && r'.rcr == r.rcr
    requires r'.pstart == r.pstart && r'.pstop == r.pstop && r'.bnry == r.bnry && r'.curr == r.curr
    ensures RingHolds(r', m, head, q)
  {
  }

  /** Moving BNRY just below the next packet drops the first packet of the chain. */
  lemma PopHolds(r: Regs, m: sram, head: nat, q: seq<Packet>, r': Regs)
    requires RingHolds(r, m, head, q) && q != []
    requires r'.Page() == 0 && r'.Receiving() && r'.dcr == r.dcr && r'.rcr == r.rcr
    requires r'.pstart == r.pstart && r'.pstop == r.pstop && r'.curr == r.curr
    requires r'.bnry == PageOf(head + q[0].pages + 57)
    ensures RingHolds(r', m, head + q[0].pages, q[1..])
  {
  }

  // ---- the NIC's own receive step, from its registers alone ----

  /** Pages the NIC may fill before it would reach BNRY. */
  function FreePages(r: Regs): int
  {
    (r.bnry - r.curr) % RING_PAGES
  }

  function AfterReceive(r: Regs, p: Packet): Regs
    requires r.curr >= RX_PAGE_START && WellFormed(p)
  {
    r.(curr := PageOf(r.curr - RX_PAGE_START + p.pages), prx := r.prx || p.status % 2 == 1,
       rxe := r.rxe || p.status % 2 == 0)
  }

  function MemAfterReceive(r: Regs, m: sram, p: Packet): sram
    requires r.curr >= RX_PAGE_START && WellFormed(p)
  {
    var v := r.curr - RX_PAGE_START;
    WriteRing(m, 256 * v, Image(p, v))
  }

  lemma FreePagesExactly(r: Regs, m: sram, head: nat, q: seq<Packet>)
    requires RingHolds(r, m, head, q)
    ensures FreePages(r) == 57 - PagesOf(q)
  {
    hide ChainAt, PagesOf;
    var n := PagesOf(q);
    var a, b := head + 57, head + n;
    QuotientUnique(a % RING_PAGES - b % RING_PAGES, RING_PAGES, b / RING_PAGES - a / RING_PAGES, 57 - n);
  }

  /** A frame that fits becomes the last of the queue. */
  lemma ReceiveHolds(r: Regs, m: sram, head: nat, q: seq<Packet>, p: Packet)
    requires RingHolds(r, m, head, q) && WellFormed(p) && PagesOf(q) + p.pages < RING_PAGES
    ensures r.curr >= RX_PAGE_START
    ensures RingHolds(AfterReceive(r, p), MemAfterReceive(r, m, p), head, q + [p])
  {
    hide ChainAt, WriteRing, PagesOf;
    var w := head + PagesOf(q);
    ChainExtend(m, head, q, p);
    PagesAppend(q, p);
    PageTurns(w, p.pages);
    WriteRingTurns(m, 256 * (w % RING_PAGES), 256 * w, Image(p, w));
    assert Image(p, w % RING_PAGES) == Image(p, w);
  }

  /** Frames for the station `me`: to its address or to all. */
  predicate For(me: address, p: Packet)
  {
    |p.body| >= 6 && (p.body[..6] == me || p.body[..6] == [255, 255, 255, 255, 255, 255])
  }

  /** The plain queue: a frame for `me` is appended, or dropped when the pages in use leave no room. */
  function Enqueue(me: address, q: seq<Packet>, p: Packet): seq<Packet>
  {
    if For(me, p) && PagesOf(q) + p.pages < RING_PAGES then q + [p] else q
  }

  /** A frame is queued exactly when it is for this station and the ring's 58 pages keep one free. */
  lemma EnqueueExactly(me: address, q: seq<Packet>, p: Packet)
    ensures For(me, p) <==>
            && |p.body| >= 6
            && ((forall i :: 0 <= i < 6 ==> p.body[i] == me[i]) || (forall i :: 0 <= i < 6 ==> p.body[i] == 0xFF))
    ensures Enqueue(me, q, p) == if For(me, p) && PagesOf(q) + p.pages <= 57 then q + [p] else q
  {
    hide PagesOf;
    var all: seq<byte> := [255, 255, 255, 255, 255, 255];
    if |p.body| >= 6 {
      assert p.body[..6] == me <==> forall i :: 0 <= i < 6 ==> p.body[i] == me[i];
      assert p.body[..6] == all <==> forall i :: 0 <= i < 6 ==> p.body[i] == 0xFF;
    }
  }

  function EnqueueAll(me: address, q: seq<Packet>, ps: seq<Packet>): seq<Packet>
  {
    if ps == [] then q else Enqueue(me, EnqueueAll(me, q, ps[..|ps| - 1]), ps[|ps| - 1])
  }

  /** Arrivals never disturb what is queued already. */
  lemma {:induction false} EnqueuePrefix(me: address, q: seq<Packet>, ps: seq<Packet>)
    ensures |q| <= |EnqueueAll(me, q, ps)| && EnqueueAll(me, q, ps)[..|q|] == q
    ensures q != [] ==> EnqueueAll(me, q, ps)[0] == q[0]
  {
    if ps != [] {
      hide PagesOf;
      EnqueuePrefix(me, q, ps[..|ps| - 1]);
    }
  }

  predicate AllWellFormed(ps: seq<Packet>) { forall i :: 0 <= i < |ps| ==> WellFormed(ps[i]) }

  /**
   * The NIC does not wait for the driver: frames that arrive during a poll, after CURR has been read,
   * after the header has been fetched, and after the body has been fetched.
   */
  datatype During = During(look: seq<Packet>, header: seq<Packet>, body: seq<Packet>)
  {
    predicate WellFormed() { AllWellFormed(look) && AllWellFormed(header) && AllWellFormed(body) }

    /** The queue just before the poll moves BNRY. */
    function Before(me: address, q: seq<Packet>): seq<Packet>
    {
      EnqueueAll(me, EnqueueAll(me, EnqueueAll(me, q, look), header), body)
    }
  }

  lemma ReceiveKeeps(r: Regs, m: sram, head: nat, q: seq<Packet>, p: Packet)
    requires RingHolds(r, m, head, q) && WellFormed(p) && PagesOf(q) + p.pages < RING_PAGES
    ensures r.curr >= RX_PAGE_START
    ensures Kept(m, MemAfterReceive(r, m, p), head, PagesOf(q))
  {
    hide ChainAt, WriteRing, PagesOf, Addr;
    var w := head + PagesOf(q);
    PageTurns(w, p.pages);
    WriteRingTurns(m, 256 * (w % RING_PAGES), 256 * w, Image(p, w));
    assert Image(p, w % RING_PAGES) == Image(p, w);
    forall a | 256 * head <= a < 256 * w ensures MemAfterReceive(r, m, p)[Addr(a)] == m[Addr(a)] {
      ChainKeeps(m, head, q, p, a);
    }
  }

  lemma {:induction false} EnqueuePages(me: address, q: seq<Packet>, ps: seq<Packet>)
    ensures PagesOf(q) <= PagesOf(EnqueueAll(me, q, ps))
  {
    if ps != [] {
      hide PagesOf;
      var n := |ps| - 1;
      EnqueuePages(me, q, ps[..n]);
      PagesAppend(EnqueueAll(me, q, ps[..n]), ps[n]);
    }
  }

  // ---- what the driver's register writes amount to ----

  lemma AckWrite(r: Regs)
    requires r.Page() == 0
    ensures WriteReg(r, NE_ISR, 0x40) == r.(rdc := false)
  {
  }

  lemma CountWrite(r: Regs, count: nat)
    requires r.Page() == 0 && count < 0x1_0000
    ensures WriteReg(WriteReg(r, NE_RBCR0, count % 256), NE_RBCR1, count / 256 % 256) == r.(rbcr := count)
  {
  }

  lemma AddressWrite(r: Regs, addr: nat)
    requires r.Page() == 0 && addr < 0x1_0000
    ensures WriteReg(WriteReg(r, NE_RSAR0, addr % 256), NE_RSAR1, addr / 256 % 256) == r.(rsar := addr)
  {
  }

  lemma CommandWrite(r: Regs, v: byte)
    ensures WriteReg(r, NE_CR, v) == r.(cr := v, stops := r.stops + v % 2)
  {
  }

  class Driver {
    const nic: Nic
    var initialized: bool
    ghost var head: nat
    ghost var queue: seq<Packet>

    ghost predicate Valid()
      reads this, nic
    {
      initialized ==> RingHolds(nic.regs, nic.mem, head, queue)
    }

    constructor (n: Nic)
      ensures nic == n && !initialized && Valid()
    {
      nic := n;
      initialized := false;
    }

    /** A frame arrives: the NIC stores it, or drops it when it would run into BNRY. */
    method Receive(p: Packet) returns (accepted: bool)
      requires Valid() && initialized && WellFormed(p)
      modifies nic, this`queue
      ensures Valid() && accepted == (For(old(nic.regs.par), p) && PagesOf(old(queue)) + p.pages < RING_PAGES)
      ensures queue == Enqueue(nic.regs.par, old(queue), p)
      ensures nic.regs == old(nic.regs).(curr := nic.regs.curr, prx := nic.regs.prx, rxe := nic.regs.rxe)
      ensures Kept(old(nic.mem), nic.mem, head, PagesOf(old(queue)))
    {
      hide ChainAt, PageOf, MemAfterReceive, Kept;
      KeptSame(nic.mem, head, PagesOf(queue));
      FreePagesExactly(nic.regs, nic.mem, head, queue);
      accepted := nic.regs.Hears(p.body) && p.pages <= FreePages(nic.regs);
      if accepted {
        ReceiveHolds(nic.regs, nic.mem, head, queue, p);
        ReceiveKeeps(nic.regs, nic.mem, head, queue, p);
        nic.mem, nic.regs := MemAfterReceive(nic.regs, nic.mem, p), AfterReceive(nic.regs, p);
        queue := queue + [p];
      }
    }

    method ReceiveAll(ps: seq<Packet>)
      requires Valid() && initialized && AllWellFormed(ps)
      modifies nic, this`queue
      ensures Valid() && queue == EnqueueAll(nic.regs.par, old(queue), ps)
      ensures nic.regs == old(nic.regs).(curr := nic.regs.curr, prx := nic.regs.prx, rxe := nic.regs.rxe)
      ensures Kept(old(nic.mem), nic.mem, head, PagesOf(old(queue)))
    {
      hide RingHolds, Enqueue, PagesOf, WellFormed, Kept;
      KeptSame(nic.mem, head, PagesOf(queue));
      var i := 0;
      while i < |ps|
        invariant 0 <= i <= |ps|
        invariant Valid() && queue == EnqueueAll(nic.regs.par, old(queue), ps[..i])
        invariant nic.regs == old(nic.regs).(curr := nic.regs.curr, prx := nic.regs.prx, rxe := nic.regs.rxe)
        invariant Kept(old(nic.mem), nic.mem, head, PagesOf(old(queue)))
      {
        assert ps[..i + 1][..i] == ps[..i];
        ghost var m, pages := nic.mem, PagesOf(queue);
        EnqueuePages(nic.regs.par, old(queue), ps[..i]);
        var _ := Receive(ps[i]);
        KeptStep(old(nic.mem), m, nic.mem, head, PagesOf(old(queue)), pages);
        i := i + 1;
      }
      assert ps[..i] == ps;
    }

    /**
     * `ne2k_init_direct`: reset, probe, ring registers, MAC from the PROM, start. `isr` are the readings of
     * ISR after the reset, and `answers` says whether there is a NIC; without one every port reads 0xFF.
     */
    method InitDirect(mac: array<byte>, isr: nat -> byte, answers: bool) returns (rc: int)
      requires mac.Length == 6
      modifies this, nic`regs, mac
      ensures rc == (if answers && FirstReset(isr, 0) != RESET_SPIN - 1 then 0 else -1)
      ensures rc == 0 ==> initialized && Valid() && queue == []
      ensures rc == 0 ==> nic.regs.par == mac[..] && forall i :: 0 <= i < 6 ==> mac[i] == nic.mem[2 * i]
      ensures rc == 0 ==> nic.regs.WordWide() && nic.regs.imr == 0 && nic.regs.tcr == 0 && nic.regs.rcr == 0x04
      ensures rc == -1 ==> initialized == old(initialized) && nic.regs == old(nic.regs) && mac[..] == old(mac[..])
    {
      hide FirstReset, ChainAt;
      rc := AwaitReset(isr);
      if rc != 0 {
        return;
      }
      var readback: byte := 0xFF;
      if answers {
        nic.Outb(NE_CR, 0x21);
        readback := nic.Inb(NE_CR);
      }
      if readback != 0x21 {
        return -1;
      }
      SetupRing();
      ReadMac(mac);
      StartReceiver();
      initialized := true;
      head, queue := 1, [];
      NoChain(nic.mem, head);
    }

    /**
     * The wait for RST. The count is decremented in the loop test, so it wraps below zero when RST never shows.
     * The answer is right exactly when RST shows before the last reading: a NIC that never resets passes, and
     * one that resets at the last reading is refused.
     */
    method AwaitReset(isr: nat -> byte) returns (rc: int)
      ensures rc == if FirstReset(isr, 0) == RESET_SPIN - 1 then -1 else 0
      ensures (rc == 0 <==> FirstReset(isr, 0) < RESET_SPIN) <==> FirstReset(isr, 0) < RESET_SPIN - 1
    {
      hide FirstReset, Bit7;
      var spin: word := RESET_SPIN;
      var k := 0;
      while true
        invariant 0 <= k <= RESET_SPIN && spin == RESET_SPIN - k
        invariant FirstReset(isr, 0) == FirstReset(isr, k)
        decreases spin
      {
        FirstResetStep(isr, k);
        var before := spin;
        spin := (spin - 1) % WORD_BASE;
        if before == 0 || Bit7(isr(k)) {
          break;
        }
        k := k + 1;
      }
      rc := if spin == 0 then -1 else 0;
    }

    method DmaRead(addr: nat, dst: array<byte>, count: nat)
      requires nic.regs.Page() == 0 && nic.regs.WordWide()
      requires addr < 0x1_0000 && 0 < count < 0x1_0000
      requires count + count % 2 <= dst.Length
      modifies nic`regs, dst
      ensures nic.regs == old(nic.regs).(cr := 0x0A, rsar := nic.regs.rsar, rbcr := 0, rdc := false)
      ensures dst[..2 * ((count + 1) / 2)] == Fetched(nic.mem, old(nic.regs), addr, (count + 1) / 2)
      ensures dst[2 * ((count + 1) / 2)..] == old(dst[2 * ((count + 1) / 2)..])
    {
      hide Fetched, WriteReg;
      StartRead(addr, count);
      FetchedFrame(nic.mem, old(nic.regs), nic.regs, addr, (count + 1) / 2);
      nic.Insw(dst, (count + 1) / 2);
      AwaitRdc();
    }

    /** Programs the remote DMA read. */
    method StartRead(addr: nat, count: nat)
      requires nic.regs.Page() == 0
      requires addr < 0x1_0000 && count < 0x1_0000
      modifies nic`regs
      ensures nic.regs == old(nic.regs).(cr := 0x0A, rsar := addr, rbcr := count, rdc := false)
    {
      hide WriteReg;
      ghost var r := nic.regs;
      AckWrite(r);
      CountWrite(r.(rdc := false), count);
      AddressWrite(r.(rbcr := count, rdc := false), addr);
      CommandWrite(r.(rsar := addr, rbcr := count, rdc := false), 0x0A);
      nic.Outb(NE_ISR, 0x40);
      nic.Outb(NE_RBCR0, count % 256);
      nic.Outb(NE_RBCR1, count / 256 % 256);
      nic.Outb(NE_RSAR0, addr % 256);
      nic.Outb(NE_RSAR1, addr / 256 % 256);
      nic.Outb(NE_CR, 0x0A);
    }

    /** The bounded wait for RDC, and its acknowledgement. */
    method AwaitRdc()
      requires nic.regs.Page() == 0
      modifies nic`regs
      ensures nic.regs == old(nic.regs).(rdc := false)
    {
      var spin := 100000;
      var isr := nic.Inb(NE_ISR);
      while spin > 0 && !Bit6(isr)
        modifies {}
      {
        spin := spin - 1;
        isr := nic.Inb(NE_ISR);
      }
      nic.Outb(NE_ISR, 0x40);
    }

    method SetupRing()
      requires nic.regs.Page() == 0
      modifies nic`regs
      ensures nic.regs == old(nic.regs).(dcr := 0x49, rcr := 0x20, tcr := 0x02, tpsr := 0x40, pstart := 0x46,
                                         pstop := 0x80, bnry := 0x46, imr := 0, rdc := false, prx := false,
                                         rxe := false, ovw := false, rbcr := 0)
    {
      nic.Outb(NE_DCR, 0x49);
      nic.Outb(NE_RBCR0, 0);
      nic.Outb(NE_RBCR1, 0);
      nic.Outb(NE_RCR, 0x20);
      nic.Outb(NE_TCR, 0x02);
      nic.Outb(NE_TPSR, 0x40);
      nic.Outb(NE_PSTART, RX_PAGE_START);
      nic.Outb(NE_PSTOP, RX_PAGE_STOP);
      nic.Outb(NE_BNRY, RX_PAGE_START);
      nic.Outb(NE_ISR, 0xFF);
      nic.Outb(NE_IMR, 0x00);
    }

    method ReadMac(mac: array<byte>)
      requires mac.Length == 6 && nic.regs.Page() == 0 && nic.regs.pstop == 0x80 && nic.regs.WordWide()
      modifies nic`regs, mac
      ensures nic.regs == old(nic.regs).(cr := 0x61, par := mac[..], rsar := nic.regs.rsar, rbcr := 0, rdc := false,
                                         stops := old(nic.regs.stops) + 1)
      ensures forall i :: 0 <= i < 6 ==> mac[i] == nic.mem[2 * i]
    {
      var prom := new byte[32];
      FetchedLow(nic.mem, nic.regs, 16);
      ghost var r := nic.regs;
      DmaRead(0x0000, prom, 32);
      ghost var image := prom[..32];
      ghost var r1 := nic.regs;
      var i := 0;
      while i < 6
        invariant 0 <= i <= 6 && nic.regs == r1 && prom[..32] == image
        invariant forall k :: 0 <= k < i ==> mac[k] == nic.mem[2 * k]
      {
        assert prom[2 * i] == image[2 * i];
        mac[i] := prom[i * 2];
        i := i + 1;
      }
      nic.Outb(NE_CR, 0x61);
      SetAddress(mac);
    }

    method SetAddress(mac: array<byte>)
      requires mac.Length == 6 && nic.regs.Page() == 1
      modifies nic`regs
      ensures nic.regs == old(nic.regs).(par := mac[..])
    {
      ghost var r := nic.regs;
      var i := 0;
      while i < 6
        invariant 0 <= i <= 6 && nic.regs == r.(par := nic.regs.par)
        invariant forall k :: 0 <= k < i ==> nic.regs.par[k] == mac[k]
      {
        nic.Outb(NE_PAR0 + i, mac[i]);
        i := i + 1;
      }
    }

    method StartReceiver()
      requires nic.regs.Page() == 1
      modifies nic`regs
      ensures nic.regs == old(nic.regs).(cr := 0x22, tcr := 0, rcr := 0x04, curr := 0x47,
                                         mar := [0, 0, 0, 0, 0, 0, 0, 0])
    {
      nic.Outb(NE_CURR, RX_PAGE_START + 1);
      ghost var r := nic.regs;
      var i := 0;
      while i < 8
        invariant 0 <= i <= 8 && nic.regs == r.(mar := nic.regs.mar)
        invariant forall k :: 0 <= k < i ==> nic.regs.mar[k] == 0
      {
        nic.Outb(NE_MAR0 + i, 0);
        i := i + 1;
      }
      nic.Outb(NE_CR, 0x22);
      nic.Outb(NE_TCR, 0x00);
      nic.Outb(NE_RCR, 0x04);
    }

    /** CURR lives in register page 1; afterwards page 0 is selected again and the NIC is started. */
    method ReadCurr() returns (curr: byte)
      requires nic.regs.Page() == 0
      modifies nic`regs
      ensures curr == nic.regs.curr
      ensures nic.regs == old(nic.regs).(cr := WithStart(old(nic.regs.cr)),
                                         stops := old(nic.regs.stops) + old(nic.regs.cr) % 2)
    {
      var saved := nic.Inb(NE_CR);
      nic.Outb(NE_CR, 0x62);
      curr := nic.Inb(NE_CURR);
      nic.Outb(NE_CR, WithStart(saved));
    }

    /**
     * A poll takes the packet that was first when it looked, whatever arrives meanwhile; a poll
     * that finds the ring empty leaves what arrives after its look for the next one.
     */
    method PollRx(out: array<byte>, maxlen: nat, during: During) returns (n: nat)
      requires Valid() && during.WellFormed()
      requires initialized && queue != [] ==> CopiedLength(queue[0], maxlen) <= out.Length
      modifies this`head, this`queue, nic, out
      ensures nic.regs.par == old(nic.regs.par) && nic.regs.stops == old(nic.regs.stops)
      ensures Valid()
      ensures n == 0 <==> !initialized || Silent(old(queue), maxlen)
      ensures !initialized || old(queue) == [] ==> out[..] == old(out[..])
      ensures !initialized ==> queue == old(queue)
      ensures initialized && old(queue) == [] ==> queue == EnqueueAll(nic.regs.par, [], during.look)
      ensures initialized && old(queue) != [] ==>
                && |during.Before(nic.regs.par, old(queue))| > 0
                && queue == during.Before(nic.regs.par, old(queue))[1..]
                && n == |Delivered(old(queue[0]), maxlen)| && n + n % 2 <= out.Length
                && out[..n + n % 2] == Copied(old(queue[0]), maxlen, old(Slack(nic.mem, head, queue[0])))
                && out[n + n % 2..] == old(out[n + n % 2..])
    {
      if !initialized {
        return 0;
      }
      hide RingHolds, PageOf, PagesOf, EnqueueAll, AllWellFormed, Delivered, Copied, Kept, Slack;
      EnqueuePrefix(nic.regs.par, queue, during.look);
      ZeroReply(queue, maxlen);
      ghost var m, q := nic.mem, queue;
      var curr := LookCurr();
      ReceiveAll(during.look);
      CopiedKept(nic.regs, m, nic.mem, head, q, queue, maxlen);
      var nextPacketPage := NextPage();
      if nextPacketPage == curr {
        return 0;
      }
      n := TakePacket(nextPacketPage, out, maxlen, during.header, during.body);
    }

    /** The page above BNRY, wrapping, is the first page of the queue. */
    method NextPage() returns (page: nat)
      requires RingHolds(nic.regs, nic.mem, head, queue)
      ensures page == PageOf(head)
    {
      hide ChainAt, PageOf, PagesOf;
      EmptyExactly(nic.regs, nic.mem, head, queue);
      var bnry := nic.Inb(NE_BNRY);
      page := bnry + 1;
      if page >= RX_PAGE_STOP {
        page := RX_PAGE_START;
      }
    }

    /** CURR, and what comparing it with the page above BNRY will tell. */
    method LookCurr() returns (curr: byte)
      requires RingHolds(nic.regs, nic.mem, head, queue)
      modifies nic`regs
      ensures nic.regs.par == old(nic.regs.par) && nic.regs.stops == old(nic.regs.stops)
      ensures RingHolds(nic.regs, nic.mem, head, queue) && nic.regs.Page() == 0
      ensures PageOf(head) == curr <==> queue == []
    {
      hide ChainAt, PageOf, PagesOf;
      ghost var r := nic.regs;
      curr := ReadCurr();
      RegsKeep(r, nic.regs, nic.mem, head, queue);
      EmptyExactly(nic.regs, nic.mem, head, queue);
    }

    /** The rest of `ne2k_poll_rx` once a packet is known to be there. */
    method TakePacket(page: nat, out: array<byte>, maxlen: nat, afterHeader: seq<Packet>, afterBody: seq<Packet>)
      returns (copyLength: nat)
      requires Valid() && initialized && queue != [] && page == PageOf(head)
      requires AllWellFormed(afterHeader) && AllWellFormed(afterBody)
      requires CopiedLength(queue[0], maxlen) <= out.Length
      modifies this`head, this`queue, nic, out
      ensures nic.regs.par == old(nic.regs.par) && nic.regs.stops == old(nic.regs.stops)
      ensures Valid()
      ensures var me := nic.regs.par; var q := EnqueueAll(me, EnqueueAll(me, old(queue), afterHeader), afterBody);
              |q| > 0 && queue == q[1..]
      ensures copyLength == |Delivered(old(queue[0]), maxlen)| && copyLength + copyLength % 2 <= out.Length
      ensures out[..copyLength + copyLength % 2] == Copied(old(queue[0]), maxlen, old(Slack(nic.mem, head, queue[0])))
      ensures out[copyLength + copyLength % 2..] == old(out[copyLength + copyLength % 2..])
    {
      hide RingHolds, PageOf, EnqueueAll, AllWellFormed, Kept, Slack, Copied, Delivered;
      ghost var m, q := nic.mem, queue;
      EnqueuePrefix(nic.regs.par, queue, afterHeader);
      EnqueuePrefix(nic.regs.par, EnqueueAll(nic.regs.par, queue, afterHeader), afterBody);
      var status, nextPage, packetLength := ReadHeader(page);
      ReceiveAll(afterHeader);
      CopiedKept(nic.regs, m, nic.mem, head, q, queue, maxlen);
      copyLength := CopyBody(page, out, maxlen, status, packetLength);
      ReceiveAll(afterBody);
      Advance(nextPage);
    }

    /** The copy: good packets only, and no more than `maxlen` bytes, rounded up to a word. */
    method CopyBody(page: nat, out: array<byte>, maxlen: nat, status: byte, packetLength: nat)
      returns (copyLength: nat)
      requires RingHolds(nic.regs, nic.mem, head, queue) && queue != [] && page == PageOf(head)
      requires status == queue[0].status && packetLength == |queue[0].body| + 4
      requires CopiedLength(queue[0], maxlen) <= out.Length
      modifies nic`regs, out
      ensures nic.regs.par == old(nic.regs.par) && nic.regs.stops == old(nic.regs.stops)
      ensures RingHolds(nic.regs, nic.mem, head, queue)
      ensures copyLength == |Delivered(queue[0], maxlen)| && copyLength + copyLength % 2 <= out.Length
      ensures out[..copyLength + copyLength % 2] == Copied(queue[0], maxlen, Slack(nic.mem, head, queue[0]))
      ensures out[copyLength + copyLength % 2..] == old(out[copyLength + copyLength % 2..])
    {
      hide RingHolds, PageOf, Slack;
      copyLength := if packetLength > 4 then packetLength - 4 else 0;
      if copyLength > maxlen {
        copyLength := maxlen;
      }
      if copyLength > 0 && status % 2 == 1 {
        ReadBody(page, out, copyLength);
      } else {
        copyLength := 0;
      }
    }

    /** Moves BNRY to just below the next packet, wrapping, and clears PRX, OVW and RXE. */
    method Advance(nextPage: byte)
      requires RingHolds(nic.regs, nic.mem, head, queue) && queue != []
      requires nextPage == PageOf(head + queue[0].pages)
      modifies this`head, this`queue, nic`regs
      ensures !nic.regs.prx && !nic.regs.rxe && !nic.regs.ovw
      ensures nic.regs.par == old(nic.regs.par) && nic.regs.stops == old(nic.regs.stops)
      ensures RingHolds(nic.regs, nic.mem, head, queue) && queue == old(queue)[1..]
    {
      hide ChainAt, PageOf, PagesOf;
      PageNext(head + queue[0].pages);
      ghost var r := nic.regs;
      if nextPage == RX_PAGE_START {
        nic.Outb(NE_BNRY, RX_PAGE_STOP - 1);
      } else {
        nic.Outb(NE_BNRY, nextPage - 1);
      }
      nic.Outb(NE_ISR, 0x15);
      PopHolds(r, nic.mem, head, queue, nic.regs);
      head := head + queue[0].pages;
      queue := queue[1..];
    }

    /** The four header bytes of the packet at the front of the ring. */
    method ReadHeader(page: nat) returns (status: byte, nextPage: byte, packetLength: nat)
      requires RingHolds(nic.regs, nic.mem, head, queue) && queue != [] && page == PageOf(head)
      modifies nic`regs
      ensures nic.regs.par == old(nic.regs.par) && nic.regs.stops == old(nic.regs.stops)
      ensures RingHolds(nic.regs, nic.mem, head, queue)
      ensures status == queue[0].status && nextPage == PageOf(head + queue[0].pages)
      ensures packetLength == |queue[0].body| + 4
    {
      hide Fetched, Addr, PageOf, PagesOf, ChainAt;
      var hdr := new byte[4];
      ghost var r := nic.regs;
      PageAddr(head, 0);
      FetchedHeader(nic.mem, r, head, queue);
      DmaRead(page * 256, hdr, 4);
      RegsKeep(r, nic.regs, nic.mem, head, queue);
      assert hdr[..4] == Image(queue[0], head)[..4];
      assert hdr[..4][0] == hdr[0] && hdr[..4][1] == hdr[1] && hdr[..4][2] == hdr[2] && hdr[..4][3] == hdr[3];
      status, nextPage := hdr[0], hdr[1];
      packetLength := hdr[2] as int + 256 * hdr[3] as int;
    }

    /** The first `count` bytes of the body of the packet at the front of the ring. */
    method ReadBody(page: nat, out: array<byte>, count: nat)
      requires RingHolds(nic.regs, nic.mem, head, queue) && queue != [] && page == PageOf(head)
      requires 0 < count <= |queue[0].body| && count + count % 2 <= out.Length
      modifies nic`regs, out
      ensures nic.regs.par == old(nic.regs.par) && nic.regs.stops == old(nic.regs.stops)
      ensures RingHolds(nic.regs, nic.mem, head, queue)
      ensures out[..count] == queue[0].body[..count]
      ensures count % 2 == 1 ==>
                out[count] == if count < |queue[0].body| then queue[0].body[count] else Slack(nic.mem, head, queue[0])
      ensures out[count + count % 2..] == old(out[count + count % 2..])
    {
      hide Fetched, Addr, PageOf, PagesOf, ChainAt;
      ghost var r := nic.regs;
      PageAddr(head, 4);
      FetchedBody(nic.mem, r, head, queue, count);
      if count % 2 == 1 {
        FetchedOdd(nic.mem, r, head, queue, count);
      }
      DmaRead(page * 256 + 4, out, count);
      RegsKeep(r, nic.regs, nic.mem, head, queue);
      assert out[..count] == out[..2 * ((count + 1) / 2)][..count];
    }
  }

  /** Arrivals do not change what a poll will store for the first packet. */
  lemma CopiedKept(r: Regs, m: sram, m': sram, head: nat, q: seq<Packet>, q': seq<Packet>, maxlen: nat)
    requires RingHolds(r, m', head, q') && Kept(m, m', head, PagesOf(q))
    requires q != [] ==> q' != [] && q'[0] == q[0]
    ensures q != [] ==> Copied(q[0], maxlen, Slack(m', head, q[0])) == Copied(q[0], maxlen, Slack(m, head, q[0]))
  {
    hide PagesOf, PageOf, Addr, Image;
    if q != [] && |q[0].body| % 2 == 1 {
      SlackKept(m, m', head, q);
    }
  }

  /** `saved_cr | 0x02` */
  function WithStart(cr: byte): (r: byte)
    ensures (r / 2) % 2 == 1 && r % 2 == cr % 2 && r / 64 == cr / 64
  {
    if (cr / 2) % 2 == 1 then cr else cr + 2
  }

  lemma {:induction false} FetchedFrame(m: sram, r: Regs, r': Regs, start: nat, n: nat)
    requires r.pstart == r'.pstart && r.pstop == r'.pstop
    ensures WordAddr(r, start, n) == WordAddr(r', start, n)
    ensures Fetched(m, r, start, n) == Fetched(m, r', start, n)
  {
    if n > 0 {
      FetchedFrame(m, r, r', start, n - 1);
    }
  }

  // ---- every run ----

  datatype Event = Arrive(p: Packet) | Poll(maxlen: nat, during: During)

  /** The plain FIFO a run is compared with: `accepted` and `log` record its whole history. */
  datatype Fifo = Fifo(queue: seq<Packet>, accepted: seq<Packet>, log: seq<Receipt<Packet>>)

  /** The packets a step admits to the queue, in order. */
  function Admitted(q: seq<Packet>, q': seq<Packet>): seq<Packet> { if |q| <= |q'| then q'[|q|..] else [] }

  function StepFifo(me: address, f: Fifo, e: Event): Fifo
  {
    match e
    case Arrive(p) =>
      var q := Enqueue(me, f.queue, p);
      f.(queue := q, accepted := f.accepted + Admitted(f.queue, q))
    case Poll(maxlen, during) =>
      if f.queue == [] then
        var q := EnqueueAll(me, [], during.look);
        f.(queue := q, accepted := f.accepted + q, log := f.log + [Nothing])
      else
        var q := during.Before(me, f.queue);
        f.(queue := Rest(q), accepted := f.accepted + Admitted(f.queue, q),
           log := f.log + [Got(f.queue[0], maxlen)])
  }

  function Rest(q: seq<Packet>): seq<Packet> { if q == [] then [] else q[1..] }

  function RunFifo(me: address, events: seq<Event>): Fifo
  {
    if events == [] then Fifo([], [], []) else StepFifo(me, RunFifo(me, events[..|events| - 1]), events[|events| - 1])
  }

  /** Nothing is lost, repeated or reordered: what was taken, then what is queued, is what was accepted. */
  lemma {:induction false} FifoConserves(me: address, events: seq<Event>)
    ensures var f := RunFifo(me, events); Items(f.log) + f.queue == f.accepted
  {
    if events != [] {
      hide EnqueueAll, PagesOf, Delivered;
      FifoConserves(me, events[..|events| - 1]);
      StepConserves(me, RunFifo(me, events[..|events| - 1]), events[|events| - 1]);
    }
  }

  lemma StepConserves(me: address, f: Fifo, e: Event)
    requires Items(f.log) + f.queue == f.accepted
    ensures var g := StepFifo(me, f, e); Items(g.log) + g.queue == g.accepted
  {
    hide EnqueueAll, PagesOf, Delivered, Items;
    var taken := Items(f.log);
    match e {
      case Arrive(p) =>
        Extends(taken, f.queue, Enqueue(me, f.queue, p));
      case Poll(maxlen, during) =>
        LogSnoc(f.log, if f.queue == [] then Nothing else Got(f.queue[0], maxlen), Delivered);
        if f.queue != [] {
          BeforePrefix(me, f.queue, during);
          TakeFirst(taken, f.queue, during.Before(me, f.queue));
        }
    }
  }

  lemma BeforePrefix(me: address, q: seq<Packet>, during: During)
    ensures var q' := during.Before(me, q); |q| <= |q'| && q'[..|q|] == q
  {
    hide EnqueueAll;
    var q0 := EnqueueAll(me, q, during.look);
    var q1 := EnqueueAll(me, q0, during.header);
    EnqueuePrefix(me, q, during.look);
    EnqueuePrefix(me, q0, during.header);
    EnqueuePrefix(me, q1, during.body);
    var q' := EnqueueAll(me, q1, during.body);
    assert q'[..|q1|][..|q0|][..|q|] == q'[..|q|];
  }

  lemma TakeFirst(taken: seq<Packet>, q: seq<Packet>, q': seq<Packet>)
    requires q != [] && |q| <= |q'| && q'[..|q|] == q
    ensures taken + [q[0]] + Rest(q') == taken + q + Admitted(q, q')
  {
    Extends(taken, q, q');
    assert q' == [q[0]] + q'[1..];
  }

  lemma Extends(taken: seq<Packet>, q: seq<Packet>, q': seq<Packet>)
    requires |q| <= |q'| && q'[..|q|] == q
    ensures taken + q' == taken + q + Admitted(q, q')
  {
  }

  /** On the results: the poll that took the `k`-th packet returned the `k`-th accepted packet, as cut for its room. */
  lemma DeliveredPackets(me: address, events: seq<Event>, k: nat)
    requires k < |Items(RunFifo(me, events).log)|
    ensures var f := RunFifo(me, events); var at := Place(f.log, k);
            k < |f.accepted| && Replies(f.log, Delivered)[at] == Delivered(f.accepted[k], f.log[at].maxlen)
  {
    hide Items, Delivered;
    FifoConserves(me, events);
    RepliedItem(RunFifo(me, events).log, Delivered, k);
  }

  /** A poll on the driver is the poll step of the FIFO, and returns what the FIFO logs. */
  method DoPoll(d: Driver, me: address, maxlen: nat, during: During, ghost f: Fifo) returns (reply: frame)
    requires d.Valid() && d.initialized && d.nic.regs.par == me && d.queue == f.queue && during.WellFormed()
    modifies d, d.nic
    ensures d.Valid() && d.initialized && d.nic.regs.par == me
    ensures var g := StepFifo(me, f, Poll(maxlen, during));
            d.queue == g.queue && Replies(g.log, Delivered) == Replies(f.log, Delivered) + [reply]
  {
    hide RingHolds, Delivered, PagesOf, EnqueueAll, Replies, Copied, Slack;
    var out := new byte[maxlen + maxlen % 2];
    LogSnoc(f.log, if f.queue == [] then Nothing else Got(f.queue[0], maxlen), Delivered);
    if f.queue != [] {
      CapExactly(f.queue[0], maxlen);
      CopiedFront(f.queue[0], maxlen, Slack(d.nic.mem, d.head, f.queue[0]));
    }
    var n := d.PollRx(out, maxlen, during);
    if f.queue != [] {
      assert out[..n] == out[..n + n % 2][..n];
    }
    reply := out[..n];
  }

  method DoArrive(d: Driver, me: address, p: Packet, ghost f: Fifo)
    requires d.Valid() && d.initialized && d.nic.regs.par == me && d.queue == f.queue && WellFormed(p)
    modifies d, d.nic
    ensures d.Valid() && d.initialized && d.nic.regs.par == me
    ensures var g := StepFifo(me, f, Arrive(p)); d.queue == g.queue && g.log == f.log
  {
    hide RingHolds, Delivered, PagesOf, Enqueue;
    var accepted := d.Receive(p);
  }

  lemma RunNext(me: address, events: seq<Event>, i: nat)
    requires i < |events|
    ensures RunFifo(me, events[..i + 1]) == StepFifo(me, RunFifo(me, events[..i]), events[i]) && events[i] in events
  {
    hide StepFifo;
    assert events[..i + 1][..i] == events[..i];
  }

  /** Any interleaving of arrivals and polls on the driver and the NIC behaves as the FIFO. */
  method Run(d: Driver, me: address, events: seq<Event>) returns (results: seq<seq<byte>>)
    requires d.Valid() && d.initialized && d.nic.regs.par == me && d.queue == []
    requires forall e :: e in events ==> if e.Arrive? then WellFormed(e.p) else e.during.WellFormed()
    modifies d, d.nic
    ensures d.Valid() && d.initialized && d.nic.regs.par == me
    ensures d.queue == RunFifo(me, events).queue && results == Replies(RunFifo(me, events).log, Delivered)
  {
    hide RingHolds, Delivered, Replies, StepFifo, WellFormed;
    results := [];
    NoPolls();
    var i := 0;
    while i < |events|
      invariant 0 <= i <= |events|
      invariant d.Valid() && d.initialized && d.nic.regs.par == me
      invariant d.queue == RunFifo(me, events[..i]).queue && results == Replies(RunFifo(me, events[..i]).log, Delivered)
    {
      ghost var f := RunFifo(me, events[..i]);
      RunNext(me, events, i);
      match events[i] {
        case Arrive(p) =>
          DoArrive(d, me, p, f);
        case Poll(maxlen, during) =>
          var reply := DoPoll(d, me, maxlen, during, f);
          results := results + [reply];
      }
      i := i + 1;
    }
    assert events[..i] == events;
  }

  lemma NoChain(m: sram, v: nat)
    ensures ChainAt(m, v, [])
  {
  }

  lemma NoPolls()
    ensures Replies<Packet>([], Delivered) == []
  {
  }
}
