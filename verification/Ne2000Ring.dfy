/** The NE2000 receive ring as a FIFO of packets laid out in NIC memory. */
module Ne2000Ring {
  import opened Machine

  const RX_PAGE_START: int := 0x46
  const RX_PAGE_STOP: int := 0x80
  const RING_PAGES: int := 58
  const RING_BYTES: int := 14848
  const SRAM_BYTES: int := 0x8000

  /** What the NIC stores for a frame: receive status, bytes, and the number of 256-byte pages it reserves. */
  datatype Packet = Packet(status: byte, body: seq<byte>, pages: nat)

  predicate WellFormed(p: Packet)
  {
    p.pages >= 1 && |p.body| + 4 <= 256 * p.pages && p.pages < RING_PAGES
  }

  type sram = m: seq<byte> | |m| == SRAM_BYTES witness seq(SRAM_BYTES, _ => 0)

  /** Pages are numbered without end; page `v` is stored in ring page `PageOf(v)`. */
  function PageOf(v: nat): (p: int)
    ensures RX_PAGE_START <= p < RX_PAGE_STOP
  {
    RX_PAGE_START + v % RING_PAGES
  }

  /** NIC address of byte `a` of the endless page numbering. */
  function Addr(a: nat): (r: int)
    ensures RX_PAGE_START * 256 <= r < RX_PAGE_STOP * 256
  {
    RX_PAGE_START * 256 + a % RING_BYTES
  }

  lemma PageAddr(v: nat, k: nat)
    requires k < 256
    ensures Addr(256 * v + k) == PageOf(v) * 256 + k
  {
  }

  /** Within one turn of the ring, different bytes have different addresses. */
  lemma AddrDistinct(a: nat, b: nat)
    requires a < b < a + RING_BYTES
    ensures Addr(a) != Addr(b)
  {
  }

  lemma AddrNext(a: nat)
    requires a % 2 == 0
    ensures Addr(a) % 2 == 0 && Addr(a + 1) == Addr(a) + 1
    ensures Addr(a + 2) == if Addr(a) + 2 == RX_PAGE_STOP * 256 then RX_PAGE_START * 256 else Addr(a) + 2
  {
  }

  lemma PageNext(v: nat)
    ensures PageOf(v + 1) == if PageOf(v) + 1 >= RX_PAGE_STOP then RX_PAGE_START else PageOf(v) + 1
    ensures PageOf(v + 57 + 1) == PageOf(v)
    ensures PageOf(v + 57) == if PageOf(v) == RX_PAGE_START then RX_PAGE_STOP - 1 else PageOf(v) - 1
  {
  }

  lemma PageSame(v: nat, n: nat)
    requires n < RING_PAGES
    ensures PageOf(v) == PageOf(v + n) <==> n == 0
  {
  }

  // ---- packets in memory ----

  function Image(p: Packet, v: nat): (s: seq<byte>)
    requires WellFormed(p)
    ensures |s| == 4 + |p.body| && s[4..] == p.body
  {
    [p.status, PageOf(v + p.pages), (|p.body| + 4) % 256, (|p.body| + 4) / 256] + p.body
  }

  /** The NIC's header before a frame: status, next page, and the length with the header, low byte first. */
  lemma ImageExactly(p: Packet, v: nat)
    requires WellFormed(p)
    ensures var s := Image(p, v);
            && |s| == |p.body| + 4 && s[0] == p.status && s[1] == PageOf(v + p.pages)
            && s[2] as int + 256 * s[3] as int == |p.body| + 4 && s[4..] == p.body
  {
    hide PageOf;
  }

  lemma Geometry()
    ensures RX_PAGE_START == 0x46 && RX_PAGE_STOP == 0x80 && RING_PAGES == 58 && RING_BYTES == 14848
    ensures RING_PAGES == RX_PAGE_STOP - RX_PAGE_START && RING_BYTES == 256 * RING_PAGES && SRAM_BYTES == 0x8000
  {
  }

  ghost predicate Stored(m: sram, a: nat, bytes: seq<byte>)
  {
    forall b :: a <= b < a + |bytes| ==> m[Addr(b)] == bytes[b - a]
  }

  ghost predicate ChainAt(m: sram, v: nat, q: seq<Packet>)
    decreases |q|
  {
    q == [] || (WellFormed(q[0]) && Stored(m, 256 * v, Image(q[0], v)) && ChainAt(m, v + q[0].pages, q[1..]))
  }

  function PagesOf(q: seq<Packet>): nat
  {
    if q == [] then 0 else q[0].pages + PagesOf(q[1..])
  }

  lemma FirstPages(q: seq<Packet>)
    requires q != []
    ensures q[0].pages <= PagesOf(q)
  {
  }

  lemma {:induction false} PagesAppend(q: seq<Packet>, p: Packet)
    ensures PagesOf(q + [p]) == PagesOf(q) + p.pages
  {
    if q == [] {
      assert q + [p] == [p];
    } else {
      assert (q + [p])[1..] == q[1..] + [p];
      PagesAppend(q[1..], p);
    }
  }

  /** The local DMA of the NIC: bytes go to consecutive ring addresses. */
  function WriteRing(m: sram, a: nat, bytes: seq<byte>): (r: sram)
    decreases |bytes|
  {
    if bytes == [] then m else WriteRing(m[Addr(a) := bytes[0]], a + 1, bytes[1..])
  }

  lemma {:induction false} WriteRingKeeps(m: sram, a: nat, bytes: seq<byte>, x: int)
    requires 0 <= x < SRAM_BYTES
    requires forall b :: a <= b < a + |bytes| ==> Addr(b) != x
    ensures WriteRing(m, a, bytes)[x] == m[x]
    decreases |bytes|
  {
    if bytes != [] {
      WriteRingKeeps(m[Addr(a) := bytes[0]], a + 1, bytes[1..], x);
    }
  }

  lemma {:induction false} WriteRingStores(m: sram, a: nat, bytes: seq<byte>)
    requires |bytes| <= RING_BYTES
    ensures Stored(WriteRing(m, a, bytes), a, bytes)
    decreases |bytes|
  {
    if bytes != [] {
      var m', rest := m[Addr(a) := bytes[0]], bytes[1..];
      WriteRingStores(m', a + 1, rest);
      forall b | a + 1 <= b < a + 1 + |rest| ensures Addr(b) != Addr(a) {
        AddrDistinct(a, b);
      }
      WriteRingKeeps(m', a + 1, rest, Addr(a));
    }
  }

  /** A chain only depends on the pages it occupies. */
  lemma {:induction false} ChainFrame(m: sram, m': sram, v: nat, q: seq<Packet>)
    requires ChainAt(m, v, q)
    requires forall a :: 256 * v <= a < 256 * (v + PagesOf(q)) ==> m'[Addr(a)] == m[Addr(a)]
    ensures ChainAt(m', v, q)
    decreases |q|
  {
    if q != [] {
      var w := v + q[0].pages;
      assert |Image(q[0], v)| <= 256 * q[0].pages;
      ChainFrame(m, m', w, q[1..]);
    }
  }

  /** Bytes of the chain's pages, used or not, survive a write into free pages behind it. */
  lemma ChainKeeps(m: sram, v: nat, q: seq<Packet>, p: Packet, a: nat)
    requires WellFormed(p) && PagesOf(q) + p.pages < RING_PAGES
    requires 256 * v <= a < 256 * (v + PagesOf(q))
    ensures WriteRing(m, 256 * (v + PagesOf(q)), Image(p, v + PagesOf(q)))[Addr(a)] == m[Addr(a)]
  {
    var w := v + PagesOf(q);
    forall b | 256 * w <= b < 256 * w + |Image(p, w)| ensures Addr(b) != Addr(a) {
      AddrDistinct(a, b);
    }
    WriteRingKeeps(m, 256 * w, Image(p, w), Addr(a));
  }

  /** Storing a packet in free pages behind the chain extends the chain by that packet. */
  lemma ChainExtend(m: sram, v: nat, q: seq<Packet>, p: Packet)
    requires ChainAt(m, v, q) && WellFormed(p)
    requires PagesOf(q) + p.pages < RING_PAGES
    ensures ChainAt(WriteRing(m, 256 * (v + PagesOf(q)), Image(p, v + PagesOf(q))), v, q + [p])
  {
    var w := v + PagesOf(q);
    var m' := WriteRing(m, 256 * w, Image(p, w));
    WriteRingStores(m, 256 * w, Image(p, w));
    forall a | 256 * v <= a < 256 * w ensures m'[Addr(a)] == m[Addr(a)] {
      ChainKeeps(m, v, q, p, a);
    }
    ChainFrame(m, m', v, q);
    ChainSnoc(m', v, q, p);
  }

  lemma {:induction false} ChainSnoc(m: sram, v: nat, q: seq<Packet>, p: Packet)
    requires ChainAt(m, v, q) && WellFormed(p)
    requires Stored(m, 256 * (v + PagesOf(q)), Image(p, v + PagesOf(q)))
    ensures ChainAt(m, v, q + [p])
    decreases |q|
  {
    hide Addr, PageOf, Image;
    if q == [] {
      assert (q + [p])[1..] == [];
      assert ChainAt(m, v + p.pages, []);
    } else {
      assert (q + [p])[1..] == q[1..] + [p];
      ChainSnoc(m, v + q[0].pages, q[1..], p);
    }
  }

  /** Only the position within the ring matters. */
  lemma {:induction false} WriteRingTurns(m: sram, a: nat, b: nat, bytes: seq<byte>)
    requires Addr(a) == Addr(b)
    ensures WriteRing(m, a, bytes) == WriteRing(m, b, bytes)
    decreases |bytes|
  {
    if bytes != [] {
      assert Addr(a + 1) == Addr(b + 1);
      WriteRingTurns(m[Addr(a) := bytes[0]], a + 1, b + 1, bytes[1..]);
    }
  }

  lemma PageTurns(v: nat, n: nat)
    ensures PageOf(v % RING_PAGES + n) == PageOf(v + n)
    ensures Addr(256 * (v % RING_PAGES)) == Addr(256 * v)
  {
    PageAddr(v, 0);
    PageAddr(v % RING_PAGES, 0);
  }
}
