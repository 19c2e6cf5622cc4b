/**
 * src/freedos_micro_python/port/dosint21_uc386dos.c and file_uc386dos.c: file reads, writes and seeks
 * in pieces through a 2 KB bounce buffer, against a plain file.
 */
module DosFile {
  import opened Machine
  import opened Frames

  const PATH_MAX: int := 1024
  const DATA_OFFSET: int := 1024
  const DATA_MAX: int := 1024

  /** No file is larger. */
  const LAST_POS: int := 0xFFFF_FFFF

  /** `n` bytes of the file from `p` on. */
  function Piece(c: seq<byte>, p: nat, n: nat): seq<byte>
  {
    if p + n <= |c| then c[p..p + n] else []
  }

  lemma Halves(s: seq<byte>, at: nat, n: nat)
    requires at + n <= |s|
    ensures s[..at + n] == s[..at] + s[at..at + n]
  {
  }

  lemma PieceNone(c: seq<byte>, p: nat)
    ensures Piece(c, p, 0) == []
  {
  }

  lemma PieceConcat(c: seq<byte>, p: nat, m: nat, n: nat)
    requires p + m + n <= |c| || n == 0
    ensures Piece(c, p, m + n) == Piece(c, p, m) + Piece(c, p + m, n)
  {
  }

  /** The file with room up to `p`: past the end, DOS fills the gap with whatever the disk held. */
  function Reach(gap: nat -> byte, c: seq<byte>, p: nat): (r: seq<byte>)
    ensures |r| == if p <= |c| then |c| else p
    ensures forall i :: 0 <= i < |r| ==> r[i] == if i < |c| then c[i] else gap(i)
  {
    if p <= |c| then c else c + seq(p - |c|, i requires 0 <= i => gap(|c| + i))
  }

  function Splice(c: seq<byte>, p: nat, d: seq<byte>): (r: seq<byte>)
    requires p <= |c|
    ensures |r| == (if p + |d| > |c| then p + |d| else |c|) && r[p..p + |d|] == d
    ensures forall i :: 0 <= i < p || p + |d| <= i < |c| ==> r[i] == c[i]
  {
    c[..p] + d + (if p + |d| < |c| then c[p + |d|..] else [])
  }

  /** What a write leaves; a write of no bytes leaves everything. */
  function Overwrite(gap: nat -> byte, c: seq<byte>, p: nat, d: seq<byte>): (r: seq<byte>)
    ensures d == [] ==> r == c
    ensures d != [] ==> |r| == (if p + |d| > |c| then p + |d| else |c|) && r[p..p + |d|] == d
    ensures d != [] ==> forall i :: 0 <= i < |r| && !(p <= i < p + |d|) ==> r[i] == if i < |c| then c[i] else gap(i)
  {
    if d == [] then c else Splice(Reach(gap, c, p), p, d)
  }

  lemma SpliceTwice(c: seq<byte>, p: nat, a: seq<byte>, b: seq<byte>)
    requires p <= |c|
    ensures Splice(Splice(c, p, a), p + |a|, b) == Splice(c, p, a + b)
  {
  }

  /** Two writes in a row are one. */
  lemma OverwriteTwice(gap: nat -> byte, c: seq<byte>, p: nat, a: seq<byte>, b: seq<byte>)
    ensures Overwrite(gap, Overwrite(gap, c, p, a), p + |a|, b) == Overwrite(gap, c, p, a + b)
  {
    hide Splice;
    if a == [] {
      assert a + b == b;
    } else if b == [] {
      assert a + b == a;
    } else {
      SpliceTwice(Reach(gap, c, p), p, a, b);
    }
  }

  /** How DOS takes a call: it fails, or it moves at most `n` bytes. */
  datatype Mood = Fails | Moves(n: nat)

  function CountFails(plan: nat -> Mood, calls: nat): nat
  {
    if calls == 0 then 0 else CountFails(plan, calls - 1) + (if plan(calls - 1).Fails? then 1 else 0)
  }

  function CountStalls(plan: nat -> Mood, calls: nat): nat
  {
    if calls == 0 then 0 else CountStalls(plan, calls - 1) + (if plan(calls - 1) == Moves(0) then 1 else 0)
  }

  lemma CountStep(plan: nat -> Mood, calls: nat)
    ensures CountFails(plan, calls + 1) == CountFails(plan, calls) + (if plan(calls).Fails? then 1 else 0)
    ensures CountStalls(plan, calls + 1) == CountStalls(plan, calls) + (if plan(calls) == Moves(0) then 1 else 0)
  {
  }

  /** Every call succeeds and moves something. */
  ghost predicate Reliable(plan: nat -> Mood) { forall k :: plan(k).Moves? && plan(k).n > 0 }

  lemma ReliableExactly(plan: nat -> Mood)
    ensures Reliable(plan) <==> forall k :: plan(k) != Fails && plan(k) != Moves(0)
  {
  }

  /** The bounce buffer: path and data in halves of their own. */
  lemma BounceHalves()
    ensures PATH_MAX == 1024 && DATA_OFFSET == 1024 && DATA_MAX == 1024 && BOUNCE_SIZE == 2048
    ensures PATH_MAX <= DATA_OFFSET && DATA_OFFSET + DATA_MAX == BOUNCE_SIZE && LAST_POS == WORD_BASE - 1
  {
  }

  lemma {:induction false} ReliableCounts(plan: nat -> Mood, calls: nat)
    requires Reliable(plan)
    ensures CountFails(plan, calls) == 0 && CountStalls(plan, calls) == 0
  {
    if calls > 0 {
      ReliableCounts(plan, calls - 1);
    }
  }

  /**
   * DOS with one open file: the INT 21h functions the driver uses, on the register values it sets.
   * Call number `k` goes as `plan(k)` says.
   */
  class Dos {
    var contents: seq<byte>
    var pos: word
    const gap: nat -> byte
    const bounce: array<byte>
    const plan: nat -> Mood
    var calls: nat

    /** Calls that failed so far, and those that would move nothing. */
    ghost function Failures(): nat
      reads this
    {
      CountFails(plan, calls)
    }

    ghost function Stalls(): nat
      reads this
    {
      CountStalls(plan, calls)
    }

    ghost predicate Valid()
      reads this
    {
      bounce.Length == BOUNCE_SIZE && |contents| < WORD_BASE
    }

    constructor (c: seq<byte>, g: nat -> byte, m: nat -> Mood)
      requires |c| < WORD_BASE
      ensures Valid() && contents == c && pos == 0 && gap == g && plan == m && calls == 0 && fresh(bounce)
    {
      contents, pos, gap := c, 0, g;
      plan, calls := m, 0;
      bounce := new byte[BOUNCE_SIZE];
    }

    /** Bytes between the position and the end of the file. */
    function Remaining(): (n: nat)
      reads this
      ensures pos <= |contents| ==> pos + n == |contents|
      ensures pos >= |contents| ==> n == 0
    {
      if pos < |contents| then |contents| - pos else 0
    }

    /** AH=3Fh: between 1 and CX bytes, none only at the end of the file. */
    method Read(cx: nat, dx: nat) returns (cf: bool, ax: nat)
      requires Valid() && 0 < cx && dx + cx <= BOUNCE_SIZE
      modifies this`pos, this`calls, bounce
      ensures calls == old(calls) + 1 && cf == plan(old(calls)).Fails?
      ensures cf ==> pos == old(pos) && bounce[..] == old(bounce[..])
      ensures !cf ==> ax <= cx && ax <= old(Remaining()) && (ax == 0 <==> old(Remaining()) == 0)
      ensures !cf ==> bounce[dx..dx + ax] == Piece(contents, old(pos), ax)
      ensures !cf ==> pos == old(pos) + ax
      ensures !cf ==> bounce[..dx] == old(bounce[..dx]) && bounce[dx + ax..] == old(bounce[dx + ax..])
    {
      var mood := plan(calls);
      calls := calls + 1;
      cf := mood.Fails?;
      if cf {
        ax := 5;
        return;
      }
      var most := if cx < Remaining() then cx else Remaining();
      ax := 0;
      if most > 0 {
        ax := if mood.n == 0 then 1 else if mood.n < most then mood.n else most;
        Memcpy(bounce, dx, contents[pos..pos + ax]);
      }
      pos := pos + ax;
    }

    /** AH=40h: at most CX bytes; fewer, or none, when the disk is full or the file as large as can be. */
    method Write(cx: nat, dx: nat) returns (cf: bool, ax: nat)
      requires Valid() && 0 < cx && dx + cx <= BOUNCE_SIZE
      modifies this`contents, this`pos, this`calls
      ensures Valid()
      ensures calls == old(calls) + 1 && cf == plan(old(calls)).Fails?
      ensures cf ==> pos == old(pos) && contents == old(contents)
      ensures !cf ==> ax <= cx && pos == old(pos) + ax
      ensures !cf ==> (ax == 0 <==> plan(old(calls)).n == 0 || old(pos) == LAST_POS)
      ensures !cf ==> contents == Overwrite(gap, old(contents), old(pos), bounce[dx..dx + ax])
    {
      hide Overwrite;
      var mood := plan(calls);
      calls := calls + 1;
      cf := mood.Fails?;
      if cf {
        ax := 5;
        return;
      }
      var room := LAST_POS - pos;
      var most := if cx < room then cx else room;
      ax := if mood.n < most then mood.n else most;
      contents := Overwrite(gap, contents, pos, bounce[dx..dx + ax]);
      pos := pos + ax;
    }

    /** Where a displacement starts from: the start, the position `at` or the end. */
    function Base(whence: int, at: nat): nat
      reads this
    {
      if whence == 0 then 0 else if whence == 1 then at else |contents|
    }

    /** AH=42h: a signed 32-bit displacement in CX:DX from the start, the position or the end; the result in DX:AX. */
    method Seek(whence: int, cx: nat, dx: nat) returns (cf: bool, hi: nat, lo: nat)
      requires cx < 0x1_0000 && dx < 0x1_0000 && 0 <= whence <= 2
      modifies this`pos, this`calls
      ensures calls == old(calls) + 1 && cf == plan(old(calls)).Fails?
      ensures cf ==> pos == old(pos)
      ensures !cf ==>
                && pos == (Base(whence, old(pos)) + ToLong(cx * 0x1_0000 + dx)) % WORD_BASE
                && hi == pos / 0x1_0000 && lo == pos % 0x1_0000
    {
      hi, lo := 0, 0;
      cf := plan(calls).Fails?;
      calls := calls + 1;
      if cf {
        return;
      }
      pos := (Base(whence, pos) + ToLong(cx * 0x1_0000 + dx)) % WORD_BASE;
      hi, lo := pos / 0x1_0000, pos % 0x1_0000;
    }
  }

  // ---- dosint21_uc386dos.c ----

  /** `dos_int21_open` up to the call: the path goes into the lower half of the bounce buffer, with its NUL. */
  method StagePath(dos: Dos, path: seq<byte>) returns (ok: bool)
    requires dos.Valid()
    modifies dos.bounce
    ensures ok == (|path| < PATH_MAX)
    ensures ok ==> dos.bounce[..|path| + 1] == path + [0]
    ensures dos.bounce[DATA_OFFSET..] == old(dos.bounce[DATA_OFFSET..])
  {
    if |path| >= PATH_MAX {
      return false;
    }
    Memcpy(dos.bounce, 0, path + [0]);
    assert dos.bounce[DATA_OFFSET..] == dos.bounce[|path| + 1..][DATA_OFFSET - (|path| + 1)..];
    assert old(dos.bounce[DATA_OFFSET..]) == old(dos.bounce[|path| + 1..])[DATA_OFFSET - (|path| + 1)..];
    ok := true;
  }

  /** `dos_int21_read` into `buf` at `at`; -1 for a failed call. */
  method DosRead(dos: Dos, buf: array<byte>, at: nat, count: nat) returns (n: int)
    requires dos.Valid() && at + count <= buf.Length && buf != dos.bounce
    modifies dos`pos, dos`calls, dos.bounce, buf
    ensures -1 <= n <= count && dos.Failures() >= old(dos.Failures())
    ensures n == -1 <==> dos.Failures() > old(dos.Failures())
    ensures n == -1 ==> dos.pos == old(dos.pos) && buf[..] == old(buf[..])
    ensures n >= 0 ==> n <= DATA_MAX && n <= old(dos.Remaining()) && dos.pos == old(dos.pos) + n
    ensures n >= 0 && count > 0 ==> (n == 0 <==> old(dos.Remaining()) == 0)
    ensures n >= 0 ==> buf[..at + n] == old(buf[..at]) + Piece(dos.contents, old(dos.pos), n)
    ensures n >= 0 ==> buf[at + n..] == old(buf[at + n..])
    ensures dos.bounce[..DATA_OFFSET] == old(dos.bounce[..DATA_OFFSET])
  {
    hide Piece, CountFails, CountStalls;
    if count == 0 {
      PieceNone(dos.contents, dos.pos);
      return 0;
    }
    CountStep(dos.plan, dos.calls);
    var want := if count > DATA_MAX then DATA_MAX else count;
    var cf, ax := dos.Read(want, DATA_OFFSET);
    if cf {
      return -1;
    }
    n := ax;
    if n > want {
      n := want;
    }
    if n > 0 {
      Memcpy(buf, at, dos.bounce[DATA_OFFSET..DATA_OFFSET + n]);
    } else {
      PieceNone(dos.contents, old(dos.pos));
    }
    Halves(buf[..], at, n);
    assert buf[..][..at + n] == buf[..at + n] && buf[..][at..at + n] == buf[at..at + n] && buf[..][..at] == buf[..at];
  }

  /** `dos_int21_write` of `data`; -1 for a failed call. */
  method DosWrite(dos: Dos, data: seq<byte>) returns (n: int)
    requires dos.Valid()
    modifies dos`contents, dos`pos, dos`calls, dos.bounce
    ensures dos.Valid()
    ensures -1 <= n <= |data| && dos.Failures() >= old(dos.Failures())
    ensures n == -1 <==> dos.Failures() > old(dos.Failures())
    ensures n == -1 ==> dos.pos == old(dos.pos) && dos.contents == old(dos.contents)
    ensures n >= 0 ==>
              && dos.pos == old(dos.pos) + n
              && dos.contents == Overwrite(dos.gap, old(dos.contents), old(dos.pos), data[..n])
    ensures dos.Stalls() >= old(dos.Stalls())
    ensures n >= 0 && |data| > 0 ==> (n == 0 <==> dos.Stalls() > old(dos.Stalls()) || old(dos.pos) == LAST_POS)
    ensures dos.bounce[..DATA_OFFSET] == old(dos.bounce[..DATA_OFFSET])
  {
    hide Overwrite, CountFails, CountStalls;
    if |data| == 0 {
      return 0;
    }
    CountStep(dos.plan, dos.calls);
    var count := if |data| > DATA_MAX then DATA_MAX else |data|;
    Memcpy(dos.bounce, DATA_OFFSET, data[..count]);
    var cf, ax := dos.Write(count, DATA_OFFSET);
    if cf {
      return -1;
    }
    n := ax;
    assert dos.bounce[DATA_OFFSET..DATA_OFFSET + n] == dos.bounce[DATA_OFFSET..DATA_OFFSET + count][..n];
    assert data[..count][..n] == data[..n];
  }

  /** `dos_int21_lseek`. */
  method DosSeek(dos: Dos, offset: int, whence: int) returns (r: int)
    requires -0x8000_0000 <= offset < 0x8000_0000 && 0 <= whence <= 2
    modifies dos`pos, dos`calls
    ensures dos.calls == old(dos.calls) + 1
    ensures dos.plan(old(dos.calls)).Fails? ==> r == -1 && dos.pos == old(dos.pos)
    ensures !dos.plan(old(dos.calls)).Fails? ==>
              && r == ToLong(dos.pos)
              && (whence == 0 ==> dos.pos == offset % WORD_BASE)
              && (whence == 1 ==> dos.pos == (old(dos.pos) + offset) % WORD_BASE)
              && (whence == 2 ==> dos.pos == (|dos.contents| + offset) % WORD_BASE)
  {
    var u := offset % WORD_BASE;
    SplitOffset(offset);
    var cf, hi, lo := dos.Seek(whence, u / 0x1_0000, u % 0x1_0000);
    if cf {
      return -1;
    }
    r := ToLong(hi * 0x1_0000 + lo);
  }

  lemma SplitOffset(offset: int)
    requires -0x8000_0000 <= offset < 0x8000_0000
    ensures var u := offset % WORD_BASE;
            u / 0x1_0000 < 0x1_0000 && ToLong(u / 0x1_0000 * 0x1_0000 + u % 0x1_0000) == offset
  {
  }

  /** What `dos_int21_fsize` leaves: its answer, the position, and how many seeks it made. */
  datatype Sized = Sized(answer: int, pos: nat, seeks: nat)

  /** Which of the three seeks, to here, to the end and back, would fail. */
  datatype Seeks = Seeks(here: bool, end: bool, back: bool)

  function SizeOutcome(fails: Seeks, pos: nat, size: nat): Sized
  {
    if fails.here || pos >= 0x8000_0000 then Sized(-1, pos, 1)
    else if fails.end then Sized(-1, pos, 2)
    else if size >= 0x8000_0000 then Sized(-1, size, 2)
    else Sized(size, if fails.back then size else pos, 3)
  }

  /**
   * The size is given exactly when the first two seeks work and position and size are below 2 GB. The position
   * is lost exactly when the seek to the end works but the way back is barred, by a size of 2 GB or a failed
   * seek, and the position was not at the end.
   */
  lemma SizeExactly(fails: Seeks, pos: nat, size: nat)
    ensures SizeOutcome(fails, pos, size).answer == size <==>
            !fails.here && !fails.end && pos < 0x8000_0000 && size < 0x8000_0000
    ensures SizeOutcome(fails, pos, size).pos != pos <==>
            !fails.here && !fails.end && pos < 0x8000_0000 && (size >= 0x8000_0000 || fails.back) && pos != size
    ensures SizeOutcome(fails, pos, size).seeks == 1 <==> fails.here || pos >= 0x8000_0000
    ensures SizeOutcome(fails, pos, size).seeks == 3 <==>
            !fails.here && !fails.end && pos < 0x8000_0000 && size < 0x8000_0000
    ensures 1 <= SizeOutcome(fails, pos, size).seeks <= 3
    ensures SizeOutcome(fails, pos, size).answer in {-1, size as int}
    ensures SizeOutcome(fails, pos, size).pos in {pos, size}
  {
  }

  /** At the start of a file of 2 GB: no size, and the position is lost. */
  lemma SizeTooLarge()
    ensures SizeOutcome(Seeks(false, false, false), 0, 0x8000_0000) == Sized(-1, 0x8000_0000, 2)
  {
  }

  /** At the start of any smaller file that is not empty, a failed seek back: the size, and the position is lost. */
  lemma SizeNotRestored(size: nat)
    requires 0 < size < 0x8000_0000
    ensures SizeOutcome(Seeks(false, false, true), 0, size) == Sized(size, size, 3)
  {
  }

  /** How the next three calls would go. */
  function NextSeeks(plan: nat -> Mood, calls: nat): Seeks
  {
    Seeks(plan(calls).Fails?, plan(calls + 1).Fails?, plan(calls + 2).Fails?)
  }

  /** `dos_int21_fsize`, for every plan. */
  method DosSize(dos: Dos) returns (r: int)
    requires dos.Valid()
    modifies dos`pos, dos`calls
    ensures dos.calls > old(dos.calls)
    ensures Sized(r, dos.pos, dos.calls - old(dos.calls))
         == SizeOutcome(NextSeeks(dos.plan, old(dos.calls)), old(dos.pos), |dos.contents|)
  {
    hide ToLong, CountFails;
    Sign(dos.pos);
    Sign(|dos.contents|);
    var cur := DosSeek(dos, 0, 1);
    Small(dos.pos);
    if cur < 0 {
      return -1;
    }
    var end := DosSeek(dos, 0, 2);
    Small(|dos.contents|);
    if end < 0 {
      return -1;
    }
    var back := DosSeek(dos, cur, 0);
    Small(cur);
    r := end;
  }

  lemma Small(x: int)
    requires 0 <= x < WORD_BASE
    ensures (x + 0) % WORD_BASE == x && (0 + x) % WORD_BASE == x
  {
  }

  lemma Sign(x: word)
    ensures ToLong(x) == if x < 0x8000_0000 then x else x - WORD_BASE
  {
  }

  // ---- file_uc386dos.c ----

  lemma Unfailing(plan: nat -> Mood, calls: nat)
    ensures Reliable(plan) ==> CountFails(plan, calls) == 0 && CountStalls(plan, calls) == 0
  {
    if Reliable(plan) {
      ReliableCounts(plan, calls);
    }
  }

  datatype Result = Done(n: nat) | Ebadf | Eio

  /** The loop of `uc386dos_file_read`. */
  method ReadLoop(dos: Dos, buf: array<byte>, size: nat) returns (ok: bool, total: nat)
    requires dos.Valid() && size <= buf.Length && buf != dos.bounce
    modifies dos`pos, dos`calls, dos.bounce, buf
    ensures dos.Failures() >= old(dos.Failures()) && (ok <==> dos.Failures() == old(dos.Failures()))
    ensures total <= size && total <= old(dos.Remaining())
    ensures ok ==> total == size || total == old(dos.Remaining())
    ensures dos.pos == old(dos.pos) + total
    ensures buf[..total] == Piece(dos.contents, old(dos.pos), total) && buf[total..] == old(buf[total..])
    ensures dos.bounce[..DATA_OFFSET] == old(dos.bounce[..DATA_OFFSET])
  {
    hide Piece;
    PieceNone(dos.contents, dos.pos);
    ghost var p0 := dos.pos;
    total := 0;
    while total < size
      invariant 0 <= total <= size && total <= old(dos.Remaining())
      invariant dos.pos == p0 + total && dos.Failures() == old(dos.Failures())
      invariant buf[..total] == Piece(dos.contents, p0, total)
      invariant buf[total..] == old(buf[total..])
      invariant dos.bounce[..DATA_OFFSET] == old(dos.bounce[..DATA_OFFSET])
      decreases size - total
    {
      ghost var rest := buf[total..];
      var n := DosRead(dos, buf, total, size - total);
      if n < 0 {
        return false, total;
      }
      if n == 0 {
        break;
      }
      PieceConcat(dos.contents, p0, total, n);
      assert buf[total + n..] == rest[n..];
      total := total + n;
    }
    ok := true;
  }

  /**
   * `uc386dos_file_read`: the rest of the file up to `size` bytes, or an error. Also after an error the
   * position has moved past exactly the bytes that were read.
   */
  method FileRead(fd: int, dos: Dos, buf: array<byte>, size: nat) returns (r: Result, ghost got: nat)
    requires dos.Valid() && size <= buf.Length && buf != dos.bounce
    modifies dos`pos, dos`calls, dos.bounce, buf
    ensures r == Ebadf <==> fd < 0
    ensures fd < 0 ==> got == 0 && dos.calls == old(dos.calls)
    ensures fd >= 0 ==> (r == Eio <==> dos.Failures() > old(dos.Failures()))
    ensures r.Done? ==> r.n == got == (if size < old(dos.Remaining()) then size else old(dos.Remaining()))
    ensures got <= size && got <= old(dos.Remaining()) && dos.pos == old(dos.pos) + got
    ensures buf[..got] == Piece(dos.contents, old(dos.pos), got) && buf[got..] == old(buf[got..])
    ensures fd >= 0 && Reliable(dos.plan) ==> r.Done?
    ensures dos.bounce[..DATA_OFFSET] == old(dos.bounce[..DATA_OFFSET])
  {
    hide Piece, Reliable;
    if fd < 0 {
      PieceNone(dos.contents, dos.pos);
      return Ebadf, 0;
    }
    Unfailing(dos.plan, dos.calls);
    var ok, total := ReadLoop(dos, buf, size);
    Unfailing(dos.plan, dos.calls);
    r, got := if ok then Done(total) else Eio, total;
  }

  /** The loop of `uc386dos_file_write`. */
  method WriteLoop(dos: Dos, data: seq<byte>) returns (ok: bool, total: nat)
    requires dos.Valid()
    modifies dos`contents, dos`pos, dos`calls, dos.bounce
    ensures dos.Valid() && total <= |data| && dos.Failures() >= old(dos.Failures())
    ensures ok <==> dos.Failures() == old(dos.Failures())
    ensures dos.Stalls() >= old(dos.Stalls())
    ensures ok && total < |data| ==> dos.Stalls() > old(dos.Stalls()) || dos.pos == LAST_POS
    ensures dos.Stalls() > old(dos.Stalls()) ==> total < |data|
    ensures dos.contents == Overwrite(dos.gap, old(dos.contents), old(dos.pos), data[..total])
    ensures dos.pos == old(dos.pos) + total
    ensures dos.bounce[..DATA_OFFSET] == old(dos.bounce[..DATA_OFFSET])
  {
    hide Overwrite;
    ghost var c0, p0 := dos.contents, dos.pos;
    total := 0;
    while total < |data|
      invariant 0 <= total <= |data|
      invariant dos.Valid() && dos.pos == p0 + total && dos.Failures() == old(dos.Failures())
      invariant dos.Stalls() == old(dos.Stalls())
      invariant dos.contents == Overwrite(dos.gap, c0, p0, data[..total])
      invariant dos.bounce[..DATA_OFFSET] == old(dos.bounce[..DATA_OFFSET])
      decreases |data| - total
    {
      var n := DosWrite(dos, data[total..]);
      if n < 0 {
        return false, total;
      }
      OverwriteTwice(dos.gap, c0, p0, data[..total], data[total..][..n]);
      assert data[..total] + data[total..][..n] == data[..total + n];
      if n == 0 {
        break;
      }
      total := total + n;
    }
    ok := true;
  }

  /**
   * `uc386dos_file_write`: stores exactly the prefix whose length it returns, and a prefix even when it fails. The
   * prefix is short only when a call wrote nothing; if every call writes something, all is stored.
   */
  method FileWrite(fd: int, dos: Dos, data: seq<byte>) returns (r: Result, ghost stored: nat)
    requires dos.Valid()
    modifies dos`contents, dos`pos, dos`calls, dos.bounce
    ensures dos.Valid() && stored <= |data|
    ensures r == Ebadf <==> fd < 0
    ensures r == Ebadf ==> stored == 0
    ensures fd >= 0 ==> (r == Eio <==> dos.Failures() > old(dos.Failures()))
    ensures r.Done? ==> r.n == stored
    ensures r.Done? && stored < |data| ==> dos.Stalls() > old(dos.Stalls()) || dos.pos == LAST_POS
    ensures dos.Stalls() > old(dos.Stalls()) ==> stored < |data|
    ensures fd >= 0 && Reliable(dos.plan) && old(dos.pos) + |data| <= LAST_POS ==> r == Done(|data|)
    ensures dos.contents == Overwrite(dos.gap, old(dos.contents), old(dos.pos), data[..stored])
    ensures dos.pos == old(dos.pos) + stored
    ensures dos.bounce[..DATA_OFFSET] == old(dos.bounce[..DATA_OFFSET])
  {
    if fd < 0 {
      return Ebadf, 0;
    }
    hide Overwrite, Reliable;
    Unfailing(dos.plan, dos.calls);
    var ok, total := WriteLoop(dos, data);
    Unfailing(dos.plan, dos.calls);
    r, stored := if ok then Done(total) else Eio, total;
  }

  /** Reading back what was written, from where it was written, gives it back. */
  lemma ReadBack(gap: nat -> byte, c: seq<byte>, p: nat, d: seq<byte>)
    requires d != []
    ensures Piece(Overwrite(gap, c, p, d), p, |d|) == d
  {
  }

  /**
   * The read loop of `mp_lexer_new_from_file` on a freshly opened file: a prefix of it, and all of it if no call
   * fails. If only the seek back fails, the source is taken to be empty.
   */
  method LoadSource(dos: Dos) returns (ok: bool, buf: array<byte>, got: nat)
    requires dos.Valid() && dos.pos == 0
    modifies dos`pos, dos`calls, dos.bounce
    ensures var fails := NextSeeks(dos.plan, old(dos.calls));
            && (ok <==> !fails.here && !fails.end && |dos.contents| < 0x8000_0000)
            && (ok && fails.back ==> got == 0)
    ensures fresh(buf) && got < buf.Length
    ensures ok ==> buf[..got] <= dos.contents && buf[got] == 0
    ensures ok && dos.Failures() == old(dos.Failures()) ==> buf[..got] == dos.contents
  {
    hide CountFails, CountStalls, Piece;
    buf, got := new byte[1], 0;
    CountThree(dos.plan, dos.calls);
    var size := DosSize(dos);
    ok := size >= 0;
    if !ok {
      return;
    }
    buf := new byte[size + 1];
    ghost var p0, f0 := dos.pos, dos.Failures();
    PieceNone(dos.contents, p0);
    while got < size
      invariant 0 <= got <= size && dos.pos == p0 + got && buf.Length == size + 1 && fresh(buf)
      invariant dos.Failures() == f0 && (p0 == 0 || got == 0)
      invariant buf[..got] == Piece(dos.contents, p0, got)
      decreases size - got
    {
      var n := DosRead(dos, buf, got, size - got);
      if n <= 0 {
        break;
      }
      PieceConcat(dos.contents, p0, got, n);
      got := got + n;
    }
    ghost var text := buf[..got];
    buf[got] := 0;
    assert buf[..got] == text;
    PiecePrefix(dos.contents, p0, got);
  }

  lemma PiecePrefix(c: seq<byte>, p: nat, n: nat)
    requires p + n <= |c| || n == 0
    ensures p == 0 || n == 0 ==> Piece(c, p, n) <= c
    ensures p == 0 && n == |c| ==> Piece(c, p, n) == c
  {
  }

  lemma CountThree(plan: nat -> Mood, calls: nat)
    ensures var f := NextSeeks(plan, calls);
            CountFails(plan, calls + 3) == CountFails(plan, calls)
              + (if f.here then 1 else 0) + (if f.end then 1 else 0) + (if f.back then 1 else 0)
  {
    hide CountFails, CountStalls;
    CountStep(plan, calls);
    CountStep(plan, calls + 1);
    CountStep(plan, calls + 2);
  }
}
