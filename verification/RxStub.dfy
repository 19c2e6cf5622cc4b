/**
 * src/freedos_micro_python/port/pktdrv_uc386dos.c: the hand-assembled real-mode receiver,
 * run byte by byte on a model of the 8086 instructions it uses.
 */
module RxStub {
  import opened Machine
  import opened Frames

  type word16 = x: int | 0 <= x < 0x1_0000

  /** The code segment; the stub's data words lie in it too. */
  type segment = m: seq<byte> | |m| == 0x1_0000 witness seq(0x1_0000, _ => 0)

  type registers = r: seq<word16> | |r| == 8 witness [0, 0, 0, 0, 0, 0, 0, 0]

  const AX: nat := 0
  const CX: nat := 1
  const DI: nat := 7

  datatype Cpu = Cpu(regs: registers, es: word16, ip: word16, zf: bool, cf: bool, mem: segment)

  function Word(m: segment, a: word16): word16
    requires a + 1 < 0x1_0000
  {
    m[a] as int + 0x100 * m[a + 1] as int
  }

  function PutWord(m: segment, a: word16, v: word16): segment
    requires a + 1 < 0x1_0000
  {
    m[a := v % 0x100][a + 1 := v / 0x100]
  }

  // ---- instructions ----

  datatype Instr =
    | OrSelf(r: nat)
    | XorSelf(r: nat)
    | MovEs(r: nat)
    | CmpImm(r: nat, imm: word16)
    | CmpMem(disp: word16, imm: word16)
    | MovMemReg(disp: word16, r: nat)
    | MovMemImm(disp: word16, imm: word16)
    | MovAxMem(disp: word16)
    | Jnz(rel: int)
    | Ja(rel: int)
    | Nop
    | Retf
    | Unknown

  datatype Decoded = Decoded(instr: Instr, len: nat)

  function Signed8(b: byte): int { if b < 0x80 then b else b as int - 0x100 }

  /** One-operand register forms: ModRM with mod 3 and both fields naming the same register. */
  predicate SameRegister(modrm: byte) { modrm >= 0xC0 && modrm / 8 % 8 == modrm % 8 }

  function Decode(m: segment, ip: word16): Decoded
    requires ip + 8 <= 0x1_0000
  {
    var op, modrm := m[ip], m[ip + 1];
    if op == 0x09 && SameRegister(modrm) then Decoded(OrSelf(modrm % 8), 2)
    else if op == 0x31 && SameRegister(modrm) then Decoded(XorSelf(modrm % 8), 2)
    else if op == 0x8E && modrm >= 0xC0 && modrm / 8 % 8 == 0 then Decoded(MovEs(modrm % 8), 2)
    else if op == 0x81 && modrm >= 0xC0 && modrm / 8 % 8 == 7 then Decoded(CmpImm(modrm % 8, Word(m, ip + 2)), 4)
    else if op == 0x75 then Decoded(Jnz(Signed8(modrm)), 2)
    else if op == 0x77 then Decoded(Ja(Signed8(modrm)), 2)
    else if op == 0x90 then Decoded(Nop, 1)
    else if op == 0xCB then Decoded(Retf, 1)
    else if op == 0x2E then DecodeCs(m, ip + 1)
    else Decoded(Unknown, 1)
  }

  /** After the CS: prefix: direct memory operands (mod 0, r/m 6) only. */
  function DecodeCs(m: segment, ip: word16): Decoded
    requires ip + 7 <= 0x1_0000
  {
    var op, modrm := m[ip], m[ip + 1];
    if op == 0x83 && modrm == 0x3E then Decoded(CmpMem(Word(m, ip + 2), Signed8(m[ip + 4]) % 0x1_0000), 6)
    else if op == 0x89 && modrm < 0x40 && modrm % 8 == 6 then Decoded(MovMemReg(Word(m, ip + 2), modrm / 8), 5)
    else if op == 0xC7 && modrm == 0x06 then Decoded(MovMemImm(Word(m, ip + 2), Word(m, ip + 4)), 7)
    else if op == 0xA1 then Decoded(MovAxMem(Word(m, ip + 1)), 4)
    else Decoded(Unknown, 1)
  }

  // ---- the instruction set, as its manual gives it ----

  /** A displacement byte is a two's complement number. */
  lemma Signed8Exactly(b: byte)
    ensures -128 <= Signed8(b) <= 127 && (Signed8(b) == b || Signed8(b) == b as int - 256)
  {
  }

  /** Register numbers in ModRM bytes: AX is 0, CX is 1, DI is 7. */
  lemma RegisterForms(m: segment, ip: word16, r: nat)
    requires ip + 8 <= 0x1_0000 && r < 8
    ensures m[ip] == 0x09 && m[ip + 1] == 0xC0 + 9 * r ==> Decode(m, ip) == Decoded(OrSelf(r), 2)
    ensures m[ip] == 0x31 && m[ip + 1] == 0xC0 + 9 * r ==> Decode(m, ip) == Decoded(XorSelf(r), 2)
    ensures m[ip] == 0x8E && m[ip + 1] == 0xC0 + r ==> Decode(m, ip) == Decoded(MovEs(r), 2)
    ensures m[ip] == 0x81 && m[ip + 1] == 0xF8 + r ==> Decode(m, ip) == Decoded(CmpImm(r, Word(m, ip + 2)), 4)
    ensures AX == 0 && CX == 1 && DI == 7
  {
  }

  /** Other ModRM bytes after these opcodes are not in the set. */
  lemma RegisterFormsOnly(m: segment, ip: word16)
    requires ip + 8 <= 0x1_0000
    ensures Decode(m, ip).instr.OrSelf? || Decode(m, ip).instr.XorSelf? ==>
              m[ip + 1] == 0xC0 + 9 * Decode(m, ip).instr.r && Decode(m, ip).instr.r < 8
    ensures Decode(m, ip).instr.MovEs? ==> m[ip + 1] == 0xC0 + Decode(m, ip).instr.r
  {
  }

  lemma MemoryForms(m: segment, ip: word16, r: nat)
    requires ip + 8 <= 0x1_0000 && r < 8 && m[ip] == 0x2E
    ensures m[ip + 1] == 0x83 && m[ip + 2] == 0x3E ==>
              Decode(m, ip) == Decoded(CmpMem(Word(m, ip + 3), (Signed8(m[ip + 5]) + 0x1_0000) % 0x1_0000), 6)
    ensures m[ip + 1] == 0x89 && m[ip + 2] == 0x06 + 8 * r ==>
              Decode(m, ip) == Decoded(MovMemReg(Word(m, ip + 3), r), 5)
    ensures m[ip + 1] == 0xC7 && m[ip + 2] == 0x06 ==>
              Decode(m, ip) == Decoded(MovMemImm(Word(m, ip + 3), Word(m, ip + 5)), 7)
    ensures m[ip + 1] == 0xA1 ==> Decode(m, ip) == Decoded(MovAxMem(Word(m, ip + 2)), 4)
  {
  }

  lemma ShortForms(m: segment, ip: word16)
    requires ip + 8 <= 0x1_0000
    ensures m[ip] == 0x75 ==> Decode(m, ip) == Decoded(Jnz(Signed8(m[ip + 1])), 2)
    ensures m[ip] == 0x77 ==> Decode(m, ip) == Decoded(Ja(Signed8(m[ip + 1])), 2)
    ensures m[ip] == 0x90 ==> Decode(m, ip) == Decoded(Nop, 1)
    ensures m[ip] == 0xCB ==> Decode(m, ip) == Decoded(Retf, 1)
  {
  }

  /** Words lie low byte first. */
  lemma WordOrder(m: segment, a: word16, v: word16)
    requires a + 1 < 0x1_0000
    ensures PutWord(m, a, v)[a] == v % 256 && PutWord(m, a, v)[a + 1] == v / 256
    ensures forall b :: 0 <= b < 0x1_0000 && b != a && b != a + 1 ==> PutWord(m, a, v)[b] == m[b]
    ensures Word(m, a) == m[a] as int + 256 * m[a + 1] as int
  {
  }

  /** What each instruction does to registers, flags and memory; none of them faults. */
  lemma RegisterEffects(c: Cpu, r: nat, imm: word16, rel: int)
    requires r < 8
    ensures Execute(c, OrSelf(r)) == Running(c.(zf := c.regs[r] == 0, cf := false))
    ensures Execute(c, XorSelf(r)) == Running(c.(regs := c.regs[r := 0], zf := true, cf := false))
    ensures Execute(c, MovEs(r)) == Running(c.(es := c.regs[r]))
    ensures Execute(c, CmpImm(r, imm)) == Running(c.(zf := c.regs[r] == imm, cf := c.regs[r] < imm))
    ensures Execute(c, Jnz(rel)) == Running(if c.zf then c else c.(ip := (c.ip + rel) % 0x1_0000))
    ensures Execute(c, Ja(rel)) == Running(if c.zf || c.cf then c else c.(ip := (c.ip + rel) % 0x1_0000))
    ensures Execute(c, Nop) == Running(c) && Execute(c, Retf) == Returned(c) && Execute(c, Unknown) == Fault
  {
    hide Word, PutWord;
  }

  lemma MemoryEffects(c: Cpu, r: nat, disp: word16, imm: word16)
    requires r < 8 && disp < 0xFFFF
    ensures Execute(c, CmpMem(disp, imm)) == Running(c.(zf := Word(c.mem, disp) == imm, cf := Word(c.mem, disp) < imm))
    ensures Execute(c, MovMemReg(disp, r)) == Running(c.(mem := PutWord(c.mem, disp, c.regs[r])))
    ensures Execute(c, MovMemImm(disp, imm)) == Running(c.(mem := PutWord(c.mem, disp, imm)))
    ensures Execute(c, MovAxMem(disp)) == Running(c.(regs := c.regs[0 := Word(c.mem, disp)]))
  {
    hide Word, PutWord;
  }

  datatype Outcome = Running(cpu: Cpu) | Returned(cpu: Cpu) | Fault

  /** Compares as SUB does: ZF for equal, CF for an unsigned borrow. */
  function Compare(c: Cpu, a: word16, b: word16): Cpu { c.(zf := a == b, cf := a < b) }

  function Execute(c: Cpu, i: Instr): Outcome
  {
    match i
    case OrSelf(r) => if r < 8 then Running(c.(zf := c.regs[r] == 0, cf := false)) else Fault
    case XorSelf(r) => if r < 8 then Running(c.(regs := c.regs[r := 0], zf := true, cf := false)) else Fault
    case MovEs(r) => if r < 8 then Running(c.(es := c.regs[r])) else Fault
    case CmpImm(r, imm) => if r < 8 then Running(Compare(c, c.regs[r], imm)) else Fault
    case CmpMem(disp, imm) => if disp + 1 < 0x1_0000 then Running(Compare(c, Word(c.mem, disp), imm)) else Fault
    case MovMemReg(disp, r) =>
      if r < 8 && disp + 1 < 0x1_0000 then Running(c.(mem := PutWord(c.mem, disp, c.regs[r]))) else Fault
    case MovMemImm(disp, imm) => if disp + 1 < 0x1_0000 then Running(c.(mem := PutWord(c.mem, disp, imm))) else Fault
    case MovAxMem(disp) => if disp + 1 < 0x1_0000 then Running(c.(regs := c.regs[AX := Word(c.mem, disp)])) else Fault
    case Jnz(rel) => if c.zf then Running(c) else Running(c.(ip := (c.ip + rel) % 0x1_0000))
    case Ja(rel) => if c.zf || c.cf then Running(c) else Running(c.(ip := (c.ip + rel) % 0x1_0000))
    case Nop => Running(c)
    case Retf => Returned(c)
    case Unknown => Fault
  }

  function Step(c: Cpu): Outcome
  {
    if c.ip + 8 > 0x1_0000 then Fault
    else
      var d := Decode(c.mem, c.ip);
      Execute(c.(ip := (c.ip + d.len) % 0x1_0000), d.instr)
  }

  /** Runs until the far return, for at most `fuel` instructions. */
  function Run(c: Cpu, fuel: nat): Outcome
    decreases fuel
  {
    if fuel == 0 then Running(c)
    else match Step(c) case Running(d) => Run(d, fuel - 1) case done => done
  }

  // ---- the stub ----

  const PENDING: word16 := 0x40
  const LENGTH: word16 := 0x42
  const BOUNCE: word16 := 0x44
  const ENTRY: word16 := 0x10

  const CODE: seq<byte> := [
    0x09, 0xC0,                               // 10: or  ax, ax
    0x75, 0x23,                               // 12: jnz 37
    0x2E, 0x83, 0x3E, 0x40, 0x00, 0x00,       // 14: cmp word [cs:40], 0
    0x90, 0x90,                               // 1A: nop, nop
    0x81, 0xF9, 0xEE, 0x05,                   // 1C: cmp cx, 1518
    0x77, 0x0E] + [                           // 20: ja  30
    0x2E, 0x89, 0x0E, 0x42, 0x00,             // 22: mov [cs:42], cx
    0x2E, 0xA1, 0x44, 0x00,                   // 27: mov ax, [cs:44]
    0x8E, 0xC0,                               // 2B: mov es, ax
    0x31, 0xFF,                               // 2D: xor di, di
    0xCB,                                     // 2F: retf
    0x31, 0xC0,                               // 30: xor ax, ax
    0x8E, 0xC0,                               // 32: mov es, ax
    0x31, 0xFF,                               // 34: xor di, di
    0xCB,                                     // 36: retf
    0x2E, 0xC7, 0x06, 0x40, 0x00, 0x01, 0x00, // 37: mov word [cs:40], 1
    0xCB]                                     // 3E: retf

  ghost predicate Loaded(m: seq<byte>)
  {
    |m| >= 0x3F && |CODE| == 47 && forall a :: 0x10 <= a < 0x3F ==> m[a] == CODE[a - 0x10]
  }

  // The code in place, address by address.

  lemma EntryBytes(m: segment)
    requires Loaded(m)
    ensures m[0x10] == 0x09 && m[0x11] == 0xC0 && m[0x12] == 0x75 && m[0x13] == 0x23 && m[0x14] == 0x2E
    ensures m[0x15] == 0x83 && m[0x16] == 0x3E && m[0x17] == 0x40 && m[0x18] == 0x00 && m[0x19] == 0x00
    ensures m[0x1A] == 0x90 && m[0x1B] == 0x90 && m[0x1C] == 0x81 && m[0x1D] == 0xF9 && m[0x1E] == 0xEE
    ensures m[0x1F] == 0x05 && m[0x20] == 0x77 && m[0x21] == 0x0E
  {
  }

  lemma AcceptBytes(m: segment)
    requires Loaded(m)
    ensures m[0x22] == 0x2E && m[0x23] == 0x89 && m[0x24] == 0x0E && m[0x25] == 0x42 && m[0x26] == 0x00
    ensures m[0x27] == 0x2E && m[0x28] == 0xA1 && m[0x29] == 0x44 && m[0x2A] == 0x00 && m[0x2B] == 0x8E
    ensures m[0x2C] == 0xC0 && m[0x2D] == 0x31 && m[0x2E] == 0xFF && m[0x2F] == 0xCB
  {
  }

  lemma DropBytes(m: segment)
    requires Loaded(m)
    ensures m[0x30] == 0x31 && m[0x31] == 0xC0 && m[0x32] == 0x8E && m[0x33] == 0xC0 && m[0x34] == 0x31
    ensures m[0x35] == 0xFF && m[0x36] == 0xCB && m[0x37] == 0x2E && m[0x38] == 0xC7 && m[0x39] == 0x06
    ensures m[0x3A] == 0x40 && m[0x3B] == 0x00 && m[0x3C] == 0x01 && m[0x3D] == 0x00 && m[0x3E] == 0xCB
  {
  }

  lemma DecodeEntry(m: segment)
    requires Loaded(m)
    ensures Decode(m, 0x10) == Decoded(OrSelf(AX), 2) && Decode(m, 0x12) == Decoded(Jnz(0x23), 2)
  {
    EntryBytes(m);
    hide Loaded, CODE;
  }

  lemma DecodePending(m: segment)
    requires Loaded(m)
    ensures Decode(m, 0x14) == Decoded(CmpMem(PENDING, 0), 6)
    ensures Decode(m, 0x1A) == Decoded(Nop, 1) && Decode(m, 0x1B) == Decoded(Nop, 1)
  {
    EntryBytes(m);
    hide Loaded, CODE;
  }

  lemma DecodeLimit(m: segment)
    requires Loaded(m)
    ensures Decode(m, 0x1C) == Decoded(CmpImm(CX, MAX_FRAME), 4) && Decode(m, 0x20) == Decoded(Ja(0x0E), 2)
  {
    EntryBytes(m);
    hide Loaded, CODE;
  }

  lemma DecodeAccept(m: segment)
    requires Loaded(m)
    ensures Decode(m, 0x22) == Decoded(MovMemReg(LENGTH, CX), 5) && Decode(m, 0x27) == Decoded(MovAxMem(BOUNCE), 4)
  {
    AcceptBytes(m);
    hide Loaded, CODE;
  }

  lemma DecodeAnswer(m: segment)
    requires Loaded(m)
    ensures Decode(m, 0x2B) == Decoded(MovEs(AX), 2) && Decode(m, 0x2D) == Decoded(XorSelf(DI), 2)
    ensures Decode(m, 0x2F) == Decoded(Retf, 1)
  {
    AcceptBytes(m);
    hide Loaded, CODE;
  }

  lemma DecodeDrop(m: segment)
    requires Loaded(m)
    ensures Decode(m, 0x30) == Decoded(XorSelf(AX), 2) && Decode(m, 0x32) == Decoded(MovEs(AX), 2)
    ensures Decode(m, 0x34) == Decoded(XorSelf(DI), 2) && Decode(m, 0x36) == Decoded(Retf, 1)
  {
    DropBytes(m);
    hide Loaded, CODE;
  }

  lemma DecodePhase1(m: segment)
    requires Loaded(m)
    ensures Decode(m, 0x37) == Decoded(MovMemImm(PENDING, 1), 7) && Decode(m, 0x3E) == Decoded(Retf, 1)
  {
    DropBytes(m);
    hide Loaded, CODE;
  }

  /** An instruction whose decoding is known. */
  lemma RunInstr(c: Cpu, i: Instr, len: nat, fuel: nat)
    requires c.ip + 8 <= 0x1_0000 && Decode(c.mem, c.ip) == Decoded(i, len) && len <= 8 && fuel > 0
    ensures var next := Execute(c.(ip := (c.ip + len) % 0x1_0000), i);
            Run(c, fuel) == if next.Running? then Run(next.cpu, fuel - 1) else next
  {
    hide Execute, Decode;
  }

  /** The receiver's contract: what a call leaves behind. */
  function Answer(c: Cpu): Cpu
  {
    if c.regs[AX] != 0 then
      c.(mem := PutWord(c.mem, PENDING, 1), zf := false, cf := false, ip := 0x3F)
    else if c.regs[CX] <= MAX_FRAME then
      var seg := Word(c.mem, BOUNCE);
      c.(mem := PutWord(c.mem, LENGTH, c.regs[CX]), regs := c.regs[AX := seg][DI := 0], es := seg,
         zf := true, cf := false, ip := 0x30)
    else
      c.(regs := c.regs[AX := 0][DI := 0], es := 0, zf := true, cf := false, ip := 0x37)
  }

  /**
   * In numbers: AX not 0 sets the word at 0x40 to 1; AX 0 with CX up to 1518 stores CX at 0x42 and answers the
   * segment at 0x44 with offset 0; any other call answers 0:0 and leaves memory alone.
   */
  lemma AnswerExactly(c: Cpu)
    ensures var a := Answer(c);
            if c.regs[0] != 0 then a.mem == PutWord(c.mem, 0x40, 1) && a.es == c.es && a.regs == c.regs
            else if c.regs[1] <= 1518 then
              && a.mem == PutWord(c.mem, 0x42, c.regs[1]) && a.es == Word(c.mem, 0x44)
              && a.regs == c.regs[0 := Word(c.mem, 0x44)][7 := 0]
            else a.mem == c.mem && a.es == 0 && a.regs == c.regs[0 := 0][7 := 0]
  {
    hide Word, PutWord;
  }

  lemma RunEntry(c: Cpu)
    requires Loaded(c.mem) && c.ip == ENTRY
    ensures Run(c, 12) == Run(c.(zf := c.regs[AX] == 0, cf := false, ip := if c.regs[AX] == 0 then 0x14 else 0x37), 10)
  {
    hide Decode, Run, Loaded;
    DecodeEntry(c.mem);
    RunInstr(c, OrSelf(AX), 2, 12);
    var d := c.(zf := c.regs[AX] == 0, cf := false, ip := 0x12);
    RunInstr(d, Jnz(0x23), 2, 11);
  }

  lemma RunPhase1(c: Cpu)
    requires Loaded(c.mem) && c.ip == 0x37
    ensures Run(c, 10) == Returned(c.(mem := PutWord(c.mem, PENDING, 1), ip := 0x3F))
  {
    hide Decode, Run, Loaded, PutWord;
    DecodePhase1(c.mem);
    RunInstr(c, MovMemImm(PENDING, 1), 7, 10);
    var d := c.(mem := PutWord(c.mem, PENDING, 1), ip := 0x3E);
    StaysLoaded(c.mem, PENDING, 1);
    DecodePhase1(d.mem);
    RunInstr(d, Retf, 1, 9);
  }

  /** From the disabled pending test to the length test. */
  lemma RunLengthTest(c: Cpu)
    requires Loaded(c.mem) && c.ip == 0x14
    ensures var fits := c.regs[CX] <= MAX_FRAME;
            Run(c, 10) == Run(c.(zf := c.regs[CX] == MAX_FRAME, cf := c.regs[CX] < MAX_FRAME,
                                 ip := if fits then 0x22 else 0x30), 5)
  {
    hide Decode, Run, Loaded, Word;
    DecodePending(c.mem);
    DecodeLimit(c.mem);
    RunInstr(c, CmpMem(PENDING, 0), 6, 10);
    var d := Compare(c, Word(c.mem, PENDING), 0).(ip := 0x1A);
    RunInstr(d, Nop, 1, 9);
    RunInstr(d.(ip := 0x1B), Nop, 1, 8);
    RunInstr(d.(ip := 0x1C), CmpImm(CX, MAX_FRAME), 4, 7);
    var e := Compare(d, d.regs[CX], MAX_FRAME).(ip := 0x20);
    RunInstr(e, Ja(0x0E), 2, 6);
  }

  lemma RunAccept(c: Cpu)
    requires Loaded(c.mem) && c.ip == 0x22
    ensures var seg := Word(c.mem, BOUNCE);
            Run(c, 5) == Returned(c.(mem := PutWord(c.mem, LENGTH, c.regs[CX]), regs := c.regs[AX := seg][DI := 0],
                                     es := seg, zf := true, cf := false, ip := 0x30))
  {
    hide Decode, Run, Loaded, Word, PutWord;
    DecodeAccept(c.mem);
    RunInstr(c, MovMemReg(LENGTH, CX), 5, 5);
    var d := c.(mem := PutWord(c.mem, LENGTH, c.regs[CX]), ip := 0x27);
    StaysLoaded(c.mem, LENGTH, c.regs[CX]);
    OtherWord(c.mem, LENGTH, c.regs[CX], BOUNCE);
    DecodeAccept(d.mem);
    DecodeAnswer(d.mem);
    RunInstr(d, MovAxMem(BOUNCE), 4, 4);
    var seg := Word(c.mem, BOUNCE);
    var e := d.(regs := d.regs[AX := seg], ip := 0x2B);
    RunInstr(e, MovEs(AX), 2, 3);
    RunInstr(e.(es := seg, ip := 0x2D), XorSelf(DI), 2, 2);
    RunInstr(e.(es := seg, regs := e.regs[DI := 0], zf := true, cf := false, ip := 0x2F), Retf, 1, 1);
  }

  lemma RunDrop(c: Cpu)
    requires Loaded(c.mem) && c.ip == 0x30
    ensures Run(c, 5) == Returned(c.(regs := c.regs[AX := 0][DI := 0], es := 0, zf := true, cf := false, ip := 0x37))
  {
    hide Decode, Run, Loaded;
    DecodeDrop(c.mem);
    RunInstr(c, XorSelf(AX), 2, 5);
    var d := c.(regs := c.regs[AX := 0], zf := true, cf := false, ip := 0x32);
    RunInstr(d, MovEs(AX), 2, 4);
    RunInstr(d.(es := 0, ip := 0x34), XorSelf(DI), 2, 3);
    RunInstr(d.(es := 0, regs := d.regs[DI := 0], ip := 0x36), Retf, 1, 2);
  }

  lemma OtherWord(m: segment, a: word16, v: word16, b: word16)
    requires a + 1 < b < 0xFFFF || b + 1 < a < 0xFFFF
    ensures Word(PutWord(m, a, v), b) == Word(m, b)
  {
  }

  /** From any registers and any memory that holds the code, a call always returns, with exactly this effect. */
  lemma StubAnswers(c: Cpu)
    requires Loaded(c.mem) && c.ip == ENTRY
    ensures Run(c, 12) == Returned(Answer(c))
    ensures Loaded(Answer(c).mem)
  {
    hide Run, Loaded, Word, PutWord;
    RunEntry(c);
    if c.regs[AX] != 0 {
      RunPhase1(c.(zf := false, cf := false, ip := 0x37));
      StaysLoaded(c.mem, PENDING, 1);
    } else {
      var d := c.(zf := true, cf := false, ip := 0x14);
      RunLengthTest(d);
      var e := d.(zf := c.regs[CX] == MAX_FRAME, cf := c.regs[CX] < MAX_FRAME);
      if c.regs[CX] <= MAX_FRAME {
        RunAccept(e.(ip := 0x22));
        StaysLoaded(c.mem, LENGTH, c.regs[CX]);
      } else {
        RunDrop(e.(ip := 0x30));
      }
    }
  }

  /** Data words lie above the code, so writing them leaves the stub in place. */
  lemma StaysLoaded(m: segment, a: word16, v: word16)
    requires Loaded(m) && 0x40 <= a < 0xFFFF
    ensures Loaded(PutWord(m, a, v))
  {
  }

  // ---- installing the stub, and every run of it ----

  /** The part of `pktdrv_alloc_thunk` that writes the receiver and its data words. */
  method Install(thunk: array<byte>, bounceSeg: word16)
    requires thunk.Length == 0x1_0000
    modifies thunk
    ensures Loaded(thunk[..])
    ensures Word(thunk[..], PENDING) == 0 && Word(thunk[..], LENGTH) == 0 && Word(thunk[..], BOUNCE) == bounceSeg
    ensures thunk[..0x10] == old(thunk[..0x10]) && thunk[0x3F] == old(thunk[0x3F])
    ensures thunk[0x46..] == old(thunk[0x46..])
  {
    CodeLength();
    hide CODE;
    var i := 0;
    while i < |CODE|
      invariant 0 <= i <= 47
      invariant forall a :: 0x10 <= a < 0x10 + i ==> thunk[a] == CODE[a - 0x10]
      invariant forall a :: 0 <= a < thunk.Length && !(0x10 <= a < 0x10 + i) ==> thunk[a] == old(thunk[a])
    {
      thunk[0x10 + i] := CODE[i];
      i := i + 1;
    }
    thunk[0x40], thunk[0x41] := 0, 0;
    thunk[0x42], thunk[0x43] := 0, 0;
    thunk[0x44], thunk[0x45] := bounceSeg % 0x100, bounceSeg / 0x100 % 0x100;
  }

  lemma CodeLength()
    ensures |CODE| == 47
  {
  }

  /** The packet driver enters the stub with any registers, or the program drains the slot. */
  datatype Event = Enter(regs: registers, es: word16, zf: bool, cf: bool) | Drain

  function MemAfter(m: segment, e: Event): segment
  {
    match e
    case Enter(regs, es, zf, cf) =>
      (match Run(Cpu(regs, es, ENTRY, zf, cf, m), 12) case Returned(c) => c.mem case _ => m)
    case Drain => PutWord(m, PENDING, 0)
  }

  function MemAfterAll(m: segment, events: seq<Event>): segment
  {
    if events == [] then m else MemAfter(MemAfterAll(m, events[..|events| - 1]), events[|events| - 1])
  }

  /** The single slot the words at 0x40 and 0x42 stand for. */
  datatype Slot = Slot(pending: bool, length: word16)

  function SlotAfter(s: Slot, e: Event): Slot
  {
    match e
    case Enter(regs, _, _, _) =>
      if regs[AX] != 0 then s.(pending := true)
      else if regs[CX] <= MAX_FRAME then s.(length := regs[CX]) else s
    case Drain => s.(pending := false)
  }

  function SlotAfterAll(s: Slot, events: seq<Event>): Slot
  {
    if events == [] then s else SlotAfter(SlotAfterAll(s, events[..|events| - 1]), events[|events| - 1])
  }

  ghost predicate Represents(m: segment, s: Slot)
  {
    && Loaded(m)
    && Word(m, PENDING) == (if s.pending then 1 else 0)
    && Word(m, LENGTH) == s.length && s.length <= MAX_FRAME
  }

  lemma PutGet(m: segment, a: word16, v: word16)
    requires a + 1 < 0x1_0000
    ensures Word(PutWord(m, a, v), a) == v
  {
  }

  lemma SlotStep(m: segment, s: Slot, e: Event)
    requires Represents(m, s)
    ensures Represents(MemAfter(m, e), SlotAfter(s, e))
    ensures forall a :: 0 <= a < 0x1_0000 && !(PENDING <= a < BOUNCE) ==> MemAfter(m, e)[a] == m[a]
  {
    hide Run, Loaded, Word;
    match e {
      case Enter(regs, es, zf, cf) =>
        var c := Cpu(regs, es, ENTRY, zf, cf, m);
        StubAnswers(c);
        if regs[AX] != 0 {
          PutGet(m, PENDING, 1);
          OtherWord(m, PENDING, 1, LENGTH);
        } else if regs[CX] <= MAX_FRAME {
          PutGet(m, LENGTH, regs[CX]);
          OtherWord(m, LENGTH, regs[CX], PENDING);
        }
      case Drain =>
        StaysLoaded(m, PENDING, 0);
        PutGet(m, PENDING, 0);
        OtherWord(m, PENDING, 0, LENGTH);
    }
  }

  /**
   * Over every run the stub keeps its code, its words stand for the slot, the stored length never
   * exceeds a frame, and nothing outside the four data bytes changes.
   */
  lemma {:induction false} SlotRun(m: segment, s: Slot, events: seq<Event>)
    requires Represents(m, s)
    ensures Represents(MemAfterAll(m, events), SlotAfterAll(s, events))
    ensures forall a :: 0 <= a < 0x1_0000 && !(PENDING <= a < BOUNCE) ==> MemAfterAll(m, events)[a] == m[a]
  {
    if events != [] {
      hide MemAfter, SlotAfter, Represents;
      var n := |events| - 1;
      SlotRun(m, s, events[..n]);
      SlotStep(MemAfterAll(m, events[..n]), SlotAfterAll(s, events[..n]), events[n]);
    }
  }
}
