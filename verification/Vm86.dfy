/**
 * Guest memory of a virtual-8086 task, byte by byte, and the segmented
 * addresses and 16-bit stack offsets of the 8086. Registers and addresses are
 * integers; a word is its two bytes, so that bits can be named one by one.
 */
module GuestMemory {
  type Byte = b: int | 0 <= b < 0x100
  type Long = l: int | 0 <= l < 0x1_0000_0000

  datatype Word = Word(low: Byte, high: Byte)

  type Memory = Long -> Byte

  function Value(w: Word): int { w.high * 0x100 + w.low }

  function WordOf(x: int): Word { Word(x % 0x100, x / 0x100 % 0x100) }

  function Low16(x: Long): Long { x % 0x1_0000 }

  // 32-bit pointers and registers wrap around.
  function Wrap(x: int): Long
    requires -0x1_0000_0000 <= x < 0x2_0000_0000
  {
    if x < 0 then x + 0x1_0000_0000 else if x < 0x1_0000_0000 then x else x - 0x1_0000_0000
  }

  function Linear(segment: Long, offset: Long): Long { Low16(segment) * 16 + Low16(offset) }

  function Read16(mem: Memory, a: Long): Word { Word(mem(a), mem(Wrap(a + 1))) }

  function Write16(mem: Memory, a: Long, w: Word): Memory {
    var next := Wrap(a + 1);
    x => if x == a then w.low else if x == next then w.high else mem(x)
  }

  // Stack offsets move modulo 64 KiB.
  function Down(esp: Long, bytes: nat): Long
    requires bytes <= 6
  {
    var offset := Low16(esp) - bytes;
    if offset < 0 then offset + 0x1_0000 else offset
  }

  function Up(esp: Long, bytes: nat): Long
    requires bytes <= 6
  {
    var offset := Low16(esp) + bytes;
    if offset < 0x1_0000 then offset else offset - 0x1_0000
  }

  lemma WordValue(x: Long)
    ensures Value(WordOf(x)) == Low16(x)
  {
    var q, r := x / 0x100, x % 0x100;
    var h, l := q / 0x100, q % 0x100;
    assert x == q * 0x100 + r && q == h * 0x100 + l;
    assert x == h * 0x1_0000 + (l * 0x100 + r);
  }

  predicate Apart(a: Long, b: Long) { b != a && Wrap(b + 1) != a && b != Wrap(a + 1) }

  /** A stored word reads back; words that do not overlap it are untouched. */
  lemma WordRoundTrip(mem: Memory, a: Long, w: Word, b: Long)
    ensures Read16(Write16(mem, a, w), a) == w
    ensures Apart(a, b) ==> Read16(Write16(mem, a, w), b) == Read16(mem, b)
  {
    assert Wrap(a + 1) != a;
    assert a != b ==> Wrap(a + 1) != Wrap(b + 1);
  }

  /**
   * Pushing moves the linear pointer without wrapping and the stack offset
   * modulo 64 KiB, so the two stay together exactly while the offset is large enough.
   */
  lemma PushedWhereFound(ss: Long, esp: Long, bytes: nat)
    requires 0 < bytes <= 6
    ensures Linear(ss, Down(esp, bytes)) == Wrap(Linear(ss, esp) - bytes) <==> bytes <= Low16(esp)
  {
    assert Low16(Down(esp, bytes)) == Down(esp, bytes);
  }

  /** With an offset of 2 a frame of six bytes is written below the segment and looked for at its top. */
  lemma SmallOffsetMisses(ss: Long)
    requires Low16(ss) > 0
    ensures Wrap(Linear(ss, 2) - 6) == Low16(ss) * 16 - 4
    ensures Linear(ss, Down(2, 6)) == Low16(ss) * 16 + 0xFFFC
  {
    SmallOffset();
  }

  lemma SmallOffset()
    ensures Low16(2) == 2 && Down(2, 6) == 0xFFFC && Low16(0xFFFC) == 0xFFFC
  {
  }

  lemma PopUndoesPush(esp: Long, bytes: nat, found: Long)
    requires bytes <= 6
    requires Low16(found) == Low16(Down(esp, bytes))
    ensures Up(found, bytes) == Low16(esp)
  {
    assert Low16(Down(esp, bytes)) == Down(esp, bytes);
  }
}

/**
 * The virtual-8086 monitor. A guest in virtual-8086 mode faults on the
 * instructions that touch the interrupt flag; the monitor emulates them on the
 * saved registers, the guest's stack and a virtual interrupt flag.
 */
module Vm86 {
  import opened GuestMemory

  // The flags register: bit 9 is the interrupt flag, bit 17 the virtual-8086 mode flag.
  datatype Flags = Flags(low: Word, high: Word)

  // Bit 1 of a byte.
  predicate Bit1(b: Byte) { 2 <= b % 4 }

  function WithBit1(b: Byte, on: bool): Byte {
    if Bit1(b) == on then b else if on then b + 2 else b - 2
  }

  predicate HasIf(w: Word) { Bit1(w.high) }

  predicate HasVm(w: Word) { Bit1(w.low) }

  function WithIf(w: Word, on: bool): Word { w.(high := WithBit1(w.high, on)) }

  // Bits 12 and 13: the privilege level from which the interrupt flag can be changed without a fault.
  function Iopl(w: Word): int { w.high / 16 % 4 }

  // The mask 0xDFF: the low twelve bits without bit 9.
  function Valid(w: Word): Word { Word(w.low, WithBit1(w.high % 16, false)) }

  // Whatever low word the guest asks for, the real flags get both bits.
  function Forced(w: Word): Flags { Flags(WithIf(w, true), Word(2, 0)) }

  // The flags word a guest sees: its own flags with the virtual interrupt flag.
  function Virtual16(flags: Flags, cpuIf: bool): Word { WithIf(flags.low, cpuIf) }

  function Virtual32(flags: Flags, cpuIf: bool): Word { WithIf(Valid(flags.low), cpuIf) }

  lemma BitSet(b: Byte, on: bool)
    ensures Bit1(WithBit1(b, on)) == on
    ensures WithBit1(WithBit1(b, on), Bit1(b)) == b
  {
  }

  lemma ForcedKeepsFlags(w: Word)
    ensures HasIf(Forced(w).low) && HasVm(Forced(w).high)
  {
    BitSet(w.high, true);
  }

  lemma ValidBit(b: Byte, on: bool)
    requires b < 16
    ensures WithBit1(b, on) < 16
    ensures WithBit1(WithBit1(b, on), false) == WithBit1(b, false)
  {
    BitSet(b, on);
  }

  lemma HighBits(b: Byte, on: bool)
    ensures WithBit1(b, on) / 16 == b / 16
    ensures WithBit1(b % 16, on) / 16 == 0
  {
    var q, r := b / 16, b % 16;
    assert b == q * 16 + r && b % 4 == r % 4;
  }

  lemma IoplStays(w: Word, on: bool)
    ensures Iopl(WithIf(w, on)) == Iopl(w)
    ensures Iopl(WithIf(Valid(w), on)) == 0
  {
    HighBits(w.high, on);
    HighBits(w.high, false);
    ValidBit(w.high % 16, false);
    ValidBit(Valid(w).high, on);
  }

  datatype Registers = Registers(eax: Long, ebx: Long, ecx: Long, edx: Long, edi: Long, esi: Long, ds: Long, es: Long)

  datatype PortWrite = ByteTo(port: Word, byte: Byte) | WordTo(port: Word, word: Word)

  datatype Cpu = Cpu(
    eip: Long, cs: Long, ss: Long, esp: Long, eflags: Flags, regs: Registers,
    cpuIf: bool, level: nat, out: Registers, ports: seq<PortWrite>, mem: Memory)

  datatype Result = Successful | Unhandled | Finished

  const PUSHF: Byte := 0x9C
  const POPF: Byte := 0x9D
  const INT: Byte := 0xCD
  const IRET: Byte := 0xCF
  const CLI: Byte := 0xFA
  const STI: Byte := 0xFB
  const OUTB: Byte := 0xEE
  const OUTW: Byte := 0xEF
  const INB: Byte := 0xEC
  const INW: Byte := 0xED

  predicate IsPrefix(b: Byte) { b == 0x66 || b == 0x67 }

  // A 32-bit push writes a zero word above the flags.
  function Pushf(s: Cpu, operands32: bool): Cpu {
    var sp := Linear(s.ss, s.esp);
    if operands32 then
      s.(esp := Down(s.esp, 4), eip := Wrap(s.eip + 1),
         mem := Write16(Write16(s.mem, Wrap(sp - 4), Virtual32(s.eflags, s.cpuIf)), Wrap(sp - 2), Word(0, 0)))
    else
      s.(esp := Down(s.esp, 2), eip := Wrap(s.eip + 1),
         mem := Write16(s.mem, Wrap(sp - 2), Virtual16(s.eflags, s.cpuIf)))
  }

  function Popf(s: Cpu, operands32: bool): Cpu {
    var w := Read16(s.mem, Linear(s.ss, s.esp));
    s.(eflags := Forced(if operands32 then Valid(w) else w), cpuIf := HasIf(w),
       esp := Up(s.esp, if operands32 then 4 else 2), eip := Wrap(s.eip + 1))
  }

  // The interrupt frame: return address, code segment, flags.
  function PushFrame(s: Cpu, sp: Long): Memory {
    Write16(Write16(Write16(s.mem, sp, WordOf(Wrap(s.eip + 2))), Wrap(sp + 2), WordOf(s.cs)),
            Wrap(sp + 4), Virtual16(s.eflags, s.cpuIf))
  }

  // An entry of the interrupt table: the table lies at linear address 0.
  function Vector(mem: Memory, interrupt: Byte): (Long, Long) {
    (Value(Read16(mem, interrupt * 4 + 2)), Value(Read16(mem, interrupt * 4)))
  }

  function WithFrame(s: Cpu): Cpu {
    s.(esp := Down(s.esp, 6), mem := PushFrame(s, Wrap(Linear(s.ss, s.esp) - 6)))
  }

  function Entered(s: Cpu, vector: (Long, Long)): Cpu { s.(cs := vector.0, eip := vector.1, level := s.level + 1) }

  // The vector is fetched after the frame is pushed.
  function Interrupt(s: Cpu, ip: Long): Cpu {
    var t := WithFrame(s);
    Entered(t, Vector(t.mem, t.mem(Wrap(ip + 1))))
  }

  function PopFrame(s: Cpu): Cpu {
    var sp := Linear(s.ss, s.esp);
    var flags := Read16(s.mem, Wrap(sp + 4));
    s.(eip := Value(Read16(s.mem, sp)), cs := Value(Read16(s.mem, Wrap(sp + 2))),
       eflags := Forced(flags), cpuIf := HasIf(flags), esp := Up(s.esp, 6))
  }

  // The registers as the caller of the interrupt gets them, 16 bits of each.
  function Reported(r: Registers): Registers {
    Registers(Low16(r.eax), Low16(r.ebx), Low16(r.ecx), Low16(r.edx),
              Low16(r.edi), Low16(r.esi), Low16(r.ds), Low16(r.es))
  }

  function InterruptReturn(s: Cpu): (Cpu, Result) {
    var t := PopFrame(s);
    if s.level == 0 then (t.(out := Reported(s.regs)), Finished) else (t.(level := s.level - 1), Successful)
  }

  function PortOf(r: Registers): Word { WordOf(r.edx) }

  function ByteOut(r: Registers): PortWrite { ByteTo(PortOf(r), r.eax % 0x100) }

  function WordOut(r: Registers): PortWrite { WordTo(PortOf(r), WordOf(r.eax)) }

  function ByteIn(r: Registers, input: Word): Registers { r.(eax := r.eax - r.eax % 0x100 + input.low) }

  function WordIn(r: Registers, input: Word): Registers { r.(eax := r.eax - r.eax % 0x1_0000 + Value(input)) }

  // input: the value the hardware delivers when an input port is read.
  function Emulate(s: Cpu, ip: Long, operands32: bool, input: Word): (Cpu, Result) {
    var opcode := s.mem(ip);
    if opcode == PUSHF then (Pushf(s, operands32), Successful)
    else if opcode == POPF then (Popf(s, operands32), Successful)
    else if opcode == INT then (Interrupt(s, ip), Successful)
    else if opcode == IRET then InterruptReturn(s)
    else if opcode == CLI then (s.(cpuIf := false, eip := Wrap(s.eip + 1)), Successful)
    else if opcode == STI then (s.(cpuIf := true, eip := Wrap(s.eip + 1)), Successful)
    else if opcode == OUTB then
      (s.(ports := s.ports + [ByteOut(s.regs)], eip := Wrap(s.eip + 1)), Successful)
    else if opcode == OUTW then
      (s.(ports := s.ports + [WordOut(s.regs)], eip := Wrap(s.eip + 1)), Successful)
    else if opcode == INB then
      (s.(regs := ByteIn(s.regs, input), eip := Wrap(s.eip + 1)), Successful)
    else if opcode == INW then
      (s.(regs := WordIn(s.regs, input), eip := Wrap(s.eip + 1)), Successful)
    else (s, Unhandled)
  }

  ghost function Ahead(a: Long, n: nat): Long {
    if n == 0 then a else Wrap(Ahead(a, n - 1) + 1)
  }

  // Exactly n prefix bytes precede the instruction at ip.
  ghost predicate Prefixed(mem: Memory, ip: Long, n: nat) {
    && (forall i: nat :: i < n ==> IsPrefix(mem(Ahead(ip, i))))
    && !IsPrefix(mem(Ahead(ip, n)))
  }

  ghost predicate Operands32(mem: Memory, ip: Long, n: nat) {
    exists i: nat :: i < n && mem(Ahead(ip, i)) == 0x66
  }

  ghost function Ip(s: Cpu): Long { Linear(s.cs, s.eip) }

  ghost function Opcode(s: Cpu, n: nat): Byte { s.mem(Ahead(Ip(s), n)) }

  ghost function AtOpcode(s: Cpu, n: nat): Cpu { s.(eip := Ahead(s.eip, n)) }

  // A whole fault: n prefixes, then one instruction.
  ghost function Handle(s: Cpu, n: nat, input: Word): (Cpu, Result) {
    Emulate(AtOpcode(s, n), Ahead(Ip(s), n), Operands32(s.mem, Ip(s), n), input)
  }

  ghost predicate FlagsKept(s: Cpu) { HasIf(s.eflags.low) && HasVm(s.eflags.high) }

  lemma EmulateKeepsFlags(s: Cpu, ip: Long, operands32: bool, input: Word)
    requires FlagsKept(s)
    ensures FlagsKept(Emulate(s, ip, operands32, input).0)
  {
    var sp := Linear(s.ss, s.esp);
    BitSet(Read16(s.mem, sp).high, true);
    BitSet(Valid(Read16(s.mem, sp)).high, true);
    BitSet(Read16(s.mem, Wrap(sp + 4)).high, true);
  }

  predicate Handled(opcode: Byte) {
    opcode in {PUSHF, POPF, INT, IRET, CLI, STI, OUTB, OUTW, INB, INW}
  }

  function Delta(opcode: Byte): int { if opcode == INT then 1 else if opcode == IRET then -1 else 0 }

  /** What each fault does to the level, and how it ends. */
  lemma HandleOutcome(s: Cpu, n: nat, input: Word)
    ensures Handle(s, n, input).1.Finished? <==> Opcode(s, n) == IRET && s.level == 0
    ensures Handle(s, n, input).1.Unhandled? <==> !Handled(Opcode(s, n))
    ensures Handle(s, n, input).1.Successful? ==> Handle(s, n, input).0.level == s.level + Delta(Opcode(s, n))
  {
  }

  // ----- runs -----

  // A fault of the guest, with its prefix count and the port input it meets.
  datatype Fault = Fault(before: Cpu, prefixes: nat, input: Word)

  ghost function After(f: Fault): (Cpu, Result) { Handle(f.before, f.prefixes, f.input) }

  ghost function OpcodeOf(f: Fault): Byte { Opcode(f.before, f.prefixes) }

  /**
   * Between faults the guest runs by itself: it changes registers and memory as it likes, but
   * not the monitor's own record, the mode flag or the privilege level of its flags; and not
   * the interrupt flag, unless that level is 3, where the instructions for it do not fault.
   */
  ghost predicate GuestRuns(s: Cpu, t: Cpu) {
    && t.level == s.level
    && t.cpuIf == s.cpuIf
    && HasVm(t.eflags.high) == HasVm(s.eflags.high)
    && Iopl(t.eflags.low) == Iopl(s.eflags.low)
    && (Iopl(s.eflags.low) < 3 ==> HasIf(t.eflags.low) == HasIf(s.eflags.low))
  }

  ghost predicate Continues(f: Fault, g: Fault) { After(f).1.Successful? && GuestRuns(After(f).0, g.before) }

  ghost predicate ContinuesAt(fs: seq<Fault>, i: nat) {
    i + 1 < |fs| ==> Continues(fs[i], fs[i + 1])
  }

  ghost predicate Run(fs: seq<Fault>) {
    forall i: nat :: ContinuesAt(fs, i)
  }

  ghost predicate Started(s: Cpu) { s.eflags == Flags(Word(2, 2), Word(2, 0)) && !s.cpuIf && s.level == 0 }

  // A new task at its first fault, after whatever its guest did until then.
  ghost predicate Begun(t: Cpu) { exists s :: Started(s) && GuestRuns(s, t) }

  // INTs minus IRETs among the first k faults.
  ghost function Depth(fs: seq<Fault>, k: nat): int
    requires k <= |fs|
  {
    if k == 0 then 0 else Depth(fs, k - 1) + Delta(OpcodeOf(fs[k - 1]))
  }

  /** The recursion level counts the open interrupts, whatever the guest does. */
  lemma {:induction false} RunInvariant(fs: seq<Fault>, j: nat, k: nat)
    requires Run(fs) && j <= k < |fs|
    ensures fs[k].before.level == fs[j].before.level + Depth(fs, k) - Depth(fs, j)
    decreases k
  {
    if j < k {
      RunInvariant(fs, j, k - 1);
      assert ContinuesAt(fs, k - 1);
      HandleOutcome(fs[k - 1].before, fs[k - 1].prefixes, fs[k - 1].input);
    }
  }

  // ----- the real flags -----

  // The flags word that a POPF or an IRET takes from the stack.
  ghost function LoadedFlags(f: Fault): Word {
    var sp := Linear(f.before.ss, f.before.esp);
    Read16(f.before.mem, if OpcodeOf(f) == IRET then Wrap(sp + 4) else sp)
  }

  // A 16-bit POPF or an IRET whose flags word asks for privilege level 3; a 32-bit POPF is masked.
  ghost predicate LoadsIopl3(f: Fault) {
    && (OpcodeOf(f) == IRET || (OpcodeOf(f) == POPF && !Operands32(f.before.mem, Ip(f.before), f.prefixes)))
    && Iopl(LoadedFlags(f)) == 3
  }

  // The interrupt flag is out of the guest's reach.
  ghost predicate Guarded(s: Cpu) { FlagsKept(s) && Iopl(s.eflags.low) < 3 }

  /** What a fault leaves: the flags are kept, and the privilege level is 3 if and only if it was just loaded. */
  lemma FaultKeepsFlags(f: Fault)
    requires Guarded(f.before)
    ensures FlagsKept(After(f).0) && (Iopl(After(f).0.eflags.low) == 3 <==> LoadsIopl3(f))
  {
    EmulateKeepsFlags(AtOpcode(f.before, f.prefixes), Ahead(Ip(f.before), f.prefixes),
                      Operands32(f.before.mem, Ip(f.before), f.prefixes), f.input);
    IoplStays(LoadedFlags(f), true);
  }

  // A state the guest may come to, with the interrupt flag cleared.
  ghost function Masked(s: Cpu): Cpu { s.(eflags := s.eflags.(low := WithIf(s.eflags.low, false))) }

  lemma MaskedIsPossible(s: Cpu)
    requires Iopl(s.eflags.low) == 3
    ensures GuestRuns(s, Masked(s)) && !FlagsKept(Masked(s))
  {
    IoplStays(s.eflags.low, false);
    BitSet(s.eflags.low.high, false);
  }

  /** After one fault every way the guest may go on keeps the flags if and only if the fault did not load level 3. */
  lemma FaultIsGuarded(f: Fault)
    requires Guarded(f.before)
    ensures (forall t :: GuestRuns(After(f).0, t) ==> FlagsKept(t)) <==> !LoadsIopl3(f)
    ensures !LoadsIopl3(f) ==> forall t :: GuestRuns(After(f).0, t) ==> Guarded(t)
  {
    FaultKeepsFlags(f);
    if LoadsIopl3(f) {
      MaskedIsPossible(After(f).0);
    }
  }

  lemma {:induction false} RunIsGuarded(fs: seq<Fault>, k: nat)
    requires Run(fs) && k < |fs| && Guarded(fs[0].before)
    requires forall i :: 0 <= i < k ==> !LoadsIopl3(fs[i])
    ensures Guarded(fs[k].before)
    decreases k
  {
    if k > 0 {
      RunIsGuarded(fs, k - 1);
      assert ContinuesAt(fs, k - 1);
      FaultIsGuarded(fs[k - 1]);
    }
  }

  // Wherever the guest may go after any fault of the run, IF and VM are set.
  ghost predicate AlwaysKept(fs: seq<Fault>) {
    forall i, t :: 0 <= i < |fs| && GuestRuns(After(fs[i]).0, t) ==> FlagsKept(t)
  }

  /** Over every run the real flags keep IF and VM if and only if no POPF or IRET of the run loads level 3. */
  lemma FlagsKeptExactly(fs: seq<Fault>)
    requires Run(fs) && (fs != [] ==> Begun(fs[0].before))
    ensures AlwaysKept(fs) <==> forall i :: 0 <= i < |fs| ==> !LoadsIopl3(fs[i])
    ensures (forall i :: 0 <= i < |fs| ==> !LoadsIopl3(fs[i])) ==> forall i :: 0 <= i < |fs| ==> FlagsKept(fs[i].before)
  {
    if forall i :: 0 <= i < |fs| ==> !LoadsIopl3(fs[i]) {
      forall i | 0 <= i < |fs|
        ensures FlagsKept(fs[i].before) && forall t :: GuestRuns(After(fs[i]).0, t) ==> FlagsKept(t)
      {
        RunIsGuarded(fs, i);
        FaultIsGuarded(fs[i]);
      }
    } else {
      var i := FirstLoad(fs);
      RunIsGuarded(fs, i);
      FaultIsGuarded(fs[i]);
    }
  }

  lemma {:induction false} FirstLoad(fs: seq<Fault>) returns (i: nat)
    requires exists j :: 0 <= j < |fs| && LoadsIopl3(fs[j])
    ensures i < |fs| && LoadsIopl3(fs[i]) && forall j :: 0 <= j < i ==> !LoadsIopl3(fs[j])
  {
    i := 0;
    while !LoadsIopl3(fs[i])
      invariant i < |fs| && forall j :: 0 <= j < i ==> !LoadsIopl3(fs[j])
      decreases |fs| - i
    {
      i := i + 1;
    }
  }

  // A new task that is about to execute a POPF, with a word of the form 0x30xx on top of its stack.
  ghost function PopsLevel3(cs: Long, eip: Long, ss: Long, esp: Long, regs: Registers): Fault {
    var ip, high := Linear(cs, eip), Wrap(Linear(ss, esp) + 1);
    Fault(Cpu(eip, cs, ss, esp, Flags(Word(2, 2), Word(2, 0)), regs, false, 0, regs, [],
              a => if a == high then 0x30 else if a == ip then POPF else 0), 0, Word(0, 0))
  }

  /** Such a guest can clear the real interrupt flag before its next fault. */
  lemma PoppedLevel3LosesInterrupts(cs: Long, eip: Long, ss: Long, esp: Long, regs: Registers)
    requires Linear(cs, eip) != Wrap(Linear(ss, esp) + 1)
    ensures var f := PopsLevel3(cs, eip, ss, esp, regs);
      var fs := [f, Fault(Masked(After(f).0), 0, Word(0, 0))];
      Run(fs) && Started(f.before) && Prefixed(f.before.mem, Ip(f.before), 0) && !FlagsKept(fs[1].before)
  {
    var f := PopsLevel3(cs, eip, ss, esp, regs);
    var fs := [f, Fault(Masked(After(f).0), 0, Word(0, 0))];
    assert LoadsIopl3(f);
    FaultKeepsFlags(f);
    MaskedIsPossible(After(f).0);
    HandleOutcome(f.before, 0, f.input);
    forall i: nat ensures ContinuesAt(fs, i) {
      assert i + 1 < |fs| ==> i == 0;
    }
  }

  // ----- the end of a run -----

  /** FINISHED is returned exactly at the first IRET that no INT of the run opened. */
  lemma {:induction false} FinishesAtUnmatchedReturn(fs: seq<Fault>, k: nat)
    requires Run(fs) && k < |fs| && Begun(fs[0].before)
    ensures (forall i :: 0 <= i < k ==> !LoadsIopl3(fs[i])) ==> FlagsKept(fs[k].before) && FlagsKept(After(fs[k]).0)
    ensures fs[k].before.level == Depth(fs, k) >= 0
    ensures After(fs[k]).1.Finished? <==> OpcodeOf(fs[k]) == IRET && Depth(fs, k) == 0
    ensures After(fs[k]).1.Finished? <==> Depth(fs, k + 1) < 0
  {
    RunInvariant(fs, 0, k);
    HandleOutcome(fs[k].before, fs[k].prefixes, fs[k].input);
    if forall i :: 0 <= i < k ==> !LoadsIopl3(fs[i]) {
      RunIsGuarded(fs, k);
      FaultKeepsFlags(fs[k]);
    }
  }

  // ----- INT and IRET, PUSHF and POPF undo each other -----

  lemma FrameReads(s: Cpu, sp: Long)
    ensures Read16(PushFrame(s, sp), sp) == WordOf(Wrap(s.eip + 2))
    ensures Read16(PushFrame(s, sp), Wrap(sp + 2)) == WordOf(s.cs)
    ensures Read16(PushFrame(s, sp), Wrap(sp + 4)) == Virtual16(s.eflags, s.cpuIf)
  {
    var first := Write16(s.mem, sp, WordOf(Wrap(s.eip + 2)));
    var second := Write16(first, Wrap(sp + 2), WordOf(s.cs));
    WordRoundTrip(s.mem, sp, WordOf(Wrap(s.eip + 2)), sp);
    WordRoundTrip(first, Wrap(sp + 2), WordOf(s.cs), sp);
    WordRoundTrip(second, Wrap(sp + 4), Virtual16(s.eflags, s.cpuIf), sp);
    WordRoundTrip(second, Wrap(sp + 4), Virtual16(s.eflags, s.cpuIf), Wrap(sp + 2));
  }

  // t looks at the same stack position as s.
  ghost predicate SameStack(s: Cpu, t: Cpu) { t.ss == s.ss && Low16(t.esp) == Low16(s.esp) }

  ghost predicate SameWord(s: Cpu, t: Cpu, a: Long) { Read16(t.mem, a) == Read16(s.mem, a) }

  ghost predicate FrameIntact(s: Cpu, t: Cpu) {
    var sp := Linear(s.ss, s.esp);
    SameStack(s, t) && SameWord(s, t, sp) && SameWord(s, t, Wrap(sp + 2)) && SameWord(s, t, Wrap(sp + 4))
  }

  // Virtual interrupt flag and stack offset as they were at s.
  ghost predicate Restored(s: Cpu, t: Cpu) {
    t.cpuIf == s.cpuIf && t.ss == s.ss && t.esp == Low16(s.esp)
  }

  // At the instruction that follows the two-byte INT at s.
  ghost predicate Resumed(s: Cpu, t: Cpu) {
    && Restored(s, t)
    && t.eflags.low == s.eflags.low
    && t.cs == Low16(s.cs)
    && t.eip == Low16(Wrap(s.eip + 2))
  }

  lemma ReturnUndoesInterrupt(s: Cpu, ip: Long, t: Cpu)
    requires HasIf(s.eflags.low)
    requires 6 <= Low16(s.esp)
    requires FrameIntact(Interrupt(s, ip), t)
    ensures Resumed(s, InterruptReturn(t).0)
  {
    PopFrameUndoesInterrupt(s, ip, t);
  }

  lemma PopFrameUndoesInterrupt(s: Cpu, ip: Long, t: Cpu)
    requires HasIf(s.eflags.low)
    requires 6 <= Low16(s.esp)
    requires FrameIntact(Interrupt(s, ip), t)
    ensures Resumed(s, PopFrame(t))
  {
    PushedWhereFound(s.ss, s.esp, 6);
    var i := Interrupt(s, ip);
    var sp := Linear(i.ss, i.esp);
    assert Linear(t.ss, t.esp) == sp;
    FrameReads(s, sp);
    BitSet(s.eflags.low.high, s.cpuIf);
    WordValue(s.cs);
    WordValue(Wrap(s.eip + 2));
    PopUndoesPush(s.esp, 6, t.esp);
  }

  /**
   * In any run, an IRET that closes an INT (as many INTs as IRETs between them)
   * and finds its frame untouched resumes after that INT with the level it had.
   */
  lemma NestedInterruptRestores(fs: seq<Fault>, k: nat, m: nat)
    requires Run(fs) && k < m < |fs|
    requires OpcodeOf(fs[k]) == INT && OpcodeOf(fs[m]) == IRET
    requires Depth(fs, m) == Depth(fs, k + 1)
    requires HasIf(fs[k].before.eflags.low)
    requires 6 <= Low16(fs[k].before.esp)
    requires FrameIntact(After(fs[k]).0, AtOpcode(fs[m].before, fs[m].prefixes))
    ensures After(fs[m]).1.Successful?
    ensures After(fs[m]).0.level == fs[k].before.level
    ensures Resumed(AtOpcode(fs[k].before, fs[k].prefixes), After(fs[m]).0)
  {
    RunInvariant(fs, k, m);
    HandleOutcome(fs[m].before, fs[m].prefixes, fs[m].input);
    ReturnUndoesInterrupt(AtOpcode(fs[k].before, fs[k].prefixes), Ahead(Ip(fs[k].before), fs[k].prefixes),
                          AtOpcode(fs[m].before, fs[m].prefixes));
  }

  /** POPF takes back what PUSHF put on the stack. */
  lemma PopfUndoesPushf16(s: Cpu, t: Cpu)
    requires HasIf(s.eflags.low)
    requires 2 <= Low16(s.esp)
    requires SameStack(Pushf(s, false), t) && SameWord(Pushf(s, false), t, Linear(t.ss, t.esp))
    ensures Restored(s, Popf(t, false)) && Popf(t, false).eflags.low == s.eflags.low
  {
    PushedWhereFound(s.ss, s.esp, 2);
    WordRoundTrip(s.mem, Linear(t.ss, t.esp), Virtual16(s.eflags, s.cpuIf), Linear(t.ss, t.esp));
    BitSet(s.eflags.low.high, s.cpuIf);
    PopUndoesPush(s.esp, 2, t.esp);
  }

  lemma PopfUndoesPushf32(s: Cpu, t: Cpu)
    requires 4 <= Low16(s.esp)
    requires SameStack(Pushf(s, true), t) && SameWord(Pushf(s, true), t, Linear(t.ss, t.esp))
    ensures Restored(s, Popf(t, true)) && Valid(Popf(t, true).eflags.low) == Valid(s.eflags.low)
  {
    PushedWhereFound(s.ss, s.esp, 4);
    var sp := Linear(t.ss, t.esp);
    var w := Virtual32(s.eflags, s.cpuIf);
    WordRoundTrip(s.mem, sp, w, sp);
    WordRoundTrip(Write16(s.mem, sp, w), Wrap(sp + 2), Word(0, 0), sp);
    Valid32(s.eflags.low, s.cpuIf);
    PopUndoesPush(s.esp, 4, t.esp);
  }

  lemma Valid32(w: Word, cpuIf: bool)
    ensures HasIf(WithIf(Valid(w), cpuIf)) == cpuIf
    ensures Valid(Forced(Valid(WithIf(Valid(w), cpuIf))).low) == Valid(w)
  {
    var v := Valid(w);
    BitSet(w.high % 16, false);
    BitSet(v.high, cpuIf);
    ValidIsStable(v, cpuIf);
    ValidIsStable(v, true);
  }

  lemma ValidIsStable(v: Word, on: bool)
    requires v.high < 16 && !Bit1(v.high)
    ensures Valid(WithIf(v, on)) == v
  {
    ValidBit(v.high, on);
  }

  // The flags word on top of the guest's stack.
  ghost function GuestFlags(s: Cpu): Word { Read16(s.mem, Linear(s.ss, s.esp)) }

  ghost function Virtual(s: Cpu, operands32: bool): Word {
    if operands32 then Virtual32(s.eflags, s.cpuIf) else Virtual16(s.eflags, s.cpuIf)
  }

  /** PUSHF leaves the guest's view of its flags on top of the stack. */
  lemma PushedFlagsAreFound(s: Cpu, operands32: bool)
    requires 4 <= Low16(s.esp)
    ensures GuestFlags(Pushf(s, operands32)) == Virtual(s, operands32)
  {
    var sp := Linear(s.ss, s.esp);
    if operands32 {
      PushedWhereFound(s.ss, s.esp, 4);
      var w := Virtual32(s.eflags, s.cpuIf);
      WordRoundTrip(s.mem, Wrap(sp - 4), w, Wrap(sp - 4));
      WordRoundTrip(Write16(s.mem, Wrap(sp - 4), w), Wrap(sp - 2), Word(0, 0), Wrap(sp - 4));
    } else {
      PushedWhereFound(s.ss, s.esp, 2);
      WordRoundTrip(s.mem, Wrap(sp - 2), Virtual16(s.eflags, s.cpuIf), Wrap(sp - 2));
    }
  }

  lemma ImmediateReturn(s: Cpu, ip: Long)
    ensures HasIf(s.eflags.low) && 6 <= Low16(s.esp) ==> Resumed(s, InterruptReturn(Interrupt(s, ip)).0)
  {
    if HasIf(s.eflags.low) && 6 <= Low16(s.esp) {
      ReturnUndoesInterrupt(s, ip, Interrupt(s, ip));
    }
  }

  // ----- what each instruction does, byte by byte -----

  const LIMIT32 := 0x1_0000_0000

  ghost function StackTop(s: Cpu): int { s.ss % 0x1_0000 * 16 + s.esp % 0x1_0000 }

  // The bytes from a on are stored and all others stay.
  ghost predicate Stored(before: Memory, after: Memory, a: int, bytes: seq<Byte>) {
    forall x: Long :: var i := (x - a) % LIMIT32; after(x) == if i < |bytes| then bytes[i] else before(x)
  }

  // The second byte of a flags word with the interrupt flag, its bit 1, on or off.
  ghost predicate FlagByte(b: Byte, c: Byte, on: bool) { c % 2 == b % 2 && c / 4 == b / 4 && (c / 2 % 2 == 1 <==> on) }

  // The same with bits 4 to 7 cleared.
  ghost predicate MaskedByte(b: Byte, c: Byte, on: bool) {
    c % 2 == b % 2 && c / 4 == b % 16 / 4 && (c / 2 % 2 == 1 <==> on)
  }

  // Two bytes from a on.
  ghost function WordAt(mem: Memory, a: int): int { mem(a % LIMIT32) + 0x100 * mem((a + 1) % LIMIT32) }

  ghost predicate PushfDone(s: Cpu, wide: bool, t: Cpu) {
    exists c: Byte ::
      if wide then
        && MaskedByte(s.eflags.low.high, c, s.cpuIf)
        && Stored(s.mem, t.mem, StackTop(s) - 4, [s.eflags.low.low, c, 0, 0])
        && t == s.(mem := t.mem, esp := (s.esp - 4) % 0x1_0000, eip := (s.eip + 1) % LIMIT32)
      else
        && FlagByte(s.eflags.low.high, c, s.cpuIf)
        && Stored(s.mem, t.mem, StackTop(s) - 2, [s.eflags.low.low, c])
        && t == s.(mem := t.mem, esp := (s.esp - 2) % 0x1_0000, eip := (s.eip + 1) % LIMIT32)
  }

  // The flags taken from address a: the interrupt flag becomes virtual, the real one and the mode stay on.
  ghost predicate FlagsLoaded(mem: Memory, a: int, wide: bool, t: Cpu) {
    var b := mem((a + 1) % LIMIT32);
    && (t.cpuIf <==> b / 2 % 2 == 1)
    && t.eflags.low.low == mem(a % LIMIT32)
    && (if wide then MaskedByte(b, t.eflags.low.high, true) else FlagByte(b, t.eflags.low.high, true))
    && t.eflags.high == Word(2, 0)
  }

  ghost predicate PopfDone(s: Cpu, wide: bool, t: Cpu) {
    && FlagsLoaded(s.mem, StackTop(s), wide, t)
    && t == s.(eflags := t.eflags, cpuIf := t.cpuIf, eip := (s.eip + 1) % LIMIT32,
               esp := (s.esp + if wide then 4 else 2) % 0x1_0000)
  }

  // Return address, code segment and flags are pushed; then the guest goes where the interrupt table says.
  ghost predicate IntDone(s: Cpu, ip: Long, t: Cpu) {
    var back := s.eip + 2;
    && (exists c: Byte ::
          && FlagByte(s.eflags.low.high, c, s.cpuIf)
          && Stored(s.mem, t.mem, StackTop(s) - 6,
                    [back % 0x100, back / 0x100 % 0x100, s.cs % 0x100, s.cs / 0x100 % 0x100, s.eflags.low.low, c]))
    && GoesTo(t.mem, t.mem((ip + 1) % LIMIT32), t.cs, t.eip)
    && t == s.(mem := t.mem, cs := t.cs, eip := t.eip, esp := (s.esp - 6) % 0x1_0000, level := s.level + 1)
  }

  // Entry v of the interrupt table at address 0: two bytes of offset, two bytes of segment.
  ghost predicate GoesTo(mem: Memory, v: Byte, cs: Long, eip: Long) {
    && eip == mem(4 * v) + 0x100 * mem(4 * v + 1)
    && cs == mem(4 * v + 2) + 0x100 * mem(4 * v + 3)
  }

  ghost predicate IretDone(s: Cpu, t: Cpu, result: Result) {
    && t.eip == WordAt(s.mem, StackTop(s)) && t.cs == WordAt(s.mem, StackTop(s) + 2)
    && FlagsLoaded(s.mem, StackTop(s) + 4, false, t)
    && t == s.(eip := t.eip, cs := t.cs, eflags := t.eflags, cpuIf := t.cpuIf, esp := (s.esp + 6) % 0x1_0000,
               level := t.level, out := t.out)
    && if s.level == 0 then result == Finished && t.level == 0 && HalvesOf(s.regs, t.out)
       else result == Successful && t.level == s.level - 1 && t.out == s.out
  }

  ghost predicate HalvesOf(r: Registers, o: Registers) {
    && o.eax == r.eax % 0x1_0000 && o.ebx == r.ebx % 0x1_0000 && o.ecx == r.ecx % 0x1_0000 && o.edx == r.edx % 0x1_0000
    && o.edi == r.edi % 0x1_0000 && o.esi == r.esi % 0x1_0000 && o.ds == r.ds % 0x1_0000 && o.es == r.es % 0x1_0000
  }

  // Port accesses: the port is the low half of edx, the value the low byte or half of eax.
  ghost predicate PortDone(s: Cpu, opcode: Byte, input: Word, t: Cpu) {
    var port := Word(s.regs.edx % 0x100, s.regs.edx / 0x100 % 0x100);
    && t == s.(ports := t.ports, regs := s.regs.(eax := t.regs.eax), eip := (s.eip + 1) % LIMIT32)
    && t.ports == s.ports + (
         if opcode == 0xEE then [ByteTo(port, s.regs.eax % 0x100)]
         else if opcode == 0xEF then [WordTo(port, Word(s.regs.eax % 0x100, s.regs.eax / 0x100 % 0x100))] else [])
    && (if opcode == 0xEC then t.regs.eax / 0x100 == s.regs.eax / 0x100 && t.regs.eax % 0x100 == input.low
        else if opcode == 0xED then
          t.regs.eax / 0x1_0000 == s.regs.eax / 0x1_0000 && t.regs.eax % 0x1_0000 == input.low + 0x100 * input.high
        else t.regs.eax == s.regs.eax)
  }

  // One instruction at ip, told by its opcode.
  ghost predicate Done(s: Cpu, ip: Long, wide: bool, input: Word, t: Cpu, result: Result) {
    var opcode := s.mem(ip);
    if opcode == 0x9C then result == Successful && PushfDone(s, wide, t)
    else if opcode == 0x9D then result == Successful && PopfDone(s, wide, t)
    else if opcode == 0xCD then result == Successful && IntDone(s, ip, t)
    else if opcode == 0xCF then IretDone(s, t, result)
    else if opcode == 0xFA || opcode == 0xFB then
      result == Successful && t == s.(cpuIf := opcode == 0xFB, eip := (s.eip + 1) % LIMIT32)
    else if 0xEC <= opcode <= 0xEF then result == Successful && PortDone(s, opcode, input, t)
    else result == Unhandled && t == s
  }

  lemma WrapIsModulus(x: int)
    requires -LIMIT32 <= x < 2 * LIMIT32
    ensures Wrap(x) == x % LIMIT32
  {
    if x < 0 { assert x == LIMIT32 * -1 + (x + LIMIT32); }
    if x >= LIMIT32 { assert x == LIMIT32 * 1 + (x - LIMIT32); }
  }

  lemma StackSteps(esp: Long, bytes: nat)
    requires bytes <= 6
    ensures Down(esp, bytes) == (esp - bytes) % 0x1_0000 && Up(esp, bytes) == (esp + bytes) % 0x1_0000
  {
  }

  lemma BitIsSet(b: Byte, on: bool)
    ensures FlagByte(b, WithBit1(b, on), on)
    ensures Bit1(b) <==> b / 2 % 2 == 1
  {
    var q, r := b / 4, b % 4;
    assert b == 4 * q + r && b / 2 == 2 * q + r / 2 && b % 2 == r % 2;
    var c := WithBit1(b, on);
    var x := c - 4 * q;
    assert 0 <= x < 4 && c == 4 * q + x && c / 2 == 2 * q + x / 2 && c % 2 == x % 2;
  }

  lemma MaskIsSet(b: Byte, on: bool)
    ensures MaskedByte(b, WithBit1(WithBit1(b % 16, false), on), on)
  {
    var low: Byte := b % 16;
    assert low % 2 == b % 2;
    BitIsSet(low, false);
    BitIsSet(WithBit1(low, false), on);
  }

  lemma StoreWord(mem: Memory, a: Long, w: Word)
    ensures Stored(mem, Write16(mem, a, w), a, [w.low, w.high])
  {
    WrapIsModulus(a + 1);
    forall x: Long
      ensures var i := (x - a) % LIMIT32; Write16(mem, a, w)(x) == if i < 2 then [w.low, w.high][i] else mem(x)
    {
      WrapIsModulus(x - a);
    }
  }

  // Bytes stored behind bytes stored before.
  lemma StoreMore(m0: Memory, m1: Memory, m2: Memory, a: int, bs: seq<Byte>, cs: seq<Byte>)
    requires Stored(m0, m1, a, bs) && Stored(m1, m2, a + |bs|, cs) && |bs| + |cs| <= 6
    ensures Stored(m0, m2, a, bs + cs)
  {
    forall x: Long
      ensures var i := (x - a) % LIMIT32; m2(x) == if i < |bs + cs| then (bs + cs)[i] else m0(x)
    {
      OffsetFrom(x - a, |bs|);
    }
  }

  lemma OffsetFrom(y: int, n: nat)
    requires n <= 6
    ensures var i, j := y % LIMIT32, (y - n) % LIMIT32; j == if i >= n then i - n else i - n + LIMIT32
  {
    assert (y - n) % LIMIT32 == (y % LIMIT32 - n) % LIMIT32;
  }

  lemma StackTopIs(s: Cpu)
    ensures Linear(s.ss, s.esp) == StackTop(s) && 0 <= StackTop(s) < 0x11_0000
  {
  }

  lemma PushfMeans(s: Cpu, wide: bool)
    ensures PushfDone(s, wide, Pushf(s, wide))
  {
    StackTopIs(s);
    WrapIsModulus(s.eip + 1);
    StackSteps(s.esp, if wide then 4 else 2);
    if wide {
      MaskIsSet(s.eflags.low.high, s.cpuIf);
      var w := Virtual32(s.eflags, s.cpuIf);
      StoreLong(s.mem, StackTop(s) - 4, w);
      assert [w.low, w.high, 0, 0][0] == s.eflags.low.low;
    } else {
      BitIsSet(s.eflags.low.high, s.cpuIf);
      StoreAt(s.mem, StackTop(s) - 2, Virtual16(s.eflags, s.cpuIf));
    }
  }

  // A word, and a zero word behind it.
  lemma StoreLong(mem: Memory, a: int, w: Word)
    requires -4 <= a < 0x11_0000
    ensures Stored(mem, Write16(Write16(mem, Wrap(a), w), Wrap(a + 2), Word(0, 0)), a, [w.low, w.high, 0, 0])
  {
    var m := Write16(mem, Wrap(a), w);
    StoreAt(mem, a, w);
    StoreAt(m, a + 2, Word(0, 0));
    StoreMore(mem, m, Write16(m, Wrap(a + 2), Word(0, 0)), a, [w.low, w.high], [0, 0]);
    assert [w.low, w.high] + [0, 0] == [w.low, w.high, 0, 0];
  }

  lemma StoreAt(mem: Memory, a: int, w: Word)
    requires -6 <= a < 0x12_0000
    ensures Stored(mem, Write16(mem, Wrap(a), w), a, [w.low, w.high])
  {
    StoreWord(mem, Wrap(a), w);
    forall x: Long
      ensures var i := (x - a) % LIMIT32; Write16(mem, Wrap(a), w)(x) == if i < 2 then [w.low, w.high][i] else mem(x)
    {
      assert a < 0 ==> x - a == (x - Wrap(a)) + LIMIT32;
    }
  }

  lemma ReadAt(mem: Memory, a: int)
    requires 0 <= a < 0x12_0000
    ensures Read16(mem, Wrap(a)) == Word(mem(a % LIMIT32), mem((a + 1) % LIMIT32))
    ensures Value(Read16(mem, Wrap(a))) == WordAt(mem, a)
  {
    WrapIsModulus(a);
    WrapIsModulus(a + 1);
  }

  lemma LoadMeans(mem: Memory, a: int, wide: bool, t: Cpu)
    requires 0 <= a < 0x12_0000
    requires var w := Read16(mem, Wrap(a)); t.eflags == Forced(if wide then Valid(w) else w) && t.cpuIf == HasIf(w)
    ensures FlagsLoaded(mem, a, wide, t)
  {
    ReadAt(mem, a);
    var b := Read16(mem, Wrap(a)).high;
    BitIsSet(b, true);
    MaskIsSet(b, true);
  }

  lemma PopfMeans(s: Cpu, wide: bool)
    ensures PopfDone(s, wide, Popf(s, wide))
  {
    StackTopIs(s);
    WrapIsModulus(s.eip + 1);
    StackSteps(s.esp, if wide then 4 else 2);
    LoadMeans(s.mem, StackTop(s), wide, Popf(s, wide));
  }

  lemma VectorMeans(mem: Memory, v: Byte)
    ensures GoesTo(mem, v, Vector(mem, v).0, Vector(mem, v).1)
  {
  }

  lemma FrameStored(s: Cpu)
    ensures exists c: Byte ::
              && FlagByte(s.eflags.low.high, c, s.cpuIf)
              && Stored(s.mem, WithFrame(s).mem, StackTop(s) - 6,
                        [(s.eip + 2) % 0x100, (s.eip + 2) / 0x100 % 0x100, s.cs % 0x100, s.cs / 0x100 % 0x100,
                         s.eflags.low.low, c])
  {
    StackTopIs(s);
    var a := StackTop(s) - 6;
    var back, cs, flags := WordOf(Wrap(s.eip + 2)), WordOf(s.cs), Virtual16(s.eflags, s.cpuIf);
    BitIsSet(s.eflags.low.high, s.cpuIf);
    LowBytes(s.eip + 2);
    NextWord(a, 2);
    NextWord(a, 4);
    var m1 := Write16(s.mem, Wrap(a), back);
    var m2 := Write16(m1, Wrap(a + 2), cs);
    var m3 := Write16(m2, Wrap(a + 4), flags);
    StoreAt(s.mem, a, back);
    StoreAt(m1, a + 2, cs);
    StoreMore(s.mem, m1, m2, a, [back.low, back.high], [cs.low, cs.high]);
    StoreAt(m2, a + 4, flags);
    var four := [back.low, back.high] + [cs.low, cs.high];
    StoreMore(s.mem, m2, m3, a, four, [flags.low, flags.high]);
    assert four + [flags.low, flags.high] == [back.low, back.high, cs.low, cs.high, flags.low, flags.high];
    assert WithFrame(s).mem == m3;
  }

  lemma NextWord(a: int, n: nat)
    requires -6 <= a < 0x11_0000 && n <= 4
    ensures Wrap(Wrap(a) + n) == Wrap(a + n)
  {
  }

  lemma LowBytes(x: int)
    requires 0 <= x < LIMIT32 + 2
    ensures WordOf(Wrap(x)) == Word(x % 0x100, x / 0x100 % 0x100)
  {
    if x >= LIMIT32 { assert x == LIMIT32 + Wrap(x); }
  }

  lemma IntMeans(s: Cpu, ip: Long)
    ensures IntDone(s, ip, Interrupt(s, ip))
  {
    FrameStored(s);
    StackSteps(s.esp, 6);
    WrapIsModulus(ip + 1);
    VectorMeans(WithFrame(s).mem, WithFrame(s).mem(Wrap(ip + 1)));
  }

  lemma IretMeans(s: Cpu)
    ensures IretDone(s, InterruptReturn(s).0, InterruptReturn(s).1)
  {
    StackTopIs(s);
    StackSteps(s.esp, 6);
    ReadAt(s.mem, StackTop(s));
    ReadAt(s.mem, StackTop(s) + 2);
    LoadMeans(s.mem, StackTop(s) + 4, false, InterruptReturn(s).0);
  }

  lemma IretKeepsFlags(s: Cpu)
    ensures FlagsKept(InterruptReturn(s).0)
  {
    ForcedKeepsFlags(Read16(s.mem, Wrap(Linear(s.ss, s.esp) + 4)));
  }

  lemma PortMeans(s: Cpu, ip: Long, wide: bool, input: Word)
    requires 0xEC <= s.mem(ip) <= 0xEF
    ensures PortDone(s, s.mem(ip), input, Emulate(s, ip, wide, input).0)
  {
    WrapIsModulus(s.eip + 1);
    LowPart(s.regs.eax, 0x100, input.low);
    LowPart(s.regs.eax, 0x1_0000, Value(input));
  }

  lemma LowPart(x: Long, size: int, v: int)
    requires 0 <= v < size && (size == 0x100 || size == 0x1_0000)
    ensures (x - x % size + v) / size == x / size && (x - x % size + v) % size == v
  {
  }

  /** The emulator does what the instruction at ip asks for. */
  lemma EmulateMeans(s: Cpu, ip: Long, wide: bool, input: Word)
    ensures Done(s, ip, wide, input, Emulate(s, ip, wide, input).0, Emulate(s, ip, wide, input).1)
  {
    var opcode := s.mem(ip);
    if opcode == 0x9C {
      PushfMeans(s, wide);
    } else if opcode == 0x9D {
      PopfMeans(s, wide);
    } else if opcode == 0xCD {
      IntMeans(s, ip);
    } else if opcode == 0xCF {
      IretMeans(s);
    } else if 0xEC <= opcode <= 0xEF {
      PortMeans(s, ip, wide, input);
    } else {
      WrapIsModulus(s.eip + 1);
    }
  }

  lemma {:induction false} AheadIsSum(a: Long, n: nat)
    ensures Ahead(a, n) == (a + n) % LIMIT32
  {
    if n > 0 {
      AheadIsSum(a, n - 1);
      OneFurther(a + n - 1);
    }
  }

  lemma OneFurther(x: int)
    ensures Wrap(x % LIMIT32 + 1) == (x + 1) % LIMIT32
  {
    WrapIsModulus(x % LIMIT32 + 1);
  }

  // One fault: n prefixes are skipped and one instruction is carried out, with 32-bit operands if 0x66 is among them.
  ghost predicate FaultDone(s: Cpu, n: nat, input: Word, t: Cpu, result: Result) {
    var at := s.cs % 0x1_0000 * 16 + s.eip % 0x1_0000;
    Done(s.(eip := (s.eip + n) % LIMIT32), (at + n) % LIMIT32, Wide(s.mem, at, n), input, t, result)
  }

  ghost predicate Wide(mem: Memory, at: int, n: nat) { exists i: nat :: i < n && PrefixAt(mem, at, i) }

  ghost predicate PrefixAt(mem: Memory, at: int, i: nat) { mem((at + i) % LIMIT32) == 0x66 }

  lemma SamePrefixes(mem: Memory, at: Long, n: nat)
    ensures Wide(mem, at, n) <==> Operands32(mem, at, n)
  {
    forall i: nat ensures PrefixAt(mem, at, i) <==> mem(Ahead(at, i)) == 0x66 {
      AheadIsSum(at, i);
    }
  }

  lemma HandleIs(s: Cpu, n: nat, input: Word)
    ensures var at := s.cs % 0x1_0000 * 16 + s.eip % 0x1_0000;
      Handle(s, n, input) ==
      Emulate(s.(eip := (s.eip + n) % LIMIT32), (at + n) % LIMIT32, Wide(s.mem, at, n), input)
  {
    AheadIsSum(s.eip, n);
    AheadIsSum(Ip(s), n);
    SamePrefixes(s.mem, Ip(s), n);
  }

  /** A whole fault does what the bytes at the guest's program counter ask for. */
  lemma HandleMeans(s: Cpu, n: nat, input: Word)
    ensures FaultDone(s, n, input, Handle(s, n, input).0, Handle(s, n, input).1)
  {
    var at := s.cs % 0x1_0000 * 16 + s.eip % 0x1_0000;
    HandleIs(s, n, input);
    FaultMeans(s, n, (at + n) % LIMIT32, Wide(s.mem, at, n), input);
  }

  lemma FaultMeans(s: Cpu, n: nat, ip: Long, wide: bool, input: Word)
    ensures var u := s.(eip := (s.eip + n) % LIMIT32);
      Done(u, ip, wide, input, Emulate(u, ip, wide, input).0, Emulate(u, ip, wide, input).1)
  {
    EmulateMeans(s.(eip := (s.eip + n) % LIMIT32), ip, wide, input);
  }

  // ----- the handler -----

  function NextPage(a: Long): int { a - a % 0x1000 + 0x1000 }

  lemma StackSegment(a: Long)
    ensures var ss := NextPage(a) / 16;
      0 <= ss < 0x1_0000_0000 && ss * 16 % 0x1000 == 0 && a < ss * 16 <= a + 0x1000
  {
    var q := a / 0x1000;
    assert NextPage(a) == (q + 1) * 0x1000 == (q + 1) * 0x100 * 16;
    assert NextPage(a) / 16 == (q + 1) * 0x100;
  }

  class Vm86Thread {
    var eip: Long
    var cs: Long
    var ss: Long
    var esp: Long
    var eflags: Flags
    var regs: Registers
    var cpuIf: bool
    var level: nat
    var out: Registers
    var ports: seq<PortWrite>
    var mem: Memory

    ghost function State(): Cpu
      reads this
    {
      Cpu(eip, cs, ss, esp, eflags, regs, cpuIf, level, out, ports, mem)
    }

    // A new virtual-8086 task, about to run an interrupt of the table, on a stack of one page.
    constructor (mem: Memory, interrupt: Byte, userStack: Long, regs: Registers)
      ensures Started(State()) && this.mem == mem && this.regs == regs && ports == []
      ensures GoesTo(mem, interrupt, cs, eip)
      ensures ss * 16 % 0x1000 == 0 && userStack < ss * 16 <= userStack + 0x1000 && esp == 0x1000
    {
      StackSegment(userStack);
      VectorMeans(mem, interrupt);
      var (segment, offset) := Vector(mem, interrupt);
      this.mem, this.regs := mem, regs;
      this.cs, this.eip := segment, offset;
      this.ss, this.esp := NextPage(userStack) / 16, 0x1000;
      this.eflags, this.cpuIf, this.level := Flags(Word(2, 2), Word(2, 0)), false, 0;
      this.out, this.ports := regs, [];
    }

    method PushFlags(operands32: bool)
      modifies this
      ensures State() == Pushf(old(State()), operands32) && PushfDone(old(State()), operands32, State())
      ensures 4 <= old(Low16(esp)) ==> GuestFlags(State()) == Virtual(old(State()), operands32)
    {
      PushfMeans(State(), operands32);
      if 4 <= Low16(esp) {
        PushedFlagsAreFound(State(), operands32);
      }
      var sp: int := Linear(ss, esp);
      if operands32 {
        esp := Down(esp, 4);
        mem := Write16(mem, Wrap(sp - 4), WithIf(Valid(eflags.low), cpuIf));
        mem := Write16(mem, Wrap(sp - 2), Word(0, 0));
      } else {
        esp := Down(esp, 2);
        mem := Write16(mem, Wrap(sp - 2), WithIf(eflags.low, cpuIf));
      }
      eip := Wrap(eip + 1);
    }

    method PopFlags(operands32: bool)
      modifies this
      ensures State() == Popf(old(State()), operands32) && PopfDone(old(State()), operands32, State())
      ensures FlagsKept(State()) && cpuIf == HasIf(old(GuestFlags(State())))
    {
      PopfMeans(State(), operands32);
      BitSet(Read16(mem, Linear(ss, esp)).high, true);
      BitSet(Valid(Read16(mem, Linear(ss, esp))).high, true);
      var w := Read16(mem, Linear(ss, esp));
      if operands32 {
        eflags := Forced(Valid(w));
        esp := Up(esp, 4);
      } else {
        eflags := Forced(w);
        esp := Up(esp, 2);
      }
      cpuIf := HasIf(w);
      eip := Wrap(eip + 1);
    }

    method PushWord(sp: Long, w: Word)
      modifies `mem
      ensures mem == Write16(old(mem), sp, w)
    {
      mem := Write16(mem, sp, w);
    }

    method GiveFrame()
      modifies `mem, `esp
      ensures State() == WithFrame(old(State()))
    {
      var sp: int := Wrap(Linear(ss, esp) - 6);
      PushWord(sp, WordOf(Wrap(eip + 2)));
      PushWord(Wrap(sp + 2), WordOf(cs));
      PushWord(Wrap(sp + 4), WithIf(eflags.low, cpuIf));
      esp := Down(esp, 6);
    }

    method Enter(interrupt: Byte)
      modifies `cs, `eip, `level
      ensures State() == Entered(old(State()), Vector(mem, interrupt))
    {
      var (segment, offset) := Vector(mem, interrupt);
      cs, eip, level := segment, offset, level + 1;
    }

    /** INT leaves a frame from which an IRET resumes right behind it. */
    method RaiseInterrupt(ip: Long)
      modifies this
      ensures State() == Interrupt(old(State()), ip) && IntDone(old(State()), ip, State())
      ensures HasIf(old(eflags).low) && 6 <= old(Low16(esp)) ==> Resumed(old(State()), InterruptReturn(State()).0)
    {
      ghost var s := State();
      GiveFrame();
      Enter(mem(Wrap(ip + 1)));
      ImmediateReturn(s, ip);
      IntMeans(s, ip);
    }

    method TakeFrame()
      modifies this
      ensures State() == PopFrame(old(State()))
    {
      var sp := Linear(ss, esp);
      var flags := Read16(mem, Wrap(sp + 4));
      eip := Value(Read16(mem, sp));
      cs := Value(Read16(mem, Wrap(sp + 2)));
      eflags := Forced(flags);
      cpuIf := HasIf(flags);
      esp := Up(esp, 6);
    }

    method ReturnFromInterrupt() returns (result: Result)
      modifies this
      ensures (State(), result) == InterruptReturn(old(State())) && IretDone(old(State()), State(), result)
      ensures FlagsKept(State()) && (result == Finished <==> old(level) == 0)
    {
      ghost var s := State();
      TakeFrame();
      result := if level == 0 then Finished else Successful;
      if level == 0 {
        out := Reported(regs);
      } else {
        level := level - 1;
      }
      assert (State(), result) == InterruptReturn(s);
      IretMeans(s);
      IretKeepsFlags(s);
    }

    method AccessPort(ip: Long, operands32: bool, input: Word)
      requires mem(ip) in {OUTB, OUTW, INB, INW}
      modifies `regs, `ports, `eip
      ensures (State(), Successful) == Emulate(old(State()), ip, operands32, input)
    {
      var opcode := mem(ip);
      if opcode == OUTB {
        ports := ports + [ByteOut(regs)];
      } else if opcode == OUTW {
        ports := ports + [WordOut(regs)];
      } else if opcode == INB {
        regs := ByteIn(regs, input);
      } else {
        regs := WordIn(regs, input);
      }
      eip := Wrap(eip + 1);
    }

    method Execute(ip: Long, operands32: bool, input: Word) returns (result: Result)
      modifies this
      ensures (State(), result) == Emulate(old(State()), ip, operands32, input)
    {
      var opcode := mem(ip);
      result := Successful;
      if opcode == PUSHF {
        PushFlags(operands32);
      } else if opcode == POPF {
        PopFlags(operands32);
      } else if opcode == INT {
        RaiseInterrupt(ip);
      } else if opcode == IRET {
        result := ReturnFromInterrupt();
      } else if opcode == CLI || opcode == STI {
        cpuIf := opcode == STI;
        eip := Wrap(eip + 1);
      } else if opcode in {OUTB, OUTW, INB, INW} {
        AccessPort(ip, operands32, input);
      } else {
        result := Unhandled;
      }
    }

    // Steps over the prefixes before the instruction.
    method SkipPrefixes(ghost n: nat) returns (ip: Long, operands32: bool)
      requires Prefixed(mem, Linear(cs, eip), n)
      modifies `eip
      ensures State() == AtOpcode(old(State()), n) && ip == Ahead(old(Ip(State())), n)
      ensures operands32 <==> Operands32(mem, old(Ip(State())), n)
    {
      ip, operands32 := Linear(cs, eip), false;
      ghost var start := State();
      ghost var i := 0;
      while IsPrefix(mem(ip))
        modifies `eip
        invariant i <= n
        invariant ip == Ahead(Ip(start), i)
        invariant State() == AtOpcode(start, i)
        invariant operands32 <==> Operands32(start.mem, Ip(start), i)
        decreases n - i
      {
        assert i < n;
        if mem(ip) == 0x66 {
          operands32 := true;
        }
        assert Operands32(start.mem, Ip(start), i + 1) <==> Operands32(start.mem, Ip(start), i) || mem(ip) == 0x66;
        ip := Wrap(ip + 1);
        eip := Wrap(eip + 1);
        i := i + 1;
      }
      assert i == n;
    }

    /** One general protection fault of the guest: n prefix bytes, then an instruction. */
    method HandleGpf(input: Word, ghost n: nat) returns (result: Result)
      requires Prefixed(mem, Linear(cs, eip), n)
      modifies this
      ensures (State(), result) == Handle(old(State()), n, input)
      ensures FaultDone(old(State()), n, input, State(), result)
    {
      ghost var s := State();
      var ip, operands32 := SkipPrefixes(n);
      result := Execute(ip, operands32, input);
      HandleMeans(s, n, input);
    }
  }
}
