/** liveness_calc of src/jit.c against the handlers: which registers an instruction depends on. */
module Liveness {
  import opened Words
  import opened BlockIr
  import RegAlloc

  // ---------------------------------------------------------------- registers that are not counted are not read

  // Registers that differ in r only.
  ghost predicate Apart(x: Regs, y: Regs, r: Reg) {
    forall q: Reg :: q != r ==> x[q] == y[q]
  }

  // The two states differ in r only.
  ghost predicate Beside(s: State, t: State, r: Reg) {
    Apart(s.x, t.x, r) && s.mem == t.mem && s.pc == t.pc && s.cycle == t.cycle
  }

  // r is written alike or not at all: it holds the same, or what it held before.
  ghost predicate KeptOrSame(s: State, t: State, s': State, t': State, r: Reg) {
    s'.x[r] == t'.x[r] || (s'.x[r] == s.x[r] && t'.x[r] == t.x[r])
  }

  // The two outcomes are of one kind and differ in r only.
  ghost predicate SameKind(o: Outcome, p: Outcome) {
    match o
    case Continue(_) => p.Continue?
    case Leave(_) => p.Leave?
    case Trap(_, addr, store) => p.Trap? && p.addr == addr && p.store == store
    case CallEnv(_, ecall) => p.CallEnv? && p.ecall == ecall
  }

  // What an instruction makes of s and of t does not depend on r. Bound to a variable, the body is proved as a
  // whole, not conjunct by conjunct at every use.
  ghost predicate Unaffected(s: State, t: State, o: Outcome, p: Outcome, r: Reg) {
    var ok := SameKind(o, p) && Beside(o.s, p.s, r) && KeptOrSame(s, t, o.s, p.s, r);
    ok
  }

  lemma SetBoth(s: State, t: State, r: Reg, d: Reg, v: Word)
    requires Beside(s, t, r)
    ensures Beside(Set(s, d, v), Set(t, d, v), r) && KeptOrSame(s, t, Set(s, d, v), Set(t, d, v), r)
  {
  }

  lemma UnreadValue(i: Insn, x: Regs, y: Regs, r: Reg, pc: Word)
    requires Computes(i.opcode) && r !in RegAlloc.Uses(i) && Apart(x, y, r)
    ensures Value(i, x, pc) == Value(i, y, pc)
  {
  }

  lemma UnreadLoad(strict: bool, op: LoadOp, s: State, t: State, d: Reg, a: Word, r: Reg)
    requires Beside(s, t, r)
    ensures Unaffected(s, t, Load(strict, op, s, d, a), Load(strict, op, t, d, a), r)
  {
    var o := Load(strict, op, s, d, a);
    if o.Continue? { SetBoth(s, t, r, d, o.s.x[d]); }
  }

  lemma UnreadStore(strict: bool, op: StoreOp, s: State, t: State, a: Word, v: Word, r: Reg)
    requires Beside(s, t, r)
    ensures Unaffected(s, t, Store(strict, op, s, a, v), Store(strict, op, t, a, v), r)
  {
  }

  lemma UnreadControl(i: Insn, s: State, t: State, r: Reg)
    requires !Computes(i.opcode) && !Loads(i.opcode) && !Stores(i.opcode) && r !in RegAlloc.Uses(i) && Beside(s, t, r)
    ensures Unaffected(s, t, Control(i, s), Control(i, t), r)
  {
    if i.opcode.JAL? || i.opcode.JALR? || i.opcode.C_JAL? || i.opcode.C_JALR? {
      UnreadCall(i, s, t, r);
    } else if i.opcode.NOP? {
      SetBoth(s, t, r, 0, 0);
    } else {
      UnreadJump(i, s, t, r);
    }
  }

  lemma UnreadCall(i: Insn, s: State, t: State, r: Reg)
    requires i.opcode.JAL? || i.opcode.JALR? || i.opcode.C_JAL? || i.opcode.C_JALR?
    requires r !in RegAlloc.Uses(i) && Beside(s, t, r)
    ensures Unaffected(s, t, Control(i, s), Control(i, t), r)
  {
    if i.opcode.JAL? || i.opcode.JALR? {
      SetBoth(s, t, r, i.rd, Plus(s.pc, 4));
    } else {
      SetBoth(s, t, r, RA, Plus(s.pc, 2));
    }
  }

  lemma UnreadJump(i: Insn, s: State, t: State, r: Reg)
    requires !Computes(i.opcode) && !Loads(i.opcode) && !Stores(i.opcode) && !i.opcode.NOP?
    requires !i.opcode.JAL? && !i.opcode.JALR? && !i.opcode.C_JAL? && !i.opcode.C_JALR?
    requires r !in RegAlloc.Uses(i) && Beside(s, t, r)
    ensures Unaffected(s, t, Control(i, s), Control(i, t), r)
  {
  }

  lemma UnreadEffect(strict: bool, i: Insn, s: State, t: State, r: Reg)
    requires !IsFused(i.opcode) && r !in RegAlloc.Uses(i) && Beside(s, t, r)
    ensures Unaffected(s, t, Effect(strict, i, s), Effect(strict, i, t), r)
  {
    if Computes(i.opcode) {
      UnreadValue(i, s.x, t.x, r, s.pc);
      SetBoth(s, t, r, Dest(i), Value(i, s.x, s.pc));
    } else if Loads(i.opcode) {
      UnreadLoad(strict, if i.opcode.LOAD? then i.opcode.load else Lw, s, t, i.rd, Plus(X(s, Base(i)), i.imm), r);
    } else if Stores(i.opcode) {
      UnreadStore(strict, if i.opcode.STORE? then i.opcode.store else Sw, s, t, Plus(X(s, Base(i)), i.imm),
                  X(s, i.rs2), r);
    } else {
      UnreadControl(i, s, t, r);
    }
  }

  // ---------------------------------------------------------------- fused instructions

  lemma KeptTwice(s: State, t: State, s1: State, t1: State, s2: State, t2: State, r: Reg)
    requires KeptOrSame(s, t, s1, t1, r) && KeptOrSame(s1, t1, s2, t2, r)
    ensures KeptOrSame(s, t, s2, t2, r)
  {
  }

  // What follows a first part that does not depend on r.
  lemma ThenUnaffected(s: State, t: State, s1: State, t1: State, o: Outcome, p: Outcome, r: Reg)
    requires KeptOrSame(s, t, s1, t1, r) && Unaffected(s1, t1, o, p, r)
    ensures Unaffected(s, t, o, p, r)
  {
    KeptTwice(s, t, s1, t1, o.s, p.s, r);
  }

  lemma UnreadFuse2(strict: bool, i: Insn, s: State, t: State, r: Reg)
    requires i.opcode.FUSE2? && r != i.rs1 && Beside(s, t, r)
    ensures Unaffected(s, t, EffectFused(strict, i, s), EffectFused(strict, i, t), r)
  {
    var s1, t1 := Set(s, i.rd, i.imm), Set(t, i.rd, i.imm);
    SetBoth(s, t, r, i.rd, i.imm);
    SetBoth(s1, t1, r, i.rs2, Plus(X(s1, i.rd), X(s1, i.rs1)));
    assert X(s1, i.rd) == i.imm == X(t1, i.rd) && X(s1, i.rs1) == X(t1, i.rs1);
    ThenUnaffected(s, t, s1, t1, EffectFused(strict, i, s), EffectFused(strict, i, t), r);
  }

  lemma UnreadFuse9(strict: bool, i: Insn, s: State, t: State, r: Reg)
    requires i.opcode.FUSE9? && Beside(s, t, r)
    ensures Unaffected(s, t, EffectFused(strict, i, s), EffectFused(strict, i, t), r)
  {
    var s1, t1 := Set(s, i.rd, i.imm), Set(t, i.rd, i.imm);
    SetBoth(s, t, r, i.rd, i.imm);
    UnreadLoad(strict, Lw, s1, t1, i.rs2, Plus(i.imm, i.imm2), r);
    ThenUnaffected(s, t, s1, t1, EffectFused(strict, i, s), EffectFused(strict, i, t), r);
  }

  lemma UnreadFuse10(strict: bool, i: Insn, s: State, t: State, r: Reg)
    requires i.opcode.FUSE10? && r != i.rs1 && Beside(s, t, r)
    ensures Unaffected(s, t, EffectFused(strict, i, s), EffectFused(strict, i, t), r)
  {
    var s1, t1 := Set(s, i.rd, i.imm), Set(t, i.rd, i.imm);
    SetBoth(s, t, r, i.rd, i.imm);
    UnreadStore(strict, Sw, s1, t1, Plus(i.imm, i.imm2), X(s1, i.rs1), r);
    ThenUnaffected(s, t, s1, t1, EffectFused(strict, i, s), EffectFused(strict, i, t), r);
  }

  lemma {:induction false} UnreadFuse11(strict: bool, i: Insn, s: State, t: State, r: Reg)
    requires i.opcode.FUSE11? && r != i.rs1 && Beside(s, t, r)
    ensures Unaffected(s, t, EffectFused(strict, i, s), EffectFused(strict, i, t), r)
  {
    var a := Plus(X(s, i.rs1), i.imm);
    var o, p := Load(strict, Lw, s, i.rd, a), Load(strict, Lw, t, i.rd, a);
    UnreadLoad(strict, Lw, s, t, i.rd, a, r);
    if o.Continue? { IncrementBoth(s, t, o, p, r, i.rs1, i.imm2); }
  }

  lemma IncrementBoth(s: State, t: State, o: Outcome, p: Outcome, r: Reg, d: Reg, more: Word)
    requires Unaffected(s, t, o, p, r) && o.Continue? && r != d
    ensures var v := Plus(X(o.s, d), more);
            X(p.s, d) == X(o.s, d) && Unaffected(s, t, Continue(Set(o.s, d, v)), Continue(Set(p.s, d, v)), r)
  {
    var v := Plus(X(o.s, d), more);
    SetBoth(o.s, p.s, r, d, v);
    ThenUnaffected(s, t, o.s, p.s, Continue(Set(o.s, d, v)), Continue(Set(p.s, d, v)), r);
  }

  lemma UnreadFuse12(strict: bool, i: Insn, s: State, t: State, r: Reg)
    requires i.opcode.FUSE12? && r != i.rs1 && Beside(s, t, r)
    ensures Unaffected(s, t, EffectFused(strict, i, s), EffectFused(strict, i, t), r)
  {
    SetBoth(s, t, r, i.rd, Plus(X(s, i.rs1), i.imm));
  }

  lemma UnreadPair(strict: bool, i: Insn, s: State, t: State, r: Reg)
    requires IsFused(i.opcode) && !IsRun(i.opcode) && r !in RegAlloc.Uses(i) && Beside(s, t, r)
    ensures Unaffected(s, t, EffectFused(strict, i, s), EffectFused(strict, i, t), r)
  {
    match i.opcode
    case FUSE2 => UnreadFuse2(strict, i, s, t, r);
    case FUSE6 => SetBoth(s, t, r, A7, i.imm);
    case FUSE8 => SetBoth(s, t, r, i.rd, Plus(i.imm, i.imm2));
    case FUSE9 => UnreadFuse9(strict, i, s, t, r);
    case FUSE10 => UnreadFuse10(strict, i, s, t, r);
    case FUSE11 => UnreadFuse11(strict, i, s, t, r);
    case FUSE12 => UnreadFuse12(strict, i, s, t, r);
  }

  // The registers that one entry of a run reads.
  function EntryReads(op: Opcode, f: Fused): set<Reg> {
    if op.FUSE1? then {} else if op.FUSE3? then {f.rs1, f.rs2} else {f.rs1}
  }

  lemma SetUnaffected(s: State, t: State, r: Reg, d: Reg, v: Word)
    requires Beside(s, t, r)
    ensures Unaffected(s, t, Continue(Set(s, d, v)), Continue(Set(t, d, v)), r)
  {
    SetBoth(s, t, r, d, v);
  }

  lemma UnreadShift(f: Fused, s: State, t: State, r: Reg)
    requires r != f.rs1 && Beside(s, t, r)
    ensures Unaffected(s, t, Part(false, FUSE5, f, s), Part(false, FUSE5, f, t), r)
  {
    if f.opcode.OPIMM? { SetUnaffected(s, t, r, f.rd, EvalImm(f.opcode.iop, X(s, f.rs1), f.imm)); }
  }

  lemma UnreadPart(strict: bool, op: Opcode, f: Fused, s: State, t: State, r: Reg)
    requires IsRun(op) && r !in EntryReads(op, f) && Beside(s, t, r)
    ensures Unaffected(s, t, Part(strict, op, f, s), Part(strict, op, f, t), r)
  {
    if op.FUSE3? || op.FUSE4? {
      UnreadAccess(strict, op, f, s, t, r);
    } else if op.FUSE1? {
      SetUnaffected(s, t, r, f.rd, f.imm);
    } else if op.FUSE5? {
      UnreadShift(f, s, t, r);
    } else {
      SetUnaffected(s, t, r, f.rd, Plus(X(s, f.rs1), f.imm));
    }
  }

  lemma UnreadAccess(strict: bool, op: Opcode, f: Fused, s: State, t: State, r: Reg)
    requires (op.FUSE3? || op.FUSE4?) && r !in EntryReads(op, f) && Beside(s, t, r)
    ensures Unaffected(s, t, Part(strict, op, f, s), Part(strict, op, f, t), r)
  {
    if op.FUSE3? {
      UnreadStore(strict, Sw, s, t, Plus(X(s, f.rs1), f.imm), X(s, f.rs2), r);
    } else {
      UnreadLoad(strict, Lw, s, t, f.rd, Plus(X(s, f.rs1), f.imm), r);
    }
  }

  lemma {:induction false} UnreadParts(strict: bool, op: Opcode, fs: seq<Fused>, s: State, t: State, r: Reg)
    requires IsRun(op) && Beside(s, t, r) && forall k :: 0 <= k < |fs| ==> r !in EntryReads(op, fs[k])
    ensures Unaffected(s, t, Parts(strict, op, fs, s), Parts(strict, op, fs, t), r)
    decreases |fs|
  {
    if fs != [] {
      var o, p := Part(strict, op, fs[0], s), Part(strict, op, fs[0], t);
      UnreadPart(strict, op, fs[0], s, t, r);
      if o.Continue? {
        UnreadParts(strict, op, fs[1..], o.s, p.s, r);
        ThenUnaffected(s, t, o.s, p.s, Parts(strict, op, fs, s), Parts(strict, op, fs, t), r);
      }
    }
  }

  // No entry reads a register that is not counted for the run.
  lemma EntriesCounted(i: Insn, r: Reg)
    requires IsRun(i.opcode) && (r !in RegAlloc.Uses(i) || i.opcode.FUSE1?)
    ensures forall f :: f in RegAlloc.RunEntries(i) ==> r !in EntryReads(i.opcode, f)
  {
  }

  // ---------------------------------------------------------------- one instruction, and a whole block

  lemma AdvanceBoth(s: State, t: State, o: Outcome, p: Outcome, len: Word, r: Reg)
    requires Unaffected(s, t, o, p, r)
    ensures Unaffected(s, t, Advance(o, len), Advance(p, len), r)
  {
  }

  // s and t, when n cycles are counted.
  lemma TickBoth(s: State, t: State, n: nat, o: Outcome, p: Outcome, r: Reg)
    requires Beside(s, t, r) && Unaffected(Tick(s, n), Tick(t, n), o, p, r)
    ensures Unaffected(s, t, o, p, r)
  {
  }

  lemma UnreadStep(strict: bool, i: Insn, s: State, t: State, r: Reg)
    requires Beside(s, t, r) && (r !in RegAlloc.Uses(i) || i.opcode.FUSE1?)
    ensures Unaffected(s, t, Step(strict, i, s), Step(strict, i, t), r)
  {
    if IsRun(i.opcode) {
      UnreadRun(strict, i, s, t, r);
    } else if IsFused(i.opcode) {
      var s2, t2 := Tick(s, 2), Tick(t, 2);
      UnreadPair(strict, i, s2, t2, r);
      AdvanceBoth(s2, t2, EffectFused(strict, i, s2), EffectFused(strict, i, t2), 8, r);
      TickBoth(s, t, 2, Step(strict, i, s), Step(strict, i, t), r);
    } else {
      var s1, t1 := Tick(s, 1), Tick(t, 1);
      UnreadEffect(strict, i, s1, t1, r);
      AdvanceBoth(s1, t1, Effect(strict, i, s1), Effect(strict, i, t1), Length(i.opcode), r);
      TickBoth(s, t, 1, Step(strict, i, s), Step(strict, i, t), r);
    }
  }

  lemma UnreadRun(strict: bool, i: Insn, s: State, t: State, r: Reg)
    requires IsRun(i.opcode) && Beside(s, t, r) && (r !in RegAlloc.Uses(i) || i.opcode.FUSE1?)
    ensures Unaffected(s, t, Step(strict, i, s), Step(strict, i, t), r)
  {
    var fs, sn, tn := RegAlloc.RunEntries(i), Tick(s, i.imm2), Tick(t, i.imm2);
    EntriesCounted(i, r);
    UnreadParts(strict, i.opcode, fs, sn, tn, r);
    AdvanceBoth(sn, tn, Parts(strict, i.opcode, fs, sn), Parts(strict, i.opcode, fs, tn), Wrap(i.imm2 * 4), r);
    TickBoth(s, t, i.imm2, Step(strict, i, s), Step(strict, i, t), r);
  }

  /** A register that is not counted as read has no influence: with any other value in it, the handler ends in
      the same way, with the same memory, PC, cycle count and other registers; and the register is written alike
      or left alone. The registers that are counted for a fused run of LUI are of this kind, too. */
  lemma UncountedIsUnread(strict: bool, i: Insn, s: State, r: Reg, v: Word)
    requires r !in RegAlloc.Uses(i) || i.opcode.FUSE1?
    ensures Unaffected(s, Set(s, r, v), Step(strict, i, s), Step(strict, i, Set(s, r, v)), r)
  {
    UnreadStep(strict, i, s, Set(s, r, v), r);
  }

  lemma {:induction false} UnreadThrough(strict: bool, b: seq<Insn>, s: State, t: State, r: Reg)
    requires Beside(s, t, r) && forall k :: 0 <= k < |b| ==> r !in RegAlloc.Uses(b[k])
    ensures Unaffected(s, t, Through(strict, b, s), Through(strict, b, t), r)
    decreases |b|
  {
    if b != [] {
      var o, p := Step(strict, b[0], s), Step(strict, b[0], t);
      UnreadStep(strict, b[0], s, t, r);
      if o.Continue? {
        UnreadThrough(strict, b[1..], o.s, p.s, r);
        ThenUnaffected(s, t, o.s, p.s, Through(strict, b, s), Through(strict, b, t), r);
      }
    }
  }

  /** Behind the index that liveness_calc computes for a register, its value has no influence on the rest of
      the block: it may be dropped from the host registers. */
  lemma DeadAfterLastUse(strict: bool, b: seq<Insn>, l: RegAlloc.Liveness, r: Reg, k: nat, s: State, v: Word)
    requires RegAlloc.LastUse(b, r, l[r]) && l[r] < k <= |b|
    ensures Unaffected(s, Set(s, r, v), Through(strict, b[k..], s), Through(strict, b[k..], Set(s, r, v)), r)
  {
    UnreadThrough(strict, b[k..], s, Set(s, r, v), r);
  }

  /** regs_refresh keeps a host register alive exactly when this instruction or a later one counts its guest
      register as read. */
  lemma RefreshExactly(b: seq<Insn>, l: RegAlloc.Liveness, slot: RegAlloc.Slot, idx: nat)
    requires slot.vm != -1 && RegAlloc.LastUse(b, slot.vm, l[slot.vm])
    ensures var s := RegAlloc.Refreshed(slot, l, idx);
            s == slot.(alive := s.alive) &&
            (s.alive <==> slot.alive && exists k :: idx <= k < |b| && slot.vm in RegAlloc.Uses(b[k]))
  {
    var last := l[slot.vm];
    if last >= idx { assert slot.vm in RegAlloc.Uses(b[last]); }
  }
}
