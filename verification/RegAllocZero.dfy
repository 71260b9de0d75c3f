/** Register x0 in code generated by src/jit.c: emit_load puts zero in its host register whatever X[0]
    holds, while the interpreter's handlers read X[0]. */
module RegAllocZero {
  import opened Powers
  import opened Words
  import opened BlockIr
  import opened RegAlloc

  // Reading x0 as it is, instead of as zero, shows in the result.
  ghost predicate Shows(i: Insn, x: Regs)
    requires Computes(i.opcode)
  {
    Value(i, x, i.pc) != Value(i, x[0 := 0], i.pc)
  }

  lemma AfterTake(b: seq<Insn>, n: nat, x: Regs)
    requires AllCompute(b) && n < |b|
    ensures var y := After(b[..n], x); After(b[..n + 1], x) == y[Dest(b[n]) := Value(b[n], y, b[n].pc)]
  {
    assert b[..n + 1] == b[..n] + [b[n]];
    AfterMore(b[..n], b[n], x);
  }

  // After n instructions, code that takes x0 for zero and the interpreter have the same registers.
  ghost predicate Agree(b: seq<Insn>, n: nat, x: Regs)
    requires AllCompute(b) && n <= |b|
  {
    Seen(b[..n], x)[0 := x[0]] == After(b[..n], x)
  }

  lemma WriteBoth(y: Regs, z: Word, d: Reg, v: Word, w: Word)
    requires d != 0 && y[0] == z
    ensures y[0 := 0][d := w][0 := z] == y[d := v] <==> v == w
  {
    var p, q := y[0 := 0][d := w][0 := z], y[d := v];
    assert p[d] == w && q[d] == v;
  }

  // The registers agree after n instructions, and so they do after n + 1 unless x0 shows.
  lemma AgreeMore(b: seq<Insn>, n: nat, x: Regs)
    requires (forall k :: 0 <= k < |b| ==> Covered(b[k])) && AllCompute(b) && n < |b| && Agree(b, n, x)
    ensures Agree(b, n + 1, x) <==> !Shows(b[n], After(b[..n], x))
  {
    var i, y := b[n], After(b[..n], x);
    AfterTake(b, n, x);
    AfterTake(b, n, x[0 := 0]);
    ZeroAfter(b[..n], x[0 := 0]);
    ZeroAfter(b[..n], x);
    assert Seen(b[..n], x) == y[0 := 0];
    WriteBoth(y, x[0], Dest(i), Value(i, y, i.pc), Value(i, y[0 := 0], i.pc));
  }

  lemma {:induction false} AgreeUpTo(b: seq<Insn>, n: nat, x: Regs)
    requires (forall k :: 0 <= k < |b| ==> Covered(b[k])) && AllCompute(b) && n <= |b|
    requires forall k :: 0 <= k < n ==> !Shows(b[k], After(b[..k], x))
    ensures Agree(b, n, x)
  {
    if n == 0 {
      assert b[..0] == [];
    } else {
      AgreeUpTo(b, n - 1, x);
      AgreeMore(b, n - 1, x);
    }
  }

  /** Taking x0 for zero is right after every instruction of the block exactly when x0 never shows. */
  lemma ZeroExactly(b: seq<Insn>, x: Regs)
    requires (forall k :: 0 <= k < |b| ==> Covered(b[k])) && AllCompute(b)
    ensures (forall n :: 0 <= n <= |b| ==> Agree(b, n, x)) <==>
            (forall k :: 0 <= k < |b| ==> !Shows(b[k], After(b[..k], x)))
  {
    if k :| 0 <= k < |b| && Shows(b[k], After(b[..k], x)) {
      if Agree(b, k, x) { AgreeMore(b, k, x); }
    } else {
      forall n | 0 <= n <= |b| ensures Agree(b, n, x) { AgreeUpTo(b, n, x); }
    }
  }

  // Instructions whose result can depend on x0.
  predicate Feels(i: Insn) {
    match i.opcode
    case OPIMM(op) => i.rs1 == 0 && !(op.Andi? && i.imm == 0) && !(op.Ori? && i.imm == 0xffff_ffff)
    case OP(op) => (i.rs1 == 0 || i.rs2 == 0) && !(i.rs1 == i.rs2 && (op.Sub? || op.Xor?))
    case _ => false
  }

  lemma BitsStep(op: BitOp, a: nat, b: nat)
    requires a + b > 0
    ensures Bits(op, a, b) == 2 * Bits(op, a / 2, b / 2) + Bit(op, a % 2 == 1, b % 2 == 1)
  {
  }

  lemma HalfOnes(p: int)
    ensures (2 * p - 1) / 2 == p - 1 && (2 * p - 1) % 2 == 1
  {
  }

  lemma HalfBelow(a: nat, p: nat)
    requires a < 2 * p
    ensures a / 2 < p && a == 2 * (a / 2) + a % 2
  {
  }

  lemma {:induction false} OnesBits(a: nat, k: nat)
    requires a < Pow2(k)
    ensures var ones := Pow2(k) - 1; Bits(BitOr, a, ones) == Bits(BitOr, ones, a) == ones && Bits(BitAnd, ones, a) == a
  {
    if k > 0 {
      var p := Pow2(k - 1);
      HalfBelow(a, p);
      HalfOnes(p);
      OnesBits(a / 2, k - 1);
      BitsStep(BitOr, a, 2 * p - 1);
      BitsStep(BitOr, 2 * p - 1, a);
      BitsStep(BitAnd, 2 * p - 1, a);
    }
  }

  lemma {:induction false} ZeroBits(a: nat)
    ensures Bits(BitOr, 0, a) == a && Bits(BitAnd, 0, a) == 0 && Bits(BitXor, a, a) == 0
  {
    if a != 0 { ZeroBits(a / 2); }
  }

  lemma Ones()
    ensures Pow2(32) - 1 == 0xffff_ffff
  {
    assert Pow2(8) == 256;
    assert Pow2(16) == 65536;
    assert Pow2(24) == 0x100_0000;
  }

  lemma UnfeltImm(op: ImmOp, imm: Word, a: Word)
    requires (op.Andi? && imm == 0) || (op.Ori? && imm == 0xffff_ffff)
    ensures EvalImm(op, a, imm) == EvalImm(op, 0, imm)
  {
    if op.Andi? {
      AndZero(a);
      AndZero(0);
    } else {
      Ones();
      OnesBits(a, 32);
      OnesBits(0, 32);
    }
  }

  lemma UnfeltReg(op: RegOp, a: Word)
    requires op.Sub? || op.Xor?
    ensures EvalReg(op, a, a) == EvalReg(op, 0, 0)
  {
    ZeroBits(a);
  }

  lemma Unfelt(i: Insn, x: Regs)
    requires Covered(i) && !Feels(i)
    ensures Computes(i.opcode) && !Shows(i, x)
  {
    if i.opcode.OPIMM? && i.rs1 == 0 {
      UnfeltImm(i.opcode.iop, i.imm, x[0]);
    } else if i.opcode.OP? && i.rs1 == i.rs2 == 0 {
      UnfeltReg(i.opcode.rop, x[0]);
    }
  }

  lemma ShiftsOfOnes(n: nat)
    requires n < 32
    ensures Shl(1, n) != 0 && Shr(0xffff_ffff, n) != 0 && Sar(0xffff_ffff, n) != 0
    ensures Shl(0, n) == 0 && Shr(0, n) == 0 && Sar(0, n) == 0
  {
    Ones();
    PowGrows(n, 31 - n);
    PowGrows(n, 32 - n);
    MinusOne(Pow2(n));
  }

  lemma MinusOne(q: int)
    requires q >= 1
    ensures -1 / q == -1 && 0 / q == 0 && (q < 0xffff_ffff ==> 0xffff_ffff / q > 0)
  {
  }

  lemma {:induction false} PowGrows(n: nat, k: nat)
    ensures Pow2(n) <= Pow2(n + k) && (k > 0 ==> Pow2(n) < Pow2(n + k))
  {
    if k > 0 { PowGrows(n, k - 1); }
  }

  // A value of x0 that an operation with an immediate tells from zero.
  lemma FeltImm(op: ImmOp, imm: Word) returns (z: Word)
    requires !op.Slti? && !op.Sltiu? && !(op.Andi? && imm == 0) && !(op.Ori? && imm == 0xffff_ffff)
    ensures EvalImm(op, z, imm) != EvalImm(op, 0, imm)
  {
    Ones();
    z := if op.Addi? || op.Xori? || op.Slli? then 1 else 0xffff_ffff;
    if op.Ori? || op.Andi? {
      OnesBits(imm, 32);
      ZeroBits(imm);
    } else if op.Slli? || op.Srli? || op.Srai? {
      ShiftsOfOnes(Low5(imm));
    }
  }

  // The operations of two registers that are covered.
  predicate TwoOperands(op: RegOp) {
    op.Add? || op.Sub? || op.Xor? || op.Or? || op.And? || IsShiftReg(op)
  }

  lemma OneBit(op: BitOp, a: nat, b: nat)
    requires a <= 1 && b <= 1
    ensures Bits(op, a, b) == Bit(op, a == 1, b == 1)
  {
  }

  lemma ShiftsOfOne()
    ensures Shl(1, 0) == Shr(1, 0) == Sar(1, 0) == 1 && Shl(1, 1) == 2 && Shr(1, 1) == Sar(1, 1) == 0
    ensures Shl(0, 0) == Shr(0, 0) == Sar(0, 0) == 0
  {
    assert Pow2(0) == 1 && Pow2(1) == 2;
  }

  // x0 as first operand, with a second operand that lets it show.
  lemma FeltFirst(op: RegOp)
    requires TwoOperands(op)
    ensures var b := if op.And? then 1 else 0; EvalReg(op, 1, b) != EvalReg(op, 0, b)
  {
    if IsShiftReg(op) {
      ShiftsOfOne();
    } else if op.And? {
      OneBit(BitAnd, 1, 1);
      OneBit(BitAnd, 0, 1);
    } else if op.Or? {
      OneBit(BitOr, 1, 0);
    } else if op.Xor? {
      OneBit(BitXor, 1, 0);
    }
  }

  lemma ShiftByOne(one: Word, n: nat)
    requires one == 1 && n == 1
    ensures Shl(one, n) == 2 && Shr(one, n) == 0 && Sar(one, n) == 0
  {
    assert Pow2(n) == 2;
  }

  lemma SecondShift(op: RegOp, one: Word, zero: Word)
    requires IsShiftReg(op) && one == 1 && zero == 0
    ensures EvalReg(op, one, one) != EvalReg(op, one, zero)
  {
    ShiftByOne(one, Low5(one));
    ShiftsByZero(one);
  }

  lemma SecondBit(op: RegOp, a: Word)
    requires (op.And? && a == 1) || (op.Or? && a == 0) || (op.Xor? && a == 1)
    ensures EvalReg(op, a, 1) != EvalReg(op, a, 0)
  {
    var bit := if op.And? then BitAnd else if op.Or? then BitOr else BitXor;
    OneBit(bit, a, 1);
    OneBit(bit, a, 0);
  }

  lemma FeltSecond(op: RegOp, a: Word)
    requires TwoOperands(op) && a == if op.Or? then 0 else 1
    ensures EvalReg(op, a, 1) != EvalReg(op, a, 0)
  {
    if IsShiftReg(op) {
      SecondShift(op, a, 0);
    } else if op.And? || op.Or? || op.Xor? {
      SecondBit(op, a);
    }
  }

  lemma ShiftsByZero(a: Word)
    ensures Shl(a, 0) == Shr(a, 0) == a && (a < 0x8000_0000 ==> Sar(a, 0) == a)
  {
  }

  lemma FeltBoth(op: RegOp)
    requires TwoOperands(op) && !op.Sub? && !op.Xor?
    ensures EvalReg(op, 32, 32) != EvalReg(op, 0, 0)
  {
    if IsShiftReg(op) {
      ShiftsByZero(32);
      ShiftsByZero(0);
    } else if op.Or? {
      FiveTimes(BitOr);
      OneBit(BitOr, 1, 1);
    } else if op.And? {
      FiveTimes(BitAnd);
      OneBit(BitAnd, 1, 1);
    }
  }

  lemma Doubled(op: BitOp, n: nat)
    requires n > 0
    ensures Bits(op, 2 * n, 2 * n) == 2 * Bits(op, n, n)
  {
    assert 2 * n / 2 == n;
  }

  lemma FiveTimes(op: BitOp)
    ensures Bits(op, 32, 32) == 32 * Bits(op, 1, 1)
  {
    Doubled(op, 1);
    Doubled(op, 2);
    Doubled(op, 4);
    Doubled(op, 8);
    Doubled(op, 16);
  }

  lemma Felt(i: Insn) returns (x: Regs)
    requires Covered(i) && Feels(i)
    ensures Computes(i.opcode) && Shows(i, x)
  {
    var zeros: Regs := seq(32, _ => 0);
    if i.opcode.OPIMM? {
      var z := FeltImm(i.opcode.iop, i.imm);
      x := zeros[0 := z];
    } else {
      var op := i.opcode.rop;
      if i.rs1 == i.rs2 {
        FeltBoth(op);
        x := zeros[0 := 32];
      } else if i.rs1 == 0 {
        FeltFirst(op);
        x := zeros[i.rs2 := if op.And? then 1 else 0][0 := 1];
      } else {
        var a := if op.Or? then 0 else 1;
        FeltSecond(op, a);
        x := zeros[i.rs1 := a][0 := 1];
      }
    }
  }

  /** An instruction can be told from one that reads x0 as zero exactly when it feels x0. */
  lemma FeelsExactly(i: Insn)
    requires Covered(i)
    ensures Computes(i.opcode) && ((exists x: Regs :: Shows(i, x)) <==> Feels(i))
  {
    if Feels(i) {
      var x := Felt(i);
    } else {
      forall x: Regs ensures !Shows(i, x) { Unfelt(i, x); }
    }
  }

  /** Generated code agrees with the interpreter if x0 holds zero or no instruction feels it. */
  lemma ZeroOrUnfelt(b: seq<Insn>, x: Regs)
    requires (forall k :: 0 <= k < |b| ==> Covered(b[k])) && (x[0] == 0 || forall k :: 0 <= k < |b| ==> !Feels(b[k]))
    ensures AllCompute(b) && Seen(b, x)[0 := x[0]] == After(b, x)
  {
    assert b[..|b|] == b;
    if x[0] == 0 {
      ZeroSeen(b, x);
    } else {
      assert AllCompute(b);
      forall k | 0 <= k < |b| ensures !Shows(b[k], After(b[..k], x)) {
        Unfelt(b[k], After(b[..k], x));
      }
      AgreeUpTo(b, |b|, x);
    }
  }

  // addi x5, x0, 1 with 7 in X[0]: the interpreter computes 8, the generated code 1.
  lemma SevenInZero(x: Regs)
    requires x[0] == 7
    ensures var i := Insn(OPIMM(Addi), 5, 0, 0, 1, 0, 0, 0, []);
            Covered(i) && Computes(i.opcode) && After([i], x)[5] == 8 && Seen([i], x)[0 := x[0]][5] == 1
  {
    var i := Insn(OPIMM(Addi), 5, 0, 0, 1, 0, 0, 0, []);
    AfterMore([], i, x);
    AfterMore([], i, x[0 := 0]);
    assert [] + [i] == [i];
  }
}
