/** What the interpreter's handlers compute, said without their formulas: bit by bit, as quotient and
    remainder, as a 64-bit product, byte by byte in memory, and as calls that return. */
module HandlerLaws {
  import opened Powers
  import opened Words
  import opened BlockIr

  // ---------------------------------------------------------------- division

  lemma Times(e: int, p: int)
    requires p > 0
    ensures (e >= 1 ==> e * p >= p) && (e <= -1 ==> e * p <= -p)
  {
    if e >= 1 {
      assert (e - 1) * p >= 0;
    } else if e <= -1 {
      assert (-1 - e) * p >= 0;
    }
  }

  // Division is determined by quotient and remainder.
  lemma DivIs(x: int, p: int, q: int, r: int)
    requires p > 0 && x == q * p + r && 0 <= r < p
    ensures x / p == q && x % p == r
  {
    var d := x / p;
    assert x == p * d + x % p;
    assert (d - q) * p == r - x % p by { assert (d - q) * p == d * p - q * p; }
    Times(d - q, p);
  }

  // Halving first.
  lemma HalveDiv(x: int, q: int)
    requires q > 0
    ensures x / (2 * q) == x / 2 / q && x % (2 * q) == 2 * (x / 2 % q) + x % 2
  {
    var y := x / 2;
    var z, t := y / q, y % q;
    assert y == z * q + t;
    assert z * (2 * q) == 2 * (z * q);
    DivIs(x, 2 * q, z, 2 * t + x % 2);
  }

  // ---------------------------------------------------------------- bits

  // Bit k of an integer in two's complement.
  predicate BitAt(x: int, k: nat)
    decreases k
  {
    if k == 0 then x % 2 == 1 else BitAt(x / 2, k - 1)
  }

  lemma {:induction false} ShiftedBit(x: int, n: nat, k: nat)
    ensures BitAt(x / Pow2(n), k) <==> BitAt(x, n + k)
    decreases n
  {
    if n > 0 {
      HalveDiv(x, Pow2(n - 1));
      ShiftedBit(x / 2, n - 1, k);
    }
  }

  // A remainder by a power of two keeps the low bits.
  lemma {:induction false} LowBit(x: int, n: nat, k: nat)
    requires k < n
    ensures BitAt(x % Pow2(n), k) <==> BitAt(x, k)
    decreases k
  {
    HalveDiv(x, Pow2(n - 1));
    if k > 0 { LowBit(x / 2, n - 1, k - 1); }
  }

  // The bits above the magnitude are copies of the sign.
  lemma {:induction false} SignBits(x: int, n: nat, k: nat)
    requires 0 <= x + Pow2(n) < 2 * Pow2(n) && k >= n
    ensures BitAt(x, k) <==> x < 0
    decreases k
  {
    if k > 0 { SignBits(x / 2, if n > 0 then n - 1 else 0, k - 1); }
  }

  lemma {:induction false} MultipleBit(x: int, n: nat, k: nat)
    ensures BitAt(x * Pow2(n), k) <==> k >= n && BitAt(x, k - n)
    decreases n
  {
    if n > 0 {
      Twice(x, Pow2(n - 1));
      DoubledBit(x * Pow2(n - 1), k);
      if k > 0 { MultipleBit(x, n - 1, k - 1); }
    }
  }

  lemma Twice(x: int, p: int)
    ensures x * (2 * p) == 2 * (x * p)
  {
  }

  lemma DoubledBit(m: int, k: nat)
    ensures BitAt(2 * m, k) <==> k > 0 && BitAt(m, k - 1)
  {
  }

  lemma {:induction false} BitsAt(op: BitOp, a: nat, b: nat, k: nat)
    ensures BitAt(Bits(op, a, b), k) <==> Combined(op, BitAt(a, k), BitAt(b, k))
    decreases k
  {
    var n := Bits(op, a, b);
    assert a != 0 || b != 0 ==> n / 2 == Bits(op, a / 2, b / 2) && n % 2 == Bit(op, a % 2 == 1, b % 2 == 1);
    if k > 0 { BitsAt(op, a / 2, b / 2, k - 1); }
  }

  predicate Combined(op: BitOp, p: bool, q: bool) {
    match op
    case BitAnd => p && q
    case BitOr => p || q
    case BitXor => p <==> !q
  }

  lemma Pow32()
    ensures Pow2(32) == TWO32 && Pow2(31) == 0x8000_0000
  {
    assert Pow2(8) == 256;
    assert Pow2(16) == 65536;
    assert Pow2(24) == 0x100_0000;
  }

  lemma SignedBit(a: Word, k: nat)
    ensures BitAt(Signed(a), k) <==> BitAt(a, if k < 32 then k else 31)
  {
    Pow32();
    if k < 32 {
      LowBit(Signed(a), 32, k);
    } else {
      SignBits(Signed(a), 31, k);
      TopBit(a);
    }
  }

  lemma TopBit(a: Word)
    ensures BitAt(a, 31) <==> a >= 0x8000_0000
  {
    Pow32();
    LowBit(Signed(a), 32, 31);
    SignBits(Signed(a), 31, 31);
  }

  /** The bitwise operations, for every bit of the result. */
  lemma BitwiseHandlers(a: Word, b: Word, k: nat)
    requires k < 32
    ensures BitAt(EvalReg(And, a, b), k) <==> BitAt(a, k) && BitAt(b, k)
    ensures BitAt(EvalReg(Or, a, b), k) <==> BitAt(a, k) || BitAt(b, k)
    ensures BitAt(EvalReg(Xor, a, b), k) <==> (BitAt(a, k) <==> !BitAt(b, k))
  {
    BitsAt(BitAnd, a, b, k);
    BitsAt(BitOr, a, b, k);
    BitsAt(BitXor, a, b, k);
  }

  /** The shifts move bit k - n or k + n to place k, and fill with zeros or, in the arithmetic shift, with
      copies of the sign. */
  lemma ShiftHandlers(a: Word, b: Word, k: nat)
    requires k < 32
    ensures var n := b % 32;
            (BitAt(EvalReg(Sll, a, b), k) <==> k >= n && BitAt(a, k - n)) &&
            (BitAt(EvalReg(Srl, a, b), k) <==> BitAt(a, k + n)) &&
            (BitAt(EvalReg(Sra, a, b), k) <==> BitAt(a, if k + n < 32 then k + n else 31))
  {
    var n := b % 32;
    SllBit(a, n, k);
    ShiftedBit(a, n, k);
    SraBit(a, n, k);
  }

  lemma SllBit(a: Word, n: nat, k: nat)
    requires k < 32
    ensures BitAt(Shl(a, n), k) <==> k >= n && BitAt(a, k - n)
  {
    Pow32();
    LowBit(a * Pow2(n), 32, k);
    MultipleBit(a, n, k);
  }

  lemma SraBit(a: Word, n: nat, k: nat)
    requires k < 32
    ensures BitAt(Sar(a, n), k) <==> BitAt(a, if k + n < 32 then k + n else 31)
  {
    Pow32();
    LowBit(Signed(a) / Pow2(n), 32, k);
    ShiftedBit(Signed(a), n, k);
    SignedBit(a, n + k);
  }

  // A word has no bits beyond 31.
  lemma NoBitsBeyond(a: Word, k: nat)
    requires k >= 32
    ensures !BitAt(a, k)
  {
    Pow32();
    SignBits(a, 32, k);
  }

  /** Words with the same 32 bits are the same, so that the laws about bits determine the results. */
  lemma {:induction false} SameBits(a: nat, b: nat, n: nat)
    requires a < Pow2(n) && b < Pow2(n) && forall k :: 0 <= k < n ==> BitAt(a, k) == BitAt(b, k)
    ensures a == b
    decreases n
  {
    if n > 0 {
      assert BitAt(a, 0) == BitAt(b, 0);
      forall k | 0 <= k < n - 1 ensures BitAt(a / 2, k) == BitAt(b / 2, k) {
        assert BitAt(a, k + 1) == BitAt(b, k + 1);
      }
      SameBits(a / 2, b / 2, n - 1);
    }
  }

  // ---------------------------------------------------------------- sums and order

  /** Sum and difference are exact up to one carry or borrow of 2^32. */
  lemma SumHandlers(a: Word, b: Word)
    ensures var sum, diff := EvalReg(Add, a, b), EvalReg(Sub, a, b);
            (sum == a + b || sum == a + b - 0x1_0000_0000) && (diff == a - b || diff == a - b + 0x1_0000_0000)
  {
  }

  // By sign first: the word with bit 31 set, which is worth 2^31, is the smaller one.
  predicate Below(a: Word, b: Word) {
    if (a >= 0x8000_0000) == (b >= 0x8000_0000) then a < b else a >= 0x8000_0000
  }

  /** Signed comparison, in the set-less-than instructions and in the branches. */
  lemma SignedOrder(a: Word, b: Word)
    ensures EvalReg(Slt, a, b) == EvalImm(Slti, a, b) == (if Below(a, b) then 1 else 0)
    ensures Holds(Lt, a, b) == Below(a, b) && Holds(Ge, a, b) == !Below(a, b)
  {
  }

  /** Unsigned, a is below b exactly when their difference borrows; they are equal when it is zero. */
  lemma UnsignedOrder(a: Word, b: Word)
    ensures var borrow := EvalReg(Sub, a, b) != a - b;
            EvalReg(Sltu, a, b) == EvalImm(Sltiu, a, b) == (if borrow then 1 else 0) &&
            Holds(Ltu, a, b) == borrow && Holds(Geu, a, b) == !borrow
    ensures Holds(Eq, a, b) == (EvalReg(Sub, a, b) == 0) && Holds(Ne, a, b) == (EvalReg(Sub, a, b) != 0)
  {
  }

  // The register form of an operation with an immediate.
  function RegForm(op: ImmOp): RegOp {
    match op
    case Addi => Add
    case Slti => Slt
    case Sltiu => Sltu
    case Xori => Xor
    case Ori => Or
    case Andi => And
    case Slli => Sll
    case Srli => Srl
    case Srai => Sra
  }

  lemma ImmediateHandlers(op: ImmOp, a: Word, imm: Word)
    ensures EvalImm(op, a, imm) == EvalReg(RegForm(op), a, imm)
  {
  }

  // ---------------------------------------------------------------- products

  lemma HighLow(p: int)
    ensures 0x1_0000_0000 * High(p) + Wrap(p) == p % TWO64
    ensures -0x8000_0000_0000_0000 <= p < 0x8000_0000_0000_0000 ==> 0x1_0000_0000 * Signed(High(p)) + Wrap(p) == p
  {
  }

  // Reading an operand as signed changes a product by a multiple of 2^32.
  lemma LowWord(a: Word, b: Word)
    ensures Wrap(Signed(a) * Signed(b)) == Wrap(a * b) == Wrap(Signed(a) * b)
  {
    var sa, sb := if a < 0x8000_0000 then 0 else 1, if b < 0x8000_0000 then 0 else 1;
    assert Signed(a) == a - sa * TWO32 && Signed(b) == b - sb * TWO32;
    assert Signed(a) * b == a * b - (sa * b) * TWO32 by { Distribute(a, sa, b); }
    assert Signed(a) * Signed(b) == Signed(a) * b - (sb * Signed(a)) * TWO32 by { Distribute(b, sb, Signed(a)); }
    SameLow(a * b, -(sa * b));
    SameLow(Signed(a) * b, -(sb * Signed(a)));
  }

  lemma Distribute(a: int, s: int, b: int)
    ensures (a - s * TWO32) * b == a * b - (s * b) * TWO32 == b * (a - s * TWO32)
  {
  }

  lemma SameLow(x: int, m: int)
    ensures Wrap(x + m * TWO32) == Wrap(x)
  {
  }

  lemma Bounds(a: int, b: int, m: int, n: int)
    requires -m <= a <= m && -n <= b <= n
    ensures -(m * n) <= a * b <= m * n
  {
    assert (m - a) * (n + b) >= 0 && (m + a) * (n - b) >= 0;
    assert (m - a) * (n - b) >= 0 && (m + a) * (n + b) >= 0;
  }

  lemma ModTimes(x: int, b: int)
    ensures (x % TWO64 * b) % TWO64 == (x * b) % TWO64
  {
    var q, r := x / TWO64, x % TWO64;
    Parts64(q, r, b);
    SameMod64(r * b, q * b);
  }

  lemma Parts64(q: int, r: int, b: int)
    ensures (q * TWO64 + r) * b == r * b + (q * b) * TWO64
  {
  }

  lemma SameMod64(y: int, m: int)
    ensures (y + m * TWO64) % TWO64 == y % TWO64
  {
  }

  lemma UnsignedProduct(a: Word, b: Word)
    ensures 0x1_0000_0000 * EvalReg(Mulhu, a, b) + Wrap(a * b) == a * b
  {
    ProductBound(a, b);
    HighLow(a * b);
  }

  lemma ProductBound(a: Word, b: Word)
    ensures 0 <= a * b < TWO64
  {
    Bounds(a, b, 0xffff_ffff, 0xffff_ffff);
    NotNegative(a, b);
  }

  lemma NotNegative(a: int, b: int)
    requires a >= 0 && b >= 0
    ensures a * b >= 0
  {
  }

  lemma SignedProduct(a: Word, b: Word)
    ensures 0x1_0000_0000 * Signed(EvalReg(Mulh, a, b)) + Wrap(Signed(a) * Signed(b)) == Signed(a) * Signed(b)
  {
    Bounds(Signed(a), Signed(b), 0x8000_0000, 0x8000_0000);
    HighLow(Signed(a) * Signed(b));
  }

  lemma MixedProduct(a: Word, b: Word)
    ensures 0x1_0000_0000 * Signed(EvalReg(Mulhsu, a, b)) + Wrap(Signed(a) * b) == Signed(a) * b
  {
    var p := Signed(a) * b;
    Bounds(Signed(a), b, 0x8000_0000, 0xffff_ffff);
    ModTimes(Signed(a), b);
    assert EvalReg(Mulhsu, a, b) == High(p);
    HighLow(p);
  }

  /** High and low word together are the 64-bit product: signed, unsigned, or signed by unsigned. */
  lemma ProductHandlers(a: Word, b: Word)
    ensures 0x1_0000_0000 * EvalReg(Mulhu, a, b) + EvalReg(Mul, a, b) == a * b
    ensures 0x1_0000_0000 * Signed(EvalReg(Mulh, a, b)) + EvalReg(Mul, a, b) == Signed(a) * Signed(b)
    ensures 0x1_0000_0000 * Signed(EvalReg(Mulhsu, a, b)) + EvalReg(Mul, a, b) == Signed(a) * b
  {
    LowWord(a, b);
    UnsignedProduct(a, b);
    SignedProduct(a, b);
    MixedProduct(a, b);
  }

  // ---------------------------------------------------------------- quotients

  function Abs(x: int): nat {
    if x < 0 then -x else x
  }

  lemma Negated(n: int, k: int)
    ensures -n * k == -(n * k) == n * -k && -n * -k == n * k
  {
  }

  lemma NatQuotient(m: nat, n: nat)
    requires n > 0
    ensures 0 <= m - n * (m / n) < n && 0 <= m / n <= m && (n > 1 && m > 0 ==> m / n < m)
  {
    assert m == n * (m / n) + m % n;
    SmallQuotient(m, n, m / n, m % n);
  }

  lemma SmallQuotient(m: nat, n: nat, k: int, r: nat)
    requires n > 0 && m == n * k + r && r < n
    ensures 0 <= k <= m && (n > 1 && m > 0 ==> k < m)
  {
    Times(k, n);
    if k > 0 {
      assert (n - 1) * k >= 0;
      if n > 1 { assert (n - 2) * k >= 0; }
    }
  }

  lemma QuotIs(a: int, b: int)
    requires b != 0
    ensures var q := Quot(a, b);
            var r := a - b * q;
            Abs(r) < Abs(b) && (r == 0 || (r < 0) == (a < 0)) &&
            Abs(q) <= Abs(a) && (Abs(b) > 1 && a != 0 ==> Abs(q) < Abs(a))
  {
    NatQuotient(Abs(a), Abs(b));
    Negated(Abs(b), Abs(a) / Abs(b));
  }

  // Only the smallest number divided by -1 leaves the range of 32 bits.
  lemma QuotRange(x: int, y: int)
    requires -0x8000_0000 <= x < 0x8000_0000 && y != 0 && !(x == -0x8000_0000 && y == -1)
    ensures -0x8000_0000 <= Quot(x, y) < 0x8000_0000
  {
    QuotIs(x, y);
  }

  lemma SignedBack(x: int)
    requires -0x8000_0000 <= x < 0x8000_0000
    ensures Signed(Wrap(x)) == x
  {
  }

  /** Signed division: quotient times divisor plus remainder is the dividend, the remainder is smaller than
      the divisor and has the sign of the dividend; and the results for divisor zero and for overflow. */
  lemma DivisionHandlers(a: Word, b: Word)
    ensures var q, r := Signed(EvalReg(Div, a, b)), Signed(EvalReg(Rem, a, b));
            if b == 0 then q == -1 && r == Signed(a)
            else if a == 0x8000_0000 && b == 0xffff_ffff then q == Signed(a) && r == 0
            else Signed(b) * q + r == Signed(a) && Abs(r) < Abs(Signed(b)) && (r == 0 || (r < 0) == (Signed(a) < 0))
  {
    if b != 0 && !(a == 0x8000_0000 && b == 0xffff_ffff) {
      var x, y := Signed(a), Signed(b);
      var q := Quot(x, y);
      var r := x - y * q;
      QuotIs(x, y);
      QuotRange(x, y);
      SignedBack(q);
      SignedBack(r);
      assert EvalReg(Div, a, b) == Wrap(q) && EvalReg(Rem, a, b) == Wrap(r);
    }
  }

  /** Unsigned division likewise. */
  lemma UnsignedDivisionHandlers(a: Word, b: Word)
    ensures var q, r := EvalReg(Divu, a, b), EvalReg(Remu, a, b);
            if b == 0 then q == 0xffff_ffff && r == a else b * q + r == a && r < b
  {
    assert b != 0 ==> a == b * (a / b) + a % b;
  }

  // ---------------------------------------------------------------- memory, byte by byte

  // The number of bytes that an access moves.
  function StoreSize(op: StoreOp): nat {
    match op
    case Sb => 1
    case Sh => 2
    case Sw => 4
  }

  function LoadSize(op: LoadOp): nat {
    match op
    case Lb | Lbu => 1
    case Lh | Lhu => 2
    case Lw => 4
  }

  // Byte k of a word, from the low end.
  function ByteOf(v: Word, k: nat): nat
    requires k < 4
  {
    if k == 0 then v % 256 else if k == 1 then v / 256 % 256 else if k == 2 then v / 0x1_0000 % 256 else v / 0x100_0000
  }

  // The value of n bytes at an address.
  function Little(m: Memory, a: Word, n: nat): nat
    requires n <= 4
  {
    ReadByte(m, a) + (if n >= 2 then 0x100 * ReadByte(m, Plus(a, 1)) else 0) +
    (if n >= 4 then 0x1_0000 * ReadByte(m, Plus(a, 2)) + 0x100_0000 * ReadByte(m, Plus(a, 3)) else 0)
  }

  // How far the address b lies behind a, modulo 2^32.
  function Offset(a: Word, b: Word): Word {
    if b >= a then b - a else b - a + 0x1_0000_0000
  }

  lemma PlusSmall(a: Word, k: Word)
    ensures Plus(a, k) == if a + k < TWO32 then a + k else a + k - TWO32
  {
  }

  lemma PlusPlus(a: Word, b: Word, c: Word)
    ensures Plus(Plus(a, b), c) == (a + b + c) % 0x1_0000_0000
  {
  }

  lemma Further(a: Word, b: Word, d: Word)
    requires d <= 2
    ensures var j, k := Offset(Plus(a, d), b), Offset(a, b);
            (j < d ==> d <= k < 2 * d && k == j + d) && (j == 0 <==> k == d) && (d <= k < 2 * d ==> j < d)
  {
    PlusSmall(a, d);
  }

  lemma WroteByte(m: Memory, a: Word, v: Word, b: Word)
    ensures ReadByte(WriteByte(m, a, v), b) == if Offset(a, b) == 0 then ByteOf(v, 0) else ReadByte(m, b)
  {
  }

  lemma WroteHalf(m: Memory, a: Word, v: Word, b: Word)
    ensures var k := Offset(a, b);
            ReadByte(WriteHalf(m, a, v), b) == if k < 2 then ByteOf(v, k) else ReadByte(m, b)
  {
    WroteByte(m, a, v, b);
    WroteByte(WriteByte(m, a, v), Plus(a, 1), v / 0x100, b);
    Further(a, b, 1);
  }

  lemma HighHalf(v: Word, k: nat)
    requires k < 2
    ensures ByteOf(v / 0x1_0000, k) == ByteOf(v, k + 2)
  {
  }

  lemma WroteWord(m: Memory, a: Word, v: Word, b: Word)
    ensures var k := Offset(a, b);
            ReadByte(WriteWord(m, a, v), b) == if k < 4 then ByteOf(v, k) else ReadByte(m, b)
  {
    WroteHalf(m, a, v, b);
    var j := Offset(Plus(a, 2), b);
    WroteHalf(WriteHalf(m, a, v), Plus(a, 2), v / 0x1_0000, b);
    Further(a, b, 2);
    if j < 2 { HighHalf(v, j); }
  }

  /** A store changes exactly the bytes from its address on, to those of the register from the low end, for
      every alignment; a strict machine traps exactly when the address is no multiple of the size. */
  lemma StoreHandler(strict: bool, i: Insn, s: State, b: Word)
    requires i.opcode.STORE?
    ensures var n, a, o := StoreSize(i.opcode.store), Plus(s.x[i.rs1], i.imm), Step(strict, i, s);
            if strict && a % n != 0 then o == Trap(s.(cycle := s.cycle + 1), a, true)
            else
              var k := Offset(a, b);
              o.Continue? && o.s == State(s.x, o.s.mem, Plus(s.pc, 4), s.cycle + 1) &&
              ReadByte(o.s.mem, b) == if k < n then ByteOf(s.x[i.rs2], k) else ReadByte(s.mem, b)
  {
    StoreStep(strict, i, s);
    Wrote(strict, i.opcode.store, Tick(s, 1), Plus(s.x[i.rs1], i.imm), s.x[i.rs2], b);
  }

  lemma StoreStep(strict: bool, i: Insn, s: State)
    requires i.opcode.STORE?
    ensures Step(strict, i, s) ==
            Advance(Store(strict, i.opcode.store, Tick(s, 1), Plus(s.x[i.rs1], i.imm), s.x[i.rs2]), 4)
  {
  }

  lemma LoadStep(strict: bool, i: Insn, s: State)
    requires i.opcode.LOAD?
    ensures Step(strict, i, s) == Advance(Load(strict, i.opcode.load, Tick(s, 1), i.rd, Plus(s.x[i.rs1], i.imm)), 4)
  {
  }

  lemma Wrote(strict: bool, op: StoreOp, s: State, a: Word, v: Word, b: Word)
    ensures var n, o, k := StoreSize(op), Store(strict, op, s, a, v), Offset(a, b);
            if strict && a % n != 0 then o == Trap(s, a, true)
            else
              o.Continue? && o.s == s.(mem := o.s.mem) &&
              ReadByte(o.s.mem, b) == if k < n then ByteOf(v, k) else ReadByte(s.mem, b)
  {
    match op
    case Sb => WroteByte(s.mem, a, v, b);
    case Sh => WroteHalf(s.mem, a, v, b);
    case Sw => WroteWord(s.mem, a, v, b);
  }

  // The value of the low bytes of a word, zero-extended or with the sign copied upwards.
  function Extended(op: LoadOp, v: nat): nat {
    match op
    case Lb => if v >= 0x80 then v + 0xffff_ff00 else v
    case Lh => if v >= 0x8000 then v + 0xffff_0000 else v
    case _ => v
  }

  lemma HalfIs(m: Memory, a: Word)
    ensures ReadHalf(m, a) == Little(m, a, 2) < 0x1_0000
  {
  }

  lemma WordIs(m: Memory, a: Word)
    ensures ReadWord(m, a) == Little(m, a, 4) < TWO32
  {
    HalfIs(m, a);
    HalfIs(m, Plus(a, 2));
    PlusPlus(a, 2, 1);
  }

  /** A load puts the bytes from its address on into rd, the first one lowest, extended as it says, and
      changes no other register and no memory. */
  lemma LoadHandler(strict: bool, i: Insn, s: State)
    requires i.opcode.LOAD?
    ensures var n, a, o := LoadSize(i.opcode.load), Plus(s.x[i.rs1], i.imm), Step(strict, i, s);
            if strict && a % n != 0 then o == Trap(s.(cycle := s.cycle + 1), a, false)
            else
              o.Continue? && o.s == State(o.s.x, s.mem, Plus(s.pc, 4), s.cycle + 1) &&
              o.s.x[i.rd] == Extended(i.opcode.load, Little(s.mem, a, n)) &&
              forall r: Reg :: r != i.rd ==> o.s.x[r] == s.x[r]
  {
    LoadStep(strict, i, s);
    DidLoad(strict, i.opcode.load, Tick(s, 1), i.rd, Plus(s.x[i.rs1], i.imm));
  }

  lemma ByteExtends(m: Memory, a: Word)
    ensures Sext8(ReadByte(m, a)) == Extended(Lb, Little(m, a, 1))
  {
  }

  lemma HalfExtends(m: Memory, a: Word)
    ensures Sext16(ReadHalf(m, a)) == Extended(Lh, Little(m, a, 2))
  {
    HalfIs(m, a);
    SignExtends(ReadHalf(m, a));
  }

  lemma SignExtends(v: Word)
    requires v < 0x1_0000
    ensures Sext16(v) == Extended(Lh, v)
  {
  }

  lemma DidLoad(strict: bool, op: LoadOp, s: State, rd: Reg, a: Word)
    ensures var n, o := LoadSize(op), Load(strict, op, s, rd, a);
            if strict && a % n != 0 then o == Trap(s, a, false)
            else
              o.Continue? && o.s == s.(x := o.s.x) && o.s.x[rd] == Extended(op, Little(s.mem, a, n)) &&
              forall r: Reg :: r != rd ==> o.s.x[r] == s.x[r]
  {
    match op
    case Lb => ByteExtends(s.mem, a);
    case Lbu =>
    case Lh => HalfExtends(s.mem, a);
    case Lhu => HalfIs(s.mem, a);
    case Lw => WordIs(s.mem, a);
  }

  // The low n bytes of a word.
  function LowBytes(v: Word, n: nat): nat {
    if n == 1 then v % 0x100 else if n == 2 then v % 0x1_0000 else v
  }

  lemma ReadsBack(m: Memory, a: Word, v: Word, n: nat)
    requires n == 1 || n == 2 || n == 4
    requires forall b: Word :: Offset(a, b) < n ==> ReadByte(m, b) == ByteOf(v, Offset(a, b))
    ensures Little(m, a, n) == LowBytes(v, n)
  {
    Offsets(a);
    BytesMake(v);
  }

  /** What a store wrote, a load of the same size and address reads back. */
  lemma StoredIsLoaded(strict: bool, st: Insn, ld: Insn, s: State)
    requires st.opcode.STORE? && ld.opcode.LOAD? && StoreSize(st.opcode.store) == LoadSize(ld.opcode.load)
    requires st.rs1 == ld.rs1 && st.imm == ld.imm && Step(strict, st, s).Continue?
    ensures var o := Step(strict, ld, Step(strict, st, s).s);
            o.Continue? &&
            o.s.x[ld.rd] == Extended(ld.opcode.load, LowBytes(s.x[st.rs2], StoreSize(st.opcode.store)))
  {
    var a, n, t := Plus(s.x[st.rs1], st.imm), StoreSize(st.opcode.store), Step(strict, st, s).s;
    StoreHandler(strict, st, s, 0);
    forall b: Word | Offset(a, b) < n ensures ReadByte(t.mem, b) == ByteOf(s.x[st.rs2], Offset(a, b)) {
      StoreHandler(strict, st, s, b);
    }
    ReadsBack(t.mem, a, s.x[st.rs2], n);
    LoadOf(strict, ld, t, a, LowBytes(s.x[st.rs2], n));
  }

  lemma LoadOf(strict: bool, ld: Insn, t: State, a: Word, v: nat)
    requires ld.opcode.LOAD? && a == Plus(t.x[ld.rs1], ld.imm) && !(strict && a % LoadSize(ld.opcode.load) != 0)
    requires Little(t.mem, a, LoadSize(ld.opcode.load)) == v
    ensures Step(strict, ld, t).Continue? && Step(strict, ld, t).s.x[ld.rd] == Extended(ld.opcode.load, v)
  {
    LoadHandler(strict, ld, t);
  }

  lemma Offsets(a: Word)
    ensures Offset(a, a) == 0 && Offset(a, Plus(a, 1)) == 1 && Offset(a, Plus(a, 2)) == 2 && Offset(a, Plus(a, 3)) == 3
  {
    PlusSmall(a, 1);
    PlusSmall(a, 2);
    PlusSmall(a, 3);
  }

  lemma BytesMake(v: Word)
    ensures ByteOf(v, 0) == v % 0x100 && ByteOf(v, 0) + 0x100 * ByteOf(v, 1) == v % 0x1_0000
    ensures ByteOf(v, 0) + 0x100 * ByteOf(v, 1) + (0x1_0000 * ByteOf(v, 2) + 0x100_0000 * ByteOf(v, 3)) == v
  {
  }

  // ---------------------------------------------------------------- control

  // The instructions that leave their address behind, and those that go back to it.
  predicate Calls(op: Opcode) {
    op.JAL? || op.JALR? || op.C_JAL? || op.C_JALR?
  }

  function Link(i: Insn): Reg {
    if i.opcode.C_JAL? || i.opcode.C_JALR? then RA else i.rd
  }

  // A jump through a register, of either length, that leaves no address behind.
  predicate Returns(j: Insn, r: Reg) {
    ((j.opcode.JALR? && j.rd == 0 && j.imm == 0) || j.opcode.C_JR?) && j.rs1 == r
  }

  // The address behind a call.
  function Behind(i: Insn, pc: Word): Word {
    Plus(pc, if i.opcode.JAL? || i.opcode.JALR? then 4 else 2)
  }

  /** A call goes to its target, with the address behind it in the link register. */
  lemma CallHandler(strict: bool, i: Insn, s: State)
    requires Calls(i.opcode) && Link(i) != 0
    ensures var o := Step(strict, i, s);
            o.Leave? && o.s == State(s.x[Link(i) := Behind(i, s.pc)], s.mem, o.s.pc, s.cycle + 1) &&
            if i.opcode.JAL? || i.opcode.C_JAL? then o.s.pc == Plus(s.pc, i.imm)
            else if i.opcode.JALR? then o.s.pc % 2 == 0 && 0 <= Plus(s.x[i.rs1], i.imm) - o.s.pc <= 1
            else o.s.pc == s.x[i.rs1]
  {
    CallStep(strict, i, s);
    CallControl(i, Tick(s, 1));
  }

  lemma CallStep(strict: bool, i: Insn, s: State)
    requires Calls(i.opcode)
    ensures Step(strict, i, s) == Control(i, Tick(s, 1))
  {
  }

  lemma CallControl(i: Insn, s: State)
    requires Calls(i.opcode) && Link(i) != 0
    ensures var o := Control(i, s);
            o.Leave? && o.s == State(s.x[Link(i) := Behind(i, s.pc)], s.mem, o.s.pc, s.cycle) &&
            if i.opcode.JAL? || i.opcode.C_JAL? then o.s.pc == Plus(s.pc, i.imm)
            else if i.opcode.JALR? then o.s.pc % 2 == 0 && 0 <= Plus(s.x[i.rs1], i.imm) - o.s.pc <= 1
            else o.s.pc == s.x[i.rs1]
  {
  }

  lemma ReturnHandler(strict: bool, j: Insn, r: Reg, s: State)
    requires Returns(j, r) && s.x[r] % 2 == 0
    ensures Step(strict, j, s) == Leave(State(s.x, s.mem, s.x[r], s.cycle + 1))
  {
    if j.opcode.JALR? {
      JumpBack(strict, j, s);
      PlusSmall(s.x[r], 0);
    } else {
      ShortJumpBack(strict, j, s);
    }
  }

  lemma ShortJumpBack(strict: bool, j: Insn, s: State)
    requires j.opcode.C_JR?
    ensures Step(strict, j, s) == Leave(State(s.x, s.mem, s.x[j.rs1], s.cycle + 1))
  {
  }

  lemma JumpBack(strict: bool, j: Insn, s: State)
    requires j.opcode.JALR? && j.rd == 0
    ensures Step(strict, j, s) == Leave(State(s.x, s.mem, Even(Plus(s.x[j.rs1], j.imm)), s.cycle + 1))
  {
  }

  /** A jump through the link register comes back to the instruction behind the call, for calls at even
      addresses; only the link register has changed. */
  lemma CallReturns(strict: bool, i: Insn, j: Insn, s: State)
    requires Calls(i.opcode) && Link(i) != 0 && Returns(j, Link(i)) && s.pc % 2 == 0
    ensures Step(strict, i, s).Leave?
    ensures Step(strict, j, Step(strict, i, s).s) ==
            Leave(State(s.x[Link(i) := Behind(i, s.pc)], s.mem, Behind(i, s.pc), s.cycle + 2))
  {
    var behind := Behind(i, s.pc);
    PlusSmall(s.pc, if i.opcode.JAL? || i.opcode.JALR? then 4 else 2);
    assert behind % 2 == 0;
    CallHandler(strict, i, s);
    ReturnHandler(strict, j, Link(i), Step(strict, i, s).s);
  }

  // What a branch compares, said of the difference and the signs.
  predicate Taken(cond: Cond, a: Word, b: Word) {
    match cond
    case Eq => a == b
    case Ne => a != b
    case Lt => Below(a, b)
    case Ge => !Below(a, b)
    case Ltu => a < b
    case Geu => !(a < b)
  }

  /** A branch goes to its target when the comparison holds and on to the next instruction otherwise, and
      changes nothing else. */
  lemma BranchHandler(strict: bool, i: Insn, s: State)
    requires i.opcode.BRANCH?
    ensures var go := Taken(i.opcode.cond, s.x[i.rs1], s.x[i.rs2]);
            Step(strict, i, s) == Leave(State(s.x, s.mem, Plus(s.pc, if go then i.imm else 4), s.cycle + 1))
  {
    SignedOrder(s.x[i.rs1], s.x[i.rs2]);
  }

  /** The compressed branches compare with zero, and go on two bytes further when they do not jump; C.J and JAL
      to x0 jump without a link. */
  lemma ShortBranchHandler(strict: bool, i: Insn, s: State)
    requires i.opcode.C_BEQZ? || i.opcode.C_BNEZ? || i.opcode.C_J? || (i.opcode.JAL? && i.rd == 0)
    ensures var go := i.opcode.C_J? || i.opcode.JAL? || (s.x[i.rs1] == 0 <==> i.opcode.C_BEQZ?);
            Step(strict, i, s) == Leave(State(s.x, s.mem, Plus(s.pc, if go then i.imm else 2), s.cycle + 1))
  {
  }

  /** LUI and AUIPC start an absolute and a relative address, to which ADDI adds. */
  lemma AddressHandlers(strict: bool, i: Insn, j: Insn, s: State)
    requires (i.opcode.LUI? || i.opcode.AUIPC?) && j.opcode == OPIMM(Addi) && j.rs1 == i.rd
    ensures var o := Step(strict, i, s);
            o.Continue? && Step(strict, j, o.s).Continue? &&
            Step(strict, j, o.s).s.x[j.rd] ==
              ((if i.opcode.AUIPC? then s.pc else 0) + i.imm + j.imm) % 0x1_0000_0000
  {
    UpperStep(strict, i, s);
    AddStep(strict, j, Step(strict, i, s).s);
    PlusPlus(i.imm, s.pc, j.imm);
    PlusPlus(i.imm, 0, j.imm);
    PlusSmall(i.imm, 0);
  }

  lemma UpperStep(strict: bool, i: Insn, s: State)
    requires i.opcode.LUI? || i.opcode.AUIPC?
    ensures Step(strict, i, s).Continue?
    ensures Step(strict, i, s).s.x[i.rd] == if i.opcode.LUI? then i.imm else Plus(i.imm, s.pc)
  {
    ComputeStep(strict, i, s);
  }

  lemma AddStep(strict: bool, j: Insn, s: State)
    requires j.opcode == OPIMM(Addi)
    ensures Step(strict, j, s).Continue? && Step(strict, j, s).s.x[j.rd] == Plus(s.x[j.rs1], j.imm)
  {
    ComputeStep(strict, j, s);
  }

  /** Which registers the operations read and write, and that they change nothing else. */
  lemma OperandHandlers(strict: bool, i: Insn, s: State)
    ensures i.opcode.OP? ==>
            Step(strict, i, s) == Continue(State(s.x[i.rd := EvalReg(i.opcode.rop, s.x[i.rs1], s.x[i.rs2])], s.mem,
              Plus(s.pc, 4), s.cycle + 1))
    ensures i.opcode.OPIMM? ==>
            Step(strict, i, s) == Continue(State(s.x[i.rd := EvalImm(i.opcode.iop, s.x[i.rs1], i.imm)], s.mem,
              Plus(s.pc, 4), s.cycle + 1))
  {
    if i.opcode.OP? || i.opcode.OPIMM? { ComputeStep(strict, i, s); }
  }

  /** The instructions that move nothing but the PC, and those that call the environment, which find the
      registers, the memory and the PC of the instruction. */
  lemma PlainHandlers(strict: bool, i: Insn, s: State)
    ensures i.opcode.FENCE? ==> Step(strict, i, s) == Leave(State(s.x, s.mem, Plus(s.pc, 4), s.cycle + 1))
    ensures i.opcode.C_NOP? ==> Step(strict, i, s) == Continue(State(s.x, s.mem, Plus(s.pc, 2), s.cycle + 1))
    ensures i.opcode.NOP? ==> Step(strict, i, s) == Continue(State(s.x[0 := 0], s.mem, Plus(s.pc, 4), s.cycle + 1))
    ensures i.opcode.ECALL? || i.opcode.EBREAK? || i.opcode.C_EBREAK? ==>
            Step(strict, i, s) == CallEnv(State(s.x, s.mem, s.pc, s.cycle + 1), i.opcode.ECALL?)
  {
  }
}
