/** The tier-1 register allocator of src/jit.c and the code that src/rv32_jit.c generates through
    it, over an abstract host: registers 0..n-1 of register_map, the scratch register temp_reg
    (number n), and the guest registers X in memory. */
module RegAlloc {
  import opened Words
  import opened BlockIr
  import ConstOpt

  // ---------------------------------------------------------------- the host machine

  datatype HostOp =
    | Load(dst: nat, vm: Reg)                      // emit_load from X[vm]
    | Store(src: nat, vm: Reg)                     // emit_store to X[vm]
    | Mov(src: nat, dst: nat)
    | LoadImm(dst: nat, value: Word)
    | AluImm(iop: ImmOp, dst: nat, imm: Word)
    | AluReg(rop: RegOp, src: nat, dst: nat)

  datatype Host = Host(r: seq<Word>, x: Regs)

  function Get(h: Host, i: nat): Word {
    if i < |h.r| then h.r[i] else 0
  }

  function Put(h: Host, i: nat, v: Word): Host {
    if i < |h.r| then h.(r := h.r[i := v]) else h
  }

  function Do(op: HostOp, h: Host): (h': Host)
    ensures |h'.r| == |h.r|
  {
    match op
    case Load(dst, vm) => Put(h, dst, h.x[vm])
    case Store(src, vm) => h.(x := h.x[vm := Get(h, src)])
    case Mov(src, dst) => Put(h, dst, Get(h, src))
    case LoadImm(dst, v) => Put(h, dst, v)
    case AluImm(op, dst, imm) => Put(h, dst, EvalImm(op, Get(h, dst), imm))
    case AluReg(op, src, dst) => Put(h, dst, EvalReg(op, Get(h, dst), Get(h, src)))
  }

  function Exec(code: seq<HostOp>, h: Host): (h': Host)
    ensures |h'.r| == |h.r|
  {
    if code == [] then h else Do(code[|code| - 1], Exec(code[..|code| - 1], h))
  }

  lemma ExecMore(code: seq<HostOp>, op: HostOp, h: Host)
    ensures Exec(code + [op], h) == Do(op, Exec(code, h))
  {
    assert (code + [op])[..|code|] == code;
  }

  // ---------------------------------------------------------------- register_map against the guest

  // -1 when the host register holds no guest register.
  type Vm = v: int | -1 <= v < 32

  // struct host_reg
  datatype Slot = Slot(vm: Vm, dirty: bool, alive: bool)

  type RegMap = seq<Slot>

  predicate Held(m: RegMap, r: Reg) {
    exists i :: 0 <= i < |m| && m[i].vm == r
  }

  // The map itself: entries are guest registers, no two alike, and only a host register in use is
  // dirty or alive.
  ghost predicate Proper(m: RegMap) {
    (forall i :: 0 <= i < |m| ==> (m[i].vm == -1 ==> !m[i].dirty && !m[i].alive)) &&
    (forall i, j :: 0 <= i < j < |m| && m[i].vm != -1 ==> m[i].vm != m[j].vm)
  }

  // The host holds the guest state g, in which x0 is zero, except that the registers in pend are still
  // to be loaded. X[0] in memory keeps the value z, which the code never looks at.
  ghost predicate Sim(m: RegMap, h: Host, g: Regs, pend: set<nat>, z: Word) {
    && |h.r| == |m| + 1 && g[0] == 0 && h.x[0] == z
    && (forall i :: 0 <= i < |m| && m[i].vm != -1 ==>
         (i !in pend ==> h.r[i] == g[m[i].vm]) && (i in pend ==> !m[i].dirty) &&
         (!m[i].dirty && m[i].vm != 0 ==> h.x[m[i].vm] == g[m[i].vm]))
    && (forall r: Reg :: r != 0 && !Held(m, r) ==> h.x[r] == g[r])
  }

  // The guest registers after some computing instructions.
  function After(b: seq<Insn>, x: Regs): Regs
    requires forall k :: 0 <= k < |b| ==> Computes(b[k].opcode)
  {
    if b == [] then x
    else
      var i, y := b[|b| - 1], After(b[..|b| - 1], x);
      y[Dest(i) := Value(i, y, i.pc)]
  }

  // The same with x0 read as zero, whatever X[0] holds.
  function Seen(b: seq<Insn>, x: Regs): Regs
    requires forall k :: 0 <= k < |b| ==> Computes(b[k].opcode)
  {
    After(b, x[0 := 0])
  }

  // ---------------------------------------------------------------- allocator steps keep the simulation

  lemma HeldSame(m: RegMap, m': RegMap)
    requires |m| == |m'| && forall k :: 0 <= k < |m| ==> m[k].vm == m'[k].vm
    ensures forall r: Reg :: Held(m, r) <==> Held(m', r)
  {
    forall r: Reg ensures Held(m, r) <==> Held(m', r) {
      HeldCopied(m, m', r);
      HeldCopied(m', m, r);
    }
  }

  lemma HeldCopied(m: RegMap, m': RegMap, r: Reg)
    requires |m| == |m'| && forall k :: 0 <= k < |m| ==> m[k].vm == m'[k].vm
    ensures Held(m, r) ==> Held(m', r)
  {
    if Held(m, r) {
      var k :| 0 <= k < |m| && m[k].vm == r;
      assert m'[k].vm == r;
    }
  }

  lemma HeldRemapped(m: RegMap, i: nat, r: Reg, q: Reg)
    requires i < |m|
    ensures Held(m, q) && q != m[i].vm ==> Held(m[i := Slot(r, false, true)], q)
    ensures Held(m[i := Slot(r, false, true)], r)
  {
    var m' := m[i := Slot(r, false, true)];
    assert m'[i].vm == r;
    if Held(m, q) && q != m[i].vm {
      var k :| 0 <= k < |m| && m[k].vm == q;
      assert m'[k].vm == q;
    }
  }

  // save_reg: a dirty x0 is dropped, without a store.
  function SaveCode(i: nat, vm: Vm): seq<HostOp> {
    if vm > 0 then [Store(i, vm)] else []
  }

  lemma SaveSim(m: RegMap, h: Host, g: Regs, pend: set<nat>, i: nat, z: Word)
    requires Proper(m) && Sim(m, h, g, pend, z) && i < |m| && m[i].dirty
    ensures Sim(m[i := m[i].(dirty := false)], if m[i].vm == 0 then h else Do(Store(i, m[i].vm), h), g, pend, z)
  {
    HeldSame(m, m[i := m[i].(dirty := false)]);
  }

  // unmap_vm_reg and set_vm_reg on a host register that is not dirty.
  lemma RemapSim(m: RegMap, h: Host, g: Regs, pend: set<nat>, i: nat, r: Reg, z: Word)
    requires Proper(m) && Sim(m, h, g, pend, z) && i < |m| && !m[i].dirty && !Held(m, r)
    ensures Sim(m[i := Slot(r, false, true)], h, g, pend + {i}, z)
  {
    forall q: Reg | q != 0 && !Held(m[i := Slot(r, false, true)], q) ensures h.x[q] == g[q] {
      HeldRemapped(m, i, r, q);
    }
  }

  // emit_load of a register that was just mapped: x0 is not read from memory but set to zero, and is dirty.
  function LoadCode(i: nat, vm: Reg): HostOp {
    if vm == 0 then LoadImm(i, 0) else Load(i, vm)
  }

  lemma LoadSim(m: RegMap, h: Host, g: Regs, pend: set<nat>, i: nat, z: Word)
    requires Proper(m) && Sim(m, h, g, pend, z) && i < |m| && m[i].vm != -1 && (m[i].dirty ==> m[i].vm == 0)
    ensures Sim(m[i := m[i].(dirty := m[i].vm == 0)], Do(LoadCode(i, m[i].vm), h), g, pend - {i}, z)
  {
    HeldSame(m, m[i := m[i].(dirty := m[i].vm == 0)]);
  }

  // The destination register has received its new value v.
  lemma SetSim(m: RegMap, h: Host, h': Host, g: Regs, pend: set<nat>, d: nat, v: Word, z: Word)
    requires Proper(m) && Sim(m, h, g, pend, z) && d < |m| && m[d].vm > 0
    requires h'.x == h.x && |h'.r| == |h.r| && h'.r[d] == v
    requires forall j :: 0 <= j < |m| && j != d ==> h'.r[j] == h.r[j]
    ensures Sim(m[d := m[d].(dirty := true)], h', g[m[d].vm := v], pend - {d}, z)
  {
    HeldSame(m, m[d := m[d].(dirty := true)]);
  }

  // ---------------------------------------------------------------- the code emitted so far

  predicate AllCompute(b: seq<Insn>) {
    forall k :: 0 <= k < |b| ==> Computes(b[k].opcode)
  }

  // From every initial host state, the code so far does what the instructions of b do.
  ghost predicate Tracks(m: RegMap, code: seq<HostOp>, b: seq<Insn>, pend: set<nat>)
    requires AllCompute(b)
  {
    forall h: Host {:trigger Exec(code, h)} | |h.r| == |m| + 1 :: Sim(m, Exec(code, h), Seen(b, h.x), pend, h.x[0])
  }

  lemma TracksSave(m: RegMap, code: seq<HostOp>, b: seq<Insn>, pend: set<nat>, i: nat)
    requires AllCompute(b) && Proper(m) && Tracks(m, code, b, pend) && i < |m| && m[i].dirty
    ensures Tracks(m[i := m[i].(dirty := false)], code + SaveCode(i, m[i].vm), b, pend)
  {
    forall h: Host | |h.r| == |m| + 1
      ensures Sim(m[i := m[i].(dirty := false)], Exec(code + SaveCode(i, m[i].vm), h), Seen(b, h.x), pend, h.x[0])
    {
      SaveSim(m, Exec(code, h), Seen(b, h.x), pend, i, h.x[0]);
      if m[i].vm == 0 {
        assert code + SaveCode(i, m[i].vm) == code;
      } else {
        ExecMore(code, Store(i, m[i].vm), h);
      }
    }
  }

  lemma TracksRemap(m: RegMap, code: seq<HostOp>, b: seq<Insn>, pend: set<nat>, i: nat, r: Reg)
    requires AllCompute(b) && Proper(m) && Tracks(m, code, b, pend) && i < |m| && !m[i].dirty && !Held(m, r)
    ensures Tracks(m[i := Slot(r, false, true)], code, b, pend + {i})
  {
    forall h: Host | |h.r| == |m| + 1
      ensures Sim(m[i := Slot(r, false, true)], Exec(code, h), Seen(b, h.x), pend + {i}, h.x[0])
    {
      RemapSim(m, Exec(code, h), Seen(b, h.x), pend, i, r, h.x[0]);
    }
  }

  lemma TracksLoad(m: RegMap, code: seq<HostOp>, b: seq<Insn>, pend: set<nat>, i: nat)
    requires AllCompute(b) && Proper(m) && Tracks(m, code, b, pend) && i < |m| && m[i].vm != -1 &&
             (m[i].dirty ==> m[i].vm == 0)
    ensures Tracks(m[i := m[i].(dirty := m[i].vm == 0)], code + [LoadCode(i, m[i].vm)], b, pend - {i})
  {
    forall h: Host | |h.r| == |m| + 1
      ensures Sim(m[i := m[i].(dirty := m[i].vm == 0)], Exec(code + [LoadCode(i, m[i].vm)], h), Seen(b, h.x),
                  pend - {i}, h.x[0])
    {
      ExecMore(code, LoadCode(i, m[i].vm), h);
      LoadSim(m, Exec(code, h), Seen(b, h.x), pend, i, h.x[0]);
    }
  }

  // Changing alive bits only does not matter to the simulation.
  lemma TracksAlive(m: RegMap, m': RegMap, code: seq<HostOp>, b: seq<Insn>, pend: set<nat>)
    requires AllCompute(b) && Tracks(m, code, b, pend) && |m'| == |m|
    requires forall k :: 0 <= k < |m| ==> m'[k].vm == m[k].vm && m'[k].dirty == m[k].dirty
    ensures Tracks(m', code, b, pend)
  {
    HeldSame(m, m');
    forall h: Host | |h.r| == |m'| + 1 ensures Sim(m', Exec(code, h), Seen(b, h.x), pend, h.x[0]) {
      assert Sim(m, Exec(code, h), Seen(b, h.x), pend, h.x[0]);
    }
  }

  // ---------------------------------------------------------------- liveness

  // The index of the last instruction that reads each guest register, -1 if none does.
  type Liveness = l: seq<int> | |l| == 32 witness seq(32, _ => -1)

  // The entries of a fused run.
  function RunEntries(i: Insn): seq<Fused> {
    i.fuse[..if i.imm2 <= |i.fuse| then i.imm2 else |i.fuse|]
  }

  // The registers that liveness_calc counts as read. It counts the destinations of fused LUIs, too.
  function Uses(i: Insn): set<Reg> {
    match i.opcode
    case FUSE1 => set f | f in RunEntries(i) :: f.rd
    case FUSE3 => (set f | f in RunEntries(i) :: f.rs1) + (set f | f in RunEntries(i) :: f.rs2)
    case FUSE4 | FUSE5 | FUSE7 => set f | f in RunEntries(i) :: f.rs1
    case FUSE2 | FUSE10 | FUSE11 | FUSE12 => {i.rs1}
    case JALR | LOAD(_) | OPIMM(_) | C_LW | C_SRLI | C_SRAI | C_ANDI | C_BEQZ | C_BNEZ | C_JR | C_JALR => {i.rs1}
    case BRANCH(_) | STORE(_) | OP(_) | C_SW | C_OP(_) => {i.rs1, i.rs2}
    case C_ADDI4SPN | C_LWSP => {SP}
    case C_ADDI | C_ADDI16SP | C_SLLI => {i.rd}
    case C_MV => {i.rs2}
    case C_SWSP => {SP, i.rs2}
    case _ => {}
  }

  /** Every register that a computing instruction depends on is counted. */
  lemma UsesCover(i: Insn, x: Regs, r: Reg, v: Word)
    requires Computes(i.opcode) && r !in Uses(i)
    ensures Value(i, x[r := v], i.pc) == Value(i, x, i.pc)
  {
  }

  ghost predicate LastUse(b: seq<Insn>, r: Reg, k: int) {
    -1 <= k < |b| && (k >= 0 ==> r in Uses(b[k])) && forall j :: k < j < |b| ==> r !in Uses(b[j])
  }

  function Marked(l: Liveness, rs: set<Reg>, idx: nat): Liveness {
    seq(32, r requires 0 <= r < 32 => if r in rs then idx else l[r])
  }

  lemma LastUseMore(b: seq<Insn>, l: Liveness, idx: nat, r: Reg)
    requires idx < |b| && LastUse(b[..idx], r, l[r])
    ensures LastUse(b[..idx + 1], r, Marked(l, Uses(b[idx]), idx)[r])
  {
    assert b[..idx + 1] == b[..idx] + [b[idx]];
  }

  // liveness_reset, and the loop of liveness_calc
  method LivenessCalc(b: seq<Insn>) returns (l: Liveness)
    ensures forall r: Reg :: LastUse(b, r, l[r])
  {
    l := seq(32, _ => -1);
    for idx := 0 to |b|
      invariant forall r: Reg :: LastUse(b[..idx], r, l[r])
    {
      forall r: Reg ensures LastUse(b[..idx + 1], r, Marked(l, Uses(b[idx]), idx)[r]) {
        LastUseMore(b, l, idx, r);
      }
      l := Marked(l, Uses(b[idx]), idx);
    }
    assert b[..|b|] == b;
  }

  // liveness_cmp
  predicate Earlier(l: Liveness, p: Reg, q: Reg) {
    l[p] < l[q] || (l[p] == l[q] && p < q)
  }

  ghost predicate Ordered(l: Liveness, queue: seq<Reg>) {
    forall i, j :: 0 <= i < j < |queue| ==> Earlier(l, queue[i], queue[j])
  }

  // Where r belongs in the queue.
  method Place(l: Liveness, queue: seq<Reg>, r: Reg) returns (k: nat)
    requires Ordered(l, queue) && forall i :: 0 <= i < |queue| ==> queue[i] != r
    ensures k <= |queue|
    ensures forall i :: 0 <= i < k ==> Earlier(l, queue[i], r)
    ensures forall i :: k <= i < |queue| ==> Earlier(l, r, queue[i])
  {
    k := 0;
    while k < |queue| && Earlier(l, queue[k], r)
      invariant k <= |queue|
      invariant forall i :: 0 <= i < k ==> Earlier(l, queue[i], r)
    {
      k := k + 1;
    }
  }

  lemma InsertOrdered(l: Liveness, queue: seq<Reg>, r: Reg, k: nat)
    requires Ordered(l, queue) && k <= |queue|
    requires forall i :: 0 <= i < k ==> Earlier(l, queue[i], r)
    requires forall i :: k <= i < |queue| ==> Earlier(l, r, queue[i])
    ensures Ordered(l, queue[..k] + [r] + queue[k..])
  {
  }

  lemma InsertMembers(queue: seq<Reg>, r: Reg, k: nat)
    requires k <= |queue|
    ensures forall q: Reg :: q in queue[..k] + [r] + queue[k..] <==> q in queue || q == r
  {
    assert queue == queue[..k] + queue[k..];
  }

  // candidate_queue: all guest registers, in the order that the library's qsort gives them.
  method CandidateQueue(l: Liveness) returns (queue: seq<Reg>)
    ensures Ordered(l, queue) && forall r: Reg :: r in queue
  {
    queue := [];
    for r := 0 to 32
      invariant Ordered(l, queue) && forall q: Reg :: q in queue <==> q < r
    {
      assert forall i :: 0 <= i < |queue| ==> queue[i] in queue;
      var k := Place(l, queue, r);
      InsertOrdered(l, queue, r, k);
      InsertMembers(queue, r, k);
      queue := queue[..k] + [r] + queue[k..];
    }
  }

  // ---------------------------------------------------------------- choosing a host register

  // Host register i is reserved and must not be evicted.
  predicate Spared(i: int, a: int, b: int) {
    i == a || i == b
  }

  // reg_pick and reg_pick2: the first host register that is not alive, or else, of all that are not
  // reserved, the one whose guest register has its last use earliest.
  ghost predicate Picked(m: RegMap, liveness: Liveness, a: int, b: int, idx: nat) {
    idx < |m| && !Spared(idx, a, b) &&
    if exists i :: 0 <= i < |m| && !Spared(i, a, b) && !m[i].alive then
      !m[idx].alive && forall i :: 0 <= i < idx && !Spared(i, a, b) ==> m[i].alive
    else
      m[idx].vm != -1 &&
      forall i :: 0 <= i < |m| && !Spared(i, a, b) && i != idx ==>
        m[i].vm != -1 && Earlier(liveness, m[idx].vm, m[i].vm)
  }

  method FindDead(m: RegMap, a: int, b: int) returns (idx: int)
    ensures -1 <= idx < |m|
    ensures idx >= 0 ==> !Spared(idx, a, b) && !m[idx].alive && forall i :: 0 <= i < idx && !Spared(i, a, b) ==>
            m[i].alive
    ensures idx < 0 ==> forall i :: 0 <= i < |m| && !Spared(i, a, b) ==> m[i].alive
  {
    for i := 0 to |m|
      invariant forall k :: 0 <= k < i && !Spared(k, a, b) ==> m[k].alive
    {
      if !Spared(i, a, b) && !m[i].alive {
        return i;
      }
    }
    return -1;
  }

  // The host register of guest register r, or -1.
  method FindVm(m: RegMap, r: Reg, a: int, b: int) returns (idx: int)
    ensures -1 <= idx < |m|
    ensures idx >= 0 ==> !Spared(idx, a, b) && m[idx].vm == r
    ensures idx < 0 ==> forall i :: 0 <= i < |m| && !Spared(i, a, b) ==> m[i].vm != r
  {
    for i := 0 to |m|
      invariant forall k :: 0 <= k < i && !Spared(k, a, b) ==> m[k].vm != r
    {
      if !Spared(i, a, b) && m[i].vm == r {
        return i;
      }
    }
    return -1;
  }

  // Nothing before position q of the queue is held, so what is held at q has its last use earliest.
  lemma QueueDecides(m: RegMap, l: Liveness, queue: seq<Reg>, a: int, b: int, q: nat, idx: nat)
    requires Proper(m) && Ordered(l, queue) && (forall r: Reg :: r in queue)
    requires q < |queue| && idx < |m| && !Spared(idx, a, b) && m[idx].vm == queue[q]
    requires forall i :: 0 <= i < |m| && !Spared(i, a, b) ==> m[i].alive
    requires forall p, i :: 0 <= p < q && 0 <= i < |m| && !Spared(i, a, b) ==> m[i].vm != queue[p]
    ensures Picked(m, l, a, b, idx)
  {
    forall i | 0 <= i < |m| && !Spared(i, a, b) && i != idx
      ensures m[i].vm != -1 && Earlier(l, m[idx].vm, m[i].vm)
    {
      assert m[i].alive;
      var r: Reg := m[i].vm;
      assert r in queue;
      var p :| 0 <= p < |queue| && queue[p] == m[i].vm;
      assert p != q && p >= q;
    }
  }

  method RegPick(m: RegMap, l: Liveness, queue: seq<Reg>, a: int, b: int) returns (idx: nat)
    requires |m| >= 3 && Proper(m) && Ordered(l, queue) && forall r: Reg :: r in queue
    ensures Picked(m, l, a, b, idx)
  {
    var dead := FindDead(m, a, b);
    if dead >= 0 {
      return dead;
    }
    ghost var k := if !Spared(0, a, b) then 0 else if !Spared(1, a, b) then 1 else 2;
    assert m[k].alive && m[k].vm in queue;
    ghost var last :| 0 <= last < |queue| && queue[last] == m[k].vm;
    var q := 0;
    while true
      invariant 0 <= q <= last
      invariant forall p, i :: 0 <= p < q && 0 <= i < |m| && !Spared(i, a, b) ==> m[i].vm != queue[p]
      decreases last - q
    {
      var i := FindVm(m, queue[q], a, b);
      if i >= 0 {
        QueueDecides(m, l, queue, a, b, q, i);
        return i;
      }
      q := q + 1;
    }
  }

  // ---------------------------------------------------------------- code generation

  function Refreshed(s: Slot, liveness: Liveness, idx: nat): Slot {
    s.(alive := s.alive && (s.vm == -1 || liveness[s.vm] >= idx))
  }

  lemma AfterMore(b: seq<Insn>, i: Insn, x: Regs)
    requires AllCompute(b) && Computes(i.opcode)
    ensures AllCompute(b + [i]) && After(b + [i], x) == After(b, x)[Dest(i) := Value(i, After(b, x), i.pc)]
  {
    assert (b + [i])[..|b|] == b;
  }

  // The code emitted for instruction i leaves its value in host register d and changes no other
  // host register but the scratch one.
  ghost predicate Delivers(n: nat, code: seq<HostOp>, code': seq<HostOp>, b: seq<Insn>, i: Insn, d: nat)
    requires AllCompute(b) && Computes(i.opcode) && d < n
  {
    forall h: Host {:trigger Exec(code', h)} | |h.r| == n + 1 ::
      var u, u' := Exec(code, h), Exec(code', h);
      u'.x == u.x && u'.r[d] == Value(i, Seen(b, h.x), i.pc) && forall j :: 0 <= j < n && j != d ==> u'.r[j] == u.r[j]
  }

  // The destination register after instruction i, from one initial state.
  lemma SetSeen(m: RegMap, u: Host, u': Host, b: seq<Insn>, pend: set<nat>, i: Insn, d: nat, x: Regs)
    requires AllCompute(b) && Computes(i.opcode) && AllCompute(b + [i]) && Proper(m) &&
             Sim(m, u, Seen(b, x), pend, x[0])
    requires d < |m| && m[d].vm > 0 && m[d].vm == Dest(i) && |u'.r| == |u.r|
    requires u'.x == u.x && u'.r[d] == Value(i, Seen(b, x), i.pc)
    requires forall j :: 0 <= j < |m| && j != d ==> u'.r[j] == u.r[j]
    ensures Sim(m[d := m[d].(dirty := true)], u', Seen(b + [i], x), pend - {d}, x[0])
  {
    AfterMore(b, i, x[0 := 0]);
    SetSim(m, u, u', Seen(b, x), pend, d, Value(i, Seen(b, x), i.pc), x[0]);
  }

  lemma TracksSet(m: RegMap, code: seq<HostOp>, code': seq<HostOp>, b: seq<Insn>, pend: set<nat>, i: Insn, d: nat)
    requires AllCompute(b) && Computes(i.opcode) && Proper(m) && Tracks(m, code, b, pend)
    requires d < |m| && m[d].vm > 0 && m[d].vm == Dest(i) && Delivers(|m|, code, code', b, i, d)
    ensures AllCompute(b + [i]) && Tracks(m[d := m[d].(dirty := true)], code', b + [i], pend - {d})
  {
    assert AllCompute(b + [i]);
    forall h: Host | |h.r| == |m| + 1
      ensures Sim(m[d := m[d].(dirty := true)], Exec(code', h), Seen(b + [i], h.x), pend - {d}, h.x[0])
    {
      SetSeen(m, Exec(code, h), Exec(code', h), b, pend, i, d, h.x);
    }
  }

  // The value delivered into d, given what the last operations do to the host.
  ghost predicate Computed(h: Host, h': Host, n: nat, d: nat, v: Word) {
    h'.x == h.x && |h'.r| == |h.r| == n + 1 && d < n && h'.r[d] == v && forall j :: 0 <= j < n && j != d ==>
      h'.r[j] == h.r[j]
  }

  // A mov into d followed by an operation with an immediate.
  lemma MovAluImm(h: Host, n: nat, s: nat, d: nat, op: ImmOp, imm: Word)
    requires |h.r| == n + 1 && s < n && d < n
    ensures Computed(h, Do(AluImm(op, d, imm), Do(Mov(s, d), h)), n, d, EvalImm(op, h.r[s], imm))
    ensures s == d ==> Do(Mov(s, d), h) == h
  {
    assert s == d ==> h.r[d := h.r[s]] == h.r;
  }

  // The second operand goes through the scratch register n, so that d may be either operand.
  lemma MovMovAlu(h: Host, n: nat, s1: nat, s2: nat, d: nat, op: RegOp)
    requires |h.r| == n + 1 && s1 < n && s2 < n && d < n
    ensures Computed(h, Do(AluReg(op, n, d), Do(Mov(s1, d), Do(Mov(s2, n), h))), n, d, EvalReg(op, h.r[s1], h.r[s2]))
  {
  }

  lemma ExecTwo(code: seq<HostOp>, p: HostOp, q: HostOp, h: Host)
    ensures Exec(code + [p, q], h) == Do(q, Do(p, Exec(code, h)))
  {
    assert code + [p, q] == code + [p] + [q];
    ExecMore(code, p, h);
    ExecMore(code + [p], q, h);
  }

  // What the allocator knows when an instruction's operands are in host registers.
  ghost predicate Operand(m: RegMap, pend: set<nat>, s: nat, r: Reg) {
    s < |m| && m[s].vm == r && s !in pend
  }

  lemma OperandValue(m: RegMap, code: seq<HostOp>, b: seq<Insn>, pend: set<nat>, s: nat, r: Reg, h: Host)
    requires AllCompute(b) && Tracks(m, code, b, pend) && Operand(m, pend, s, r) && |h.r| == |m| + 1
    ensures Exec(code, h).r[s] == Seen(b, h.x)[r]
  {
    assert Sim(m, Exec(code, h), Seen(b, h.x), pend, h.x[0]);
  }

  lemma {:induction false} ExecLoadImm(code: seq<HostOp>, n: nat, d: nat, v: Word, h: Host)
    requires |h.r| == n + 1 && d < n
    ensures Computed(Exec(code, h), Exec(code + [LoadImm(d, v)], h), n, d, v)
  {
    ExecMore(code, LoadImm(d, v), h);
  }

  lemma {:induction false} DeliversImm(m: RegMap, code: seq<HostOp>, b: seq<Insn>, i: Insn, d: nat, v: Word)
    requires AllCompute(b) && Computes(i.opcode) && d < |m|
    requires forall x: Regs :: Value(i, x, i.pc) == v
    ensures Delivers(|m|, code, code + [LoadImm(d, v)], b, i, d)
  {
    forall h: Host | |h.r| == |m| + 1
      ensures Computed(Exec(code, h), Exec(code + [LoadImm(d, v)], h), |m|, d, Value(i, Seen(b, h.x), i.pc))
    {
      ExecLoadImm(code, |m|, d, v, h);
    }
  }

  predicate IsShiftOp(op: ImmOp) {
    op.Slli? || op.Srli? || op.Srai?
  }

  // GEN_ALU_IMM and GEN_SHIFT_IMM: the mov is left out when source and destination coincide.
  function AluImmCode(s: nat, d: nat, op: ImmOp, imm: Word): seq<HostOp> {
    (if s != d then [Mov(s, d)] else []) + [AluImm(op, d, if IsShiftOp(op) then imm % 32 else imm)]
  }

  lemma ShiftAmount(op: ImmOp, a: Word, imm: Word)
    requires IsShiftOp(op)
    ensures EvalImm(op, a, imm % 32) == EvalImm(op, a, imm)
  {
    assert Low5(imm % 32) == Low5(imm);
  }

  lemma ExecAluImm(code: seq<HostOp>, n: nat, s: nat, d: nat, op: ImmOp, imm: Word, h: Host)
    requires |h.r| == n + 1 && s < n && d < n
    ensures var u := Exec(code, h);
            Computed(u, Exec(code + AluImmCode(s, d, op, imm), h), n, d, EvalImm(op, u.r[s], imm))
  {
    var u, k := Exec(code, h), if IsShiftOp(op) then imm % 32 else imm;
    MovAluImm(u, n, s, d, op, k);
    if IsShiftOp(op) { ShiftAmount(op, u.r[s], imm); }
    if s != d {
      ExecTwo(code, Mov(s, d), AluImm(op, d, k), h);
      assert AluImmCode(s, d, op, imm) == [Mov(s, d), AluImm(op, d, k)];
    } else {
      ExecMore(code, AluImm(op, d, k), h);
      assert AluImmCode(s, d, op, imm) == [AluImm(op, d, k)];
    }
  }

  lemma DeliversAluImm(m: RegMap, code: seq<HostOp>, b: seq<Insn>, pend: set<nat>, i: Insn, s: nat, d: nat)
    requires AllCompute(b) && Tracks(m, code, b, pend) && i.opcode.OPIMM? && d < |m| && Operand(m, pend, s, i.rs1)
    ensures Delivers(|m|, code, code + AluImmCode(s, d, i.opcode.iop, i.imm), b, i, d)
  {
    forall h: Host | |h.r| == |m| + 1
      ensures Computed(Exec(code, h), Exec(code + AluImmCode(s, d, i.opcode.iop, i.imm), h), |m|, d,
              Value(i, Seen(b, h.x), i.pc))
    {
      ExecAluImm(code, |m|, s, d, i.opcode.iop, i.imm, h);
      OperandValue(m, code, b, pend, s, i.rs1, h);
    }
  }

  predicate IsShiftReg(op: RegOp) {
    op.Sll? || op.Srl? || op.Sra?
  }

  // GEN_ALU_REG and GEN_SHIFT_REG: the second operand through the scratch register t.
  function AluRegCode(s1: nat, s2: nat, d: nat, t: nat, op: RegOp): seq<HostOp> {
    [Mov(s2, t), Mov(s1, d)] + (if IsShiftReg(op) then [AluImm(Andi, t, 31)] else []) + [AluReg(op, t, d)]
  }

  lemma {:induction false} AndZero(a: nat)
    ensures Bits(BitAnd, a, 0) == 0
  {
    if a != 0 { AndZero(a / 2); }
  }

  lemma AndHalf(a: nat, b: nat)
    requires b % 2 == 1
    ensures Bits(BitAnd, a, b) == 2 * Bits(BitAnd, a / 2, b / 2) + a % 2
  {
  }

  lemma Low2(v: Word)
    ensures v % 4 == v % 2 + 2 * ((v / 2) % 2)
  {
  }

  lemma Low3(v: Word)
    ensures v % 8 == v % 2 + 2 * ((v / 2) % 4)
  {
  }

  lemma Low4(v: Word)
    ensures v % 16 == v % 2 + 2 * ((v / 2) % 8)
  {
  }

  lemma Low5Bits(v: Word)
    ensures v % 32 == v % 2 + 2 * ((v / 2) % 16)
  {
  }

  lemma MaskLow3(v: Word)
    ensures Bits(BitAnd, v, 7) == v % 8
  {
    AndHalf(v, 7);
    AndHalf(v / 2, 3);
    AndHalf(v / 2 / 2, 1);
    AndZero(v / 2 / 2 / 2);
    Low2(v / 2);
    Low3(v);
  }

  // RV32_SHIFT_MASK keeps the low five bits.
  lemma MaskLow5(v: Word)
    ensures Bitwise(BitAnd, v, 31) == v % 32
  {
    AndHalf(v, 31);
    AndHalf(v / 2, 15);
    MaskLow3(v / 2 / 2);
    Low4(v / 2);
    Low5Bits(v);
  }

  lemma MovMovShift(h: Host, n: nat, s1: nat, s2: nat, d: nat, op: RegOp)
    requires |h.r| == n + 1 && s1 < n && s2 < n && d < n && IsShiftReg(op)
    ensures Computed(h, Do(AluReg(op, n, d), Do(AluImm(Andi, n, 31), Do(Mov(s1, d), Do(Mov(s2, n), h)))), n, d,
                     EvalReg(op, h.r[s1], h.r[s2]))
  {
    var v := h.r[s2];
    MaskLow5(v);
    assert Low5(v % 32) == Low5(v);
    assert EvalReg(op, h.r[s1], v % 32) == EvalReg(op, h.r[s1], v);
    var u := Do(AluImm(Andi, n, 31), Do(Mov(s1, d), Do(Mov(s2, n), h)));
    assert u.r[n] == v % 32 && u.r[d] == h.r[s1];
  }

  lemma AluRegTail(code: seq<HostOp>, s1: nat, s2: nat, d: nat, t: nat, op: RegOp)
    ensures var movs := code + [Mov(s2, t), Mov(s1, d)];
            code + AluRegCode(s1, s2, d, t, op) ==
            if IsShiftReg(op) then movs + [AluImm(Andi, t, 31), AluReg(op, t, d)] else movs + [AluReg(op, t, d)]
  {
  }

  lemma ExecAluReg(code: seq<HostOp>, n: nat, s1: nat, s2: nat, d: nat, op: RegOp, h: Host)
    requires |h.r| == n + 1 && s1 < n && s2 < n && d < n
    ensures var u := Exec(code, h);
            Computed(u, Exec(code + AluRegCode(s1, s2, d, n, op), h), n, d, EvalReg(op, u.r[s1], u.r[s2]))
  {
    var u, movs := Exec(code, h), code + [Mov(s2, n), Mov(s1, d)];
    ExecTwo(code, Mov(s2, n), Mov(s1, d), h);
    AluRegTail(code, s1, s2, d, n, op);
    if IsShiftReg(op) {
      ExecTwo(movs, AluImm(Andi, n, 31), AluReg(op, n, d), h);
      MovMovShift(u, n, s1, s2, d, op);
    } else {
      ExecMore(movs, AluReg(op, n, d), h);
      MovMovAlu(u, n, s1, s2, d, op);
    }
  }

  lemma DeliversAluReg(m: RegMap, code: seq<HostOp>, b: seq<Insn>, pend: set<nat>, i: Insn, s1: nat, s2: nat, d: nat)
    requires AllCompute(b) && Tracks(m, code, b, pend) && i.opcode.OP? && d < |m|
    requires Operand(m, pend, s1, i.rs1) && Operand(m, pend, s2, i.rs2)
    ensures Delivers(|m|, code, code + AluRegCode(s1, s2, d, |m|, i.opcode.rop), b, i, d)
  {
    forall h: Host | |h.r| == |m| + 1
      ensures Computed(Exec(code, h), Exec(code + AluRegCode(s1, s2, d, |m|, i.opcode.rop), h), |m|, d,
              Value(i, Seen(b, h.x), i.pc))
    {
      ExecAluReg(code, |m|, s1, s2, d, i.opcode.rop, h);
      OperandValue(m, code, b, pend, s1, i.rs1, h);
      OperandValue(m, code, b, pend, s2, i.rs2, h);
    }
  }

  // The instructions this model of the code generator covers.
  predicate Covered(i: Insn) {
    i.rd != 0 &&
    match i.opcode
    case LUI | AUIPC => true
    case OPIMM(op) => !op.Slti? && !op.Sltiu?
    case OP(op) => op.Add? || op.Sub? || op.Sll? || op.Xor? || op.Srl? || op.Sra? || op.Or? || op.And?
    case _ => false
  }

  class Jit {
    var slots: RegMap             // register_map
    var code: seq<HostOp>         // the emitted code
    var liveness: Liveness        // the last use of each guest register
    var queue: seq<Reg>           // candidate_queue: all guest registers, earliest last use first
    ghost var done: seq<Insn>     // the instructions translated so far

    // reset_reg, liveness_reset and liveness_calc, for hosts with n registers in register_map.
    constructor (n: nat, b: seq<Insn>)
      requires n >= 3
      ensures Ready({}) && |slots| == n && code == [] && done == []
      ensures forall r: Reg :: LastUse(b, r, liveness[r])
    {
      var l := LivenessCalc(b);
      var q := CandidateQueue(l);
      slots := seq(n, _ => Slot(-1, false, false));
      code, done := [], [];
      liveness, queue := l, q;
    }

    ghost predicate Ready(pend: set<nat>)
      reads this
    {
      |slots| >= 3 && Ordered(liveness, queue) && (forall r: Reg :: r in queue) && Proper(slots) &&
      AllCompute(done) && Tracks(slots, code, done, pend)
    }

    // regs_refresh
    method RegsRefresh(idx: nat)
      requires Ready({})
      modifies this`slots
      ensures Ready({}) && |slots| == |old(slots)|
      ensures forall k :: 0 <= k < |slots| ==>
                slots[k] == Refreshed(old(slots)[k], liveness, idx)
    {
      ghost var m := slots;
      for i := 0 to |slots|
        invariant |slots| == |m|
        invariant forall k :: 0 <= k < i ==> slots[k] == Refreshed(m[k], liveness, idx)
        invariant forall k :: i <= k < |m| ==> slots[k] == m[k]
      {
        if slots[i].vm != -1 && liveness[slots[i].vm] < idx {
          slots := slots[i := slots[i].(alive := false)];
        }
      }
      TracksAlive(m, slots, code, done, {});
    }

    // save_reg
    method SaveReg(i: nat, ghost pend: set<nat>)
      requires Ready(pend) && i < |slots|
      modifies this`slots, this`code
      ensures Ready(pend) && slots == old(slots)[i := old(slots)[i].(dirty := false)]
    {
      if slots[i].dirty {
        TracksSave(slots, code, done, pend, i);
        code := code + SaveCode(i, slots[i].vm);
        slots := slots[i := slots[i].(dirty := false)];
      }
    }

    // map_vm_reg (a == b == -1), map_vm_reg_reserved (a == b) and map_vm_reg_reserved2.
    method MapVmReg(r: Reg, a: int, b: int, ghost pend: set<nat>) returns (t: nat, ghost pend': set<nat>)
      requires Ready(pend)
      modifies this`slots, this`code
      ensures Ready(pend') && |slots| == |old(slots)| && t < |slots| && slots[t].vm == r
      ensures Held(old(slots), r) ==> slots == old(slots) && code == old(code) && pend' == pend
      ensures !Held(old(slots), r) ==> !Spared(t, a, b) && !slots[t].dirty && pend' == pend + {t}
      ensures forall j :: 0 <= j < |slots| && j != t ==> slots[j] == old(slots)[j]
    {
      pend' := pend;
      var i := FindVm(slots, r, -1, -1);
      if i >= 0 {
        return i, pend;
      }
      t := RegPick(slots, liveness, queue, a, b);
      SaveReg(t, pend);
      HeldSame(old(slots), slots);
      TracksRemap(slots, code, done, pend, t, r);
      slots := slots[t := Slot(r, false, true)];
      pend' := pend + {t};
    }

    method EmitLoad(t: nat, ghost pend: set<nat>)
      requires Ready(pend) && t < |slots| && slots[t].vm != -1 && (slots[t].dirty ==> slots[t].vm == 0)
      modifies this`slots, this`code
      ensures Ready(pend - {t}) && slots == old(slots)[t := old(slots)[t].(dirty := old(slots)[t].vm == 0)]
    {
      TracksLoad(slots, code, done, pend, t);
      code := code + [LoadCode(t, slots[t].vm)];
      slots := slots[t := slots[t].(dirty := slots[t].vm == 0)];
    }

    // ra_load
    method RaLoad(r: Reg) returns (t: nat)
      requires Ready({})
      modifies this`slots, this`code
      ensures Ready({}) && |slots| == |old(slots)| && t < |slots| && slots[t].vm == r
    {
      ghost var pend;
      var origin := FindVm(slots, r, -1, -1);
      t, pend := MapVmReg(r, -1, -1, {});
      if origin != t {
        EmitLoad(t, pend);
        assert pend - {t} == {};
      }
    }

    // ra_load2: both registers are mapped before either is loaded.
    method RaLoad2(r1: Reg, r2: Reg) returns (a: nat, b: nat)
      requires Ready({})
      modifies this`slots, this`code
      ensures Ready({}) && |slots| == |old(slots)| && a < |slots| && b < |slots| && slots[a].vm == r1 &&
              slots[b].vm == r2
    {
      ghost var pend, pend2;
      var origin1 := FindVm(slots, r1, -1, -1);
      var origin2 := FindVm(slots, r2, -1, -1);
      a, pend := MapVmReg(r1, -1, -1, {});
      if r1 == r2 {
        b, pend2 := a, pend;
      } else {
        ghost var m := slots;
        b, pend2 := MapVmReg(r2, a, a, pend);
        assert slots[a] == m[a];
        assert b in pend2 ==> origin2 != b;
      }
      if origin1 != a {
        EmitLoad(a, pend2);
        pend2 := pend2 - {a};
      }
      if origin2 != b {
        EmitLoad(b, pend2);
        pend2 := pend2 - {b};
      }
      assert pend2 == {};
    }

    // The new value is in host register d: it is dirty, and instruction i is done.
    method Finish(i: Insn, d: nat, ops: seq<HostOp>, ghost pend: set<nat>)
      requires Ready(pend) && Computes(i.opcode) && d < |slots| && slots[d].vm == Dest(i) && Dest(i) != 0
      requires Delivers(|slots|, code, code + ops, done, i, d) && pend <= {d}
      modifies this`slots, this`code, this`done
      ensures Ready({}) && |slots| == |old(slots)| && done == old(done) + [i] && code == old(code) + ops
    {
      TracksSet(slots, code, code + ops, done, pend, i, d);
      assert pend - {d} == {};
      code := code + ops;
      slots := slots[d := slots[d].(dirty := true)];
      done := done + [i];
    }

    // lui and auipc
    method GenLoadImm(i: Insn)
      requires Ready({}) && Covered(i) && (i.opcode.LUI? || i.opcode.AUIPC?)
      modifies this`slots, this`code, this`done
      ensures Ready({}) && |slots| == |old(slots)| && done == old(done) + [i]
    {
      ghost var pend;
      var d;
      d, pend := MapVmReg(i.rd, -1, -1, {});
      var v := if i.opcode.LUI? then i.imm else Plus(i.imm, i.pc);
      DeliversImm(slots, code, done, i, d, v);
      Finish(i, d, [LoadImm(d, v)], pend);
    }

    // GEN_ALU_IMM and GEN_SHIFT_IMM
    method GenAluImm(i: Insn)
      requires Ready({}) && Covered(i) && i.opcode.OPIMM?
      modifies this`slots, this`code, this`done
      ensures Ready({}) && |slots| == |old(slots)| && done == old(done) + [i]
    {
      ghost var pend;
      var s := RaLoad(i.rs1);
      var d;
      d, pend := MapVmReg(i.rd, s, s, {});
      DeliversAluImm(slots, code, done, pend, i, s, d);
      Finish(i, d, AluImmCode(s, d, i.opcode.iop, i.imm), pend);
    }

    // GEN_ALU_REG and GEN_SHIFT_REG
    method GenAluReg(i: Insn)
      requires Ready({}) && Covered(i) && i.opcode.OP?
      modifies this`slots, this`code, this`done
      ensures Ready({}) && |slots| == |old(slots)| && done == old(done) + [i]
    {
      ghost var pend;
      var s1, s2 := RaLoad2(i.rs1, i.rs2);
      var d;
      d, pend := MapVmReg(i.rd, s1, s2, {});
      DeliversAluReg(slots, code, done, pend, i, s1, s2, d);
      Finish(i, d, AluRegCode(s1, s2, d, |slots|, i.opcode.rop), pend);
    }

    // The dispatch on the opcode.
    method Generate(i: Insn)
      requires Ready({}) && Covered(i)
      modifies this`slots, this`code, this`done
      ensures Ready({}) && |slots| == |old(slots)| && done == old(done) + [i]
    {
      if i.opcode.OPIMM? {
        GenAluImm(i);
      } else if i.opcode.OP? {
        GenAluReg(i);
      } else {
        GenLoadImm(i);
      }
    }

    // store_back
    method StoreBack()
      requires Ready({})
      modifies this`slots, this`code
      ensures Ready({}) && |slots| == |old(slots)| && forall k :: 0 <= k < |slots| ==> !slots[k].dirty
    {
      for i := 0 to |slots|
        invariant Ready({}) && |slots| == |old(slots)| && forall k :: 0 <= k < i ==> !slots[k].dirty
      {
        if slots[i].vm != -1 {
          SaveReg(i, {});
        }
      }
    }

    // The part of translate that handles straight-line code, then store_back. The code reads x0 as zero
    // and leaves X[0] alone.
    method Translate(b: seq<Insn>)
      requires Ready({}) && done == [] && code == [] && forall k :: 0 <= k < |b| ==> Covered(b[k])
      modifies this
      ensures |slots| == |old(slots)| && AllCompute(b)
      ensures forall h: Host :: |h.r| == |slots| + 1 ==> Exec(code, h).x == Seen(b, h.x)[0 := h.x[0]]
      ensures forall h: Host, strict: bool, s: State ::
                |h.r| == |slots| + 1 && h.x == s.x && X(s, 0) == 0 && ConstOpt.Placed(b, s.pc) ==>
                Exec(code, h).x == Through(strict, b, s).s.x
    {
      for idx := 0 to |b|
        invariant Ready({}) && |slots| == |old(slots)| && done == b[..idx]
      {
        RegsRefresh(idx);
        Generate(b[idx]);
      }
      assert b[..|b|] == b;
      StoreBack();
      forall h: Host | |h.r| == |slots| + 1 ensures Exec(code, h).x == Seen(b, h.x)[0 := h.x[0]] {
        AllSaved(slots, Exec(code, h), Seen(b, h.x), h.x[0]);
      }
      forall h: Host, strict: bool, s: State
        | |h.r| == |slots| + 1 && h.x == s.x && X(s, 0) == 0 && ConstOpt.Placed(b, s.pc)
        ensures Exec(code, h).x == Through(strict, b, s).s.x
      {
        InterpreterAgrees(strict, b, s);
        ZeroSeen(b, s.x);
      }
    }
  }

  // With nothing dirty, the guest registers in memory are the guest state, but for X[0].
  lemma AllSaved(m: RegMap, h: Host, g: Regs, z: Word)
    requires Sim(m, h, g, {}, z) && forall k :: 0 <= k < |m| ==> !m[k].dirty
    ensures h.x == g[0 := z]
  {
    forall r: Reg | r != 0 ensures h.x[r] == g[r] {
      if Held(m, r) {
        var i :| 0 <= i < |m| && m[i].vm == r;
        assert !m[i].dirty;
      }
    }
  }

  // ---------------------------------------------------------------- x0

  lemma {:induction false} ZeroAfter(b: seq<Insn>, x: Regs)
    requires forall k :: 0 <= k < |b| ==> Covered(b[k])
    ensures AllCompute(b) && After(b, x)[0] == x[0]
  {
    if b != [] { ZeroAfter(b[..|b| - 1], x); }
  }

  lemma ZeroSeen(b: seq<Insn>, x: Regs)
    requires (forall k :: 0 <= k < |b| ==> Covered(b[k])) && x[0] == 0
    ensures AllCompute(b) && Seen(b, x)[0 := x[0]] == After(b, x)
  {
    assert x[0 := 0] == x;
    ZeroAfter(b, x);
  }

  // ---------------------------------------------------------------- against the interpreter

  lemma {:induction false} AfterCons(b: seq<Insn>, x: Regs)
    requires b != [] && AllCompute(b)
    ensures After(b, x) == After(b[1..], x[Dest(b[0]) := Value(b[0], x, b[0].pc)])
  {
    var n := |b| - 1;
    if n > 0 {
      assert b[..n][1..] == b[1..][..n - 1] && b[..n][0] == b[0] && b[1..][n - 1] == b[n];
      AfterCons(b[..n], x);
    } else {
      assert b[..0] == [] && b[1..] == [];
    }
  }

  /** The guest registers that the emitted code leaves are those the interpreter computes. */
  lemma {:induction false} InterpreterAgrees(strict: bool, b: seq<Insn>, s: State)
    requires AllCompute(b) && ConstOpt.Placed(b, s.pc)
    ensures Through(strict, b, s).Continue? && Through(strict, b, s).s.x == After(b, s.x)
    decreases |b|
  {
    if b != [] {
      ComputeStep(strict, b[0], s);
      AfterCons(b, s.x);
      InterpreterAgrees(strict, b[1..], Step(strict, b[0], s).s);
    }
  }
}
