/** Sv32 address translation of src/system.c: the page-table walk of section 4.3.2 of the RISC-V
    Privileged Architecture, and the data and instruction TLBs that cache it while the A and D bits
    of page-table entries are written to guest memory. */
module Mmu {
  import opened Words

  // ---------------------------------------------------------------- page tables

  // A physical page number has 22 bits, more than 32-bit addresses can tell apart.
  type Ppn = n: nat | n < 0x40_0000

  // A page-table entry by its fields.
  datatype Pte = Pte(v: bool, r: bool, w: bool, x: bool, u: bool, a: bool, d: bool, ppn: Ppn)

  // The place of an entry in guest RAM: page number, and index in the page.
  datatype Place = Place(page: nat, entry: nat)

  // Guest RAM, as far as it is read as page tables; words never written are zero.
  type Memory = map<Place, Pte>

  const ZERO := Pte(false, false, false, false, false, false, false, 0)

  function Read(mem: Memory, p: Place): Pte {
    if p in mem then mem[p] else ZERO
  }

  // NEXT_PG_TBL
  predicate IsPointer(pte: Pte) {
    pte.v && !pte.r && !pte.w && !pte.x
  }

  // RO_PAGE, RW_PAGE, EO_PAGE, RX_PAGE and RWX_PAGE; write without read is reserved.
  predicate IsLeaf(pte: Pte) {
    pte.v && (pte.r || pte.x) && (pte.w ==> pte.r)
  }

  datatype Leaf = NoLeaf | Leaf(at: Place, level: int)

  // Index of vaddr in the table of step i: 1 is the root.
  function Vpn(vaddr: Word, i: nat): (n: nat)
    ensures n < 1024
  {
    if i == 1 then vaddr / 0x40_0000 else (vaddr / 4096) % 1024
  }

  // The walk from the table at page ppn; RAM has the given number of pages.
  function WalkFrom(mem: Memory, pages: nat, ppn: nat, vaddr: Word, i: nat): Leaf
    requires i <= 1
    decreases i
  {
    var at := Place(ppn, Vpn(vaddr, i));
    var pte := Read(mem, at);
    if ppn >= pages then NoLeaf
    else if IsPointer(pte) then if i == 0 then NoLeaf else WalkFrom(mem, pages, pte.ppn, vaddr, 0)
    else if IsLeaf(pte) && !(i == 1 && pte.ppn % 1024 != 0) then Leaf(at, 2 - i)
    else NoLeaf
  }

  // satp & MASK(22) is the page of the root table.
  function Walk(mem: Memory, pages: nat, satp: Word, vaddr: Word): Leaf {
    WalkFrom(mem, pages, satp % 0x40_0000, vaddr, 1)
  }

  // The places that the walk reads.
  function Consulted(mem: Memory, pages: nat, ppn: nat, vaddr: Word, i: nat): set<Place>
    requires i <= 1
    decreases i
  {
    var at := Place(ppn, Vpn(vaddr, i));
    var pte := Read(mem, at);
    if ppn >= pages then {}
    else if IsPointer(pte) && i == 1 then {at} + Consulted(mem, pages, pte.ppn, vaddr, 0)
    else {at}
  }

  // mmu_walk
  method MmuWalk(mem: Memory, pages: nat, satp: Word, vaddr: Word) returns (r: Leaf)
    ensures r == Walk(mem, pages, satp, vaddr)
  {
    var ppn: nat := satp % 0x40_0000;
    if ppn >= pages {
      return NoLeaf;
    }
    var i := 1;
    while i >= 0
      invariant -1 <= i <= 1 && ppn < pages
      invariant Walk(mem, pages, satp, vaddr) == if i == -1 then NoLeaf else WalkFrom(mem, pages, ppn, vaddr, i)
      decreases i + 1
    {
      var level := 2 - i;
      var at := Place(ppn, Vpn(vaddr, i));
      var pte := Read(mem, at);
      if IsPointer(pte) {
        ppn := pte.ppn;
        if ppn >= pages {
          return NoLeaf;
        }
      } else if IsLeaf(pte) {
        if level == 1 && pte.ppn % 1024 != 0 {
          return NoLeaf;
        }
        return Leaf(at, level);
      } else {
        return NoLeaf;
      }
      i := i - 1;
    }
    return NoLeaf;
  }

  /** Every page-table entry that a walk reads lies inside guest RAM. */
  lemma {:induction false} ConsultedInRam(mem: Memory, pages: nat, ppn: nat, vaddr: Word, i: nat, p: Place)
    requires i <= 1 && p in Consulted(mem, pages, ppn, vaddr, i)
    ensures p.page < pages && p.entry < 1024
    decreases i
  {
    var at := Place(ppn, Vpn(vaddr, i));
    if p != at { ConsultedInRam(mem, pages, Read(mem, at).ppn, vaddr, 0, p); }
  }

  lemma {:induction false} LeafConsulted(mem: Memory, pages: nat, ppn: nat, vaddr: Word, i: nat)
    requires i <= 1
    ensures var l := WalkFrom(mem, pages, ppn, vaddr, i);
            l.Leaf? ==> l.at in Consulted(mem, pages, ppn, vaddr, i) && l.at in mem && IsLeaf(Read(mem, l.at))
    decreases i
  {
    if i == 1 { LeafConsulted(mem, pages, Read(mem, Place(ppn, Vpn(vaddr, i))).ppn, vaddr, 0); }
  }

  // q is p with A or D set in addition.
  ghost predicate Marked(p: Pte, q: Pte) {
    q == p.(a := q.a, d := q.d) && (p.a ==> q.a) && (p.d ==> q.d)
  }

  /** Setting A and D bits never changes any walk. */
  lemma {:induction false} WalkMarked(mem: Memory, mem': Memory, pages: nat, ppn: nat, vaddr: Word, i: nat)
    requires i <= 1 && forall p :: p in Consulted(mem, pages, ppn, vaddr, i) ==> Marked(Read(mem, p), Read(mem', p))
    ensures WalkFrom(mem', pages, ppn, vaddr, i) == WalkFrom(mem, pages, ppn, vaddr, i)
    ensures Consulted(mem', pages, ppn, vaddr, i) == Consulted(mem, pages, ppn, vaddr, i)
    decreases i
  {
    var at := Place(ppn, Vpn(vaddr, i));
    var pte := Read(mem, at);
    if ppn < pages && IsPointer(pte) && i == 1 {
      assert Marked(pte, Read(mem', at));
      WalkMarked(mem, mem', pages, pte.ppn, vaddr, 0);
    }
  }

  // The walk looks at the page number of vaddr only.
  lemma {:induction false} WalkPage(mem: Memory, pages: nat, ppn: nat, va: Word, vb: Word, i: nat)
    requires i <= 1 && va / 4096 == vb / 4096
    ensures WalkFrom(mem, pages, ppn, va, i) == WalkFrom(mem, pages, ppn, vb, i)
    ensures Consulted(mem, pages, ppn, va, i) == Consulted(mem, pages, ppn, vb, i)
    decreases i
  {
    SameVpn(va, vb);
    if i == 1 { WalkPage(mem, pages, Read(mem, Place(ppn, Vpn(va, i))).ppn, va, vb, 0); }
  }

  lemma SameVpn(va: Word, vb: Word)
    requires va / 4096 == vb / 4096
    ensures Vpn(va, 0) == Vpn(vb, 0) && Vpn(va, 1) == Vpn(vb, 1)
  {
    assert va / 0x40_0000 == va / 4096 / 1024 && vb / 0x40_0000 == vb / 4096 / 1024;
  }

  // ---------------------------------------------------------------- translation by a fresh walk

  datatype Privilege = User | Supervisor | Firmware

  // What stays fixed in a run: pages of RAM, the privilege mode, SUM and MXR.
  datatype Env = Env(pages: nat, mode: Privilege, sum: bool, mxr: bool)

  // U pages are refused in S mode with SUM clear.
  predicate BarsUser(env: Env) {
    env.mode.Supervisor? && !env.sum
  }

  datatype Access = Load | Store | Fetch

  datatype Result = Fault | Ok(paddr: Word)

  datatype Machine = Machine(mem: Memory, satp: Word)

  predicate Permits(r: bool, w: bool, x: bool, acc: Access) {
    match acc
    case Load => r
    case Store => w
    case Fetch => x
  }

  // MMU_FAULT_CHECK on an entry that was found.
  predicate Allowed(env: Env, pte: Pte, acc: Access) {
    pte.v && Permits(pte.r, pte.w, pte.x, acc) &&
    !(acc.Load? && if env.mxr then !pte.r && !pte.x else !pte.r) &&
    !(BarsUser(env) && pte.u)
  }

  // *pte >> 10 << 12 in 32 bits.
  function Base(pte: Pte): Word {
    (pte.ppn % 0x10_0000) * 4096
  }

  // The base is aligned to the page, so that its union with the offset is the sum.
  function Phys(base: Word, level: int, vaddr: Word): Word {
    (base + if level == 1 then vaddr % 0x40_0000 else vaddr % 4096) % 0x1_0000_0000
  }

  function Touch(pte: Pte, acc: Access): Pte {
    pte.(a := true, d := pte.d || acc.Store?)
  }

  datatype Outcome = Outcome(next: Machine, result: Result)

  // Reference: every access walks the page table afresh.
  function Reference(env: Env, m: Machine, vaddr: Word, acc: Access): Outcome {
    if m.satp == 0 then Outcome(m, Ok(vaddr))
    else
      match Walk(m.mem, env.pages, m.satp, vaddr)
      case NoLeaf => Outcome(m, Fault)
      case Leaf(at, level) =>
        var pte := Read(m.mem, at);
        if !Allowed(env, pte, acc) then Outcome(m, Fault)
        else Outcome(m.(mem := m.mem[at := Touch(pte, acc)]), Ok(Phys(Base(pte), level, vaddr)))
  }

  // ---------------------------------------------------------------- TLB entries

  datatype Entry = Entry(valid: bool, vpn: nat, base: Word, pte: Place, r: bool, w: bool, x: bool, u: bool,
                         dirty: bool, level: int)

  const TLB_SIZE := 64
  const EMPTY := Entry(false, 0, 0, Place(0, 0), false, false, false, false, false, 0)

  // A valid entry repeats what a walk of its page finds now; the page is marked accessed, and marked
  // dirty in memory if it is in the entry.
  ghost predicate Good(env: Env, m: Machine, e: Entry) {
    e.vpn < 0x10_0000 && Walk(m.mem, env.pages, m.satp, e.vpn * 4096) == Leaf(e.pte, e.level) &&
    var pte := Read(m.mem, e.pte);
    e.base == Base(pte) && (e.r, e.w, e.x, e.u) == (pte.r, pte.w, pte.x, pte.u) &&
    pte.a && (e.dirty ==> pte.d) && !(BarsUser(env) && pte.u)
  }

  // An entry sits in the slot of its page number.
  ghost predicate GoodTlb(env: Env, m: Machine, tlb: seq<Entry>) {
    |tlb| == TLB_SIZE &&
    forall k :: 0 <= k < |tlb| && tlb[k].valid ==> Good(env, m, tlb[k]) && tlb[k].vpn % TLB_SIZE == k
  }

  // No entry for the page of vaddr.
  ghost predicate Absent(tlb: seq<Entry>, vaddr: Word) {
    forall k :: 0 <= k < |tlb| ==> !(tlb[k].valid && tlb[k].vpn == vaddr / 4096)
  }

  // An entry is there for the page and permits the access.
  ghost predicate Cached(tlb: seq<Entry>, vaddr: Word, acc: Access) {
    exists k :: 0 <= k < |tlb| && Serves(tlb[k], vaddr, acc)
  }

  predicate Serves(e: Entry, vaddr: Word, acc: Access) {
    e.valid && e.vpn == vaddr / 4096 && Permits(e.r, e.w, e.x, acc)
  }

  // The same accesses to other pages are served by both.
  ghost predicate OthersServed(a: seq<Entry>, b: seq<Entry>, vaddr: Word) {
    forall va: Word, acc: Access :: va / 4096 != vaddr / 4096 ==> (Cached(a, va, acc) <==> Cached(b, va, acc))
  }

  // Memory only gained A or D bits.
  ghost predicate Kept(m: Machine, m': Machine) {
    m'.satp == m.satp && forall p :: Marked(Read(m.mem, p), Read(m'.mem, p))
  }

  lemma GoodKept(env: Env, m: Machine, m': Machine, tlb: seq<Entry>)
    requires Kept(m, m') && GoodTlb(env, m, tlb)
    ensures GoodTlb(env, m', tlb)
  {
    forall k | 0 <= k < |tlb| && tlb[k].valid ensures Good(env, m', tlb[k]) {
      var e := tlb[k];
      WalkMarked(m.mem, m'.mem, env.pages, m.satp % 0x40_0000, e.vpn * 4096, 1);
      assert Marked(Read(m.mem, e.pte), Read(m'.mem, e.pte));
    }
  }

  lemma TouchKept(m: Machine, at: Place, acc: Access)
    ensures Kept(m, m.(mem := m.mem[at := Touch(Read(m.mem, at), acc)]))
  {
  }

  // An entry for the page of vaddr, checked for the access, gives what a fresh walk would.
  lemma HitIsReference(env: Env, m: Machine, e: Entry, vaddr: Word, acc: Access)
    requires m.satp != 0 && e.valid && Good(env, m, e) && e.vpn == vaddr / 4096 && Permits(e.r, e.w, e.x, acc)
    ensures var o := Reference(env, m, vaddr, acc);
            o.result == Ok(Phys(e.base, e.level, vaddr)) && e.pte in m.mem &&
            o.next.mem == if acc.Store? then m.mem[e.pte := Read(m.mem, e.pte).(d := true)] else m.mem
  {
    WalkPage(m.mem, env.pages, m.satp % 0x40_0000, vaddr, e.vpn * 4096, 1);
    LeafConsulted(m.mem, env.pages, m.satp % 0x40_0000, vaddr, 1);
    var pte := Read(m.mem, e.pte);
    assert Allowed(env, pte, acc);
    assert m.mem[e.pte := pte] == m.mem;
  }

  // The entry that dtlb_populate and itlb_populate write.
  function EntryFor(vaddr: Word, pte: Pte, at: Place, level: int): Entry {
    Entry(true, vaddr / 4096, Base(pte), at, pte.r, pte.w, pte.x, pte.u, pte.d, level)
  }

  lemma PopulatedIsGood(env: Env, m: Machine, vaddr: Word, at: Place, level: int)
    requires Walk(m.mem, env.pages, m.satp, vaddr) == Leaf(at, level) && Read(m.mem, at).a &&
             !(BarsUser(env) && Read(m.mem, at).u)
    ensures Good(env, m, EntryFor(vaddr, Read(m.mem, at), at, level))
  {
    WalkPage(m.mem, env.pages, m.satp % 0x40_0000, vaddr, vaddr / 4096 * 4096, 1);
  }

  // No walk reads p.
  ghost predicate OffTable(env: Env, m: Machine, p: Place) {
    forall va: Word :: p !in Consulted(m.mem, env.pages, m.satp % 0x40_0000, va, 1)
  }

  lemma PokeKeepsGood(env: Env, m: Machine, p: Place, v: Pte, tlb: seq<Entry>)
    requires OffTable(env, m, p) && GoodTlb(env, m, tlb)
    ensures GoodTlb(env, m.(mem := m.mem[p := v]), tlb)
  {
    var m' := m.(mem := m.mem[p := v]);
    forall k | 0 <= k < |tlb| && tlb[k].valid ensures Good(env, m', tlb[k]) {
      var e := tlb[k];
      LeafConsulted(m.mem, env.pages, m.satp % 0x40_0000, e.vpn * 4096, 1);
      WalkMarked(m.mem, m'.mem, env.pages, m.satp % 0x40_0000, e.vpn * 4096, 1);
    }
  }

  lemma DropServes(tlb: seq<Entry>, idx: nat, vaddr: Word)
    requires idx < |tlb| && tlb[idx].vpn == vaddr / 4096
    ensures OthersServed(tlb, tlb[idx := tlb[idx].(valid := false)], vaddr)
  {
    var t := tlb[idx := tlb[idx].(valid := false)];
    forall va: Word, acc: Access | va / 4096 != vaddr / 4096 ensures Cached(tlb, va, acc) <==> Cached(t, va, acc) {
      forall k | 0 <= k < |tlb| ensures Serves(tlb[k], va, acc) <==> Serves(t[k], va, acc) {
      }
    }
  }

  // An entry stands in the slot of its page only.
  lemma SlotServes(env: Env, m: Machine, tlb: seq<Entry>, vaddr: Word, acc: Access)
    requires GoodTlb(env, m, tlb)
    ensures Cached(tlb, vaddr, acc) <==> Serves(tlb[vaddr / 4096 % TLB_SIZE], vaddr, acc)
  {
  }

  // ---------------------------------------------------------------- the MMU with its TLBs

  class Hart {
    const env: Env
    var mem: Memory
    var satp: Word
    var dtlb: seq<Entry>
    var itlb: seq<Entry>

    constructor (env: Env, mem: Memory, satp: Word)
      ensures Valid() && Now() == Machine(mem, satp) && this.env == env
    {
      this.env, this.mem, this.satp := env, mem, satp;
      dtlb := seq(TLB_SIZE, _ => EMPTY);
      itlb := seq(TLB_SIZE, _ => EMPTY);
    }

    ghost function Now(): Machine
      reads this
    {
      Machine(mem, satp)
    }

    ghost predicate Valid()
      reads this
    {
      GoodTlb(env, Now(), dtlb) && GoodTlb(env, Now(), itlb)
    }

    // mmu_tlb_flush_all
    method FlushAll()
      modifies this`dtlb, this`itlb
      ensures Valid()
    {
      dtlb := seq(TLB_SIZE, _ => EMPTY);
      itlb := seq(TLB_SIZE, _ => EMPTY);
    }

    // mmu_tlb_flush
    method Flush(vaddr: Word)
      requires Valid()
      modifies this`dtlb, this`itlb
      ensures Valid() && Absent(dtlb, vaddr) && Absent(itlb, vaddr)
      ensures OthersServed(old(dtlb), dtlb, vaddr) && OthersServed(old(itlb), itlb, vaddr)
    {
      var vpn := vaddr / 4096;
      var idx := vpn % TLB_SIZE;
      if dtlb[idx].valid && dtlb[idx].vpn == vpn {
        DropServes(dtlb, idx, vaddr);
        dtlb := dtlb[idx := dtlb[idx].(valid := false)];
      }
      if itlb[idx].valid && itlb[idx].vpn == vpn {
        DropServes(itlb, idx, vaddr);
        itlb := itlb[idx := itlb[idx].(valid := false)];
      }
    }

    // The write of satp in csr_csrrw and its siblings.
    method WriteSatp(v: Word)
      requires Valid()
      modifies this`satp, this`dtlb, this`itlb
      ensures Valid() && satp == v
    {
      var old_satp := satp;
      satp := v;
      if satp != old_satp {
        FlushAll();
      }
    }

    // A guest store to a word that is no page-table entry.
    method Poke(p: Place, v: Pte)
      requires Valid() && OffTable(env, Now(), p)
      modifies this`mem
      ensures Valid() && mem == old(mem)[p := v]
    {
      PokeKeepsGood(env, Now(), p, v, dtlb);
      PokeKeepsGood(env, Now(), p, v, itlb);
      mem := mem[p := v];
    }

    // *pte |= ... on the entry at `at`.
    method Mark(at: Place, acc: Access)
      requires Valid()
      modifies this`mem
      ensures Valid() && mem == old(mem)[at := Touch(Read(old(mem), at), acc)]
    {
      ghost var m := Now();
      mem := mem[at := Touch(Read(mem, at), acc)];
      TouchKept(m, at, acc);
      GoodKept(env, m, Now(), dtlb);
      GoodKept(env, m, Now(), itlb);
    }

    // dtlb_lookup
    method DtlbLookup(vaddr: Word, write: bool) returns (hit: bool, paddr: Word)
      requires Valid() && satp != 0
      modifies this`mem, this`dtlb
      ensures Valid()
      ensures var o := old(Reference(env, Now(), vaddr, if write then Store else Load));
              hit ==> Now() == o.next && Ok(paddr) == o.result
      ensures !hit ==> mem == old(mem)
      ensures hit <==> Cached(old(dtlb), vaddr, if write then Store else Load)
      ensures Cached(dtlb, vaddr, if write then Store else Load) <==> hit
    {
      SlotServes(env, Now(), dtlb, vaddr, if write then Store else Load);
      var vpn := vaddr / 4096;
      var idx := vpn % TLB_SIZE;
      var e := dtlb[idx];
      if !(e.valid && e.vpn == vpn) || !(if write then e.w else e.r) {
        return false, 0;
      }
      HitIsReference(env, Now(), e, vaddr, if write then Store else Load);
      assert e.dirty ==> mem[e.pte := Read(mem, e.pte).(d := true)] == mem;
      if write && !e.dirty {
        assert Touch(Read(mem, e.pte), Store) == Read(mem, e.pte).(d := true);
        Mark(e.pte, Store);
        dtlb := dtlb[idx := e.(dirty := true)];
        assert Serves(dtlb[idx], vaddr, Store);
      }
      return true, Phys(e.base, e.level, vaddr);
    }

    // itlb_lookup
    method ItlbLookup(vaddr: Word) returns (hit: bool, paddr: Word)
      requires Valid() && satp != 0
      ensures hit ==> Reference(env, Now(), vaddr, Fetch) == Outcome(Now(), Ok(paddr))
      ensures hit <==> Cached(itlb, vaddr, Fetch)
    {
      SlotServes(env, Now(), itlb, vaddr, Fetch);
      var vpn := vaddr / 4096;
      var e := itlb[vpn % TLB_SIZE];
      if !(e.valid && e.vpn == vpn) || !e.x {
        return false, 0;
      }
      HitIsReference(env, Now(), e, vaddr, Fetch);
      return true, Phys(e.base, e.level, vaddr);
    }

    // The part of mmu_translate and mmu_ifetch that follows a miss, up to the refill. A fault is taken
    // after a second walk of the same tables.
    method WalkAndMark(vaddr: Word, acc: Access) returns (r: Result, e: Entry)
      requires Valid() && satp != 0
      modifies this`mem
      ensures Valid()
      ensures var o := old(Reference(env, Now(), vaddr, acc)); Now() == o.next && r == o.result
      ensures r.Ok? ==> Good(env, Now(), e) && Serves(e, vaddr, acc)
    {
      var l := MmuWalk(mem, env.pages, satp, vaddr);
      e := EMPTY;
      if l.NoLeaf? || !Allowed(env, Read(mem, l.at), acc) {
        return Fault, e;
      }
      var pte := Read(mem, l.at);
      ghost var m := Now();
      TouchKept(m, l.at, acc);
      Mark(l.at, acc);
      WalkMarked(m.mem, mem, env.pages, satp % 0x40_0000, vaddr, 1);
      PopulatedIsGood(env, Now(), vaddr, l.at, l.level);
      return Ok(Phys(Base(pte), l.level, vaddr)), EntryFor(vaddr, Read(mem, l.at), l.at, l.level);
    }

    /** mmu_translate gives what a fresh walk gives, and leaves memory as a fresh walk would. */
    method Translate(vaddr: Word, write: bool) returns (r: Result)
      requires Valid()
      modifies this`mem, this`dtlb
      ensures Valid()
      ensures Outcome(Now(), r) == old(Reference(env, Now(), vaddr, if write then Store else Load))
      ensures satp != 0 && r.Ok? ==> Cached(dtlb, vaddr, if write then Store else Load)
    {
      if satp == 0 {
        return Ok(vaddr);
      }
      var hit, paddr := DtlbLookup(vaddr, write);
      if hit {
        return Ok(paddr);
      }
      var e;
      r, e := WalkAndMark(vaddr, if write then Store else Load);
      if r.Ok? {
        dtlb := dtlb[e.vpn % TLB_SIZE := e];
        assert Serves(dtlb[e.vpn % TLB_SIZE], vaddr, if write then Store else Load);
      }
    }

    /** mmu_ifetch likewise, up to the fetch from the physical address. */
    method Ifetch(vaddr: Word) returns (r: Result)
      requires Valid()
      modifies this`mem, this`itlb
      ensures Valid()
      ensures Outcome(Now(), r) == old(Reference(env, Now(), vaddr, Fetch))
      ensures satp != 0 && r.Ok? ==> Cached(itlb, vaddr, Fetch)
    {
      if satp == 0 {
        return Ok(vaddr);
      }
      var hit, paddr := ItlbLookup(vaddr);
      if hit {
        return Ok(paddr);
      }
      var e;
      r, e := WalkAndMark(vaddr, Fetch);
      if r.Ok? {
        itlb := itlb[e.vpn % TLB_SIZE := e];
        assert Serves(itlb[e.vpn % TLB_SIZE], vaddr, Fetch);
      }
    }

    method Perform(vaddr: Word, acc: Access) returns (r: Result)
      requires Valid()
      modifies this`mem, this`dtlb, this`itlb
      ensures Valid()
      ensures Outcome(Now(), r) == old(Reference(env, Now(), vaddr, acc))
    {
      match acc
      case Load => r := Translate(vaddr, false);
      case Store => r := Translate(vaddr, true);
      case Fetch => r := Ifetch(vaddr);
    }

    method Step(op: Op) returns (results: seq<Result>)
      requires Valid() && (op.Plain? ==> OffTable(env, Now(), op.p))
      modifies this`mem, this`satp, this`dtlb, this`itlb
      ensures Valid()
      ensures Trace(Now(), results) == old(ReferenceStep(env, Now(), op))
    {
      results := [];
      match op
      case Use(va, acc) =>
        var r := Perform(va, acc);
        results := [r];
      case Drop(va) => Flush(va);
      case DropAll => FlushAll();
      case SetSatp(v) => WriteSatp(v);
      case Plain(p, v) => Poke(p, v);
    }

    /** Any run of accesses, flushes, satp writes and stores beside the page tables gives, access by
        access, what fresh walks give. */
    method Run(ops: seq<Op>) returns (results: seq<Result>)
      requires Valid() && Legal(env, Now(), ops)
      modifies this`mem, this`satp, this`dtlb, this`itlb
      ensures Valid()
      ensures Trace(Now(), results) == old(ReferenceRun(env, Now(), ops))
    {
      results := [];
      ghost var start := Now();
      for i := 0 to |ops|
        invariant Valid() && Legal(env, Now(), ops[i..])
        invariant Resumed(env, Now(), results, ops[i..]) == ReferenceRun(env, start, ops)
      {
        ghost var before, had := Now(), results;
        var more := Step(ops[i]);
        results := results + more;
        RunOne(env, before, had, ops, i);
      }
    }
  }

  // ---------------------------------------------------------------- runs

  datatype Op = Use(va: Word, acc: Access) | Drop(va: Word) | DropAll | SetSatp(v: Word) | Plain(p: Place, pte: Pte)

  datatype Trace = Trace(final: Machine, results: seq<Result>)

  // One operation of the machine without TLBs.
  function ReferenceStep(env: Env, m: Machine, op: Op): Trace {
    match op
    case Use(va, acc) => var o := Reference(env, m, va, acc); Trace(o.next, [o.result])
    case Drop(_) | DropAll => Trace(m, [])
    case SetSatp(v) => Trace(m.(satp := v), [])
    case Plain(p, v) => Trace(m.(mem := m.mem[p := v]), [])
  }

  function ReferenceRun(env: Env, m: Machine, ops: seq<Op>): Trace
    decreases |ops|
  {
    if ops == [] then Trace(m, [])
    else
      var s := ReferenceStep(env, m, ops[0]);
      var rest := ReferenceRun(env, s.final, ops[1..]);
      Trace(rest.final, s.results + rest.results)
  }

  // A run that has given some results so far, continued.
  function Resumed(env: Env, m: Machine, results: seq<Result>, ops: seq<Op>): Trace {
    var rest := ReferenceRun(env, m, ops);
    Trace(rest.final, results + rest.results)
  }

  lemma RunOne(env: Env, m: Machine, results: seq<Result>, ops: seq<Op>, i: nat)
    requires i < |ops| && Legal(env, m, ops[i..])
    ensures var s := ReferenceStep(env, m, ops[i]);
            Resumed(env, m, results, ops[i..]) == Resumed(env, s.final, results + s.results, ops[i + 1..]) &&
            Legal(env, s.final, ops[i + 1..])
  {
    assert ops[i..][0] == ops[i] && ops[i..][1..] == ops[i + 1..];
  }

  // Stores go beside the page tables in use.
  ghost predicate Legal(env: Env, m: Machine, ops: seq<Op>)
    decreases |ops|
  {
    ops == [] || ((ops[0].Plain? ==> OffTable(env, m, ops[0].p)) &&
      Legal(env, ReferenceStep(env, m, ops[0]).final, ops[1..]))
  }

  /** A write that translates leaves A and D set in the entry that translates it, which lies in RAM. */
  lemma WriteLeavesMarks(env: Env, m: Machine, vaddr: Word)
    requires m.satp != 0 && Reference(env, m, vaddr, Store).result.Ok?
    ensures var n := Reference(env, m, vaddr, Store).next;
            var l := Walk(n.mem, env.pages, n.satp, vaddr);
            l.Leaf? && Read(n.mem, l.at).a && Read(n.mem, l.at).d && l.at.page < env.pages && l.at.entry < 1024
  {
    var ppn := m.satp % 0x40_0000;
    var l := Walk(m.mem, env.pages, m.satp, vaddr);
    TouchKept(m, l.at, Store);
    WalkMarked(m.mem, m.mem[l.at := Touch(Read(m.mem, l.at), Store)], env.pages, ppn, vaddr, 1);
    LeafConsulted(m.mem, env.pages, ppn, vaddr, 1);
    ConsultedInRam(m.mem, env.pages, ppn, vaddr, 1, l.at);
  }

  // ---------------------------------------------------------------- against the standard

  // Steps 5 to 7 of section 4.3.2, on a leaf entry: the permission bits, MXR, SUM and the U bit.
  predicate UserBitOk(env: Env, pte: Pte, acc: Access) {
    match env.mode
    case User => pte.u
    case Supervisor => !pte.u || (env.sum && !acc.Fetch?)
    case Firmware => true
  }

  predicate StandardAllows(env: Env, pte: Pte, acc: Access) {
    UserBitOk(env, pte, acc) &&
    match acc
    case Load => pte.r || (env.mxr && pte.x)
    case Store => pte.w
    case Fetch => pte.x
  }

  // Execute-only pages are not readable under MXR.
  predicate TooStrict(env: Env, pte: Pte, acc: Access) {
    acc.Load? && env.mxr && pte.x && !pte.r && UserBitOk(env, pte, acc)
  }

  // User mode reaches pages without U, and S mode with SUM fetches from pages with U.
  predicate TooLax(env: Env, pte: Pte, acc: Access) {
    Permits(pte.r, pte.w, pte.x, acc) &&
    ((env.mode.User? && !pte.u) || (env.mode.Supervisor? && pte.u && env.sum && acc.Fetch?))
  }

  /** The fault check is the standard's rule on a valid entry, except exactly in these cases. */
  lemma AllowedExactly(env: Env, pte: Pte, acc: Access)
    requires pte.v
    ensures Allowed(env, pte, acc) == StandardAllows(env, pte, acc) <==>
            !TooStrict(env, pte, acc) && !TooLax(env, pte, acc)
    ensures TooStrict(env, pte, acc) ==> !Allowed(env, pte, acc)
    ensures TooLax(env, pte, acc) ==> Allowed(env, pte, acc)
  {
  }

  // Address translation is on when MODE, bit 31 of satp, is set, outside machine mode.
  predicate TranslationOn(env: Env, satp: Word) {
    satp >= 0x8000_0000 && !env.mode.Firmware?
  }

  // Steps 2 to 6 of section 4.3.2, apart from the permissions: the leaf entry, or none. A word outside
  // RAM cannot be read. A, D and U are reserved in an entry that points to the next table.
  function StandardWalk(mem: Memory, pages: nat, satp: Word, vaddr: Word): Leaf {
    var top := Place(satp % 0x40_0000, vaddr / 0x40_0000);
    var first := Read(mem, top);
    if top.page >= pages || !first.v || (first.w && !first.r) then NoLeaf
    else if first.r || first.x then if first.ppn % 1024 == 0 then Leaf(top, 1) else NoLeaf
    else if ReservedBits(first) || first.ppn >= pages then NoLeaf
    else
      var low := Place(first.ppn, vaddr / 4096 % 1024);
      var second := Read(mem, low);
      if !second.v || (second.w && !second.r) || !(second.r || second.x) then NoLeaf else Leaf(low, 2)
  }

  predicate ReservedBits(pte: Pte) {
    pte.a || pte.d || pte.u
  }

  // Step 8: the physical address, of 34 bits.
  function StandardAddress(pte: Pte, level: int, vaddr: Word): nat {
    if level == 1 then pte.ppn / 1024 * 0x40_0000 + vaddr % 0x40_0000 else pte.ppn * 4096 + vaddr % 4096
  }

  datatype Target = NoAddress | Address(paddr: nat)

  datatype Translation = Translation(next: Machine, target: Target)

  // The standard's translation, with A and D set in memory.
  function Standard(env: Env, m: Machine, vaddr: Word, acc: Access): Translation {
    if !TranslationOn(env, m.satp) then Translation(m, Address(vaddr))
    else
      match StandardWalk(m.mem, env.pages, m.satp, vaddr)
      case NoLeaf => Translation(m, NoAddress)
      case Leaf(at, level) =>
        var pte := Read(m.mem, at);
        if !StandardAllows(env, pte, acc) then Translation(m, NoAddress)
        else
          var marked := pte.(a := true, d := pte.d || acc.Store?);
          Translation(m.(mem := m.mem[at := marked]), Address(StandardAddress(pte, level, vaddr)))
  }

  // What the emulator does, in the same terms.
  function Emulated(env: Env, m: Machine, vaddr: Word, acc: Access): Translation {
    var o := Reference(env, m, vaddr, acc);
    Translation(o.next, if o.result.Ok? then Address(o.result.paddr) else NoAddress)
  }

  // The page is mapped to itself, and the access changes nothing in its entry.
  predicate MapsToItself(env: Env, m: Machine, vaddr: Word, acc: Access) {
    match Walk(m.mem, env.pages, m.satp, vaddr)
    case NoLeaf => false
    case Leaf(at, level) =>
      var pte := Read(m.mem, at);
      Allowed(env, pte, acc) && Touch(pte, acc) == pte && Phys(Base(pte), level, vaddr) == vaddr
  }

  // The root table leads on over an entry with reserved bits set.
  predicate BadPointer(m: Machine, vaddr: Word) {
    var root := Read(m.mem, Place(m.satp % 0x40_0000, vaddr / 0x40_0000));
    IsPointer(root) && ReservedBits(root)
  }

  // The leaf that the emulator's walk finds is handled as the standard asks: behind an entry with reserved
  // bits it must be refused; otherwise the check must go right, and the page of an access that it lets
  // through must have an address of 32 bits.
  predicate LeafHandled(env: Env, m: Machine, vaddr: Word, acc: Access, pte: Pte) {
    if BadPointer(m, vaddr) then !Allowed(env, pte, acc)
    else !TooStrict(env, pte, acc) && !TooLax(env, pte, acc) && (Allowed(env, pte, acc) ==> pte.ppn < 0x10_0000)
  }

  predicate Handled(env: Env, m: Machine, vaddr: Word, acc: Access) {
    match Walk(m.mem, env.pages, m.satp, vaddr)
    case NoLeaf => true
    case Leaf(at, _) => LeafHandled(env, m, vaddr, acc, Read(m.mem, at))
  }

  // The walk of the code against the standard's.
  lemma WalksDiffer(m: Machine, pages: nat, vaddr: Word)
    ensures var l, t := Walk(m.mem, pages, m.satp, vaddr), StandardWalk(m.mem, pages, m.satp, vaddr);
            t == if BadPointer(m, vaddr) then NoLeaf else l
    ensures var l := Walk(m.mem, pages, m.satp, vaddr);
            l.Leaf? ==> (l.level == 1 || l.level == 2) && (l.level == 1 ==> Read(m.mem, l.at).ppn % 1024 == 0)
  {
    var root := Read(m.mem, Place(m.satp % 0x40_0000, Vpn(vaddr, 1)));
    assert WalkFrom(m.mem, pages, root.ppn, vaddr, 0).Leaf? ==> WalkFrom(m.mem, pages, root.ppn, vaddr, 0).level == 2;
  }

  // Both addresses are the same exactly when the upper bits of the page number are zero.
  lemma AddressesDiffer(pte: Pte, level: int, vaddr: Word)
    requires level == 1 || level == 2
    requires level == 1 ==> pte.ppn % 1024 == 0
    ensures Phys(Base(pte), level, vaddr) == StandardAddress(pte, level, vaddr) <==> pte.ppn < 0x10_0000
  {
  }

  /** The emulator translates as the standard does exactly when: with translation on, the leaf it finds is
      handled as the standard asks; with it off, satp is zero or the page happens to be mapped to itself. */
  lemma TranslatesExactly(env: Env, m: Machine, vaddr: Word, acc: Access)
    ensures Emulated(env, m, vaddr, acc) == Standard(env, m, vaddr, acc) <==>
            if TranslationOn(env, m.satp) then Handled(env, m, vaddr, acc)
            else m.satp == 0 || MapsToItself(env, m, vaddr, acc)
  {
    var l := Walk(m.mem, env.pages, m.satp, vaddr);
    LeafConsulted(m.mem, env.pages, m.satp % 0x40_0000, vaddr, 1);
    WalksDiffer(m, env.pages, vaddr);
    if l.Leaf? {
      AllowedExactly(env, Read(m.mem, l.at), acc);
      AddressesDiffer(Read(m.mem, l.at), l.level, vaddr);
      TouchSame(m.mem, l.at, acc);
    }
  }

  lemma TouchSame(mem: Memory, at: Place, acc: Access)
    requires at in mem
    ensures mem[at := Touch(Read(mem, at), acc)] == mem <==> Touch(Read(mem, at), acc) == Read(mem, at)
  {
    assert mem[at := Touch(Read(mem, at), acc)][at] == Touch(Read(mem, at), acc);
  }

  // One superpage, mapped by entry 0 of the root table in page 1.
  function OnePage(pte: Pte, satp: Word): Machine {
    Machine(map[Place(1, 0) := pte], satp)
  }

  lemma OnePageWalk(pte: Pte, satp: Word)
    requires IsLeaf(pte) && pte.ppn % 1024 == 0 && satp % 0x40_0000 == 1
    ensures Walk(OnePage(pte, satp).mem, 2, satp, 0) == Leaf(Place(1, 0), 1)
    ensures StandardWalk(OnePage(pte, satp).mem, 2, satp, 0) == Leaf(Place(1, 0), 1)
  {
    assert Read(OnePage(pte, satp).mem, Place(1, 0)) == pte;
  }

  const SV32: Word := 0x8000_0001

  // A load from an execute-only page under MXR faults.
  lemma ExecuteOnlyPage()
    ensures var env := Env(2, Supervisor, false, true);
            var m := OnePage(Pte(true, false, false, true, false, true, true, 0), SV32);
            Reference(env, m, 0, Load).result == Fault && Standard(env, m, 0, Load).target == Address(0)
  {
    OnePageWalk(Pte(true, false, false, true, false, true, true, 0), SV32);
  }

  // User mode loads from a page of the supervisor.
  lemma SupervisorPageFromUser()
    ensures var env := Env(2, User, false, false);
            var m := OnePage(Pte(true, true, false, false, false, true, true, 0), SV32);
            Reference(env, m, 0, Load).result == Ok(0) && Standard(env, m, 0, Load).target == NoAddress
  {
    OnePageWalk(Pte(true, true, false, false, false, true, true, 0), SV32);
  }

  // S mode with SUM fetches from a page of the user.
  lemma UserPageFetched()
    ensures var env := Env(2, Supervisor, true, false);
            var m := OnePage(Pte(true, false, false, true, true, true, true, 0), SV32);
            Reference(env, m, 0, Fetch).result == Ok(0) && Standard(env, m, 0, Fetch).target == NoAddress
  {
    OnePageWalk(Pte(true, false, false, true, true, true, true, 0), SV32);
  }

  // A superpage whose address needs more than 32 bits is taken for the one at 0.
  lemma FarPage()
    ensures var env := Env(2, Supervisor, false, false);
            var m := OnePage(Pte(true, true, false, false, false, true, true, 0x10_0000), SV32);
            Reference(env, m, 0, Load).result == Ok(0) && Standard(env, m, 0, Load).target == Address(0x1_0000_0000)
  {
    OnePageWalk(Pte(true, true, false, false, false, true, true, 0x10_0000), SV32);
  }

  // A pointer to the next table with A set is followed.
  lemma MarkedPointer()
    ensures var env := Env(3, Supervisor, false, false);
            var root := Pte(true, false, false, false, false, true, false, 2);
            var leaf := Pte(true, true, false, false, false, true, true, 0);
            var m := Machine(map[Place(1, 0) := root, Place(2, 0) := leaf], SV32);
            Reference(env, m, 0, Load).result == Ok(0) && Standard(env, m, 0, Load).target == NoAddress
  {
    var root := Pte(true, false, false, false, false, true, false, 2);
    var leaf := Pte(true, true, false, false, false, true, true, 0);
    var mem := map[Place(1, 0) := root, Place(2, 0) := leaf];
    assert Read(mem, Place(1, 0)) == root && Read(mem, Place(2, 0)) == leaf;
    assert WalkFrom(mem, 3, 2, 0, 0) == Leaf(Place(2, 0), 2);
    assert Walk(mem, 3, SV32, 0) == Leaf(Place(2, 0), 2);
  }

  // With MODE clear but a root table in satp, an empty table faults.
  lemma BareModeWalks()
    ensures var env, m := Env(2, Supervisor, false, false), Machine(map[], 1);
            Reference(env, m, 0, Load).result == Fault && Standard(env, m, 0, Load).target == Address(0)
  {
  }
}
