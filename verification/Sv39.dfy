/** Address and page-table-entry arithmetic of kern/mm/mmu.h and kern/mm/pmm.h for the
    three-level Sv39 scheme (section 4.4 of the RISC-V Privileged Architecture). */
module Sv39 {
  const PGSIZE := 0x1000
  const PTSIZE := 0x20_0000
  const PDSIZE := 0x4000_0000
  const USERBASE := 0x20_0000
  const USERTOP := 0x8000_0000

  const PTE_V := 1
  const PTE_U := 16
  const PTE_USER := 31

  // ----- the macros on 64-bit words -----

  /** Shifting and masking out an index is division and remainder. */
  lemma IndexBits(la: bv64)
    ensures (la >> 30) & 0x1FF == (la / 0x4000_0000) % 512
    ensures (la >> 21) & 0x1FF == (la / 0x20_0000) % 512
    ensures (la >> 12) & 0x1FF == (la / 0x1000) % 512
    ensures la & 0xFFF == la % 0x1000
  {
  }

  /** PGADDR undoes the decomposition of a 39-bit address. */
  lemma PgaddrBits(la: bv64)
    requires la < 0x80_0000_0000
    ensures (((la >> 30) & 0x1FF) << 30) | (((la >> 21) & 0x1FF) << 21) | (((la >> 12) & 0x1FF) << 12) | (la & 0xFFF) == la
  {
  }

  /** pte_create and PTE_ADDR: the page address comes back, and so do the ten flag bits. */
  lemma PteBits(ppn: bv64, flags: bv64)
    requires ppn < 0x1000_0000_0000 && flags < 0x400
    ensures var pte := (ppn << 10) | 1 | flags;
            && (pte & !0x3FF) << 2 == ppn << 12
            && pte & 0x3FF == flags | 1
            && pte & 1 == 1
            && pte == ppn * 1024 + (flags | 1)
  {
  }

  // ----- the same on natural numbers -----

  function Pdx1(la: nat): (i: nat)
    ensures i < 512
  {
    (la / PDSIZE) % 512
  }

  function Pdx0(la: nat): (i: nat)
    ensures i < 512
  {
    (la / PTSIZE) % 512
  }

  function Ptx(la: nat): (i: nat)
    ensures i < 512
  {
    (la / PGSIZE) % 512
  }

  function Page(la: nat): nat {
    la / PGSIZE
  }

  /** Addresses below 2^39 with the same three indices lie on the same page. */
  lemma SameIndices(la: nat, lb: nat)
    requires la < 0x80_0000_0000 && lb < 0x80_0000_0000
    requires Pdx1(la) == Pdx1(lb) && Pdx0(la) == Pdx0(lb) && Ptx(la) == Ptx(lb)
    ensures Page(la) == Page(lb)
  {
    assert la / PTSIZE == (la / PGSIZE) / 512 && lb / PTSIZE == (lb / PGSIZE) / 512;
    assert la / PDSIZE == (la / PTSIZE) / 512 && lb / PDSIZE == (lb / PTSIZE) / 512;
  }

  lemma SamePage(la: nat, lb: nat)
    requires Page(la) == Page(lb)
    ensures Pdx1(la) == Pdx1(lb) && Pdx0(la) == Pdx0(lb) && Ptx(la) == Ptx(lb)
  {
    assert la / PTSIZE == (la / PGSIZE) / 512 && lb / PTSIZE == (lb / PGSIZE) / 512;
    assert la / PDSIZE == (la / PTSIZE) / 512 && lb / PDSIZE == (lb / PTSIZE) / 512;
  }

  /** Addresses under the same page table share both directory indices. */
  lemma SameTable(la: nat, lb: nat)
    requires la / PTSIZE == lb / PTSIZE
    ensures Pdx1(la) == Pdx1(lb) && Pdx0(la) == Pdx0(lb)
  {
    assert la / PDSIZE == (la / PTSIZE) / 512 && lb / PDSIZE == (lb / PTSIZE) / 512;
  }

  /** For user addresses the directory indices are the 1 GB and the 2 MB regions. */
  lemma Regions(la: nat, lb: nat)
    requires la < USERTOP && lb < USERTOP
    ensures Pdx1(la) == Pdx1(lb) <==> la / PDSIZE == lb / PDSIZE
    ensures Pdx1(la) == Pdx1(lb) && Pdx0(la) == Pdx0(lb) <==> la / PTSIZE == lb / PTSIZE
  {
    assert la / PDSIZE == (la / PTSIZE) / 512 && lb / PDSIZE == (lb / PTSIZE) / 512;
  }

  /** ROUNDDOWN(start + PTSIZE, PTSIZE): the first address under the next page table. */
  function NextTable(start: nat): nat {
    (start + PTSIZE) - (start + PTSIZE) % PTSIZE
  }

  lemma NextTableBounds(start: nat, la: nat)
    ensures start < NextTable(start)
    ensures start % PGSIZE == 0 ==> NextTable(start) % PGSIZE == 0
    ensures start <= la < NextTable(start) ==> la / PTSIZE == start / PTSIZE
  {
  }

  // ----- page table entries -----

  predicate Valid(w: nat) {
    w % 2 == 1
  }

  function Ppn(w: nat): nat {
    w / 1024
  }

  function Flags(w: nat): (f: nat)
    ensures f < 1024
  {
    w % 1024
  }

  /** pte_create(ppn, type): PTE_V is always set. */
  function PteCreate(ppn: nat, flags: nat): (w: nat)
    requires flags < 1024
    ensures Valid(w) && Ppn(w) == ppn && Flags(w) == (if flags % 2 == 0 then flags + 1 else flags)
  {
    ppn * 1024 + (if flags % 2 == 0 then flags + 1 else flags)
  }

  /** `*ptep & PTE_USER`: the V, R, W, X and U bits. */
  function UserBits(w: nat): (f: nat)
    ensures f < 32 && f == Flags(w) % 32
  {
    w % 32
  }

  /** USER_ACCESS. */
  predicate UserAccess(start: int, end: int) {
    USERBASE <= start && start < end && end <= USERTOP
  }
}
