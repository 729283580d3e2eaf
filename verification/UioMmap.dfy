/**
 * Mapping a UIO memory region into user space (uio_hv_generic/uio.c:672-723, 742-775, 820-877). Addresses, sizes
 * and page offsets are 64-bit unsigned and wrap.
 */
module UioMmap {

  const SPACE: nat := 0x1_0000_0000_0000_0000

  const EINVAL: int := 22
  const ENODEV: int := 19

  datatype MemType = Iova | Phys | Logical | Virtual | DmaCoherent | Other

  datatype Mem = Mem(addr: nat, size: nat, memtype: MemType)

  /** The area of user space; `pgoff` selects the region. */
  datatype Vma = Vma(start: nat, end: nat, pgoff: nat)

  /** `OnFault` areas are filled page by page, `Mapped` ones at once, from a page number on; `Coherent` ones are
      left to the DMA layer. */
  datatype MmapResult = Error(code: int) | OnFault | Mapped(pfn: nat, length: nat) | Coherent

  predicate Word(x: nat) {
    x < SPACE
  }

  ghost predicate Words(mems: seq<Mem>, vma: Vma) {
    && Word(vma.start) && Word(vma.end)
    && forall i :: 0 <= i < |mems| ==> Word(mems[i].addr) && Word(mems[i].size)
  }

  /** A page size divides the address space, and there is more than one page. */
  ghost predicate PageSize(ps: nat) {
    0 < ps < SPACE && SPACE % ps == 0
  }

  /** `uio_find_mem_index`. */
  function FindMemIndex(mems: seq<Mem>, pgoff: nat): int {
    if pgoff < |mems| && mems[pgoff].size != 0 then pgoff else -1
  }

  /** Pages that the region touches, computed in wrapping arithmetic. */
  function ActualPages(mem: Mem, ps: nat): int
    requires ps > 0
  {
    (mem.addr % ps + mem.size + ps - 1) % SPACE / ps
  }

  /** `uio_mmap_physical`. */
  function MmapPhysical(mem: Mem, vma: Vma, ps: nat): MmapResult
    requires ps > 0 && vma.start <= vma.end
  {
    if mem.addr % ps != 0 then Error(-ENODEV)
    else if vma.end - vma.start > mem.size then Error(-EINVAL)
    else Mapped(mem.addr / ps, vma.end - vma.start)
  }

  /** `uio_mmap` without a driver callback of its own; `info` says whether the device is still registered. */
  function Mmap(info: bool, mems: seq<Mem>, vma: Vma, ps: nat): MmapResult
    requires ps > 0
  {
    if vma.end < vma.start then Error(-EINVAL)
    else if !info then Error(-EINVAL)
    else
      var mi := FindMemIndex(mems, vma.pgoff);
      if mi < 0 then Error(-EINVAL)
      else if (vma.end - vma.start) / ps > ActualPages(mems[mi], ps) then Error(-EINVAL)
      else
        match mems[mi].memtype
        case Iova => MmapPhysical(mems[mi], vma, ps)
        case Phys => MmapPhysical(mems[mi], vma, ps)
        case Logical => OnFault
        case Virtual => OnFault
        case DmaCoherent => Coherent
        case Other => Error(-EINVAL)
  }

  /** The address whose page `uio_vma_fault` hands out for a fault at page offset `pgoff`; -1 for SIGBUS. */
  function FaultAddress(info: bool, mems: seq<Mem>, vma: Vma, pgoff: nat, ps: nat): int
    requires ps > 0 && vma.pgoff <= pgoff
  {
    var mi := FindMemIndex(mems, vma.pgoff);
    if !info then -1
    else if mi < 0 then -1
    else (mems[mi].addr + (pgoff - mi) * ps % SPACE) % SPACE
  }

  /** Two addresses lie in the same page. */
  predicate SamePage(a: nat, b: nat, ps: nat)
    requires ps > 0
  {
    a / ps == b / ps
  }

  lemma DivUnique(a: int, q: int, m: int, n: int)
    requires n > 0 && a == q * n + m && 0 <= m < n
    ensures a / n == q && a % n == m
  {
    var d := q - a / n;
    assert a == n * (a / n) + a % n;
    assert n * d == a % n - m;
    assert d > 0 ==> n * d >= n;
    assert d < 0 ==> n * d <= -n;
  }

  /** Reducing to 64 bits keeps addresses of one page in one page. */
  lemma WrapKeepsPages(a: nat, b: nat, ps: nat)
    requires PageSize(ps) && SamePage(a, b, ps)
    ensures SamePage(a % SPACE, b % SPACE, ps)
  {
    WrapPage(a, ps);
    WrapPage(b, ps);
  }

  /** The page number after reduction depends on the page number before. */
  lemma WrapPage(a: nat, ps: nat)
    requires PageSize(ps)
    ensures SPACE / ps > 0
    ensures a % SPACE / ps == a / ps % (SPACE / ps)
  {
    var q := SPACE / ps;
    assert SPACE == ps * q;
    var t, u := a / SPACE, a % SPACE;
    var v, w := u / ps, u % ps;
    assert a == SPACE * t + u && u == ps * v + w;
    assert a == (q * t + v) * ps + w by {
      assert SPACE * t == (q * t) * ps;
    }
    DivUnique(a, q * t + v, w, ps);
    QuotientBound(u, ps, q);
    DivUnique(q * t + v, t, v, q);
  }

  lemma QuotientBound(u: nat, ps: nat, q: nat)
    requires ps > 0
    ensures u < ps * q <==> u / ps < q
  {
    var v := u / ps;
    assert u == ps * v + u % ps;
    if v < q {
      assert ps * (v + 1) <= ps * q;
    } else {
      assert ps * q <= ps * v;
    }
  }

  /** The `k`-th page from an address inside page `addr / ps`. */
  lemma PageAfter(addr: nat, k: nat, m: nat, ps: nat)
    requires ps > 0 && m < ps
    ensures (addr - addr % ps + k * ps + m) / ps == addr / ps + k
  {
    assert addr - addr % ps + k * ps == (addr / ps + k) * ps;
    DivUnique(addr - addr % ps + k * ps + m, addr / ps + k, m, ps);
  }

  /** A page below the page count of a region starts no later than the region's last byte. */
  lemma PageStartsInRegion(mem: Mem, k: nat, ps: nat)
    requires ps > 0 && mem.size > 0 && k < ActualPages(mem, ps)
    ensures k * ps <= mem.addr % ps + mem.size - 1
  {
    var total := mem.addr % ps + mem.size + ps - 1;
    QuotientBound(total % SPACE, ps, k + 1);
    assert total % SPACE <= total;
    assert ps * (k + 1) == k * ps + ps;
  }

  lemma PageHoldsByte(mem: Mem, k: nat, ps: nat) returns (j: nat)
    requires ps > 0 && mem.size > 0 && k < ActualPages(mem, ps)
    ensures j < mem.size && SamePage(mem.addr + j, mem.addr + k * ps, ps)
  {
    hide ActualPages;
    var offset := k * ps;
    PageStartsInRegion(mem, k, ps);
    if offset < mem.size {
      j := offset;
    } else {
      j := mem.size - 1;
      PageAfter(mem.addr, k, mem.addr % ps, ps);
      PageAfter(mem.addr, k, mem.addr % ps + j - offset, ps);
    }
  }

  /** Every page that a fault in an accepted, unsplit area hands out holds a byte of the selected region: byte `j`. */
  lemma FaultPageTouchesRegion(mems: seq<Mem>, vma: Vma, k: nat, ps: nat) returns (j: nat)
    requires Words(mems, vma) && PageSize(ps) && Mmap(true, mems, vma, ps) == OnFault
    requires k < (vma.end - vma.start) / ps
    ensures vma.pgoff < |mems| && j < mems[vma.pgoff].size
    ensures var address := FaultAddress(true, mems, vma, vma.pgoff + k, ps);
            0 <= address && SamePage((mems[vma.pgoff].addr + j) % SPACE, address, ps)
  {
    var mem := mems[vma.pgoff];
    j := PageHoldsByte(mem, k, ps);
    hide ActualPages, SamePage;
    WrapKeepsPages(mem.addr + j, mem.addr + k * ps, ps);
    OffsetWraps(mem.addr, k * ps);
  }

  lemma OffsetWraps(addr: nat, offset: nat)
    ensures (addr + offset % SPACE) % SPACE == (addr + offset) % SPACE
  {}

  /** A physical mapping begins at the region's first byte and ends no later than the region. */
  lemma PhysicalMappingInsideRegion(mems: seq<Mem>, vma: Vma, ps: nat, v: nat)
    requires ps > 0 && Mmap(true, mems, vma, ps).Mapped? && v < Mmap(true, mems, vma, ps).length
    ensures var mem := mems[vma.pgoff];
            && Mmap(true, mems, vma, ps).length == vma.end - vma.start
            && Mmap(true, mems, vma, ps).pfn * ps == mem.addr
            && mem.addr <= Mmap(true, mems, vma, ps).pfn * ps + v < mem.addr + mem.size
            && (mem.memtype.Iova? || mem.memtype.Phys?)
  {
    var mem := mems[vma.pgoff];
    assert mem.addr == mem.addr / ps * ps + mem.addr % ps;
  }

  // ---------------------------------------------------------------------------------------------
  // Which page, and which requests
  // ---------------------------------------------------------------------------------------------

  /** Byte `j` of the region lies in the page that the fault hands out at the page of the area where user space
      expects it: pages counted from the start of the page that holds the region's first byte. */
  lemma FaultFindsByte(mems: seq<Mem>, vma: Vma, j: nat, k: nat, ps: nat)
    requires Words(mems, vma) && PageSize(ps) && Mmap(true, mems, vma, ps) == OnFault
    requires j < mems[vma.pgoff].size && k == (mems[vma.pgoff].addr % ps + j) / ps
    ensures var address := FaultAddress(true, mems, vma, vma.pgoff + k, ps);
            0 <= address && SamePage((mems[vma.pgoff].addr + j) % SPACE, address, ps)
  {
    hide ActualPages, SamePage;
    var mem := mems[vma.pgoff];
    BytePage(mem.addr, j, k, ps);
    WrapKeepsPages(mem.addr + j, mem.addr + k * ps, ps);
    OffsetWraps(mem.addr, k * ps);
  }

  lemma BytePage(addr: nat, j: nat, k: nat, ps: nat)
    requires ps > 0 && k == (addr % ps + j) / ps
    ensures SamePage(addr + j, addr + k * ps, ps)
  {
    var m := (addr % ps + j) % ps;
    assert addr % ps + j == k * ps + m;
    PageAfter(addr, k, m, ps);
    PageAfter(addr, k, addr % ps, ps);
  }

  /** The first page offset of the area gets the region's own address. */
  lemma FaultStartsAtRegion(mems: seq<Mem>, vma: Vma, ps: nat)
    requires Words(mems, vma) && ps > 0 && Mmap(true, mems, vma, ps) == OnFault
    ensures FaultAddress(true, mems, vma, vma.pgoff, ps) == mems[vma.pgoff].addr
  {
    hide ActualPages;
  }

  /** Neighbouring page offsets get neighbouring pages, modulo the address space. */
  lemma FaultPagesAreConsecutive(mems: seq<Mem>, vma: Vma, k: nat, ps: nat)
    requires ps > 0 && Mmap(true, mems, vma, ps) == OnFault
    ensures var here := FaultAddress(true, mems, vma, vma.pgoff + k, ps);
            FaultAddress(true, mems, vma, vma.pgoff + k + 1, ps) == (here + ps) % SPACE
  {
    AddressAt(mems, vma, k, ps);
    AddressAt(mems, vma, k + 1, ps);
    NextAddress(mems[vma.pgoff].addr, k, ps);
    hide ActualPages, FaultAddress, Mmap;
  }

  lemma NextAddress(addr: nat, k: nat, ps: nat)
    ensures (addr + (k + 1) * ps) % SPACE == ((addr + k * ps) % SPACE + ps) % SPACE
  {
    var offset := k * ps;
    assert (k + 1) * ps == offset + ps;
    OffsetWraps(ps, addr + offset);
  }

  lemma AddressAt(mems: seq<Mem>, vma: Vma, k: nat, ps: nat)
    requires ps > 0 && Mmap(true, mems, vma, ps) == OnFault
    ensures FaultAddress(true, mems, vma, vma.pgoff + k, ps) == (mems[vma.pgoff].addr + k * ps) % SPACE
  {
    hide ActualPages;
    OffsetWraps(mems[vma.pgoff].addr, k * ps);
  }

  /** A fault raises SIGBUS exactly when the device is gone or the area selects no region. */
  lemma FaultFailsIff(info: bool, mems: seq<Mem>, vma: Vma, pgoff: nat, ps: nat)
    requires ps > 0 && vma.pgoff <= pgoff
    ensures FaultAddress(info, mems, vma, pgoff, ps) == -1 <==>
              !info || vma.pgoff >= |mems| || mems[vma.pgoff].size == 0
  {}

  /** Every whole page of the area holds a byte of the region; a region so large that its page count wraps offers
      only the pages that are left after wrapping. */
  ghost predicate PagesFit(mem: Mem, vma: Vma, ps: nat)
    requires ps > 0 && vma.start <= vma.end
  {
    var room := mem.addr % ps + mem.size;
    var offered := if room + ps - 1 < SPACE then room else room - SPACE;
    forall k: nat :: k < (vma.end - vma.start) / ps ==> k * ps < offered
  }

  lemma PagesFitIff(mem: Mem, vma: Vma, ps: nat)
    requires PageSize(ps) && Word(mem.size) && vma.start <= vma.end && Word(vma.end)
    ensures (vma.end - vma.start) / ps <= ActualPages(mem, ps) <==> PagesFit(mem, vma, ps)
  {
    var room := mem.addr % ps + mem.size;
    var offered := if room + ps - 1 < SPACE then room else room - SPACE;
    PagesOffered(mem, offered, ps);
    hide ActualPages;
    assert (vma.end - vma.start) / ps >= 0 by { QuotientBound(vma.end - vma.start, ps, 0); }
    PagesBelow((vma.end - vma.start) / ps, offered, ps);
  }

  lemma PagesOffered(mem: Mem, offered: int, ps: nat)
    requires PageSize(ps) && Word(mem.size)
    requires offered == if mem.addr % ps + mem.size + ps - 1 < SPACE then mem.addr % ps + mem.size
                        else mem.addr % ps + mem.size - SPACE
    ensures offered + ps - 1 >= 0 && ActualPages(mem, ps) == (offered + ps - 1) / ps
  {
    TwoPages(ps);
    TotalWraps(mem.addr % ps + mem.size + ps - 1);
  }

  /** So many pages are offered as begin before the room does end. */
  lemma PagesBelow(pages: nat, offered: int, ps: nat)
    requires ps > 0 && offered + ps - 1 >= 0
    ensures pages <= (offered + ps - 1) / ps <==> forall k: nat :: k < pages ==> k * ps < offered
  {
    forall k: nat
      ensures k < (offered + ps - 1) / ps <==> k * ps < offered
    {
      QuotientBound(offered + ps - 1, ps, k + 1);
      assert ps * (k + 1) == k * ps + ps;
    }
    QuotientBound(offered + ps - 1, ps, 0);
    if pages > (offered + ps - 1) / ps {
      var k: nat := (offered + ps - 1) / ps;
      assert k < pages && !(k * ps < offered);
    }
  }

  lemma TwoPages(ps: nat)
    requires PageSize(ps)
    ensures 2 * ps <= SPACE
  {
    var q := SPACE / ps;
    assert SPACE == ps * q;
    if q >= 2 { assert ps * q >= ps * 2; }
  }

  lemma TotalWraps(x: nat)
    requires x < 2 * SPACE
    ensures x % SPACE == if x < SPACE then x else x - SPACE
  {}

  /** Exactly which requests are accepted, and how; the others give -EINVAL, but for a physical region that does not
      begin on a page boundary, which gives -ENODEV. */
  lemma MmapSucceedsIff(info: bool, mems: seq<Mem>, vma: Vma, ps: nat)
    requires Words(mems, vma) && PageSize(ps)
    ensures var result := Mmap(info, mems, vma, ps);
            var selected := info && vma.start <= vma.end && vma.pgoff < |mems| && mems[vma.pgoff].size != 0
                            && PagesFit(mems[vma.pgoff], vma, ps);
            if !selected then result == Error(-22)
            else
              var mem := mems[vma.pgoff];
              match mem.memtype
              case Logical => result == OnFault
              case Virtual => result == OnFault
              case DmaCoherent => result == Coherent
              case Other => result == Error(-22)
              case _ =>
                if mem.addr % ps != 0 then result == Error(-19)
                else if vma.end - vma.start > mem.size then result == Error(-22)
                else result.Mapped? && result.pfn * ps == mem.addr && result.length == vma.end - vma.start
  {
    hide ActualPages, PagesFit;
    if vma.start <= vma.end && vma.pgoff < |mems| {
      PagesFitIff(mems[vma.pgoff], vma, ps);
    }
  }
}
