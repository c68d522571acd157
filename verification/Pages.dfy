/** Page arithmetic of the FastRPC driver (android/adsprpc.c:155-179). */
module Pages {
  import opened Basics

  const PAGE_SIZE: int := 4096
  const UINT: int := 0x1_0000_0000

  /** `struct smq_phy_page` */
  datatype Page = Page(addr: int, size: int)

  function PageStart(buf: int): int {
    buf / PAGE_SIZE * PAGE_SIZE
  }

  /** buf_num_pages; the sum is a machine word. */
  function NumPages(buf: int, len: int): int {
    var start := PageStart(buf) / PAGE_SIZE;
    var end := PageStart((buf + len - 1) % WORD) / PAGE_SIZE;
    (end - start + 1) % WORD
  }

  /** buf_page_size; its parameter is an unsigned int. */
  function PageRange(size: int): int {
    var sz := PageStart(size % UINT + PAGE_SIZE - 1);
    if sz > PAGE_SIZE then sz else PAGE_SIZE
  }

  /** The descriptor get_args publishes for an argument at virtual address `pv` and physical
      address `at`. */
  function Descriptor(at: int, pv: int, len: int): Page {
    Page(PageStart(at), NumPages(pv, len) * PAGE_SIZE % WORD)
  }

  /** The descriptor's ends are the ends of the first and the last page. */
  lemma DescriptorForm(virt: int, phys: int, pv: int, len: int)
    requires virt % PAGE_SIZE == 0 && phys % PAGE_SIZE == 0 && len > 0
    requires 0 < virt <= pv && pv + len <= WORD
    ensures var at, p := phys + (pv - virt), Descriptor(phys + (pv - virt), pv, len);
            && p.addr == at / PAGE_SIZE * PAGE_SIZE
            && p.addr + p.size == ((at + len - 1) / PAGE_SIZE + 1) * PAGE_SIZE
  {
    var at := phys + (pv - virt);
    var d := (phys - virt) / PAGE_SIZE;
    assert phys - virt == d * PAGE_SIZE;
    assert at == pv + d * PAGE_SIZE;
    assert at / PAGE_SIZE == pv / PAGE_SIZE + d;
    assert (at + len - 1) / PAGE_SIZE == (pv + len - 1) / PAGE_SIZE + d;
    SizeFits(virt, pv, len);
  }

  /** p is page aligned, holds the len bytes at `at`, and lies inside every page-aligned range
      that does. */
  ghost predicate LeastCover(p: Page, at: int, len: int) {
    && p.addr % PAGE_SIZE == 0 && p.size % PAGE_SIZE == 0
    && p.addr <= at && at + len <= p.addr + p.size
    && forall a, b :: a % PAGE_SIZE == 0 && b % PAGE_SIZE == 0 && a <= at && at + len <= b
                      ==> a <= p.addr && p.addr + p.size <= b
  }

  /** The descriptor is the least page-aligned range that contains the argument's physical
      bytes. */
  lemma DescriptorIsLeast(virt: int, phys: int, pv: int, len: int)
    requires virt % PAGE_SIZE == 0 && phys % PAGE_SIZE == 0 && len > 0
    requires 0 < virt <= pv && pv + len <= WORD
    ensures LeastCover(Descriptor(phys + (pv - virt), pv, len), phys + (pv - virt), len)
  {
    DescriptorForm(virt, phys, pv, len);
    var at, p := phys + (pv - virt), Descriptor(phys + (pv - virt), pv, len);
    LeastRange(at, at + len, p.addr, p.addr + p.size);
  }

  lemma LeastRange(at: int, end: int, first: int, last: int)
    requires at < end && first == at / PAGE_SIZE * PAGE_SIZE && last == ((end - 1) / PAGE_SIZE + 1) * PAGE_SIZE
    ensures first % PAGE_SIZE == 0 && (last - first) % PAGE_SIZE == 0 && first <= at && end <= last
    ensures forall a, b :: a % PAGE_SIZE == 0 && b % PAGE_SIZE == 0 && a <= at && end <= b ==> a <= first && last <= b
  {
  }

  /** Dropping a page at either end would lose a byte of the argument. */
  lemma NoPageToSpare(virt: int, phys: int, pv: int, len: int)
    requires virt % PAGE_SIZE == 0 && phys % PAGE_SIZE == 0 && len > 0
    requires 0 < virt <= pv && pv + len <= WORD
    ensures var at, p := phys + (pv - virt), Descriptor(phys + (pv - virt), pv, len);
            at < p.addr + PAGE_SIZE && p.addr + p.size - PAGE_SIZE < at + len
  {
    DescriptorForm(virt, phys, pv, len);
  }

  /** A range that starts beyond the first page takes less than a word of pages. */
  lemma SizeFits(virt: int, pv: int, len: int)
    requires virt % PAGE_SIZE == 0 && 0 < virt <= pv && len > 0 && pv + len <= WORD
    ensures Descriptor(0, pv, len).size == ((pv + len - 1) / PAGE_SIZE - pv / PAGE_SIZE + 1) * PAGE_SIZE
  {
    assert virt >= PAGE_SIZE && pv / PAGE_SIZE >= 1;
    assert (pv + len - 1) / PAGE_SIZE <= WORD / PAGE_SIZE - 1;
  }

  /** buf_page_size gives whole pages, at least one, and never more than needed; they hold the
      size exactly when it fits the parameter. */
  lemma PageRangeRoundsUp(size: int)
    requires size >= 0
    ensures PageRange(size) % PAGE_SIZE == 0 && PageRange(size) >= PAGE_SIZE
    ensures size <= PageRange(size) <==> size < UINT
    ensures forall n :: n % PAGE_SIZE == 0 && n >= size && n >= PAGE_SIZE ==> PageRange(size) <= n
  {
  }
}
