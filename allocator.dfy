/**
  The two arena allocators of the interpreter.

  A page arena hands out fixed-size elements from equal-size pages and
  numbers them globally 0, 1, 2, ...; element `i` is found again at page
  `i * elementSize / pageSize`, byte offset `i * elementSize % pageSize`.
  A byte arena bumps through pages of raw bytes and keeps a separate list of
  dedicated regions for large requests.

  Page memory itself is not modelled: a page is an opaque mapped region and
  the interesting state is the bookkeeping counters, which are kept exactly
  as the C code keeps them, including the remaining-count update on a page
  roll (`pageSize / elementSize - elementSize`) and the strict `<` of the
  byte arena's in-page test.
*/
module Allocator {
  import opened Wrappers

  /** Growth step of the page table. */
  const PagesReallocCount: nat := 16
  /** A byte-arena request of at least pageSize / 16 bytes gets its own region. */
  const LargeThresholdDivisor: nat := 16
  const TwoTo63: nat := 0x8000_0000_0000_0000
  const TwoTo64: nat := 0x1_0000_0000_0000_0000

  /** Subtraction on `uint64_t`, which wraps around below zero. */
  function Sub64(a: nat, b: nat): (r: nat)
    ensures r < TwoTo64
    ensures b <= a < TwoTo64 ==> r == a - b
  {
    (a - b) % TwoTo64
  }

  /** A mapped page of the given size. */
  datatype Page = Page(size: nat)

  /** An element address: page number and byte offset inside that page. */
  datatype Loc = Loc(page: nat, offset: nat)

  /** The geometry fixed when a page arena is made. */
  datatype Geometry = Geometry(elementSize: nat, pageSize: nat)
  {
    /** What make_allocator asserts, plus the positivity the C code needs. */
    predicate Valid(sysPageSize: nat) {
      && elementSize > 0 && pageSize > 0 && sysPageSize > 0
      && pageSize % elementSize == 0
      && pageSize % sysPageSize == 0
    }

    /** Number of elements a page holds. */
    function PerPage(): nat
      requires elementSize > 0
    {
      pageSize / elementSize
    }
  }

  /** The counters of a page arena. */
  datatype Counters = Counters(
    currentPage: nat,
    maxPages: nat,
    currentIndex: nat,
    totalElements: nat,
    remaining: nat)

  /** The state make_allocator leaves. */
  function InitCounters(g: Geometry): (c: Counters)
    requires g.elementSize > 0
    ensures c.totalElements == 0 && c.currentPage == 0
    ensures c.remaining == g.PerPage()
  {
    Counters(0, PagesReallocCount, 0, 0, g.pageSize / g.elementSize)
  }

  /** The counters after one allocation and the address it hands out. */
  datatype Allocation = Allocation(next: Counters, loc: Loc, index: nat)

  /**
    One call of allocator_allocate: bump inside the current page while
    elements remain, otherwise roll to a fresh page (growing the page table
    by PagesReallocCount slots when it is full).
  */
  function Step(g: Geometry, c: Counters): Allocation
    requires g.elementSize > 0
  {
    if c.remaining > 0 then
      Allocation(
        c.(remaining := c.remaining - 1,
           currentIndex := c.currentIndex + 1,
           totalElements := c.totalElements + 1),
        Loc(c.currentPage, c.currentIndex * g.elementSize),
        c.totalElements)
    else
      var page := c.currentPage + 1;
      var maxPages := if page >= c.maxPages then c.maxPages + PagesReallocCount else c.maxPages;
      Allocation(
        Counters(page, maxPages, 1, c.totalElements + 1,
                 Sub64(g.PerPage(), g.elementSize)),
        Loc(page, 0),
        c.totalElements)
  }

  /** The page-table invariant: the current page always has a slot. */
  ghost predicate TableOk(c: Counters) {
    c.currentPage < c.maxPages && c.maxPages % PagesReallocCount == 0
  }

  lemma {:induction false} StepKeepsTable(g: Geometry, c: Counters)
    requires g.elementSize > 0 && TableOk(c)
    ensures TableOk(Step(g, c).next)
    ensures Step(g, c).next.currentPage <= c.currentPage + 1
  {
  }

  /**
    Every call returns the previous total as its index and bumps the total
    by one; an in-page call returns the old cursor's byte offset in the
    current page, a rolling call returns offset 0 of the next page.
  */
  lemma {:induction false} StepContract(g: Geometry, c: Counters)
    requires g.elementSize > 0
    ensures Step(g, c).index == c.totalElements
    ensures Step(g, c).next.totalElements == c.totalElements + 1
    ensures c.remaining > 0 ==>
      && Step(g, c).loc == Loc(c.currentPage, c.currentIndex * g.elementSize)
      && Step(g, c).next.remaining == c.remaining - 1
      && Step(g, c).next.currentIndex == c.currentIndex + 1
      && Step(g, c).next.currentPage == c.currentPage
    ensures c.remaining == 0 ==>
      && Step(g, c).loc == Loc(c.currentPage + 1, 0)
      && Step(g, c).next.currentIndex == 1
      && Step(g, c).next.currentPage == c.currentPage + 1
  {
  }

  /**
    The cursor invariant that holds while a page does not hold fewer
    elements than an element is wide: the cursor plus the remaining count
    never exceeds a page's capacity, so every element handed out lies
    inside its page.
  */
  ghost predicate CursorOk(g: Geometry, c: Counters)
    requires g.elementSize > 0
  {
    c.currentIndex + c.remaining <= g.PerPage()
  }

  lemma {:induction false} StepStaysInPage(g: Geometry, c: Counters)
    requires g.elementSize > 0 && g.pageSize % g.elementSize == 0
    requires g.elementSize <= g.PerPage() < TwoTo64
    requires CursorOk(g, c)
    ensures CursorOk(g, Step(g, c).next)
    ensures Step(g, c).loc.offset + g.elementSize <= g.pageSize
  {
    var n, e := g.PerPage(), g.elementSize;
    var s := Step(g, c);
    DivMul(g.pageSize, e);
    if c.remaining > 0 {
      assert s.loc.offset == c.currentIndex * e;
      SlotFits(c.currentIndex, n, e);
    } else {
      assert Sub64(n, e) == n - e;
      assert s.loc.offset == 0;
      MulMono(1, n, e);
    }
  }

  lemma {:induction false} SlotFits(i: nat, n: nat, e: nat)
    requires i < n
    ensures i * e + e <= n * e
  {
    MulMono(i + 1, n, e);
    assert (i + 1) * e == i * e + e;
  }

  lemma {:induction false} MulMono(a: nat, b: nat, e: nat)
    requires a <= b
    ensures a * e <= b * e
  {
  }

  lemma {:induction false} DivMul(p: nat, e: nat)
    requires e > 0 && p % e == 0
    ensures (p / e) * e == p
  {
  }

  /** The counters after `k` allocations from a fresh arena. */
  function Run(g: Geometry, k: nat): Counters
    requires g.elementSize > 0
  {
    if k == 0 then InitCounters(g) else Step(g, Run(g, k - 1)).next
  }

  /** The address handed out by allocation number `k` (counting from 0). */
  function LocOf(g: Geometry, k: nat): Loc
    requires g.elementSize > 0
  {
    Step(g, Run(g, k)).loc
  }

  /** The address allocator_get_item_at_index computes for index `i`. */
  function IndexLoc(g: Geometry, i: nat): Loc
    requires g.pageSize > 0
  {
    Loc(i * g.elementSize / g.pageSize, i * g.elementSize % g.pageSize)
  }

  /** Allocation indices run 0, 1, 2, ... in call order. */
  lemma {:induction false} RunCountsCalls(g: Geometry, k: nat)
    requires g.elementSize > 0
    ensures Run(g, k).totalElements == k
    ensures Step(g, Run(g, k)).index == k
  {
    if k > 0 {
      RunCountsCalls(g, k - 1);
    }
  }

  /** While the first page lasts, `k` allocations leave the cursor at `k`. */
  lemma {:induction false} RunFirstPage(g: Geometry, k: nat)
    requires g.elementSize > 0 && k <= g.PerPage()
    ensures Run(g, k) == Counters(0, PagesReallocCount, k, k, g.PerPage() - k)
  {
    if k > 0 {
      RunFirstPage(g, k - 1);
    }
  }

  /**
    The second page is entered at index PerPage() and, because of the
    remaining-count update on a roll, then holds `PerPage() - elementSize`
    further elements.
  */
  lemma {:induction false} RunSecondPage(g: Geometry, j: nat)
    requires g.elementSize > 0 && g.elementSize <= g.PerPage() < TwoTo64
    requires j <= g.PerPage() - g.elementSize
    ensures Run(g, g.PerPage() + 1 + j)
         == Counters(1, PagesReallocCount, 1 + j, g.PerPage() + 1 + j,
                     g.PerPage() - g.elementSize - j)
  {
    var n := g.PerPage();
    if j == 0 {
      RunFirstPage(g, n);
    } else {
      RunSecondPage(g, j - 1);
    }
  }

  lemma {:induction false} DivModUnique(x: nat, p: nat, q: nat, r: nat)
    requires p > 0 && r < p && x == q * p + r
    ensures x / p == q && x % p == r
  {
    var q0, r0 := x / p, x % p;
    assert q0 * p + r0 == x;
    if q0 > q {
      assert (q0 - q) * p == q0 * p - q * p;
      MulAtLeast(q0 - q, p);
      assert false;
    } else if q0 < q {
      assert (q - q0) * p == q * p - q0 * p;
      MulAtLeast(q - q0, p);
      assert false;
    }
  }

  lemma {:induction false} MulAtLeast(a: int, p: nat)
    requires a >= 1
    ensures a * p >= p
  {
  }

  /** The formula's address for an index whose byte position is `q * pageSize + r`. */
  lemma {:induction false} IndexLocIs(g: Geometry, k: nat, q: nat, r: nat)
    requires g.pageSize > 0 && r < g.pageSize
    requires k * g.elementSize == q * g.pageSize + r
    ensures IndexLoc(g, k) == Loc(q, r)
  {
    DivModUnique(k * g.elementSize, g.pageSize, q, r);
  }

  lemma {:induction false} LocOfFirstPage(g: Geometry, k: nat)
    requires g.elementSize > 0 && k < g.PerPage()
    ensures LocOf(g, k) == Loc(0, k * g.elementSize)
  {
    RunFirstPage(g, k);
  }

  lemma {:induction false} LocOfPageOneStart(g: Geometry)
    requires g.elementSize > 0
    ensures LocOf(g, g.PerPage()) == Loc(1, 0)
  {
    RunFirstPage(g, g.PerPage());
  }

  lemma {:induction false} LocOfSecondPage(g: Geometry, j: nat)
    requires g.elementSize > 0 && g.elementSize <= g.PerPage() < TwoTo64
    requires j < g.PerPage() - g.elementSize
    ensures LocOf(g, g.PerPage() + 1 + j) == Loc(1, (1 + j) * g.elementSize)
  {
    RunSecondPage(g, j);
  }

  lemma {:induction false} LocOfPageTwoStart(g: Geometry)
    requires g.elementSize > 0 && g.elementSize <= g.PerPage() < TwoTo64
    ensures LocOf(g, 2 * g.PerPage() - g.elementSize + 1) == Loc(2, 0)
  {
    var n, e := g.PerPage(), g.elementSize;
    RunSecondPage(g, n - e);
    assert n + 1 + (n - e) == 2 * n - e + 1;
  }

  lemma {:induction false} ShiftedProduct(n: nat, e: nat, j: nat)
    ensures (n + 1 + j) * e == n * e + (1 + j) * e
  {
  }

  lemma {:induction false} ThirdPageProduct(n: nat, e: nat)
    requires 1 < e <= n
    ensures (2 * n - e + 1) * e == 1 * (n * e) + (n * e - (e - 1) * e)
    ensures 0 < (e - 1) * e <= n * e
  {
    MulMono(e - 1, n, e);
  }

  /**
    The index formula of allocator_get_item_at_index agrees with the
    address each allocation handed out for every index on the first two
    pages; in particular index PerPage() is offset 0 of page 1.
  */
  lemma {:induction false} IndexFormulaThroughSecondPage(g: Geometry, k: nat)
    requires g.elementSize > 0 && g.pageSize % g.elementSize == 0
    requires g.elementSize <= g.PerPage() < TwoTo64
    requires k <= 2 * g.PerPage() - g.elementSize
    ensures LocOf(g, k) == IndexLoc(g, k)
  {
    var n := g.PerPage();
    if k < n {
      IndexFormulaFirstPage(g, k);
    } else if k == n {
      LocOfPageOneStart(g);
      DivMul(g.pageSize, g.elementSize);
      IndexLocIs(g, k, 1, 0);
    } else {
      IndexFormulaSecondPage(g, k - n - 1);
    }
  }

  lemma {:induction false} IndexFormulaFirstPage(g: Geometry, k: nat)
    requires g.elementSize > 0 && g.pageSize % g.elementSize == 0
    requires k < g.PerPage()
    ensures LocOf(g, k) == IndexLoc(g, k)
  {
    var n, e := g.PerPage(), g.elementSize;
    DivMul(g.pageSize, e);
    LocOfFirstPage(g, k);
    MulMono(k + 1, n, e);
    IndexLocIs(g, k, 0, k * e);
  }

  lemma {:induction false} IndexFormulaSecondPage(g: Geometry, j: nat)
    requires g.elementSize > 0 && g.pageSize % g.elementSize == 0
    requires g.elementSize <= g.PerPage() < TwoTo64
    requires j < g.PerPage() - g.elementSize
    ensures LocOf(g, g.PerPage() + 1 + j) == IndexLoc(g, g.PerPage() + 1 + j)
  {
    var n, e := g.PerPage(), g.elementSize;
    DivMul(g.pageSize, e);
    LocOfSecondPage(g, j);
    MulMono(1 + j + 1, n, e);
    ShiftedProduct(n, e, j);
    IndexLocIs(g, n + 1 + j, 1, (1 + j) * e);
  }

  /**
    When an element is wider than one byte the formula and the allocator
    part ways at the third page: the allocation that opens page 2 carries
    an index the formula still places on page 1.
  */
  lemma {:induction false} IndexFormulaBreaksOnThirdPage(g: Geometry)
    requires g.elementSize > 1 && g.pageSize % g.elementSize == 0
    requires g.elementSize <= g.PerPage() < TwoTo64
    ensures LocOf(g, 2 * g.PerPage() - g.elementSize + 1) == Loc(2, 0)
    ensures IndexLoc(g, 2 * g.PerPage() - g.elementSize + 1).page == 1
  {
    var n, e, p := g.PerPage(), g.elementSize, g.pageSize;
    DivMul(p, e);
    LocOfPageTwoStart(g);
    ThirdPageProduct(n, e);
    IndexLocIs(g, 2 * n - e + 1, 1, p - (e - 1) * e);
  }

  /**
    A page arena (allocator_s). `pages` is the sequence of mapped pages;
    the page table itself has `maxPages` slots.
  */
  class PageArena {
    var pages: seq<Page>
    var currentPage: nat
    var maxPages: nat
    var currentIndex: nat
    var totalElements: nat
    var remaining: nat
    const elementSize: nat
    const pageSize: nat

    function Geom(): Geometry {
      Geometry(elementSize, pageSize)
    }

    function Counts(): Counters
      reads this
    {
      Counters(currentPage, maxPages, currentIndex, totalElements, remaining)
    }

    ghost predicate Valid()
      reads this
    {
      && elementSize > 0 && pageSize > 0
      && pageSize % elementSize == 0
      && TableOk(Counts())
      && |pages| == currentPage + 1
      && (forall k :: 0 <= k < |pages| ==> pages[k] == Page(pageSize))
    }

    /** make_allocator: one mapped page, nothing allocated yet. */
    constructor (elementSize: nat, pageSize: nat, sysPageSize: nat)
      requires Geometry(elementSize, pageSize).Valid(sysPageSize)
      ensures Valid()
      ensures this.elementSize == elementSize && this.pageSize == pageSize
      ensures Counts() == InitCounters(Geom())
      ensures pages == [Page(pageSize)]
    {
      this.elementSize := elementSize;
      this.pageSize := pageSize;
      pages := [Page(pageSize)];
      currentPage := 0;
      maxPages := PagesReallocCount;
      currentIndex := 0;
      totalElements := 0;
      remaining := pageSize / elementSize;
    }

    /** allocator_allocate: returns the element's address and global index. */
    method Allocate() returns (loc: Loc, idx: nat)
      requires Valid()
      modifies this
      ensures Valid()
      ensures Counts() == Step(Geom(), old(Counts())).next
      ensures loc == Step(Geom(), old(Counts())).loc
      ensures idx == old(totalElements)
      ensures pages == old(pages) || pages == old(pages) + [Page(pageSize)]
    {
      if remaining > 0 {
        remaining := remaining - 1;
        var oldIndex := currentIndex;
        currentIndex := currentIndex + 1;
        idx := totalElements;
        totalElements := totalElements + 1;
        loc := Loc(currentPage, oldIndex * elementSize);
        return;
      }
      currentPage := currentPage + 1;
      if currentPage >= maxPages {
        maxPages := maxPages + PagesReallocCount;
      }
      pages := pages + [Page(pageSize)];
      remaining := Sub64(pageSize / elementSize, elementSize);
      currentIndex := 1;
      idx := totalElements;
      totalElements := totalElements + 1;
      loc := Loc(currentPage, 0);
    }

    /**
      allocator_get_item_at_index. Indexing beyond the allocated elements
      is a failed assertion in the C code, an index of 2^63 or more a fatal
      error.
    */
    function ItemAt(idx: nat): (r: Result<Loc, string>)
      reads this
      requires Valid()
      ensures r.Ok? <==> idx < totalElements && idx < TwoTo63
      ensures r.Ok? ==> r.value == IndexLoc(Geom(), idx)
    {
      if idx >= totalElements then Err("Indexed beyond allocated elements")
      else if idx >= TwoTo63 then Err("index too large")
      else Ok(IndexLoc(Geom(), idx))
    }
  }

  /** The counters of a byte arena; `large` lists large-region sizes, newest first. */
  datatype ByteCounters = ByteCounters(
    currentPage: nat,
    maxPages: nat,
    currentOffset: nat,
    totalBytes: nat,
    remaining: nat,
    large: seq<nat>)

  /** A byte-arena address: inside a page, or the start of large region number `ordinal`. */
  datatype ByteLoc = InPage(page: nat, offset: nat) | LargeRegion(ordinal: nat)

  function InitByteCounters(pageSize: nat): ByteCounters {
    ByteCounters(0, PagesReallocCount, 0, 0, pageSize, [])
  }

  function LargeThreshold(pageSize: nat): nat {
    pageSize / LargeThresholdDivisor
  }

  datatype ByteAllocation = ByteAllocation(next: ByteCounters, loc: ByteLoc)

  /** One call of byte_allocator_allocate. */
  function ByteStep(pageSize: nat, c: ByteCounters, size: nat): ByteAllocation {
    if size < c.remaining then
      ByteAllocation(
        c.(remaining := c.remaining - size,
           currentOffset := c.currentOffset + size,
           totalBytes := c.totalBytes + size),
        InPage(c.currentPage, c.currentOffset))
    else if size >= LargeThreshold(pageSize) then
      ByteAllocation(c.(large := [size] + c.large), LargeRegion(|c.large|))
    else
      var page := c.currentPage + 1;
      var maxPages := if page >= c.maxPages then c.maxPages + PagesReallocCount else c.maxPages;
      ByteAllocation(
        ByteCounters(page, maxPages, size, c.totalBytes + size, pageSize - size, c.large),
        InPage(page, 0))
  }

  /**
    The byte-arena invariant: the offset and the remaining bytes add up to
    the page size, some byte always remains, and the current page has a
    table slot.
  */
  ghost predicate ByteInv(pageSize: nat, c: ByteCounters) {
    && c.currentOffset + c.remaining == pageSize
    && c.remaining > 0
    && c.currentPage < c.maxPages
  }

  /**
    The in-page path is taken exactly when the request is strictly smaller
    than what remains, and then the block ends strictly before the page
    does. A request of exactly the remaining size is not served in place.
  */
  lemma {:induction false} ByteStepInPage(pageSize: nat, c: ByteCounters, size: nat)
    requires ByteInv(pageSize, c)
    ensures ByteStep(pageSize, c, size).loc.InPage? && ByteStep(pageSize, c, size).loc.page == c.currentPage
        <==> size < c.remaining
    ensures size < c.remaining ==>
      ByteStep(pageSize, c, size).loc.offset + size < pageSize
  {
  }

  /** A large request leaves every page counter alone and prepends one region. */
  lemma {:induction false} ByteStepLarge(pageSize: nat, c: ByteCounters, size: nat)
    requires size >= c.remaining && size >= LargeThreshold(pageSize)
    ensures var n := ByteStep(pageSize, c, size).next;
      && n.currentPage == c.currentPage && n.currentOffset == c.currentOffset
      && n.remaining == c.remaining && n.totalBytes == c.totalBytes
      && n.large == [size] + c.large
  {
  }

  /** A small request that does not fit rolls to a fresh page and starts it. */
  lemma {:induction false} ByteStepRoll(pageSize: nat, c: ByteCounters, size: nat)
    requires size >= c.remaining && size < LargeThreshold(pageSize)
    ensures var a := ByteStep(pageSize, c, size);
      && a.loc == InPage(c.currentPage + 1, 0)
      && a.next.currentOffset == size
      && a.next.remaining == pageSize - size
      && a.next.totalBytes == c.totalBytes + size
  {
  }

  lemma {:induction false} ByteStepKeepsInv(pageSize: nat, c: ByteCounters, size: nat)
    requires ByteInv(pageSize, c)
    ensures ByteInv(pageSize, ByteStep(pageSize, c, size).next)
  {
  }

  /** A byte arena (byte_allocator_s). */
  class ByteArena {
    var pages: seq<Page>
    var large: seq<nat>
    var currentPage: nat
    var maxPages: nat
    var currentOffset: nat
    var totalBytes: nat
    var remaining: nat
    const pageSize: nat
    const largeThreshold: nat

    function Counts(): ByteCounters
      reads this
    {
      ByteCounters(currentPage, maxPages, currentOffset, totalBytes, remaining, large)
    }

    ghost predicate Valid()
      reads this
    {
      && pageSize > 0
      && largeThreshold == LargeThreshold(pageSize)
      && ByteInv(pageSize, Counts())
      && |pages| == currentPage + 1
      && (forall k :: 0 <= k < |pages| ==> pages[k] == Page(pageSize))
    }

    /** make_byte_allocator. */
    constructor (pageSize: nat, sysPageSize: nat)
      requires pageSize > 0 && sysPageSize > 0 && pageSize % sysPageSize == 0
      ensures Valid() && this.pageSize == pageSize
      ensures Counts() == InitByteCounters(pageSize)
      ensures pages == [Page(pageSize)]
    {
      this.pageSize := pageSize;
      largeThreshold := pageSize / LargeThresholdDivisor;
      pages := [Page(pageSize)];
      large := [];
      currentPage := 0;
      maxPages := PagesReallocCount;
      currentOffset := 0;
      totalBytes := 0;
      remaining := pageSize;
    }

    /** byte_allocator_allocate. */
    method Allocate(size: nat) returns (loc: ByteLoc)
      requires Valid()
      modifies this
      ensures Valid()
      ensures Counts() == ByteStep(pageSize, old(Counts()), size).next
      ensures loc == ByteStep(pageSize, old(Counts()), size).loc
    {
      if size < remaining {
        remaining := remaining - size;
        var oldOffset := currentOffset;
        currentOffset := currentOffset + size;
        totalBytes := totalBytes + size;
        loc := InPage(currentPage, oldOffset);
        return;
      }
      if size >= largeThreshold {
        loc := LargeRegion(|large|);
        large := [size] + large;
        return;
      }
      currentPage := currentPage + 1;
      if currentPage >= maxPages {
        maxPages := maxPages + PagesReallocCount;
      }
      pages := pages + [Page(pageSize)];
      remaining := pageSize - size;
      currentOffset := size;
      totalBytes := totalBytes + size;
      loc := InPage(currentPage, 0);
    }
  }
}
