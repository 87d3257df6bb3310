/** memory_allocator.h: bump allocation in pages taken straight from the kernel. */
module PageAllocator {
  import opened Addresses
  import opened Wrappers

  /** The size of a PageHeader: a pointer and a count. */
  const HEADER_SIZE: nat := 16

  /** How many bytes so many pages are. */
  function PageBytes(pageSize: nat, pages: nat): nat {
    if pages == 0 then 0 else PageBytes(pageSize, pages - 1) + pageSize
  }

  lemma {:induction false} PageBytesTimes(pageSize: nat, pages: nat)
    ensures PageBytes(pageSize, pages) == pageSize * pages
  {
    if pages > 0 {
      PageBytesTimes(pageSize, pages - 1);
      OneLess(pageSize, pages);
    }
  }

  /** A run of pages, its header at its start. */
  datatype Header = Header(at: nat, numPages: nat) {
    function End(pageSize: nat): nat {
      at + PageBytes(pageSize, numPages)
    }
  }

  /** What a caller was given. */
  datatype Block = Block(at: nat, size: nat) {
    function End(): nat {
      at + size
    }
  }

  predicate RunsApart(pageSize: nat, a: Header, b: Header) {
    a.End(pageSize) <= b.at || b.End(pageSize) <= a.at
  }

  predicate BlocksApart(a: Block, b: Block) {
    a.End() <= b.at || b.End() <= a.at
  }

  predicate HasByte(b: Block, x: int) {
    b.at <= x < b.at + b.size
  }

  /** They have no byte in common. */
  lemma ApartByBytes(a: Block, b: Block)
    requires a.size > 0 && b.size > 0
    ensures BlocksApart(a, b) <==> forall x: int :: !(HasByte(a, x) && HasByte(b, x))
  {
    assert HasByte(a, a.at) && HasByte(b, b.at);
  }

  /** Every byte of the block is in the run, behind the sixteen of its header. */
  lemma WithinByBytes(pageSize: nat, h: Header, b: Block)
    requires b.size > 0
    ensures Within(pageSize, h, b) <==> forall x: int :: HasByte(b, x) ==> h.at + 16 <= x < h.End(pageSize)
  {
    assert HasByte(b, b.at) && HasByte(b, b.at + b.size - 1);
  }

  /** Inside the run and behind its header. */
  predicate Within(pageSize: nat, h: Header, b: Block) {
    h.at + HEADER_SIZE <= b.at && b.End() <= h.End(pageSize)
  }

  ghost predicate Inside(pageSize: nat, headers: seq<Header>, b: Block) {
    exists h | h in headers :: Within(pageSize, h, b)
  }

  function TotalPages(headers: seq<Header>): nat {
    if headers == [] then 0 else headers[0].numPages + TotalPages(headers[1..])
  }

  lemma PagesAddUp(a: Header, b: Header)
    ensures TotalPages([a, b]) == a.numPages + b.numPages
  {
    assert [a, b][1..] == [b] && [b][1..] == [];
    assert TotalPages([b]) == b.numPages;
  }

  // ---------------------------------------------------------------- rounding

  /** The pages for a request, in 64-bit arithmetic. */
  function Pages(pageSize: nat, bytes: nat): nat
    requires pageSize > 0
  {
    (bytes + HEADER_SIZE + pageSize - 1) % ADDRESS_SPACE / pageSize
  }

  /** The request can be rounded up to pages without wrapping. */
  predicate Fits(pageSize: nat, bytes: nat) {
    bytes + HEADER_SIZE + pageSize - 1 < ADDRESS_SPACE
  }

  lemma Divides(pageSize: nat, n: nat)
    requires pageSize > 0
    ensures pageSize * (n / pageSize) <= n < pageSize * (n / pageSize) + pageSize
  {
  }

  /** What getpagesize answers: an int, and there is room for a header. */
  predicate IsPageSize(pageSize: nat) {
    HEADER_SIZE < pageSize < 0x8000_0000
  }

  /** The pages hold the header and the request exactly if the rounding does not wrap. */
  lemma RoomIffFits(pageSize: nat, bytes: nat)
    requires IsPageSize(pageSize) && bytes < ADDRESS_SPACE
    ensures bytes + HEADER_SIZE <= PageBytes(pageSize, Pages(pageSize, bytes)) <==> Fits(pageSize, bytes)
  {
    PageBytesTimes(pageSize, Pages(pageSize, bytes));
    var n := bytes + HEADER_SIZE + pageSize - 1;
    Divides(pageSize, n % ADDRESS_SPACE);
    if !Fits(pageSize, bytes) {
      assert n % ADDRESS_SPACE == n - ADDRESS_SPACE;
    }
  }

  /** A request that wraps asks for no pages at all, which no kernel grants, or is one of
      the last fifteen there are, which do not even leave room to add the header. */
  lemma WrappedPages(pageSize: nat, bytes: nat)
    requires IsPageSize(pageSize) && bytes < ADDRESS_SPACE
    ensures Pages(pageSize, bytes) == 0 <==> !Fits(pageSize, bytes) && bytes <= ADDRESS_SPACE - HEADER_SIZE
    ensures Pages(pageSize, bytes) != 0 ==> (Fits(pageSize, bytes) <==> bytes <= ADDRESS_SPACE - HEADER_SIZE)
  {
    var n := bytes + HEADER_SIZE + pageSize - 1;
    Divides(pageSize, n % ADDRESS_SPACE);
    if Fits(pageSize, bytes) {
      NotWrapped(n);
      assert Pages(pageSize, bytes) != 0;
    } else {
      assert n % ADDRESS_SPACE == n - ADDRESS_SPACE;
      SmallQuotient(pageSize, n - ADDRESS_SPACE);
    }
  }

  lemma SmallQuotient(pageSize: nat, n: nat)
    requires pageSize > 0
    ensures n / pageSize == 0 <==> n < pageSize
  {
  }

  /** With pages of 4096 bytes: none for these requests, and one page for the largest
      there is, which the block then leaves. */
  lemma WrappedAt4096(bytes: nat, at: nat)
    requires bytes < ADDRESS_SPACE
    ensures Pages(4096, bytes) == 0 <==> ADDRESS_SPACE - 4111 <= bytes <= ADDRESS_SPACE - 16
    ensures Pages(4096, MAX_ADDRESS) == 1 && Used(4096, MAX_ADDRESS) == 15
    ensures !Within(4096, Header(at, 1), Block(at + HEADER_SIZE, MAX_ADDRESS))
  {
    WrappedPages(4096, bytes);
  }

  /** How much of the last page the request uses, in 64-bit arithmetic; nothing is left of
      a page used up. */
  function Used(pageSize: nat, bytes: nat): nat
    requires pageSize > 0
  {
    (pageSize - (pageSize * Pages(pageSize, bytes) - (bytes + HEADER_SIZE))) % ADDRESS_SPACE % pageSize
  }

  lemma UsedOfLastPage(pageSize: nat, bytes: nat)
    requires IsPageSize(pageSize) && Fits(pageSize, bytes) && bytes > 0
    ensures var pages, used := Pages(pageSize, bytes), Used(pageSize, bytes);
            TakesUp(pageSize, bytes, pages, used)
  {
    var n := bytes + HEADER_SIZE + pageSize - 1;
    var pages := Pages(pageSize, bytes);
    NotWrapped(n);
    Divides(pageSize, n);
    OneLess(pageSize, pages);
    PageBytesTimes(pageSize, pages);
    if pages > 0 {
      PageBytesTimes(pageSize, pages - 1);
    }
    NotWrapped(pageSize - (pageSize * pages - (bytes + HEADER_SIZE)));
    Remainder(pageSize, pageSize * pages - (bytes + HEADER_SIZE));
  }

  lemma NotWrapped(n: nat)
    requires n < ADDRESS_SPACE
    ensures n % ADDRESS_SPACE == n
  {
  }

  lemma OneLess(pageSize: nat, pages: nat)
    ensures pageSize * (pages - 1) == pageSize * pages - pageSize
  {
  }

  lemma Remainder(pageSize: nat, left: nat)
    requires left < pageSize
    ensures (pageSize - left) % pageSize == if left == 0 then 0 else pageSize - left
  {
  }

  // --------------------------------------------------------------- the state

  predicate RunFits(pageSize: nat, headers: seq<Header>, h: Header) {
    h in headers ==> h.numPages >= 1 && h.End(pageSize) <= ADDRESS_SPACE
  }

  predicate RunPair(pageSize: nat, headers: seq<Header>, i: nat, j: nat) {
    i < j < |headers| ==> RunsApart(pageSize, headers[i], headers[j])
  }

  /** Runs of at least one page, apart from each other, inside the address space. */
  ghost predicate ProperRuns(pageSize: nat, headers: seq<Header>) {
    && (forall h :: RunFits(pageSize, headers, h))
    && (forall i: nat, j: nat :: RunPair(pageSize, headers, i, j))
  }

  ghost predicate BlockHeld(pageSize: nat, headers: seq<Header>, blocks: seq<Block>, b: Block) {
    b in blocks ==> b.size > 0 && Inside(pageSize, headers, b)
  }

  predicate BlockPair(blocks: seq<Block>, i: nat, j: nat) {
    i < j < |blocks| ==> BlocksApart(blocks[i], blocks[j])
  }

  /** Blocks apart from each other, each inside a run and clear of its header. */
  ghost predicate ProperBlocks(pageSize: nat, headers: seq<Header>, blocks: seq<Block>) {
    && (forall b :: BlockHeld(pageSize, headers, blocks, b))
    && (forall i: nat, j: nat :: BlockPair(blocks, i, j))
  }

  predicate ClearOf(blocks: seq<Block>, b: Block, rest: Block) {
    b in blocks ==> BlocksApart(b, rest)
  }

  ghost predicate AllClear(blocks: seq<Block>, rest: Block) {
    forall b :: ClearOf(blocks, b, rest)
  }

  predicate RunClear(pageSize: nat, headers: seq<Header>, h: Header, g: Header) {
    g in headers ==> RunsApart(pageSize, h, g)
  }

  /** A run that overlaps none of these. */
  ghost predicate NewRun(pageSize: nat, headers: seq<Header>, h: Header) {
    forall g :: RunClear(pageSize, headers, h, g)
  }

  /** The rest of a run's last page is nobody's. */
  ghost predicate Spare(pageSize: nat, headers: seq<Header>, blocks: seq<Block>, rest: Block) {
    Inside(pageSize, headers, rest) && AllClear(blocks, rest)
  }

  ghost predicate Sound(pageSize: nat, headers: seq<Header>, blocks: seq<Block>, currentPage: Option<nat>,
                        pageOffset: nat) {
    && IsPageSize(pageSize)
    && ProperRuns(pageSize, headers) && ProperBlocks(pageSize, headers, blocks)
    && (currentPage.None? ==> pageOffset == 0)
    && (currentPage.Some? ==>
          0 < pageOffset < pageSize
          && Spare(pageSize, headers, blocks, Block(currentPage.value + pageOffset, pageSize - pageOffset)))
  }

  lemma InsideMore(pageSize: nat, headers: seq<Header>, h: Header, b: Block)
    requires Inside(pageSize, headers, b)
    ensures Inside(pageSize, [h] + headers, b)
  {
    var g :| g in headers && Within(pageSize, g, b);
    assert g in [h] + headers;
  }

  lemma RunAdded(pageSize: nat, headers: seq<Header>, blocks: seq<Block>, h: Header)
    requires ProperRuns(pageSize, headers) && ProperBlocks(pageSize, headers, blocks)
    requires h.numPages >= 1 && h.End(pageSize) <= ADDRESS_SPACE && NewRun(pageSize, headers, h)
    ensures ProperRuns(pageSize, [h] + headers) && ProperBlocks(pageSize, [h] + headers, blocks)
  {
    var now := [h] + headers;
    forall g
      ensures RunFits(pageSize, now, g)
    {
      assert RunFits(pageSize, headers, g);
    }
    forall i: nat, j: nat
      ensures RunPair(pageSize, now, i, j)
    {
      if i == 0 && 0 < j < |now| {
        assert now[j] == headers[j - 1] && RunClear(pageSize, headers, h, headers[j - 1]);
      } else if i < j < |now| {
        assert RunPair(pageSize, headers, i - 1, j - 1);
      }
    }
    forall b
      ensures BlockHeld(pageSize, now, blocks, b)
    {
      assert BlockHeld(pageSize, headers, blocks, b);
      if b in blocks {
        InsideMore(pageSize, headers, h, b);
      }
    }
  }

  lemma BlockAdded(pageSize: nat, headers: seq<Header>, blocks: seq<Block>, b: Block)
    requires ProperBlocks(pageSize, headers, blocks)
    requires b.size > 0 && Inside(pageSize, headers, b) && AllClear(blocks, b)
    ensures ProperBlocks(pageSize, headers, blocks + [b])
  {
    var now := blocks + [b];
    forall c
      ensures BlockHeld(pageSize, headers, now, c)
    {
      assert BlockHeld(pageSize, headers, blocks, c);
    }
    forall i: nat, j: nat
      ensures BlockPair(now, i, j)
    {
      if i < j == |blocks| {
        assert now[i] == blocks[i] && ClearOf(blocks, blocks[i], b);
      } else {
        assert BlockPair(blocks, i, j);
      }
    }
  }

  /** Anything inside a new run is apart from every block there was. */
  lemma NewRunApart(pageSize: nat, headers: seq<Header>, blocks: seq<Block>, h: Header, b: Block)
    requires ProperBlocks(pageSize, headers, blocks) && Within(pageSize, h, b) && NewRun(pageSize, headers, h)
    ensures AllClear(blocks, b)
  {
    forall c
      ensures ClearOf(blocks, c, b)
    {
      if c in blocks {
        assert BlockHeld(pageSize, headers, blocks, c);
        var g :| g in headers && Within(pageSize, g, c);
        assert RunClear(pageSize, headers, h, g);
      }
    }
  }

  /** What was clear of the blocks and is apart from one more is clear of all. */
  lemma ClearToo(blocks: seq<Block>, b: Block, rest: Block)
    requires AllClear(blocks, rest) && BlocksApart(b, rest)
    ensures AllClear(blocks + [b], rest)
  {
    forall c
      ensures ClearOf(blocks + [b], c, rest)
    {
      assert ClearOf(blocks, c, rest);
    }
  }

  /** The part of a spare rest behind a block at its start. */
  lemma ClearShorter(blocks: seq<Block>, rest: Block, bytes: nat)
    requires AllClear(blocks, rest) && bytes <= rest.size
    ensures AllClear(blocks, Block(rest.at, bytes)) && AllClear(blocks, Block(rest.at + bytes, rest.size - bytes))
  {
    var first, later := Block(rest.at, bytes), Block(rest.at + bytes, rest.size - bytes);
    forall c
      ensures ClearOf(blocks, c, first)
    {
      assert ClearOf(blocks, c, rest);
    }
    forall c
      ensures ClearOf(blocks, c, later)
    {
      assert ClearOf(blocks, c, rest);
    }
  }

  lemma HoldsHeader(pageSize: nat, h: Header)
    requires HEADER_SIZE < pageSize && h.numPages >= 1
    ensures h.at + HEADER_SIZE < h.End(pageSize)
  {
  }

  lemma MembersApart(pageSize: nat, headers: seq<Header>, g: Header, h: Header)
    requires ProperRuns(pageSize, headers) && g in headers && h in headers && g != h
    ensures RunsApart(pageSize, g, h)
  {
    var i: nat :| i < |headers| && headers[i] == h;
    var j: nat :| j < |headers| && headers[j] == g;
    assert RunPair(pageSize, headers, i, j) && RunPair(pageSize, headers, j, i);
  }

  /** The header and this many bytes use up `pages`, but for the rest of the last page
      if only `used` bytes of it are taken. */
  predicate TakesUp(pageSize: nat, bytes: nat, pages: nat, used: nat) {
    && pages >= 1 && used < pageSize
    && bytes + HEADER_SIZE == if used == 0 then PageBytes(pageSize, pages) else PageBytes(pageSize, pages - 1) + used
  }

  /** Where the last of a run's pages starts. */
  function LastPage(pageSize: nat, at: nat, pages: nat): nat
    requires pages >= 1
  {
    at + PageBytes(pageSize, pages - 1)
  }

  /** The last page, unless it is used up. */
  function NextPage(pageSize: nat, at: nat, pages: nat, used: nat): Option<nat>
    requires pages >= 1
  {
    if used != 0 then Some(LastPage(pageSize, at, pages)) else None
  }

  /** Some requests, with pages of 4096 bytes and a header of 16. */
  lemma At4096(at: nat)
    ensures Pages(4096, 100) == 1 && Used(4096, 100) == 116 && NextPage(4096, at, 1, 116) == Some(at)
    ensures Pages(4096, 4080) == 1 && Used(4096, 4080) == 0 && NextPage(4096, at, 1, 0) == None
    ensures Pages(4096, 4081) == 2 && Used(4096, 4081) == 1 && NextPage(4096, at, 2, 1) == Some(at + 4096)
    ensures Header(at, 2).End(4096) == at + 8192 && HEADER_SIZE == 16
  {
    assert PageBytes(4096, 1) == 4096 && PageBytes(4096, 2) == 8192;
  }

  lemma TakenRun(pageSize: nat, at: nat, bytes: nat, pages: nat, used: nat)
    requires TakesUp(pageSize, bytes, pages, used)
    ensures Within(pageSize, Header(at, pages), Block(at + HEADER_SIZE, bytes))
    ensures used != 0 ==> at + HEADER_SIZE + bytes == LastPage(pageSize, at, pages) + used
    ensures used != 0 ==> Within(pageSize, Header(at, pages), Block(at + HEADER_SIZE + bytes, pageSize - used))
  {
  }

  /** A new run holds its header, the block and, if any, the rest of the last page. */
  lemma RunUsed(pageSize: nat, headers: seq<Header>, blocks: seq<Block>, at: nat, bytes: nat, pages: nat, used: nat)
    requires bytes > 0 && TakesUp(pageSize, bytes, pages, used) && ProperBlocks(pageSize, headers, blocks)
    requires ProperBlocks(pageSize, [Header(at, pages)] + headers, blocks)
    requires NewRun(pageSize, headers, Header(at, pages))
    ensures var now, all := [Header(at, pages)] + headers, blocks + [Block(at + HEADER_SIZE, bytes)];
            && ProperBlocks(pageSize, now, all)
            && used < pageSize
            && (used != 0 ==> Spare(pageSize, now, all, Block(LastPage(pageSize, at, pages) + used, pageSize - used)))
  {
    var h, block := Header(at, pages), Block(at + HEADER_SIZE, bytes);
    var now := [h] + headers;
    TakenRun(pageSize, at, bytes, pages, used);
    assert now[0] == h;
    NewRunApart(pageSize, headers, blocks, h, block);
    BlockAdded(pageSize, now, blocks, block);
    if used != 0 {
      NewRunApart(pageSize, headers, blocks, h, Block(block.End(), pageSize - used));
      ClearToo(blocks, block, Block(block.End(), pageSize - used));
    }
  }

  lemma SoundAfter(pageSize: nat, headers: seq<Header>, blocks: seq<Block>, currentPage: Option<nat>, pageOffset: nat,
                   at: nat, bytes: nat, pages: nat, used: nat)
    requires Sound(pageSize, headers, blocks, currentPage, pageOffset)
    requires bytes > 0 && TakesUp(pageSize, bytes, pages, used)
    requires Header(at, pages).End(pageSize) <= ADDRESS_SPACE
    requires NewRun(pageSize, headers, Header(at, pages))
    ensures Sound(pageSize, [Header(at, pages)] + headers, blocks + [Block(at + HEADER_SIZE, bytes)],
                  NextPage(pageSize, at, pages, used), used)
  {
    RunAdded(pageSize, headers, blocks, Header(at, pages));
    RunUsed(pageSize, headers, blocks, at, bytes, pages, used);
  }

  /** A block that does not fit its own run fits no other. */
  lemma NotSoundAfter(pageSize: nat, headers: seq<Header>, blocks: seq<Block>, h: Header, block: Block)
    requires HEADER_SIZE < pageSize && h.numPages >= 1 && NewRun(pageSize, headers, h)
    requires block.at == h.at + HEADER_SIZE && block.size > 0 && !Within(pageSize, h, block)
    ensures !ProperBlocks(pageSize, [h] + headers, blocks + [block])
  {
    HoldsHeader(pageSize, h);
    assert block == (blocks + [block])[|blocks|];
    forall g | g in [h] + headers
      ensures !Within(pageSize, g, block)
    {
      assert g == h || RunClear(pageSize, headers, h, g);
    }
    assert !BlockHeld(pageSize, [h] + headers, blocks + [block], block);
  }

  class PageAllocator {
    const pageSize: nat
    /** The list that starts at last_, the latest run first. */
    var headers: seq<Header>
    var currentPage: Option<nat>
    var pageOffset: nat
    var pagesAllocated: nat
    /** All blocks handed out. */
    ghost var blocks: seq<Block>

    ghost predicate Valid()
      reads this
    {
      && Sound(pageSize, headers, blocks, currentPage, pageOffset)
      && pagesAllocated == TotalPages(headers)
    }

    /** How much of the current page is left. */
    function Rest(): int
      reads this
    {
      if currentPage.None? then 0 else pageSize - pageOffset
    }

    /** What the kernel promises of pages it grants: there are some, and they overlap no run. */
    ghost predicate Grants(at: nat, numPages: nat)
      reads this
    {
      var h := Header(at, numPages);
      numPages >= 1 && h.End(pageSize) <= ADDRESS_SPACE && NewRun(pageSize, headers, h)
    }

    constructor (pageSize: nat)
      requires IsPageSize(pageSize)
      ensures Valid() && this.pageSize == pageSize && headers == [] && blocks == []
    {
      this.pageSize := pageSize;
      headers, currentPage, pageOffset, pagesAllocated, blocks := [], None, 0, 0, [];
    }

    /** Map pages, and put a header at their start; `answer` is what the kernel says. */
    method GetNPages(numPages: nat, answer: Option<nat>) returns (ret: Option<nat>)
      requires pagesAllocated == TotalPages(headers)
      modifies this`headers, this`pagesAllocated
      ensures ret == answer && pagesAllocated == TotalPages(headers)
      ensures headers == if answer.Some? then [Header(answer.value, numPages)] + old(headers) else old(headers)
    {
      if answer.None? {
        return None;
      }
      headers := [Header(answer.value, numPages)] + headers;
      pagesAllocated := pagesAllocated + numPages;
      return answer;
    }

    /** From the rest of the current page. */
    method Bump(bytes: nat) returns (ret: nat)
      requires Valid() && currentPage.Some? && 0 < bytes <= pageSize - pageOffset
      modifies this
      ensures Valid() && blocks == old(blocks) + [Block(ret, bytes)] && headers == old(headers)
      ensures ret == old(currentPage.value) + old(pageOffset)
    {
      ghost var rest := Block(currentPage.value + pageOffset, pageSize - pageOffset);
      ret := currentPage.value + pageOffset;
      ghost var block := Block(ret, bytes);
      ghost var now := Block(ret + bytes, rest.size - bytes);
      ClearShorter(blocks, rest, bytes);
      ClearToo(blocks, block, now);
      BlockAdded(pageSize, headers, blocks, block);
      blocks := blocks + [block];
      assert Spare(pageSize, headers, blocks, now);
      pageOffset := pageOffset + bytes;
      if pageOffset == pageSize {
        pageOffset := 0;
        currentPage := None;
      }
    }

    /** From a new run, whose last page becomes the current one if there is some left. */
    method AllocPages(bytes: nat, pages: nat, used: nat, answer: Option<nat>) returns (ret: Option<nat>)
      requires pagesAllocated == TotalPages(headers) && (answer.Some? ==> pages >= 1)
      modifies this
      ensures pagesAllocated == TotalPages(headers)
      ensures answer.None? ==>
                && ret.None? && blocks == old(blocks) && headers == old(headers)
                && currentPage == old(currentPage) && pageOffset == old(pageOffset)
      ensures answer.Some? ==>
                && ret == Some(answer.value + HEADER_SIZE) && blocks == old(blocks) + [Block(ret.value, bytes)]
                && headers == [Header(answer.value, pages)] + old(headers)
                && currentPage == NextPage(pageSize, answer.value, pages, used) && pageOffset == used
    {
      var run := GetNPages(pages, answer);
      if run.None? {
        return None;
      }
      pageOffset := used;
      currentPage := NextPage(pageSize, run.value, pages, used);
      blocks := blocks + [Block(run.value + HEADER_SIZE, bytes)];
      return Some(run.value + HEADER_SIZE);
    }

    /** A block of so many bytes, or nothing: for none, or when the kernel grants no pages.
        All is well afterwards exactly if no new run was needed or granted, or the request
        does not wrap. */
    method Alloc(bytes: nat, answer: Option<nat>) returns (ret: Option<nat>)
      requires Valid() && bytes < ADDRESS_SPACE
      requires answer.Some? && Rest() < bytes ==> Grants(answer.value, Pages(pageSize, bytes))
      modifies this
      ensures Valid() <==> old(Rest()) >= bytes || answer.None? || bytes <= ADDRESS_SPACE - HEADER_SIZE
      ensures pagesAllocated == TotalPages(headers)
      ensures blocks == old(blocks) + if ret.Some? then [Block(ret.value, bytes)] else []
      ensures bytes == 0 ==> ret.None?
      ensures ret.None? ==> headers == old(headers) && currentPage == old(currentPage) && pageOffset == old(pageOffset)
      ensures bytes > 0 && old(Rest()) >= bytes ==>
                headers == old(headers) && ret == Some(old(currentPage).value + old(pageOffset))
      ensures old(Rest()) < bytes && answer.None? ==> ret.None?
      ensures old(Rest()) < bytes && answer.Some? ==>
                var pages, used := Pages(pageSize, bytes), Used(pageSize, bytes);
                && headers == [Header(answer.value, pages)] + old(headers) && ret == Some(answer.value + HEADER_SIZE)
                && pages >= 1 && currentPage == NextPage(pageSize, answer.value, pages, used) && pageOffset == used
    {
      if bytes == 0 {
        return None;
      }
      if currentPage.Some? && pageSize - pageOffset >= bytes {
        var at := Bump(bytes);
        return Some(at);
      }
      ghost var runs, held := headers, blocks;
      var pages, used := Pages(pageSize, bytes), Used(pageSize, bytes);
      WrappedPages(pageSize, bytes);
      RoomIffFits(pageSize, bytes);
      if answer.Some? {
        if Fits(pageSize, bytes) {
          UsedOfLastPage(pageSize, bytes);
          SoundAfter(pageSize, headers, blocks, currentPage, pageOffset, answer.value, bytes, pages, used);
        } else {
          NotSoundAfter(pageSize, runs, held, Header(answer.value, pages), Block(answer.value + HEADER_SIZE, bytes));
        }
      }
      ret := AllocPages(bytes, pages, used, answer);
    }

    /** Whether the address is in any of the runs. */
    method OwnsPointer(p: nat) returns (owns: bool)
      requires Valid()
      ensures owns <==> exists h :: h in headers && h.at <= p < h.End(pageSize)
    {
      for i := 0 to |headers|
        invariant forall j | 0 <= j < i :: !(headers[j].at <= p < headers[j].End(pageSize))
      {
        if headers[i].at <= p < headers[i].End(pageSize) {
          return true;
        }
      }
      return false;
    }

    /** Every byte of every block is owned. */
    lemma BlocksOwned(b: Block, p: nat)
      requires Valid() && b in blocks && b.at <= p < b.End()
      ensures exists h :: h in headers && h.at <= p < h.End(pageSize)
    {
      assert BlockHeld(pageSize, headers, blocks, b);
      var h :| h in headers && Within(pageSize, h, b);
    }

    /** No block touches the header of any run. */
    lemma HeadersUntouched(b: Block, g: Header)
      requires Valid() && b in blocks && g in headers
      ensures b.End() <= g.at || g.at + HEADER_SIZE <= b.at
    {
      assert BlockHeld(pageSize, headers, blocks, b);
      var h :| h in headers && Within(pageSize, h, b);
      assert RunFits(pageSize, headers, g) && RunFits(pageSize, headers, h);
      HoldsHeader(pageSize, g);
      HoldsHeader(pageSize, h);
      if g != h {
        MembersApart(pageSize, headers, g, h);
      }
    }

    /** Unmap every run, once. */
    method FreeAll() returns (unmapped: seq<Header>)
      requires Valid()
      ensures unmapped == headers
    {
      unmapped := [];
      var cur := headers;
      while cur != []
        invariant unmapped + cur == headers
        decreases |cur|
      {
        unmapped := unmapped + [cur[0]];
        cur := cur[1..];
      }
    }
  }
}
