// The paged allocator of tree nodes and strings.
//
// Blocks are carved off the top page one behind the other and are never reused one by one: freeing only counts
// bytes, and a page goes when all that was carved off it has been freed.
module PagedMemory {
  import opened Basics

  const HEADER: nat := 40
  const PAGE_SIZE: nat := 32768 - HEADER
  const ALIGNMENT: nat := 8
  const LARGE: nat := PAGE_SIZE / 4
  const MAX_ENCODED: nat := 65536 * ALIGNMENT

  datatype Block = Block(offset: nat, size: nat)

  function Sum(b: seq<Block>): nat {
    if b == [] then 0 else Sum(b[..|b| - 1]) + b[|b| - 1].size
  }

  lemma {:induction false} SumWithout(b: seq<Block>, k: nat)
    requires k < |b|
    ensures Sum(b) == Sum(b[..k] + b[k + 1..]) + b[k].size
  {
    var n := |b| - 1;
    if k == n {
      assert b[..k] + b[k + 1..] == b[..n];
    } else {
      SumWithout(b[..n], k);
      var m := b[..k] + b[k + 1..];
      assert m[..|m| - 1] == b[..n][..k] + b[..n][k + 1..];
      assert m[|m| - 1] == b[n];
    }
  }

  lemma Carved(b: seq<Block>, busy: nat, size: nat)
    requires Packed(b, busy) && busy % ALIGNMENT == 0 && size > 0 && size % ALIGNMENT == 0
    ensures Packed(b + [Block(busy, size)], busy + size) && Sum(b + [Block(busy, size)]) == Sum(b) + size
    ensures (busy + size) % ALIGNMENT == 0
  {
    assert (b + [Block(busy, size)])[..|b|] == b;
  }

  /** Blocks in the order they were carved off, one behind the other, below `busy`. */
  ghost predicate Packed(b: seq<Block>, busy: nat) {
    && (forall i :: 0 <= i < |b| ==>
       b[i].size > 0 && b[i].offset % ALIGNMENT == 0 && b[i].size % ALIGNMENT == 0 && b[i].offset + b[i].size <= busy)
    && (forall i, j :: 0 <= i < j < |b| ==> b[i].offset + b[i].size <= b[j].offset)
  }

  class Page {
    /** The address of the page; its data follows the page structure. */
    const base: nat
    const capacity: nat
    var prev: Page?
    var next: Page?
    var busySize: nat
    var freedSize: nat
    /** The blocks in use. */
    ghost var blocks: seq<Block>

    constructor (base: nat, capacity: nat)
      ensures this.base == base && this.capacity == capacity
      ensures prev == null && next == null && busySize == 0 && freedSize == 0 && blocks == []
    {
      this.base, this.capacity := base, capacity;
      prev, next, busySize, freedSize := null, null, 0, 0;
      blocks := [];
    }

    /** Bytes in use and bytes freed make up what has been carved off. */
    ghost predicate Balanced(busy: nat)
      reads this
    {
      && busy <= capacity && busy % ALIGNMENT == 0
      && Packed(blocks, busy)
      && Sum(blocks) + freedSize == busy
      && (capacity == PAGE_SIZE || (blocks == [Block(0, capacity)] && busy == capacity))
    }
  }

  predicate Apart(a: nat, aSize: nat, b: nat, bSize: nat) {
    a + aSize <= b || b + bSize <= a
  }

  predicate PagesApart(p: Page, q: Page) {
    Apart(p.base, HEADER + p.capacity, q.base, HEADER + q.capacity)
  }

  class Allocator {
    var root: Page
    var busySize: nat
    /** The page structures in memory, by address. */
    var memory: map<nat, Page>
    /** The pages in list order; the first one belongs to the document and is never used for blocks. */
    ghost var pages: seq<Page>

    constructor (sentinel: Page)
      requires sentinel.busySize == PAGE_SIZE && sentinel.freedSize == 0 && sentinel.blocks == []
      requires sentinel.prev == null && sentinel.next == null
      ensures Valid() && pages == [sentinel]
    {
      root := sentinel;
      busySize := sentinel.busySize;
      memory := map[sentinel.base := sentinel];
      pages := [sentinel];
    }

    ghost predicate LinkOk(i: nat)
      requires i < |pages|
      reads this, pages
    {
      && pages[i].prev == (if i == 0 then null else pages[i - 1])
      && pages[i].next == (if i == |pages| - 1 then null else pages[i + 1])
      && pages[i].base in memory && memory[pages[i].base] == pages[i]
    }

    ghost predicate PlacesOk(i: nat, j: nat)
      requires i < |pages| && j < |pages|
      reads this, pages
    {
      pages[i] != pages[j] && PagesApart(pages[i], pages[j])
    }

    /** What has been carved off a page; for the top page the allocator itself keeps the number. */
    ghost function Busy(p: Page): nat
      reads this, p
    {
      if p == root then busySize else p.busySize
    }

    ghost predicate PageOk(i: nat)
      requires i < |pages|
      reads this, pages
    {
      var p := pages[i];
      && p.Balanced(Busy(p))
      && (if i == |pages| - 1 then p.capacity == PAGE_SIZE && (p.blocks == [] ==> busySize == 0) else p.blocks != [])
    }

    ghost predicate Valid()
      reads this, pages
    {
      Sound(0)
    }

    /** Everything is in order, but possibly for page `but`, from which a block is being removed. */
    ghost predicate Sound(but: nat)
      reads this, pages
    {
      && pages != [] && root == pages[|pages| - 1]
      && (forall i: nat {:trigger LinkOk(i)} :: i < |pages| ==> LinkOk(i))
      && (forall i: nat, j: nat {:trigger PlacesOk(i, j)} :: i < j < |pages| ==> PlacesOk(i, j))
      && (forall a :: a in memory ==> memory[a] in pages && memory[a].base == a)
      && Busy(pages[0]) == PAGE_SIZE && pages[0].freedSize == 0 && pages[0].blocks == []
      && (forall i: nat {:trigger PageOk(i)} :: 0 < i < |pages| && i != but ==> PageOk(i))
    }

    // ----- allocation --------------------------------------------------------------------------------------

    /** A place where the operating system may put a new page. */
    ghost predicate FreePlace(place: nat, dataSize: nat)
      reads this, pages
    {
      forall i :: 0 <= i < |pages| ==> Apart(pages[i].base, HEADER + pages[i].capacity, place, HEADER + dataSize)
    }

    /** The size of the page that is asked for when the top page is too full. */
    function NewPageSize(size: nat): nat {
      if size <= LARGE then PAGE_SIZE else size
    }

    /** Carves a block off the top page, or off a new one. */
    method AllocateMemory(size: nat, place: nat) returns (page: Page, offset: nat)
      requires Valid() && size > 0 && size % ALIGNMENT == 0 && FreePlace(place, NewPageSize(size))
      requires |pages| == 1 ==> size <= LARGE
      modifies this, pages
      ensures Valid() && page in pages[1..]
      ensures forall q :: q in old(pages) && q != page ==> q in pages && q.blocks == old(q.blocks)
      ensures forall q :: q in pages ==> q in old(pages) || q == page
      ensures page in old(pages) <==> old(busySize) + size <= PAGE_SIZE
      ensures page in old(pages) ==> pages == old(pages) && page == old(root)
      ensures page in old(pages) ==> page.blocks == old(page.blocks) + [Block(offset, size)]
      ensures page !in old(pages) ==>
              fresh(page) && page.base == place && offset == 0 && page.blocks == [Block(0, size)] &&
                page.capacity == if 4 * size <= PAGE_SIZE then PAGE_SIZE else size
    {
      if busySize + size > PAGE_SIZE {
        page := AllocateOutOfBand(size, place);
        offset := 0;
      } else {
        page, offset := AllocateOnTop(size);
      }
    }

    method AllocateOnTop(size: nat) returns (page: Page, offset: nat)
      requires Valid() && size > 0 && size % ALIGNMENT == 0 && busySize + size <= PAGE_SIZE
      modifies this`busySize, pages
      ensures Valid() && page == root && page in pages[1..]
      ensures forall q :: q in pages && q != page ==> q.blocks == old(q.blocks)
      ensures page.blocks == old(page.blocks) + [Block(offset, size)]
    {
      assert |pages| > 1 && PageOk(|pages| - 1);
      page, offset := CarveTop(size);
      assert page == pages[1..][|pages| - 2];
      TopBalanced(size);
    }

    /** The top page with one more block. */
    twostate lemma TopBalanced(size: nat)
      requires root == old(root) && old(root.Balanced(busySize)) && root.capacity == PAGE_SIZE
      requires size > 0 && size % ALIGNMENT == 0 && old(busySize) + size <= PAGE_SIZE
      requires |pages| > 1 && root == pages[|pages| - 1] && busySize == old(busySize) + size
      requires root.blocks == old(root.blocks) + [Block(old(busySize), size)] && root.freedSize == old(root.freedSize)
      ensures PageOk(|pages| - 1)
    {
      Carved(old(root.blocks), old(busySize), size);
    }

    /** The block is carved off; the top page may be out of order until its bytes are counted. */
    method CarveTop(size: nat) returns (page: Page, offset: nat)
      requires Valid() && |pages| > 1
      modifies this`busySize, root`blocks
      ensures Sound(|pages| - 1) && page == root == old(root) && offset == old(busySize) &&
              busySize == old(busySize) + size
      ensures page.blocks == old(root.blocks) + [Block(offset, size)] && page.freedSize == old(root.freedSize)
      ensures forall q :: q in pages && q != page ==> q.blocks == old(q.blocks)
    {
      PagesDiffer(|pages| - 1, 0);
      page, offset := root, busySize;
      busySize := busySize + size;
      page.blocks := page.blocks + [Block(offset, size)];
      OthersSound(|pages| - 1);
    }

    method AllocateOutOfBand(size: nat, place: nat) returns (page: Page)
      requires Valid() && size > 0 && size % ALIGNMENT == 0 && FreePlace(place, NewPageSize(size)) &&
               busySize + size > PAGE_SIZE
      requires |pages| == 1 ==> size <= LARGE
      modifies this, pages
      ensures Valid() && page in pages[1..]
      ensures forall q :: q in old(pages) ==> q in pages && q.blocks == old(q.blocks)
      ensures forall q :: q in pages ==> q in old(pages) || q == page
      ensures fresh(page) && page.base == place && page.capacity == NewPageSize(size) && page.blocks == [Block(0, size)]
    {
      page := new Page(place, NewPageSize(size));
      page.blocks := [Block(0, size)];
      SumOne(Block(0, size));
      if size <= LARGE {
        PutOnTop(page, size);
      } else {
        PutBelowTop(page, size);
      }
    }

    /** The new page becomes the top page. */
    method PutOnTop(page: Page, size: nat)
      requires Valid() && page !in pages && FreePlace(page.base, page.capacity) && busySize + size > PAGE_SIZE
      requires 0 < size <= LARGE && size % ALIGNMENT == 0 && page.capacity == PAGE_SIZE && page.Balanced(size) &&
               page.blocks != [] && page.next == null
      modifies this, pages, page
      ensures Valid() && pages == old(pages) + [page] && page in pages[1..]
      ensures forall q :: q in pages ==> q.blocks == old(q.blocks)
    {
      ghost var n := |pages|;
      forall i: nat {:trigger pages[i]} | i < n - 1 ensures pages[i] != root { assert PlacesOk(i, n - 1); }
      LinkOnTop(page, size);
      assert page == pages[1..][n - 1];
      forall i: nat, j: nat {:trigger PlacesOk(i, j)} | i < j < |pages|
        ensures PlacesOk(i, j) { assert j < n ==> old(PlacesOk(i, j)); }
      forall i: nat {:trigger LinkOk(i)} | i < |pages| ensures LinkOk(i) { if i < n { assert old(LinkOk(i)); } }
      forall i: nat {:trigger PageOk(i)} | 0 < i < |pages| ensures PageOk(i) { if i < n { assert old(PageOk(i)); } }
    }

    method LinkOnTop(page: Page, size: nat)
      requires pages != [] && root == pages[|pages| - 1] && page !in pages && page.next == null
      requires forall i: nat {:trigger pages[i]} :: i < |pages| - 1 ==> pages[i] != root
      modifies this, pages, page
      ensures root == page && busySize == size && memory == old(memory)[page.base := page] &&
              pages == old(pages) + [page]
      ensures page.prev == old(root) && page.next == null && page.freedSize == old(page.freedSize) &&
              page.blocks == old(page.blocks)
      ensures var r := old(root);
              r.prev == old(r.prev) && r.next == page && r.busySize == old(busySize) &&
                r.freedSize == old(r.freedSize) && r.blocks == old(r.blocks)
      ensures forall i: nat {:trigger pages[i]} :: i < |old(pages)| - 1 ==> unchanged(pages[i])
    {
      memory := memory[page.base := page];
      root.busySize := busySize;
      page.prev := root;
      root.next := page;
      root := page;
      busySize := size;
      pages := pages + [page];
    }

    /** The new page, filled by one block, is inserted below the top page. */
    method PutBelowTop(page: Page, size: nat)
      requires Valid() && page !in pages && FreePlace(page.base, page.capacity) && |pages| > 1
      requires page.capacity == size && page.Balanced(size) && page.blocks == [Block(0, size)]
      modifies this, pages, page
      ensures Valid() && pages == old(pages)[..|old(pages)| - 1] + [page] + old(pages)[|old(pages)| - 1..] &&
              page in pages[1..]
      ensures forall q :: q in pages ==> q.blocks == old(q.blocks)
    {
      ghost var n := |pages| - 1;
      assert LinkOk(n) && LinkOk(n - 1) && PlacesOk(n - 1, n);
      forall i: nat {:trigger pages[i]} | i < n - 1 ensures pages[i] != pages[n - 1] { assert PlacesOk(i, n - 1); }
      forall i: nat {:trigger pages[i]} | i < n ensures pages[i] != root { assert PlacesOk(i, n); }
      LinkBelowTop(page, size);
      assert page == pages[1..][n - 1];
      forall i: nat, j: nat {:trigger PlacesOk(i, j)} | i < j < |pages| ensures PlacesOk(i, j) {
        assert i != n && j != n ==> old(PlacesOk(Was(i, n), Was(j, n)));
      }
      forall i: nat {:trigger LinkOk(i)} | i < |pages|
        ensures LinkOk(i) { if i != n { assert old(LinkOk(Was(i, n))); } }
      forall i: nat {:trigger PageOk(i)} | 0 < i < |pages|
        ensures PageOk(i) { if i != n { assert old(PageOk(Was(i, n))); } }
    }

    method LinkBelowTop(page: Page, size: nat)
      requires |pages| > 1 && root == pages[|pages| - 1] && page !in pages && root.prev == pages[|pages| - 2]
      requires forall i: nat {:trigger pages[i]} :: i < |pages| - 1 ==> pages[i] != root
      requires forall i: nat {:trigger pages[i]} :: i < |pages| - 2 ==> pages[i] != root.prev
      modifies this, pages, page
      ensures root == old(root) && busySize == old(busySize) && memory == old(memory)[page.base := page]
      ensures pages == old(pages)[..|old(pages)| - 1] + [page] + old(pages)[|old(pages)| - 1..]
      ensures page.prev == old(root.prev) && page.next == root && page.busySize == size &&
              page.freedSize == old(page.freedSize) && page.blocks == old(page.blocks)
      ensures root.prev == page && root.next == old(root.next) && root.freedSize == old(root.freedSize) &&
              root.blocks == old(root.blocks)
      ensures var r := old(root.prev);
              r.prev == old(root.prev.prev) && r.next == page && r.busySize == old(root.prev.busySize) &&
                r.freedSize == old(root.prev.freedSize) && r.blocks == old(root.prev.blocks)
      ensures forall i: nat {:trigger pages[i]} :: i < |old(pages)| - 2 ==> unchanged(pages[i])
    {
      memory := memory[page.base := page];
      page.prev := root.prev;
      page.next := root;
      root.prev.next := page;
      root.prev := page;
      page.busySize := size;
      pages := pages[..|pages| - 1] + [page] + pages[|pages| - 1..];
    }

    // ----- freeing -----------------------------------------------------------------------------------------

    /** The page is the top page exactly when it has no next one; all pages are different. */
    lemma PagesDiffer(i: nat, but: nat)
      requires Sound(but) && i < |pages|
      ensures forall j: nat {:trigger pages[j]} :: j < |pages| && j != i ==> pages[j] != pages[i]
      ensures pages[i] == root <==> pages[i].next == null
      ensures pages[i] == root <==> i == |pages| - 1
    {
      assert LinkOk(i);
      forall j: nat {:trigger pages[j]} | j < |pages| && j != i
        ensures pages[j] != pages[i] { assert if j < i then PlacesOk(j, i) else PlacesOk(i, j); }
    }

    /** The page is freed completely exactly when no block is left; otherwise it stays balanced. */
    lemma WhatIsLeft(i: nat, k: nat)
      requires Valid() && 0 < i < |pages| && k < |pages[i].blocks|
      ensures var p, left := pages[i], Without(pages[i].blocks, k);
        && (p.freedSize + p.blocks[k].size == Busy(p) <==> left == [])
        && (left != [] || p == root ==> p.capacity == PAGE_SIZE)
        && Busy(p) <= p.capacity && Busy(p) % ALIGNMENT == 0 && Packed(left, Busy(p)) &&
           Sum(left) + p.freedSize + p.blocks[k].size == Busy(p)
    {
      assert PageOk(i);
      WithoutPacked(pages[i].blocks, k, Busy(pages[i]));
      WithoutSum(pages[i].blocks, k, Busy(pages[i]));
      PagesDiffer(i, 0);
    }

    /** Frees block `k` of page `i`. */
    method DeallocateMemory(size: nat, page: Page, ghost i: nat, ghost k: nat)
      requires Valid() && 0 < i < |pages| && page == pages[i] && k < |page.blocks| && page.blocks[k].size == size
      modifies this, pages
      ensures Valid() && root == old(root)
      ensures Freed(page, old(pages), i, k)
    {
      CountFreed(size, page, i, k);
      if page.freedSize == page.busySize {
        if page.next == null {
          ResetTop(i);
        } else {
          Release(page, i);
        }
      } else {
        assert PageOk(i);
      }
    }

    /** The freed bytes are counted; for the top page the number of bytes carved off is stored first. */
    method CountFreed(size: nat, page: Page, ghost i: nat, ghost k: nat)
      requires Valid() && 0 < i < |pages| && page == pages[i] && k < |page.blocks| && page.blocks[k].size == size
      modifies page
      ensures Sound(i) && page.blocks == Without(old(page.blocks), k) && (page.next == null <==> page == root) &&
              (page == root <==> i == |pages| - 1)
      ensures page.busySize == Busy(page) && (page.freedSize == page.busySize <==> page.blocks == [])
      ensures page.blocks != [] ==> page.Balanced(page.busySize)
      ensures page.blocks != [] || page == root ==> page.capacity == PAGE_SIZE
      ensures forall q :: q in pages && q != page ==> unchanged(q)
    {
      PagesDiffer(i, 0);
      WhatIsLeft(i, k);
      ghost var left := Without(page.blocks, k);
      if page == root { page.busySize := busySize; }
      page.freedSize := page.freedSize + size;
      page.blocks := left;
      OthersSound(i);
    }

    /** A change of one page, and of no link, leaves the others in order. */
    twostate lemma OthersSound(i: nat)
      requires old(Valid()) && 0 < i < |pages| && pages == old(pages) && root == old(root) && memory == old(memory)
      requires busySize == old(busySize) || i == |pages| - 1
      requires pages[i].prev == old(pages[i].prev) && pages[i].next == old(pages[i].next)
      requires forall j: nat {:trigger pages[j]} :: j < |pages| && j != i ==> unchanged(pages[j])
      ensures Sound(i)
    {
      forall a: nat, b: nat {:trigger PlacesOk(a, b)} | a < b < |pages|
        ensures PlacesOk(a, b) { assert old(PlacesOk(a, b)); }
      forall j: nat {:trigger LinkOk(j)} | j < |pages| ensures LinkOk(j) { assert old(LinkOk(j)); }
      assert busySize != old(busySize) ==> pages[0] != root && forall j: nat {:trigger pages[j]} :: j < i ==>
        pages[j] != root by {
        forall j: nat {:trigger pages[j]} | j < i ensures pages[j] != pages[i] { assert PlacesOk(j, i); }
      }
      forall j: nat {:trigger PageOk(j)} | 0 < j < |pages| && j != i ensures PageOk(j) { assert old(PageOk(j)); }
    }

    /** The top page is empty: start over. */
    method ResetTop(ghost i: nat)
      requires Sound(i) && 0 < i == |pages| - 1 && root.blocks == [] && root.capacity == PAGE_SIZE
      modifies this`busySize, root`busySize, root`freedSize
      ensures Valid()
    {
      PagesDiffer(i, i);
      root.busySize, root.freedSize, busySize := 0, 0, 0;
      assert PageOk(i);
      forall a: nat, b: nat {:trigger PlacesOk(a, b)} | a < b < |pages|
        ensures PlacesOk(a, b) { assert old(PlacesOk(a, b)); }
      forall j: nat {:trigger LinkOk(j)} | j < |pages| ensures LinkOk(j) { assert old(LinkOk(j)); }
      forall j: nat {:trigger PageOk(j)} | 0 < j < |pages| && j != i ensures PageOk(j) { assert old(PageOk(j)); }
    }

    /** A page below the top is empty: it goes. */
    method Release(page: Page, ghost i: nat)
      requires Sound(i) && 0 < i < |pages| - 1 && page == pages[i]
      modifies this`memory, this`pages, pages
      ensures Valid() && pages == old(pages)[..i] + old(pages)[i + 1..] && page.base !in memory
      ensures forall q :: q in old(pages) ==> q.blocks == old(q.blocks)
    {
      assert LinkOk(i - 1) && LinkOk(i) && LinkOk(i + 1);
      PagesDiffer(i, i);
      PagesDiffer(i - 1, i);
      PagesDiffer(i + 1, i);
      Unlink(page, i, pages[i - 1], pages[i + 1]);
      forall a: nat, b: nat {:trigger PlacesOk(a, b)} | a < b < |pages|
        ensures PlacesOk(a, b) { assert old(PlacesOk(Then(a, i), Then(b, i))); }
      forall j: nat {:trigger LinkOk(j)} | j < |pages| ensures LinkOk(j) {
        assert old(LinkOk(Then(j, i)));
        assert if j < i then old(PlacesOk(j, i)) else old(PlacesOk(i, j + 1));
      }
      forall j: nat {:trigger PageOk(j)} | 0 < j < |pages| ensures PageOk(j) { assert old(PageOk(Then(j, i))); }
    }

    /** Takes a page out of the list and gives it back. */
    method Unlink(page: Page, ghost i: nat, ghost before: Page, ghost after: Page)
      requires 0 < i < |pages| - 1 && page == pages[i] && before == pages[i - 1] && after == pages[i + 1]
      requires page.prev == before && page.next == after && before != after && page != before && page != after
      modifies this`memory, this`pages, before`next, after`prev
      ensures pages == old(pages)[..i] + old(pages)[i + 1..] && memory == old(memory) - {page.base}
      ensures before.next == after && after.prev == before
    {
      page.prev.next := page.next;
      page.next.prev := page.prev;
      memory := memory - {page.base};
      pages := pages[..i] + pages[i + 1..];
    }

    /** What freeing does: a page other than the top one goes with its last block; otherwise it only loses the block. */
    twostate predicate Freed(page: Page, was: seq<Page>, i: nat, k: nat)
      requires i < |was| && page == was[i] && k < |old(page.blocks)|
      reads this, was
    {
      var left := Without(old(page.blocks), k);
      && (if left == [] && page != root then pages == was[..i] + was[i + 1..] && page.base !in memory
          else pages == was && page.blocks == left)
      && (forall q :: q in was && q != page ==> q.blocks == old(q.blocks))
    }

    // ----- what the bookkeeping means ----------------------------------------------------------------------

    function Address(p: Page, offset: nat): nat {
      p.base + HEADER + offset
    }

    /** Blocks in use lie inside their page and nowhere overlap. */
    lemma BlocksApart(i: nat, k: nat, j: nat, m: nat)
      requires Valid() && 0 < i < |pages| && 0 < j < |pages| && k < |pages[i].blocks| && m < |pages[j].blocks| &&
               (i, k) != (j, m)
      ensures var b, c := pages[i].blocks[k], pages[j].blocks[m];
        && b.offset + b.size <= pages[i].capacity
        && Apart(Address(pages[i], b.offset), b.size, Address(pages[j], c.offset), c.size)
    {
      assert PageOk(i) && PageOk(j);
      if i < j { assert PlacesOk(i, j); }
      if j < i { assert PlacesOk(j, i); }
    }

    /** Bytes in use and bytes freed make up the bytes carved off; only the top page may be empty, and it has the
        full capacity. */
    lemma Accounts(i: nat)
      requires Valid() && 0 < i < |pages|
      ensures Sum(pages[i].blocks) + pages[i].freedSize == Busy(pages[i]) <= pages[i].capacity
      ensures pages[i].blocks == [] ==> pages[i] == root && busySize == 0
      ensures i == |pages| - 1 ==> pages[i] == root && root.capacity == PAGE_SIZE
    {
      assert PageOk(i);
    }

    // ----- strings -----------------------------------------------------------------------------------------

    /** Carves off a block for a string and its header; the result is the address of the characters. */
    method AllocateString(length: nat, place: nat) returns (address: nat, header: StringHeader, page: Page, offset: nat)
      requires Valid() && FreePlace(place, NewPageSize(FullSize(length)))
      requires |pages| == 1 ==> FullSize(length) <= LARGE
      modifies this, pages
      ensures Valid() && page in pages[1..] && address == Address(page, offset) + STRING_HEADER
      ensures Encodes(header, Block(offset, FullSize(length))) && FullSize(length) >= STRING_HEADER + length
      ensures forall q :: q in old(pages) && q != page ==> q in pages && q.blocks == old(q.blocks)
      ensures page in old(pages) ==> pages == old(pages)
      ensures page in old(pages) ==> page.blocks == old(page.blocks) + [Block(offset, FullSize(length))]
      ensures page !in old(pages) ==>
              fresh(page) && page.base == place && offset == 0 && page.blocks == [Block(0, FullSize(length))]
    {
      var fullSize := FullSize(length);
      page, offset := AllocateMemory(fullSize, place);
      address := Address(page, offset) + STRING_HEADER;
      ghost var i: nat :| 0 < i < |pages| && pages[i] == page;
      ghost var k := |page.blocks| - 1;
      InsideItsPage(i, k);
      header := StringHeader(offset / ALIGNMENT % 65536, if fullSize < MAX_ENCODED then fullSize / ALIGNMENT % 65536
        else 0);
    }

    /** Where a block can lie, and what follows if it is a very large one. */
    lemma InsideItsPage(i: nat, k: nat)
      requires Valid() && 0 < i < |pages| && k < |pages[i].blocks|
      ensures var p, b := pages[i], pages[i].blocks[k];
        && b.offset < PAGE_SIZE && b.offset % ALIGNMENT == 0 && b.size % ALIGNMENT == 0
        && (b.size >= MAX_ENCODED ==> b.offset == 0 && p != root && p.busySize == b.size)
    {
      assert PageOk(i);
      PagesDiffer(i, 0);
    }

    /** Frees a string, given its address: page and size are found from the header in front of it. */
    method DeallocateString(address: nat, header: StringHeader, ghost i: nat, ghost k: nat)
      requires Valid() && 0 < i < |pages| && k < |pages[i].blocks|
      requires Encodes(header, pages[i].blocks[k]) &&
               address == Address(pages[i], pages[i].blocks[k].offset) + STRING_HEADER
      modifies this, pages
      ensures Valid() && root == old(root) && Freed(old(pages)[i], old(pages), i, k)
    {
      InsideItsPage(i, k);
      assert LinkOk(i);
      var page := memory[address - STRING_HEADER - (HEADER + header.pageOffset * ALIGNMENT)];
      var fullSize := if header.fullSize == 0 then page.busySize else header.fullSize * ALIGNMENT;
      DeallocateMemory(fullSize, page, i, k);
    }
  }

  const STRING_HEADER: nat := 4

  datatype StringHeader = StringHeader(pageOffset: nat, fullSize: nat)

  /** What a string of `length` characters takes with its header, rounded up. */
  function FullSize(length: nat): (r: nat)
    ensures STRING_HEADER + length <= r < STRING_HEADER + length + ALIGNMENT && r % ALIGNMENT == 0
  {
    (STRING_HEADER + length + (ALIGNMENT - 1)) / ALIGNMENT * ALIGNMENT
  }

  /** The two 16-bit fields say where the block lies and, unless it is a very large one, how long it is. */
  predicate Encodes(h: StringHeader, b: Block) {
    && h.pageOffset < 65536 && h.fullSize < 65536
    && h.pageOffset * ALIGNMENT == b.offset
    && (if b.size < MAX_ENCODED then h.fullSize > 0 && h.fullSize * ALIGNMENT == b.size else h.fullSize == 0)
  }

  /** Where an element stood before the one at `i` was taken out. */
  function Then(j: nat, i: nat): nat {
    if j < i then j else j + 1
  }

  lemma WithoutPacked(b: seq<Block>, k: nat, busy: nat)
    requires Packed(b, busy) && k < |b|
    ensures Packed(Without(b, k), busy)
  {
    var m := Without(b, k);
    assert forall i: nat {:trigger m[i]} :: i < |m| ==> m[i] == b[Then(i, k)];
  }

  lemma WithoutSum(b: seq<Block>, k: nat, busy: nat)
    requires Packed(b, busy) && k < |b|
    ensures Sum(Without(b, k)) + b[k].size == Sum(b)
    ensures Without(b, k) == [] <==> Sum(b) == b[k].size
  {
    SumWithout(b, k);
    WithoutPacked(b, k, busy);
    var m := Without(b, k);
    if m != [] { assert Sum(m) >= m[|m| - 1].size > 0; }
  }

  /** Where an element stood before another one was inserted at `n`. */
  function Was(i: nat, n: nat): nat
    requires i != n
  {
    if i < n then i else i - 1
  }

  lemma SumOne(b: Block)
    ensures Sum([b]) == b.size
  {
    assert [b][..0] == [];
  }
}
