/**
 * The paged vector store.
 */
module Paged {
  import opened Arith
  import opened ByteStrings
  import opened Wrappers

  // A bounded least-recently-used page cache over a node-ordered file, and the split between a
  // paged base and an in-memory tail. Vectors are their raw bytes.

  /** Target size of one cached page. */
  const PAGE_BYTES: nat := 65536

  /** Bytes copied at a time when streaming. */
  const CHUNK: nat := 1_048_576

  function Max1(n: nat): nat { if n == 0 then 1 else n }

  // ---- least recently used -----------------------------------------------------------

  function Drop(order: seq<nat>, x: nat): seq<nat> {
    if order == [] then []
    else if order[|order| - 1] == x then Drop(order[..|order| - 1], x)
    else Drop(order[..|order| - 1], x) + [order[|order| - 1]]
  }

  /** The recency list after one more access: oldest first, `x` last, at most `cap` long. */
  function Touched(order: seq<nat>, x: nat, cap: nat): seq<nat> {
    if x in order then Drop(order, x) + [x]
    else if |order| >= cap && order != [] then order[1..] + [x]
    else order + [x]
  }

  /** The resident pages after an access history, oldest access first. */
  function Resident(history: seq<nat>, cap: nat): seq<nat> {
    if history == [] then [] else Touched(Resident(history[..|history| - 1], cap), history[|history| - 1], cap)
  }

  /** Every page ever accessed, by last access. */
  function Recency(history: seq<nat>): seq<nat> {
    if history == [] then [] else Drop(Recency(history[..|history| - 1]), history[|history| - 1]) + [history[|history| - 1]]
  }

  function Last(s: seq<nat>, n: nat): seq<nat> {
    if |s| <= n then s else s[|s| - n..]
  }

  ghost predicate Distinct(s: seq<nat>) {
    forall i, j :: 0 <= i < j < |s| ==> s[i] != s[j]
  }

  lemma {:induction false} DropIs(s: seq<nat>, x: nat)
    ensures forall y :: y in Drop(s, x) <==> y in s && y != x
    ensures |Drop(s, x)| <= |s| && (x !in s ==> Drop(s, x) == s)
    ensures Distinct(s) ==> Distinct(Drop(s, x)) && |Drop(s, x)| == |s| - (if x in s then 1 else 0)
  {
    if s != [] {
      var init := s[..|s| - 1];
      DropIs(init, x);
      assert s == init + [s[|s| - 1]];
      assert Distinct(s) ==> Distinct(init) && s[|s| - 1] !in init;
    }
  }

  lemma DistinctParts(a: seq<nat>, b: seq<nat>)
    requires Distinct(a + b)
    ensures Distinct(a) && Distinct(b) && forall x :: x in b ==> x !in a
  {
    var s := a + b;
    forall i, j | 0 <= i < j < |a| ensures a[i] != a[j] {
      assert s[i] != s[j];
    }
    forall i, j | 0 <= i < j < |b| ensures b[i] != b[j] {
      assert s[|a| + i] != s[|a| + j];
    }
    forall i, j | 0 <= i < |a| && 0 <= j < |b| ensures a[i] != b[j] {
      assert s[i] != s[|a| + j];
    }
  }

  lemma {:induction false} DropConcat(a: seq<nat>, b: seq<nat>, x: nat)
    ensures Drop(a + b, x) == Drop(a, x) + Drop(b, x)
  {
    if b == [] {
      assert a + b == a;
    } else {
      assert (a + b)[..|a + b| - 1] == a + b[..|b| - 1];
      DropConcat(a, b[..|b| - 1], x);
    }
  }

  /** An access within the cut leaves the rest of the cut; one from beyond it pushes the oldest out. */
  lemma DropLast(s: seq<nat>, x: nat, n: nat)
    requires Distinct(s) && n > 0
    ensures Last(Drop(s, x) + [x], n)
            == (if x in Last(s, n) then Drop(Last(s, n), x)
                else if |Last(s, n)| >= n then Last(s, n)[1..] else Last(s, n)) + [x]
  {
    hide Drop, Distinct;
    if |s| > n {
      var a, b := s[..|s| - n], s[|s| - n..];
      assert s == a + b;
      DropCut(a, b, x);
    } else {
      DropIs(s, x);
    }
  }

  lemma DropCut(a: seq<nat>, b: seq<nat>, x: nat)
    requires Distinct(a + b) && |b| > 0
    ensures Last(Drop(a + b, x) + [x], |b|) == (if x in b then Drop(b, x) else b[1..]) + [x]
  {
    hide Drop, Distinct;
    DistinctParts(a, b);
    DropConcat(a, b, x);
    DropIs(a, x);
    DropIs(b, x);
    var all := Drop(a, x) + Drop(b, x) + [x];
    assert Last(all, |b|) == all[|all| - |b|..];
  }

  lemma {:induction false} RecencyDistinct(history: seq<nat>)
    ensures Distinct(Recency(history))
  {
    if history != [] {
      RecencyDistinct(history[..|history| - 1]);
      DropIs(Recency(history[..|history| - 1]), history[|history| - 1]);
    }
  }

  /** A cache of `cap` pages always holds exactly the `cap` most recently accessed ones. */
  lemma {:induction false} ResidentIsRecent(history: seq<nat>, cap: nat)
    requires cap > 0
    ensures Resident(history, cap) == Last(Recency(history), cap)
  {
    if history != [] {
      var h, x := history[..|history| - 1], history[|history| - 1];
      ResidentIsRecent(h, cap);
      RecencyDistinct(h);
      DropLast(Recency(h), x, cap);
    }
  }

  lemma {:induction false} DistinctSize(s: seq<nat>, keys: set<nat>)
    requires Distinct(s) && forall x :: x in s <==> x in keys
    ensures |s| == |keys|
    decreases |s|
  {
    if s != [] {
      var init, x := s[..|s| - 1], s[|s| - 1];
      assert s == init + [x];
      DistinctParts(init, [x]);
      DistinctSize(init, keys - {x});
    } else {
      assert keys == {};
    }
  }

  type Pages = map<nat, (Bytes, nat)>

  /** The recency list is in the order of the pages' ticks. */
  ghost predicate Aged(order: seq<nat>, pages: Pages) {
    && (forall i :: 0 <= i < |order| ==> order[i] in pages)
    && (forall i, j :: 0 <= i < j < |order| ==> pages[order[i]].1 < pages[order[j]].1)
  }

  lemma {:induction false} DropAged(order: seq<nat>, pages: Pages, x: nat)
    requires Aged(order, pages)
    ensures Aged(Drop(order, x), pages)
  {
    if order != [] {
      var init, last := order[..|order| - 1], order[|order| - 1];
      assert Aged(init, pages);
      DropAged(init, pages, x);
      DropIs(init, x);
      var kept := Drop(init, x);
      forall i | 0 <= i < |kept| ensures pages[kept[i]].1 < pages[last].1 {
        assert kept[i] in init;
        var j :| 0 <= j < |init| && init[j] == kept[i];
        assert order[j] == kept[i];
      }
    }
  }

  /** The state of a cache: its recency list names the resident pages, ordered by tick. */
  ghost predicate CacheOk(order: seq<nat>, pages: Pages, tick: nat, cap: nat) {
    && cap > 0 && |pages| <= cap
    && Distinct(order) && (forall x :: x in order <==> x in pages)
    && Aged(order, pages)
    && (forall x :: x in pages ==> pages[x].1 <= tick)
  }

  lemma AppendAged(order: seq<nat>, pages: Pages, x: nat, page: Bytes, tick: nat)
    requires Aged(order, pages) && x !in order
    requires forall i :: 0 <= i < |order| ==> pages[order[i]].1 <= tick
    ensures Aged(order + [x], pages[x := (page, tick + 1)])
  {
  }

  /** Giving `x` the newest tick moves it to the end. */
  lemma CacheTouch(order: seq<nat>, pages: Pages, tick: nat, cap: nat, x: nat, page: Bytes)
    requires CacheOk(order, pages, tick, cap) && (x in pages || |pages| < cap)
    ensures CacheOk(Drop(order, x) + [x], pages[x := (page, tick + 1)], tick + 1, cap)
  {
    hide Drop, Aged;
    DropIs(order, x);
    DropAged(order, pages, x);
    var kept := Drop(order, x);
    assert forall i :: 0 <= i < |kept| ==> kept[i] in kept;
    AppendAged(kept, pages, x, page, tick);
    assert pages[x := (page, tick + 1)].Keys == pages.Keys + {x};
    assert Distinct(kept + [x]);
  }

  lemma CacheFacts(order: seq<nat>, pages: Pages, tick: nat, cap: nat)
    requires CacheOk(order, pages, tick, cap)
    ensures cap > 0 && |order| == |pages| <= cap && forall x :: x in order <==> x in pages
  {
    DistinctSize(order, pages.Keys);
  }

  lemma LaterTick(order: seq<nat>, pages: Pages, tick: nat, cap: nat)
    requires tick > 0 && CacheOk(order, pages, tick - 1, cap)
    ensures CacheOk(order, pages, tick, cap)
  {
  }

  lemma TailAged(order: seq<nat>, pages: Pages)
    requires order != [] && Aged(order, pages) && order[0] !in order[1..]
    ensures Aged(order[1..], pages - {order[0]})
  {
    var rest := order[1..];
    forall i | 0 <= i < |rest| ensures rest[i] in pages - {order[0]} {
      assert rest[i] == order[i + 1];
    }
  }

  /** Dropping the oldest page makes room. */
  lemma CacheEvict(order: seq<nat>, pages: Pages, tick: nat, cap: nat)
    requires CacheOk(order, pages, tick, cap) && order != []
    ensures order[0] in pages && CacheOk(order[1..], pages - {order[0]}, tick, cap)
    ensures |pages - {order[0]}| == |pages| - 1
  {
    hide Aged, Distinct;
    var victim, rest := order[0], order[1..];
    assert order == [victim] + rest;
    DistinctParts([victim], rest);
    assert (pages - {victim}).Keys == pages.Keys - {victim};
    TailAged(order, pages);
  }

  /** A bounded least-recently-used cache: eviction scans for the oldest tick. */
  class PageCache {
    const cap: nat
    var tick: nat
    var pages: map<nat, (Bytes, nat)>
    ghost var order: seq<nat> // resident pages, oldest access first

    ghost predicate Valid()
      reads this
    {
      CacheOk(order, pages, tick, cap)
    }

    constructor (cap: nat)
      requires cap > 0
      ensures Valid() && this.cap == cap && pages == map[] && order == []
    {
      this.cap, tick, pages, order := cap, 0, map[], [];
    }

    /** Look a page up, making it the most recent. */
    method Get(idx: nat) returns (res: Option<Bytes>)
      requires Valid()
      modifies this
      ensures Valid()
      ensures res == if idx in old(pages) then Some(old(pages)[idx].0) else None
      ensures pages.Keys == old(pages).Keys && forall x :: x in pages ==> pages[x].0 == old(pages)[x].0
      ensures order == if idx in old(pages) then Drop(old(order), idx) + [idx] else old(order)
    {
      hide CacheOk, Drop, PageOf, Resident;
      if idx !in pages {
        tick := tick + 1;
        LaterTick(order, pages, tick, cap);
        return None;
      }
      CacheTouch(order, pages, tick, cap, idx, pages[idx].0);
      tick := tick + 1;
      res := Some(pages[idx].0);
      assert pages[idx := (pages[idx].0, tick)].Keys == pages.Keys + {idx};
      pages := pages[idx := (pages[idx].0, tick)];
      order := Drop(order, idx) + [idx];
    }

    /** The resident page with the oldest tick. */
    method Victim() returns (victim: nat)
      requires Valid() && pages != map[]
      ensures order != [] && victim == order[0]
    {
      victim :| victim in pages;
      var todo := pages.Keys - {victim};
      while todo != {}
        invariant todo <= pages.Keys && victim in pages
        invariant forall x :: x in pages.Keys - todo ==> pages[victim].1 <= pages[x].1
        decreases |todo|
      {
        var x :| x in todo;
        if pages[x].1 < pages[victim].1 {
          victim := x;
        }
        todo := todo - {x};
      }
      assert victim in order;
      assert order[0] in pages;
    }

    /** Make a page resident, evicting the least recently used one if the cache is full. */
    method Put(idx: nat, page: Bytes)
      requires Valid()
      modifies this
      ensures Valid()
      ensures order == Touched(old(order), idx, cap)
      ensures forall x :: x in pages ==> pages[x].0 == if x == idx then page
                                                       else if x in old(pages) then old(pages)[x].0 else []
      ensures forall x :: x in pages ==> x == idx || x in old(pages)
    {
      hide CacheOk, Distinct, Drop, PageOf, Resident;
      CacheFacts(order, pages, tick, cap);
      if idx !in pages && |pages| >= cap {
        var victim := Victim();
        CacheEvict(order, pages, tick, cap);
        pages := pages - {victim};
        order := order[1..];
      }
      CacheFacts(order, pages, tick, cap);
      DropIs(order, idx);
      CacheTouch(order, pages, tick, cap, idx, page);
      tick := tick + 1;
      pages := pages[idx := (page, tick)];
      order := Drop(order, idx) + [idx];
    }
  }

  // ---- the paged base ----------------------------------------------------------------

  /** Vector `node` of a node-ordered byte string. */
  function Slice(bytes: Bytes, node: nat, width: nat): Bytes
    requires node * width + width <= |bytes|
  {
    bytes[node * width..node * width + width]
  }

  /** Vectors on page `idx`. */
  function OnPage(idx: nat, perPage: nat, total: nat): nat
    requires idx * perPage < total
  {
    Min(total - idx * perPage, perPage)
  }

  /** Byte offset and length of page `idx`, inside the file. */
  lemma PageBounds(idx: nat, perPage: nat, total: nat, width: nat, length: nat)
    requires idx * perPage < total && total * width <= length
    ensures 0 <= idx * perPage * width
    ensures idx * perPage * width + OnPage(idx, perPage, total) * width <= total * width
  {
    var start, n := idx * perPage, OnPage(idx, perPage, total);
    Distribute(start, n, width);
    MulMono(start + n, total, width);
  }

  function PageOf(file: Bytes, idx: nat, perPage: nat, total: nat, width: nat): Bytes
    requires idx * perPage < total && total * width <= |file|
  {
    PageBounds(idx, perPage, total, width, |file|);
    var start := idx * perPage * width;
    file[start..start + OnPage(idx, perPage, total) * width]
  }

  /** The page of a node exists and holds the node's vector at its offset. */
  lemma NodeOnPage(file: Bytes, node: nat, perPage: nat, total: nat, width: nat)
    requires perPage > 0 && node < total && total * width <= |file|
    ensures var idx, within := node / perPage, node % perPage;
            && idx * perPage < total
            && within * width + width <= |PageOf(file, idx, perPage, total, width)|
            && node * width + width <= |file|
            && Slice(PageOf(file, idx, perPage, total, width), within, width) == Slice(file, node, width)
  {
    var idx, within := node / perPage, node % perPage;
    DivMod(node, perPage);
    assert node == idx * perPage + within;
    SlotInRange(node, total, width);
    PageBounds(idx, perPage, total, width, |file|);
    SlotInRange(within, OnPage(idx, perPage, total), width);
    Distribute(idx * perPage, within, width);
    SubSlice(file, idx * perPage * width, OnPage(idx, perPage, total) * width, within * width, width);
  }

  lemma SubSlice(file: Bytes, start: nat, len: nat, off: nat, n: nat)
    requires off + n <= len && start + len <= |file|
    ensures file[start..start + len][off..off + n] == file[start + off..start + off + n]
  {
    var page := file[start..start + len];
    var a, b := page[off..off + n], file[start + off..start + off + n];
    forall k | 0 <= k < n ensures a[k] == b[k] {
      assert a[k] == page[off + k] && page[off + k] == file[start + (off + k)];
    }
    assert a == b;
  }

  /** Vectors per page, so that a page is near its target size. */
  function PerPage(width: nat): (n: nat)
    ensures n > 0
  {
    Max1(PAGE_BYTES / Max1(width))
  }

  /** Pages a byte budget allows, at least one. */
  function CapPages(width: nat, budget: nat): (n: nat)
    ensures n > 0
  {
    Max1(budget / Max1(Times(PerPage(width), width)))
  }

  /** Copy the first `n` bytes out in chunks of at most a megabyte. */
  method CopyChunks(file: Bytes, n: nat, w: Bytes) returns (w': Bytes)
    requires n <= |file|
    ensures w' == w + file[..n]
  {
    w' := w;
    var off: nat := 0;
    while off < n
      invariant off <= n && w' == w + file[..off]
    {
      var m := Min(CHUNK, n - off);
      assert file[..off + m] == file[..off] + file[off..off + m];
      w' := w' + file[off..off + m];
      off := off + m;
    }
  }

  /** A read-through page cache over a node-ordered vector file. */
  class PagedBase {
    const file: Bytes
    const width: nat // bytes per vector
    const perPage: nat
    const total: nat
    const cache: PageCache
    ghost var history: seq<nat> // pages accessed so far

    /** Resident pages equal the file, and are the most recently used ones. */
    ghost predicate Valid()
      reads this, cache
    {
      && perPage > 0 && total * width <= |file|
      && cache.Valid()
      && cache.order == Resident(history, cache.cap)
      && forall idx :: idx in cache.pages ==>
           idx * perPage < total && cache.pages[idx].0 == PageOf(file, idx, perPage, total, width)
    }

    constructor (file: Bytes, width: nat, total: nat, budget: nat)
      requires total * width <= |file|
      ensures Valid() && fresh(cache) && history == []
      ensures this.file == file && this.width == width && this.total == total
      ensures perPage == PerPage(width) && cache.cap == CapPages(width, budget)
    {
      hide Touched, Drop, PageOf, CacheOk, PerPage, CapPages;
      this.file, this.width, this.total, history := file, width, total, [];
      perPage := PerPage(width);
      cache := new PageCache(CapPages(width, budget));
    }

    /** Read a page from the file; the last one may be short. */
    method ReadPage(idx: nat) returns (page: Bytes)
      requires idx * perPage < total && total * width <= |file|
      ensures page == PageOf(file, idx, perPage, total, width)
    {
      PageBounds(idx, perPage, total, width, |file|);
      var start := idx * perPage * width;
      var count := Min(total - idx * perPage, perPage) * width;
      page := file[start..start + count];
    }

    /** Fetch a page through the cache. */
    method Page(idx: nat) returns (page: Bytes)
      requires Valid() && idx * perPage < total
      modifies this, cache
      ensures Valid() && page == PageOf(file, idx, perPage, total, width)
      ensures history == old(history) + [idx]
    {
      hide CacheOk, Drop, PageOf;
      assert Resident(history + [idx], cache.cap) == Touched(cache.order, idx, cache.cap) by {
        assert (history + [idx])[..|history|] == history;
      }
      CacheFacts(cache.order, cache.pages, cache.tick, cache.cap);
      var hit := cache.Get(idx);
      if hit.Some? {
        assert cache.order == Touched(old(cache.order), idx, cache.cap);
        history := history + [idx];
        return hit.value;
      }
      page := ReadPage(idx);
      cache.Put(idx, page);
      history := history + [idx];
    }

    /** Node `node`'s vector, whatever pages are resident. */
    method With(node: nat) returns (v: Bytes)
      requires Valid() && node < total
      modifies this, cache
      ensures Valid() && node * width + width <= |file| && v == Slice(file, node, width)
    {
      hide CacheOk, MappedVec.Contents, PageOf, Resident, Slice;
      assert perPage > 0 && total * width <= |file|;
      NodeOnPage(file, node, perPage, total, width);
      var page := Page(node / perPage);
      v := Slice(page, node % perPage, width);
    }

    /** Copy the base out in chunks of at most a megabyte. */
    method StreamTo(w: Bytes) returns (w': Bytes)
      requires Valid()
      ensures w' == w + file[..total * width]
    {
      hide PageOf, CacheOk, Resident;
      w' := CopyChunks(file, Times(total, width), w);
    }
  }

  lemma SliceOfBase(file: Bytes, tail: Bytes, node: nat, total: nat, width: nat)
    requires node < total && total * width <= |file|
    requires node * width + width <= |file[..total * width] + tail|
    ensures node * width + width <= |file|
    ensures Slice(file, node, width) == Slice(file[..total * width] + tail, node, width)
  {
    SlotInRange(node, total, width);
  }

  lemma SliceOfTail(base: Bytes, tail: Bytes, node: nat, count: nat, width: nat)
    requires count <= node && |base| == count * width && node * width + width <= |base + tail|
    ensures (node - count) * width + width <= |tail|
    ensures Slice(tail, node - count, width) == Slice(base + tail, node, width)
  {
    Distribute(node - count, count, width);
  }

  // ---- base and tail ------------------------------------------------------------------

  /** Node-ordered storage: a paged base, if there is one, and the tail appended since. */
  class MappedVec {
    var base: PagedBase?
    var baseLen: nat
    var tail: Bytes

    ghost predicate Valid()
      reads this, base, if base != null then {base.cache} else {}
    {
      if base == null then baseLen == 0
      else base.Valid() && base.width > 0 && baseLen == base.total * base.width
    }

    /** The flat array the store stands for. */
    ghost function Contents(): Bytes
      requires Valid()
      reads this, base, if base != null then {base.cache} else {}
    {
      if base == null then tail else base.file[..baseLen] + tail
    }

    constructor InRam()
      ensures Valid() && Contents() == []
    {
      base, baseLen, tail := null, 0, [];
    }

    constructor Mapped(file: PagedBase)
      requires file.Valid() && file.width > 0
      ensures Valid() && base == file && Contents() == file.file[..file.total * file.width]
    {
      base, baseLen, tail := file, Times(file.total, file.width), [];
    }

    /** Append one node's vector, always to the tail. */
    method Push(block: Bytes)
      requires Valid()
      modifies this`tail
      ensures Valid() && Contents() == old(Contents()) + block
    {
      tail := tail + block;
    }

    /** Node `node`'s vector of the flat array. */
    method With(node: nat, width: nat) returns (v: Bytes)
      requires Valid() && node * width + width <= |Contents()|
      requires base != null ==> base.width == width
      modifies base, if base != null then {base.cache} else {}
      ensures Valid() && Contents() == old(Contents())
      ensures v == Slice(old(Contents()), node, width)
    {
      hide CacheOk, Resident, PageOf;
      if base == null {
        return Slice(tail, node, width);
      }
      QuotientOfProduct(base.total, width);
      var baseCount := baseLen / width;
      if node < baseCount {
        SliceOfBase(base.file, tail, node, base.total, width);
        v := base.With(node);
      } else {
        SliceOfTail(base.file[..baseLen], tail, node, baseCount, width);
        v := Slice(tail, node - baseCount, width);
      }
    }

    /** `write_all`: base then tail, from the file in one read. */
    method WriteAll(out: Bytes) returns (out': Bytes)
      requires Valid()
      ensures out' == out + Contents()
    {
      out' := out;
      if base != null {
        out' := out' + base.file[..baseLen];
      }
      out' := out' + tail;
    }

    /** `stream_to`: the same bytes, never materializing the base. */
    method StreamTo(w: Bytes) returns (w': Bytes)
      requires Valid()
      ensures w' == w + Contents()
    {
      w' := w;
      if base != null {
        w' := base.StreamTo(w');
      }
      w' := w' + tail;
    }

    /** Whether a fresh sidecar is needed; when not, the file already holds every vector. */
    method NeedsFlush() returns (needed: bool)
      requires Valid()
      ensures needed <==> base == null || tail != []
      ensures !needed ==> base != null && base.file[..baseLen] == Contents()
    {
      needed := base == null || tail != [];
    }
  }

  /** Any sequence of reads, whatever the cache budget, answers from the flat array. */
  method Replay(v: MappedVec, nodes: seq<nat>, width: nat) returns (out: seq<Bytes>)
    requires v.Valid() && (v.base != null ==> v.base.width == width)
    requires forall i :: 0 <= i < |nodes| ==> nodes[i] * width + width <= |v.Contents()|
    modifies v.base, if v.base != null then {v.base.cache} else {}
    ensures v.Valid() && v.Contents() == old(v.Contents())
    ensures |out| == |nodes| && forall i :: 0 <= i < |nodes| ==> out[i] == Slice(v.Contents(), nodes[i], width)
  {
    hide *;
    out := [];
    for i := 0 to |nodes|
      invariant v.Valid() && v.Contents() == old(v.Contents())
      invariant |out| == i && forall j :: 0 <= j < i ==> out[j] == Slice(v.Contents(), nodes[j], width)
    {
      var s := v.With(nodes[i], width);
      out := out + [s];
    }
  }
}
