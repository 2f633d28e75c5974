/** Slabs as the kernel links them: page records chained through `next`, on a bump allocator. */
module Slabs {
  import opened Arith
  import SlabList

  const PAGE_RECORD: nat := 16    // sizeof(struct malloc_page)
  const HEADER: nat := 32         // sizeof(struct malloc_header)
  const SLAB_RECORD: nat := 40    // sizeof(struct malloc_slab)
  const HEAP_END: nat := KERNEL_HEAP_LOW + HEAP_PAGES * PAGE

  /** Running out of heap is a kernel panic: the call does not return. */
  datatype Outcome<+T> = Panic | Done(value: T)
  {
    predicate IsFailure() { Panic? }
    function PropagateFailure<U>(): Outcome<U>
      requires Panic?
    {
      Panic
    }
    function Extract(): T
      requires Done?
    {
      value
    }
  }

  /** One allocatable block: its record at `addr`, then at `base` a header and `cap` bytes. */
  class MallocPage {
    var next: MallocPage?
    const addr: nat
    const base: nat
    ghost const cap: nat

    constructor (addr: nat, base: nat, ghost cap: nat)
      ensures this.addr == addr && this.base == base && this.cap == cap && next == null
    {
      this.addr := addr;
      this.base := base;
      this.cap := cap;
      next := null;
    }

    ghost function End(): nat {
      base + HEADER + cap
    }
  }

  /** What a pop writes in front of the payload (its magic number is implied). */
  datatype Header = Header(trueSize: nat, slab: Slab, page: MallocPage)

  ghost predicate Apart(p: MallocPage, q: MallocPage) {
    p.End() <= q.addr || q.End() <= p.addr
  }

  /** The blocks lie in [lo, hi), each behind its own record, no two overlapping. */
  ghost predicate Placed(pages: set<MallocPage>, lo: nat, hi: nat) {
    && (forall p :: p in pages ==> lo <= p.addr && p.base == p.addr + PAGE_RECORD && p.End() <= hi)
    && (forall p, q {:trigger Apart(p, q)} :: p in pages && q in pages && p != q ==> Apart(p, q))
  }

  lemma PlacedUnion(a: set<MallocPage>, lo: nat, mid: nat, b: set<MallocPage>, hi: nat)
    requires lo <= mid <= hi && Placed(a, lo, mid) && Placed(b, mid, hi)
    ensures Placed(a + b, lo, hi)
  {
    forall p, q | p in a + b && q in a + b && p != q
      ensures Apart(p, q)
    {
      assert p in a && q in a ==> Apart(p, q);
      assert p in b && q in b ==> Apart(p, q);
    }
  }

  ghost function Set(pages: seq<MallocPage>): set<MallocPage> {
    set p | p in pages
  }

  lemma PlacedSnoc(batch: seq<MallocPage>, lo: nat, mid: nat, p: MallocPage, hi: nat)
    requires lo <= mid <= hi && Placed(Set(batch), lo, mid) && Placed({p}, mid, hi)
    ensures Placed(Set(batch + [p]), lo, hi)
  {
    PlacedUnion(Set(batch), lo, mid, {p}, hi);
    assert Set(batch + [p]) == Set(batch) + {p};
  }

  /** The heap bytes of `n` pages with their records and headers. */
  function PagesTake(n: nat, size: nat): nat {
    n * (16 + 32 + size)
  }

  lemma OnePageMore(i: nat, n: nat, size: nat)
    requires i < n
    ensures PagesTake(i + 1, size) == PagesTake(i, size) + 16 + 32 + size <= PagesTake(n, size)
  {
    ScaleGrows(i + 1, n, 16 + 32 + size);
  }

  lemma TwelvePages(size: nat)
    ensures PagesTake(SlabList.BATCH, size) == 12 * (16 + 32 + size)
  {
  }

  lemma PlacedWidens(a: set<MallocPage>, lo: nat, hi: nat, low: nat)
    requires Placed(a, lo, hi) && low <= lo
    ensures Placed(a, low, hi)
  {
  }

  lemma NoPages(size: nat, at: nat)
    ensures PagesTake(0, size) == 0 && Placed(Set([]), at, at)
  {
  }

  /** mmu_alloc's watermark, and the headers in front of the blocks. */
  class Heap {
    var ap: nat
    var headers: map<nat, Header>

    constructor ()
      ensures ap == KERNEL_HEAP_LOW && headers == map[]
    {
      ap, headers := KERNEL_HEAP_LOW, map[];
    }

    method Alloc(n: nat) returns (r: Outcome<nat>)
      modifies this`ap
      ensures if old(ap) + n < HEAP_END then r == Done(old(ap)) && ap == old(ap) + n else r == Panic && ap == old(ap)
    {
      if ap + n < HEAP_END {
        ap := ap + n;
        return Done(ap - n);
      }
      return Panic;
    }

    /** A page record and the block behind it. */
    method NewPage(size: nat) returns (r: Outcome<MallocPage>)
      modifies this`ap
      ensures r.Done? <==> old(ap) + 16 + 32 + size < HEAP_END
      ensures r.Done? ==> ap == old(ap) + 16 + 32 + size
      ensures r.Done? ==> fresh(r.value) && r.value.cap == size && r.value.next == null
      ensures r.Done? ==> Placed({r.value}, old(ap), ap)
    {
      var addr :- Alloc(PAGE_RECORD);
      var base :- Alloc(size + HEADER);
      var p := new MallocPage(addr, base, size);
      return Done(p);
    }
  }

  class Slab {
    var pages: MallocPage
    var realloc: bool
    var length: nat
    var size: nat

    ghost var list: seq<MallocPage>    // the pages linked after the head
    ghost var issued: set<MallocPage>  // every page a pop has returned
    ghost var spare: nat               // pages at the front of the list never returned
    ghost var repr: set<MallocPage>    // every page made for this slab
    ghost var pops: nat                // how many pages pops have returned
    ghost var grown: bool              // whether it was ever resized

    ghost function State(): SlabList.State<MallocPage>
      reads this
    {
      SlabList.State(list, length, size, realloc)
    }

    ghost predicate Linked()
      reads this, repr
    {
      && pages in repr && pages !in list && (forall p :: p in list ==> p in repr)
      && SlabList.NoDup(list)
      && pages.next == Front(list) && Chained(list)
    }

    ghost predicate Sound()
      reads this, repr
    {
      && Linked() && pages !in issued && issued <= repr
      && SlabList.Inv(State(), issued, spare)
      && SlabList.Sized(State(), spare, Cap)
      // a slab whose counter is one ahead was never refilled or resized
      && (length != spare && !realloc ==> forall p :: p in repr ==> p.cap == size)
      && Tracked()
    }

    /** Until the thirteenth pop or a resize the counter is one ahead of the spare pages. */
    ghost predicate Tracked()
      reads this
    {
      if grown || pops > SlabList.BATCH then realloc || length == spare
      else !realloc && length == SlabList.BATCH + 1 - pops && spare == SlabList.BATCH - pops
    }

    /** Between calls the counter of a slab never resized follows from the number of its pops. */
    ghost predicate Valid()
      reads this, repr
    {
      Sound() && (grown || (!realloc && length == SlabList.Credit(pops)))
    }

    /** With a page made available for the next pop. */
    ghost predicate Ready()
      reads this, repr
    {
      && Sound() && !SlabList.Refills(State())
      && (grown || length == if SlabList.Credit(pops) == 0 then SlabList.BATCH else SlabList.Credit(pops))
    }

    constructor Init(size: nat, head: MallocPage)
      requires head.next == null
      ensures Linked() && this.size == size && pages == head && length == 1 && !realloc
      ensures list == [] && issued == {} && repr == {head} && pops == 0 && !grown
    {
      this.size, pages, length, realloc := size, head, 1, false;
      list, issued, spare, repr := [], {}, 0, {head};
      pops, grown := 0, false;
    }

    /** slab_create. */
    static method Create(heap: Heap, size: nat) returns (r: Outcome<Slab>)
      modifies heap`ap
      ensures r.Done? <==> old(heap.ap) + 40 + 13 * (16 + 32 + size) < HEAP_END
      ensures r.Done? ==> heap.ap == old(heap.ap) + 40 + 13 * (16 + 32 + size)
      ensures r.Done? ==> var s := r.value;
              && fresh(s) && fresh(s.repr) && s.Valid() && Placed(s.repr, old(heap.ap), heap.ap)
              && s.State() == SlabList.Created(s.list, size) && |s.list| == SlabList.BATCH
              && s.issued == {} && s.pops == 0 && !s.grown && s.size == size && !s.realloc
              && forall p :: p in s.repr ==> p.cap == size
    {
      hide Placed, PagesTake;
      TwelvePages(size);
      var _ :- heap.Alloc(SLAB_RECORD);
      ghost var mark := heap.ap;
      var head :- heap.NewPage(size);
      ghost var mid := heap.ap;
      var s := new Slab.Init(size, head);
      var _ :- s.AppendPages(heap, SlabList.BATCH);
      s.spare := SlabList.BATCH;
      PlacedUnion({head}, mark, mid, Set(s.list), heap.ap);
      PlacedWidens({head} + Set(s.list), mark, heap.ap, old(heap.ap));
      assert s.repr == {head} + Set(s.list);
      return Done(s);
    }

    /** slab_append_pages_to_page on the head page: the new pages replace whatever followed it. */
    method AppendPages(heap: Heap, n: nat) returns (r: Outcome<()>)
      requires Linked() && n > 0
      modifies this`length, this`list, this`repr, pages, heap`ap
      ensures r.Done? <==> old(heap.ap) + PagesTake(n, size) < HEAP_END
      ensures r.Done? ==> heap.ap == old(heap.ap) + PagesTake(n, size)
      ensures r.Done? ==> Linked() && |list| == n && length == old(length) + n
      ensures r.Done? ==> repr == old(repr) + Set(list) && fresh(Set(list))
      ensures r.Done? ==> forall p :: p in list ==> p.cap == size
      ensures r.Done? ==> Placed(Set(list), old(heap.ap), heap.ap)
    {
      hide PagesTake, Placed;
      NoPages(size, heap.ap);
      var page := pages;
      ghost var batch: seq<MallocPage> := [];
      for i := 0 to n
        invariant |batch| == i && heap.ap == old(heap.ap) + PagesTake(i, size)
        invariant i > 0 ==> heap.ap < HEAP_END
        invariant page in {pages} + Set(batch)
        invariant page == (if i == 0 then pages else batch[i - 1]) && length == old(length) && repr == old(repr)
        invariant forall p :: p in batch ==> fresh(p) && p.cap == size
        invariant SlabList.NoDup(batch)
        invariant i > 0 ==> pages.next == batch[0] && Chained(batch)
        invariant Placed(Set(batch), old(heap.ap), heap.ap)
      {
        ghost var mark := heap.ap;
        OnePageMore(i, n, size);
        var p :- heap.NewPage(size);
        page.next := p;
        p.next := null;
        page := page.next;
        PlacedSnoc(batch, old(heap.ap), mark, p, heap.ap);
        batch := batch + [p];
      }
      length := length + n;
      list := batch;
      repr := repr + Set(batch);
      return Done(());
    }

    /** The page in front of `page`: slab_remove_page's walk. */
    method Before(page: MallocPage) returns (it: MallocPage)
      requires Linked() && page in list && page.next != null
      ensures var j := SlabList.IndexOf(list, page); it == if j == 0 then pages else list[j - 1]
    {
      ghost var j := SlabList.IndexOf(list, page);
      it := pages;
      ghost var k := 0;
      while it.next != page
        invariant 0 <= k <= j && it.next == list[k]
        invariant it == if k == 0 then pages else list[k - 1]
        decreases j - k
      {
        it := it.next;
        k := k + 1;
      }
    }

    /** Unlinks a page, unless it is the last one. */
    method RemovePage(page: MallocPage)
      requires Linked() && page in list
      modifies this`list, repr
      ensures Linked() && list == SlabList.Unlink(old(list), SlabList.IndexOf(old(list), page))
      ensures page.next == old(page.next)
    {
      ghost var j := SlabList.IndexOf(list, page);
      LastHasNoNext(j);
      if page.next != null {
        var it := Before(page);
        Bypass(it, page, j);
      }
    }

    lemma LastHasNoNext(j: nat)
      requires Linked() && j < |list|
      ensures list[j].next == if j + 1 < |list| then list[j + 1] else null
    {
    }

    /** Linking what follows `page` behind what comes before it. */
    method Bypass(it: MallocPage, page: MallocPage, ghost j: nat)
      requires Linked() && j + 1 < |list| && page == list[j] && it == if j == 0 then pages else list[j - 1]
      modifies this`list, it`next
      ensures Linked() && list == SlabList.Unlink(old(list), j) && page.next == old(page.next)
    {
      ghost var was := list;
      SlabList.UnlinkFacts(list, j);
      it.next := page.next;
      list := was[..j] + was[j + 1..];
      forall i | 0 <= i < |list|
        ensures list[i].next == if i + 1 < |list| then list[i + 1] else null
      {
        ghost var from := if i < j then i else i + 1;
        assert list[i] == was[from];
        assert old(was[from].next) == if from + 1 < |was| then was[from + 1] else null;
      }
    }

    /** The last page: slab_push_page's walk. */
    method Last() returns (it: MallocPage)
      requires Linked()
      ensures it == if list == [] then pages else list[|list| - 1]
    {
      it := pages;
      ghost var k := 0;
      while it.next != null
        invariant 0 <= k <= |list| && it == if k == 0 then pages else list[k - 1]
        decreases |list| - k
      {
        it := it.next;
        k := k + 1;
      }
    }

    /** Links a page behind the last one. */
    method PushPage(page: MallocPage)
      requires Linked() && page in repr && page != pages
      modifies this`list, repr
      ensures Linked() && list == SlabList.Push(old(list), page)
    {
      SlabList.PushFacts(list, page);
      var it := Last();
      it.next := page;
      page.next := null;
      list := SlabList.Push(list, page);
    }

    /** The "remove & free all pages" loop of a resize: the last page stays linked. */
    method DropPages()
      requires Linked() && list != []
      modifies this`list, repr
      ensures Linked() && |list| == 1
    {
      var page: MallocPage? := pages.next;
      while page != null
        invariant Linked() && list != []
        invariant if page == null then |list| == 1 else page == list[0]
        decreases |list| + if page == null then 0 else 1
      {
        assert list[0].next == if |list| > 1 then list[1] else null;
        RemovePage(page);
        page := page.next;
      }
    }

    /** Unlinks the first page. */
    method RemoveFirst(page: MallocPage)
      requires Linked() && list != [] && page == list[0]
      modifies this`list, repr
      ensures Linked() && list == SlabList.Unlink(old(list), 0)
    {
      assert SlabList.IndexOf(list, page) == 0;
      RemovePage(page);
    }

    lemma FirstPage()
      requires Ready()
      ensures list != [] && pages.next == list[0] && list[0] in repr && list[0] != pages && spare <= length
    {
    }

    /** Takes the first linked page and writes its header. */
    method TakePage(heap: Heap) returns (page: MallocPage)
      requires Ready()
      modifies this`length, this`list, this`issued, this`spare, this`pops, repr, heap`headers
      ensures Valid() && page in repr && page != pages && page.cap == size
      ensures State() == SlabList.PopOf(old(State()), []).0 && page == SlabList.PopOf(old(State()), []).1
      ensures page !in old(issued) <==> old(spare) > 0
      ensures pops == old(pops) + 1
      ensures issued == old(issued) + {page} && spare == SlabList.SpareAfterPop(old(State()), old(spare))
      ensures heap.headers == old(heap.headers)[page.base := Header(size + HEADER, this, page)]
    {
      hide SlabList.Credit, SlabList.Inv, SlabList.Sized, SlabList.NoDup, Valid;
      FirstPage();
      page := pages.next;
      heap.headers := heap.headers[page.base := Header(size + HEADER, this, page)];
      Detach(page);
    }

    method Detach(page: MallocPage)
      requires Ready() && list != [] && page == list[0]
      modifies this`length, this`list, this`issued, this`spare, this`pops, repr
      ensures Valid() && page.cap == size
      ensures State() == SlabList.PopOf(old(State()), []).0 && page == SlabList.PopOf(old(State()), []).1
      ensures page !in old(issued) <==> old(spare) > 0
      ensures pops == old(pops) + 1
      ensures issued == old(issued) + {page} && spare == SlabList.SpareAfterPop(old(State()), old(spare))
    {
      hide SlabList.Credit, SlabList.Inv, SlabList.Sized, SlabList.NoDup;
      FirstPage();
      SlabList.TakeKeeps(State(), issued, spare, Cap);
      SlabList.CreditStep(pops);
      spare := SlabList.SpareAfterPop(State(), spare);
      RemoveFirst(page);
      length := length - 1;
      issued := issued + {page};
      pops := pops + 1;
    }

    /** The part of slab_pop_page that makes a page available; `batch` is what a refill made. */
    method Prepare(heap: Heap) returns (r: Outcome<()>, ghost batch: seq<MallocPage>)
      requires Valid()
      modifies this`realloc, this`length, this`list, this`spare, this`repr, repr, heap`ap
      ensures r.Done? <==> !old(realloc || length == 0) || old(heap.ap) + 12 * (16 + 32 + size) < HEAP_END
      ensures r.Done? ==> heap.ap == old(heap.ap) + if old(realloc || length == 0) then 12 * (16 + 32 + size) else 0
      ensures r.Done? ==> Ready()
      ensures r.Done? ==> Placed(Set(batch), old(heap.ap), heap.ap) && fresh(Set(batch))
      ensures r.Done? ==> repr == old(repr) + Set(batch)
      ensures r.Done? ==>
                if old(realloc || length == 0) then
                  |batch| == SlabList.BATCH && State() == SlabList.State(batch, SlabList.BATCH, size, false)
                        && spare == SlabList.BATCH
                else batch == [] && State() == old(State()) && spare == old(spare)
    {
      batch := [];
      if realloc {
        DropPages();
        realloc := false;
        length := 0;
      }
      if length == 0 {
        var _ :- AppendPages(heap, SlabList.BATCH);
        batch := list;
        spare := SlabList.BATCH;
        assert forall p :: p in list ==> fresh(p);
      }
      return Done(()), batch;
    }

    /** slab_pop_page; its call of itself after a refill is the second half here. */
    method PopPage(heap: Heap) returns (r: Outcome<MallocPage>, ghost batch: seq<MallocPage>)
      requires Valid()
      modifies this`realloc, this`length, this`list, this`issued, this`spare, this`repr, this`pops, repr, heap
      ensures r.Done? <==> !old(realloc || length == 0) || old(heap.ap) + 12 * (16 + 32 + size) < HEAP_END
      ensures r.Done? ==> heap.ap == old(heap.ap) + if old(realloc || length == 0) then 12 * (16 + 32 + size) else 0
      ensures r.Done? ==> Valid() && !realloc && r.value in repr && r.value != pages && r.value.cap == size
      ensures r.Done? ==> if SlabList.Refills(old(State())) then batch != [] else batch == []
      ensures r.Done? ==> State() == SlabList.PopOf(old(State()), batch).0
      ensures r.Done? ==> r.value == SlabList.PopOf(old(State()), batch).1
      ensures r.Done? ==> (r.value !in old(issued) <==> old(grown || pops != SlabList.BATCH)) && pops == old(pops) + 1
      ensures r.Done? ==> issued == old(issued) + {r.value} && spare == SlabList.SpareAfterPop(old(State()), old(spare))
      ensures r.Done? ==> repr == old(repr) + Set(batch) && fresh(Set(batch))
      ensures r.Done? ==> Placed(Set(batch), old(heap.ap), heap.ap)
      ensures r.Done? ==> heap.headers == old(heap.headers)[r.value.base := Header(size + HEADER, this, r.value)]
    {
      var prepared;
      prepared, batch := Prepare(heap);
      if prepared.Panic? {
        return Panic, batch;
      }
      var page := TakePage(heap);
      r := Done(page);
    }

    /** pool_realloc's request for larger pages. */
    method Grow(size: nat)
      requires Valid()
      modifies this`size, this`realloc, this`grown
      ensures grown && Valid() && State() == SlabList.GrowOf(old(State()), size)
    {
      this.size := size;
      realloc := true;
      grown := true;
    }

    /** slab_free's half that touches the slab. */
    method FreePage(page: MallocPage)
      requires Valid() && page in issued
      modifies this`list, repr
      ensures Valid() && State() == SlabList.FreeOf(old(State()), page)
      ensures list != [] && list[|list| - 1] == page
    {
      SlabList.FreedIsLast(State(), page);
      SlabList.FreeKeeps(State(), issued, spare, page, Cap);
      PushPage(page);
    }
  }

  ghost function Cap(p: MallocPage): nat {
    p.cap
  }

  ghost function Front(list: seq<MallocPage>): MallocPage? {
    if list == [] then null else list[0]
  }

  /** Each page of the chain points at the next one, the last at null. */
  ghost predicate Chained(chain: seq<MallocPage>)
    reads chain
  {
    forall i {:trigger chain[i].next} :: 0 <= i < |chain| ==>
      chain[i].next == if i + 1 < |chain| then chain[i + 1] else null
  }
}
