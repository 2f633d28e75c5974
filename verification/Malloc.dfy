/** kmalloc, krealloc, kfree and the object pools, over all slabs of the kernel heap. */
module Malloc {
  import opened Arith
  import opened Slabs
  import SlabList

  const KMALLOC_SLABS: nat := 5
  const SEARCHED: nat := 4  // kmalloc searches all its slabs but the last
  const LARGEST: nat := 512

  /** `64 * exp(i)` */
  function ClassSize(i: nat): nat
    requires i < KMALLOC_SLABS
  {
    [64, 128, 256, 512, 1024][i]
  }

  /** The heap bytes of the first `i` classes. */
  function ClassesTake(i: nat): nat
    requires i <= KMALLOC_SLABS
  {
    [0, 1496, 3824, 7816, 15136, 29112][i]
  }

  lemma OneClassMore(i: nat)
    requires i < KMALLOC_SLABS
    ensures ClassesTake(i + 1) == ClassesTake(i) + 40 + 13 * (16 + 32 + ClassSize(i))
    ensures ClassesTake(i + 1) <= ClassesTake(KMALLOC_SLABS) == 29112
  {
  }

  lemma NoClasses()
    ensures ClassesTake(0) == 0 && ClassesTake(KMALLOC_SLABS) == 29112
  {
  }

  /** The sizes of the classes that are searched. */
  function Searched(): (s: seq<nat>)
    ensures |s| == SEARCHED && forall i :: 0 <= i < SEARCHED ==> s[i] == ClassSize(i)
  {
    [64, 128, 256, 512]
  }

  /** The class a request of `n` bytes is served from. */
  function Best(sizes: seq<nat>, n: nat): (r: Option<nat>)
    ensures r.Some? ==> r.value < |sizes| && sizes[r.value] >= n
    ensures r.Some? ==> forall k :: 0 <= k < |sizes| && sizes[k] >= n ==> sizes[r.value] <= sizes[k]
    ensures r.None? ==> forall k :: 0 <= k < |sizes| ==> sizes[k] < n
  {
    if sizes == [] then None
    else
      var last := |sizes| - 1;
      var before := Best(sizes[..last], n);
      if sizes[last] >= n && (before.None? || sizes[last] < sizes[before.value]) then Some(last) else before
  }

  lemma BestOfNone(sizes: seq<nat>, n: nat)
    ensures Best(sizes[..0], n) == None
  {
  }

  lemma BestStep(sizes: seq<nat>, n: nat, i: nat)
    requires i < |sizes|
    ensures Best(sizes[..i + 1], n) ==
            var before := Best(sizes[..i], n);
            if sizes[i] >= n && (before.None? || sizes[i] < sizes[before.value]) then Some(i) else before
  {
    assert sizes[..i + 1][..i] == sizes[..i];
  }

  /** The searched sizes, and which of them a request gets. */
  lemma BestInNumbers(n: nat)
    requires n <= LARGEST
    ensures Best(Searched(), n) == Some(if n <= 64 then 0 else if n <= 128 then 1 else if n <= 256 then 2 else 3)
  {
    var s := Searched();
    var best := Best(s, n);
    hide Best;
    assert s == [64, 128, 256, 512] && s[3] >= n;
    var i := if n <= 64 then 0 else if n <= 128 then 1 else if n <= 256 then 2 else 3;
    assert s[i] >= n && s[best.value] <= s[i];
  }

  /** A pointer handed out for a page: right behind its header. */
  ghost function Payload(p: MallocPage): nat {
    p.base + HEADER
  }

  /** Byte ranges [a, a+m) and [b, b+n) do not meet. */
  ghost predicate Disjoint(a: nat, m: nat, b: nat, n: nat) {
    a + m <= b || b + n <= a
  }

  /** A payload meets no other payload, no header and no page record, its own included. */
  lemma PayloadsAreDisjoint(blocks: set<MallocPage>, lo: nat, hi: nat, p: MallocPage, q: MallocPage)
    requires Placed(blocks, lo, hi) && p in blocks && q in blocks
    ensures p != q ==> Disjoint(Payload(p), p.cap, Payload(q), q.cap)
    ensures Disjoint(Payload(p), p.cap, q.base, HEADER)
    ensures Disjoint(Payload(p), p.cap, q.addr, PAGE_RECORD)
    ensures lo <= q.addr && Payload(p) + p.cap <= hi
  {
    if p != q {
      assert Apart(p, q);
    }
  }

  lemma HeapEnd()
    ensures HEAP_END == KERNEL_HEAP_LOW + 40960000
  {
  }

  // ----- what was given out -----

  /** A page handed out by a slab, resized before or not. */
  datatype Gift = Gift(page: MallocPage, slab: Slab, resized: bool)

  ghost function PopsOf(given: seq<Gift>, s: Slab): (n: nat)
  {
    if given == [] then 0
    else
      var last := |given| - 1;
      PopsOf(given[..last], s) + if given[last].slab == s then 1 else 0
  }

  ghost function PagesOf(given: seq<Gift>, s: Slab): set<MallocPage> {
    set i | 0 <= i < |given| && given[i].slab == s :: given[i].page
  }

  ghost predicate Repeats(given: seq<Gift>, j: nat)
    requires j < |given|
  {
    exists i :: 0 <= i < j && given[i].page == given[j].page
  }

  /** The gift is its slab's thirteenth, and the slab was not resized before. */
  ghost predicate IsThirteenth(given: seq<Gift>, j: nat)
    requires j < |given|
  {
    PopsOf(given[..j], given[j].slab) == SlabList.BATCH && !given[j].resized
  }

  /** A page is given out again exactly with the thirteenth gift of its slab. */
  ghost predicate OnlyThirteenths(given: seq<Gift>) {
    forall j :: 0 <= j < |given| ==> (Repeats(given, j) <==> IsThirteenth(given, j))
  }

  lemma NextGift(given: seq<Gift>, g: Gift)
    requires OnlyThirteenths(given)
    requires (exists i :: 0 <= i < |given| && given[i].page == g.page) <==>
             PopsOf(given, g.slab) == SlabList.BATCH && !g.resized
    ensures OnlyThirteenths(given + [g])
  {
    hide PopsOf;
    var all := given + [g];
    forall j | 0 <= j < |all|
      ensures Repeats(all, j) <==> IsThirteenth(all, j)
    {
      if j < |given| {
        EarlierGift(given, g, j);
      } else {
        LastGift(given, g);
      }
    }
  }

  lemma EarlierGift(given: seq<Gift>, g: Gift, j: nat)
    requires j < |given|
    ensures Repeats(given + [g], j) <==> Repeats(given, j)
    ensures IsThirteenth(given + [g], j) <==> IsThirteenth(given, j)
  {
    hide PopsOf;
    var all := given + [g];
    assert all[..j] == given[..j] && forall i :: 0 <= i <= j ==> all[i] == given[i];
  }

  lemma LastGift(given: seq<Gift>, g: Gift)
    ensures Repeats(given + [g], |given|) <==> exists i :: 0 <= i < |given| && given[i].page == g.page
    ensures IsThirteenth(given + [g], |given|) <==> PopsOf(given, g.slab) == SlabList.BATCH && !g.resized
  {
    hide PopsOf;
    var all := given + [g];
    assert all[..|given|] == given && forall i :: 0 <= i < |given| ==> all[i] == given[i];
  }

  lemma GiftCounts(given: seq<Gift>, g: Gift, s: Slab)
    ensures PopsOf(given + [g], s) == PopsOf(given, s) + if s == g.slab then 1 else 0
    ensures PagesOf(given + [g], s) == PagesOf(given, s) + if s == g.slab then {g.page} else {}
  {
    var all := given + [g];
    assert all[..|given|] == given && forall i :: 0 <= i < |given| ==> all[i] == given[i];
    assert all[|given|] == g;
  }

  lemma {:induction false} NothingFrom(given: seq<Gift>, s: Slab)
    requires forall i :: 0 <= i < |given| ==> given[i].slab != s
    ensures PopsOf(given, s) == 0 && PagesOf(given, s) == {}
  {
    if given != [] {
      NothingFrom(given[..|given| - 1], s);
    }
  }

  /** The headers after a gift was made. */
  ghost function Headed(headers: map<nat, Header>, gifts: seq<Gift>): map<nat, Header> {
    if gifts == [] then headers
    else
      var g := gifts[0];
      headers[g.page.base := Header(g.page.cap + 32, g.slab, g.page)]
  }

  lemma HeadedByOne(headers: map<nat, Header>, g: Gift)
    ensures Headed(headers, [g]) == headers[g.page.base := Header(g.page.cap + 32, g.slab, g.page)]
  {
  }

  /** A reallocation hands out a new page. */
  ghost predicate Moves(ptr: nat, size: nat, headers: map<nat, Header>)
    requires ptr == 0 || (HEADER <= ptr && ptr - HEADER in headers)
  {
    size != 0 && (ptr == 0 || headers[ptr - HEADER].page.cap + HEADER < size)
  }

  class KernelHeap {
    const heap: Heap
    var slabs: seq<Slab>        // every slab in creation order
    var first: Option<nat>      // where kmalloc's five slabs start, once they exist
    var bytes: int -> int       // payload memory
    ghost var blocks: set<MallocPage>
    ghost var given: seq<Gift>  // everything ever handed out

    /** Every page belongs to one slab. */
    ghost predicate Separate()
      reads this`slabs, this`blocks, slabs
    {
      && SlabList.NoDup(slabs)
      && (forall s :: s in slabs ==> s.issued <= s.repr <= blocks)
      && (forall s, t {:trigger s in slabs, t in slabs} :: s in slabs && t in slabs && s != t ==> s.repr !! t.repr)
    }

    ghost predicate SlabsValid()
      requires Separate()
      reads this`slabs, this`blocks, slabs, blocks
    {
      forall i :: 0 <= i < |slabs| ==> slabs[i].Valid()
    }

    ghost predicate Sound(h: Header, base: nat)
      reads this`slabs, slabs
    {
      h.slab in slabs && h.page in h.slab.issued && h.page.base == base && h.trueSize == h.page.cap + HEADER
    }

    /** Every header names the slab and page it was written for. */
    ghost predicate HeadersSound()
      reads this`slabs, heap, slabs
    {
      forall b :: b in heap.headers ==> Sound(heap.headers[b], b)
    }

    /** The slabs know what was given out, and only thirteenth gifts repeated a page. */
    ghost predicate Recorded()
      reads this`given, this`slabs, slabs
    {
      && (forall i :: 0 <= i < |given| ==> given[i].slab in slabs)
      && (forall s :: s in slabs ==> s.pops == PopsOf(given, s) && s.issued == PagesOf(given, s))
      && OnlyThirteenths(given)
    }

    /** Everything else: the slabs, their pages and the headers fit together. */
    ghost predicate Sane()
      reads this`slabs, this`blocks, this`first, heap, slabs, blocks
    {
      && Separate() && SlabsValid() && HeadersSound()
      && KERNEL_HEAP_LOW <= heap.ap < HEAP_END && Placed(blocks, KERNEL_HEAP_LOW, heap.ap)
      && (first.Some? ==> Classes(first.value))
    }

    ghost predicate Valid()
      reads this, heap, slabs, blocks
    {
      Sane() && Recorded()
    }

    ghost predicate IsClass(k: nat, i: nat)
      requires i < KMALLOC_SLABS && k + i < |slabs|
      reads this`slabs, slabs
    {
      slabs[k + i].size == ClassSize(i) && !slabs[k + i].realloc && !slabs[k + i].grown
    }

    /** kmalloc's slabs stand in a row from `k` on, with their fixed sizes. */
    ghost predicate Classes(k: nat)
      reads this`slabs, slabs
    {
      k + KMALLOC_SLABS <= |slabs| && forall i :: 0 <= i < KMALLOC_SLABS ==> IsClass(k, i)
    }

    /** Slab `k` is the class that serves requests of `n` bytes. */
    ghost predicate IsClassOf(k: nat, n: nat)
      reads this`first
    {
      first.Some? && Best(Searched(), n).Some? && k == first.value + Best(Searched(), n).value
    }

    /** The heap bytes the next pop of slab `k` takes: twelve pages with their records and headers, when
        a resize is pending or the credit is used up. A slab never resized has used it up with its
        thirteenth, twenty-fifth, ... pop. */
    ghost function Refill(k: nat): (bytes: nat)
      requires Sane() && k < |slabs|
      reads this`slabs, this`blocks, this`first, heap, slabs, blocks
      ensures bytes == if slabs[k].realloc || slabs[k].length == 0 then 12 * (16 + 32 + slabs[k].size) else 0
      ensures !slabs[k].grown ==>
                bytes == if slabs[k].pops > 1 && slabs[k].pops % 12 == 1 then 12 * (16 + 32 + slabs[k].size) else 0
    {
      if SlabList.Refills(slabs[k].State()) then PagesTake(SlabList.BATCH, slabs[k].size) else 0
    }

    constructor ()
      ensures Valid() && slabs == [] && fresh(heap) && heap.ap == KERNEL_HEAP_LOW
      ensures first == None && blocks == {} && given == [] && heap.headers == map[]
    {
      heap := new Heap();
      slabs, first, blocks, given := [], None, {}, [];
      bytes := _ => 0;
    }

    /** Adds a slab. */
    method AddSlab(size: nat) returns (r: Outcome<Slab>)
      requires Valid()
      modifies this`slabs, this`blocks, heap`ap
      ensures r.Done? <==> old(heap.ap) + 40 + 13 * (16 + 32 + size) < HEAP_END
      ensures r.Done? ==> heap.ap == old(heap.ap) + 40 + 13 * (16 + 32 + size)
      ensures r.Done? ==> Valid() && slabs == old(slabs) + [r.value] && fresh(r.value) && fresh(r.value.repr)
      ensures r.Done? ==> r.value.size == size && !r.value.realloc && !r.value.grown && r.value.pops == 0
      ensures r.Done? ==> r.value.State() == SlabList.Created(r.value.list, size) && r.value.issued == {}
      ensures r.Done? ==> (forall b :: b in blocks ==> b in old(blocks) || fresh(b)) && old(blocks) <= blocks
    {
      hide Slab.Valid, Slab.Linked, Placed, OnlyThirteenths, PopsOf, PagesOf;
      ghost var mark := heap.ap;
      var s :- Slab.Create(heap, size);
      PlacedUnion(blocks, KERNEL_HEAP_LOW, mark, s.repr, heap.ap);
      slabs := slabs + [s];
      blocks := blocks + s.repr;
      assert Separate();
      NothingFrom(given, s);
      assert Recorded();
      assert SlabsValid();
      assert HeadersSound();
      assert Placed(blocks, KERNEL_HEAP_LOW, heap.ap);
      if first.Some? {
        forall i | 0 <= i < KMALLOC_SLABS
          ensures IsClass(first.value, i)
        {
          assert old(IsClass(first.value, i));
        }
      }
      return Done(s);
    }

    /** Pops slab `k`, leaving the other slabs alone. */
    method PopAlone(k: nat) returns (r: Outcome<MallocPage>)
      requires Sane() && k < |slabs|
      modifies this`blocks, slabs[k], slabs[k].repr, heap
      ensures r.Done? <==> old(heap.ap) + old(Refill(k)) < HEAP_END
      ensures r.Done? ==> heap.ap == old(heap.ap) + old(Refill(k))
      ensures r.Done? ==> (forall s :: s in slabs ==> s.Valid()) && r.value in slabs[k].repr
      ensures r.Done? ==> r.value.cap == slabs[k].size
      ensures r.Done? ==> !slabs[k].realloc && slabs[k].size == old(slabs[k].size)
      ensures r.Done? ==> (r.value !in old(slabs[k].issued) <==> old(slabs[k].grown || slabs[k].pops != SlabList.BATCH))
      ensures r.Done? ==> slabs[k].pops == old(slabs[k].pops) + 1 && slabs[k].grown == old(slabs[k].grown)
      ensures r.Done? ==> slabs[k].issued == old(slabs[k].issued) + {r.value}
      ensures r.Done? ==> slabs[k].repr == old(slabs[k].repr) + (blocks - old(blocks)) && old(blocks) <= blocks
      ensures r.Done? ==> (forall b :: b in blocks ==> b in old(blocks) || fresh(b)) && KERNEL_HEAP_LOW <= heap.ap
      ensures r.Done? ==> Placed(blocks, KERNEL_HEAP_LOW, heap.ap)
      ensures r.Done? ==>
                heap.headers == old(heap.headers)[r.value.base := Header(r.value.cap + HEADER, slabs[k], r.value)]
    {
      hide Slab.Valid, Slab.Linked, Placed, SlabList.PopOf, SlabList.Refills, SlabList.SpareAfterPop;
      ghost var mark := heap.ap;
      ghost var batch;
      r, batch := slabs[k].PopPage(heap);
      if r.Done? {
        PlacedUnion(blocks, KERNEL_HEAP_LOW, mark, Set(batch), heap.ap);
        blocks := blocks + Set(batch);
        forall s | s in slabs && s != slabs[k]
          ensures s.Valid()
        {
          assert s in old(slabs) && slabs[k] in old(slabs) && old(s.Valid());
        }
      }
    }

    /** Pops slab `k` and keeps everything but the record. */
    method PopUnrecorded(k: nat) returns (r: Outcome<MallocPage>)
      requires Sane() && k < |slabs|
      modifies this`blocks, slabs[k], slabs[k].repr, heap
      ensures r.Done? <==> old(heap.ap) + old(Refill(k)) < HEAP_END
      ensures r.Done? ==> heap.ap == old(heap.ap) + old(Refill(k))
      ensures r.Done? ==> Sane() && slabs[k].size == old(slabs[k].size)
      ensures r.Done? ==> r.value in blocks && r.value.cap == slabs[k].size
      ensures r.Done? ==> (forall b :: b in blocks ==> b in old(blocks) || fresh(b)) && old(blocks) <= blocks
      ensures r.Done? ==> forall s :: s in slabs && s != slabs[k] ==> unchanged(s) && r.value !in s.issued
      ensures r.Done? ==> (r.value !in old(slabs[k].issued) <==> old(slabs[k].grown || slabs[k].pops != SlabList.BATCH))
      ensures r.Done? ==> slabs[k].pops == old(slabs[k].pops) + 1 && slabs[k].grown == old(slabs[k].grown)
      ensures r.Done? ==> slabs[k].issued == old(slabs[k].issued) + {r.value}
      ensures r.Done? ==>
                heap.headers == old(heap.headers)[r.value.base := Header(r.value.cap + HEADER, slabs[k], r.value)]
    {
      hide Slab.Valid, Slab.Linked, Placed, SlabList.Refills;
      r := PopAlone(k);
      if r.Done? {
        forall s | s in slabs && s != slabs[k]
          ensures unchanged(s) && r.value !in s.issued
        {
          assert s in old(slabs) && slabs[k] in old(slabs) && s.issued <= s.repr;
        }
        if first.Some? {
          forall i | 0 <= i < KMALLOC_SLABS
            ensures IsClass(first.value, i)
          {
            assert old(IsClass(first.value, i)) && slabs[first.value + i] in slabs;
          }
        }
      }
    }

    /** pool_alloc, and the end of slab_pick_and_allocate: pops slab `k`. The page is new but for the
        slab's thirteenth pop, if it was not resized before. */
    method PopFrom(k: nat) returns (r: Outcome<MallocPage>)
      requires Valid() && k < |slabs|
      modifies this`blocks, this`given, slabs[k], slabs[k].repr, heap
      ensures r.Done? <==> old(heap.ap) + old(Refill(k)) < HEAP_END
      ensures r.Done? ==> heap.ap == old(heap.ap) + old(Refill(k))
      ensures r.Done? ==> Valid() && slabs[k].size == old(slabs[k].size)
      ensures r.Done? ==> r.value in blocks && r.value.cap == slabs[k].size
      ensures r.Done? ==> (forall b :: b in blocks ==> b in old(blocks) || fresh(b)) && old(blocks) <= blocks
      ensures r.Done? ==> given == old(given) + [Gift(r.value, slabs[k], slabs[k].grown)]
      ensures r.Done? ==> forall s :: s in slabs && s != slabs[k] ==> unchanged(s) && r.value !in s.issued
      ensures r.Done? ==> (r.value !in old(slabs[k].issued) <==> old(slabs[k].grown || slabs[k].pops != SlabList.BATCH))
      ensures r.Done? ==> slabs[k].pops == old(slabs[k].pops) + 1 && slabs[k].grown == old(slabs[k].grown)
      ensures r.Done? ==> slabs[k].issued == old(slabs[k].issued) + {r.value}
      ensures r.Done? ==>
                heap.headers == old(heap.headers)[r.value.base := Header(r.value.cap + HEADER, slabs[k], r.value)]
    {
      hide Separate, SlabsValid, HeadersSound, Classes, Placed, OnlyThirteenths, PopsOf;
      r := PopUnrecorded(k);
      if r.Done? {
        ghost var gift := Gift(r.value, slabs[k], slabs[k].grown);
        if i :| 0 <= i < |given| && given[i].page == gift.page {
          assert gift.page in PagesOf(given, given[i].slab);
        }
        NextGift(given, gift);
        forall s | s in slabs
          ensures s.pops == PopsOf(given + [gift], s) && s.issued == PagesOf(given + [gift], s)
        {
          GiftCounts(given, gift, s);
        }
        given := given + [gift];
      }
    }

    /** The block the header was written for is linked last in its slab. */
    ghost predicate Freed(h: Header)
      reads h.slab
    {
      h.slab.list != [] && h.slab.list[|h.slab.list| - 1] == h.page
    }

    /** slab_free: finds the page through the header in front of the pointer. */
    method FreePtr(ptr: nat) returns (r: nat)
      requires Valid()
      modifies slabs, blocks
      ensures Valid() && slabs == old(slabs)
      ensures forall s :: s in slabs ==> s.size == old(s.size)
      ensures r == if ptr >= HEADER && ptr - HEADER in heap.headers then ptr else 0
      ensures forall s :: s in slabs ==>
                s.State() == (if r != 0 && heap.headers[ptr - HEADER].slab == s
                              then SlabList.FreeOf(old(s.State()), heap.headers[ptr - HEADER].page) else old(s.State()))
      ensures forall s :: s in slabs ==> s.issued == old(s.issued) && s.grown == old(s.grown)
      ensures r != 0 ==> Freed(heap.headers[ptr - HEADER])
    {
      hide Slab.Valid, Slab.Linked, Placed, OnlyThirteenths, PopsOf, PagesOf, SlabList.FreeOf, SlabList.NoDup,
           ClassSize;
      if ptr < HEADER || ptr - HEADER !in heap.headers {
        return 0;
      }
      HeaderIsSound(ptr - HEADER);
      var h := heap.headers[ptr - HEADER];
      h.slab.FreePage(h.page);
      forall s | s in slabs && s != h.slab
        ensures s.Valid() && unchanged(s)
      {
        assert s in old(slabs) && h.slab in old(slabs) && old(s.Valid());
      }
      if first.Some? {
        forall i | 0 <= i < KMALLOC_SLABS
          ensures IsClass(first.value, i)
        {
          assert old(IsClass(first.value, i)) && slabs[first.value + i] in slabs;
        }
      }
      return ptr;
    }

    /** kmalloc's first call: five slabs. */
    method CreateSlabs() returns (r: Outcome<()>)
      requires Valid() && first.None?
      modifies this`slabs, this`first, this`blocks, heap`ap
      ensures r.Done? <==> old(heap.ap) + 29112 < HEAP_END
      ensures r.Done? ==> heap.ap == old(heap.ap) + 29112
      ensures r.Done? ==> Valid() && first == Some(|old(slabs)|) && slabs[..|old(slabs)|] == old(slabs)
      ensures r.Done? ==> forall i :: |old(slabs)| <= i < |slabs| ==>
                fresh(slabs[i]) && fresh(slabs[i].repr) && slabs[i].issued == {} && slabs[i].pops == 0
      ensures r.Done? ==> (forall b :: b in blocks ==> b in old(blocks) || fresh(b)) && old(blocks) <= blocks
    {
      hide Valid, Sane, Recorded, ClassSize, SlabList.Created, Slab.Valid, ClassesTake;
      var start := |slabs|;
      NoClasses();
      for i := 0 to KMALLOC_SLABS
        invariant heap.ap == old(heap.ap) + ClassesTake(i) && (i > 0 ==> heap.ap < HEAP_END)
        invariant Valid() && first.None? && |slabs| == start + i && slabs[..start] == old(slabs)
        invariant forall j :: 0 <= j < i ==> IsClass(start, j)
        invariant (forall b :: b in blocks ==> b in old(blocks) || fresh(b)) && old(blocks) <= blocks
        invariant forall j :: start <= j < |slabs| ==>
                    fresh(slabs[j]) && fresh(slabs[j].repr) && slabs[j].issued == {} && slabs[j].pops == 0
      {
        label Before:
        OneClassMore(i);
        var s :- AddSlab(ClassSize(i));
        forall j | 0 <= j <= i
          ensures IsClass(start, j)
        {
          assert j < i ==> old@Before(IsClass(start, j));
        }
      }
      StartClasses(start);
      return Done(());
    }

    /** The slabs from `start` on become kmalloc's. */
    method StartClasses(start: nat)
      requires Valid() && first.None? && Classes(start)
      modifies this`first
      ensures Valid() && first == Some(start)
    {
      hide Separate, SlabsValid, HeadersSound, Placed, Recorded, Classes;
      first := Some(start);
    }

    lemma ClassesAreSearched(i: nat)
      requires Valid() && first.Some? && i < SEARCHED
      ensures first.value + i < |slabs| && slabs[first.value + i].size == Searched()[i]
    {
      hide Separate, SlabsValid, HeadersSound, Placed, Recorded, ClassSize;
      assert IsClass(first.value, i);
    }

    /** slab_pick_and_allocate's search: the smallest of the first four classes that fits. */
    method Pick(n: nat) returns (best: Option<nat>)
      requires Valid() && first.Some?
      ensures best == Best(Searched(), n)
    {
      hide *;
      ghost var sizes := Searched();
      best := None;
      var i := 0;
      BestOfNone(sizes, n);
      while i < SEARCHED
        invariant i <= SEARCHED && best == Best(sizes[..i], n)
        invariant best.Some? ==> best.value < i
      {
        BestStep(sizes, n, i);
        ClassesAreSearched(i);
        var s := slabs[first.value + i];
        if s.size >= n {
          if best.Some? {
            ClassesAreSearched(best.value);
          }
          if best.None? || s.size < slabs[first.value + best.value].size {
            best := Some(i);
          }
        }
        i := i + 1;
      }
      assert sizes[..i] == sizes;
    }

    /** The slab a request goes to; the first request creates the slabs. */
    method Choose(n: nat) returns (r: Outcome<nat>)
      requires Valid() && n <= LARGEST
      modifies this`slabs, this`first, this`blocks, heap`ap
      ensures r.Done? <==> old(first).Some? || old(heap.ap) + 29112 < HEAP_END
      ensures r.Done? ==> Valid() && first.Some? && r.value < |slabs|
      ensures r.Done? ==> heap.ap + Refill(r.value) == old(heap.ap) + old(Need(n))
      ensures r.Done? ==>
                slabs[r.value].size == if n <= 64 then 64 else if n <= 128 then 128 else if n <= 256 then 256 else 512
      ensures r.Done? ==> n <= slabs[r.value].size
      ensures r.Done? ==> forall i :: 0 <= i < SEARCHED && n <= ClassSize(i) ==> slabs[r.value].size <= ClassSize(i)
      ensures r.Done? ==> |old(slabs)| <= |slabs| && slabs[..|old(slabs)|] == old(slabs)
      ensures r.Done? ==> (forall b :: b in blocks ==> b in old(blocks) || fresh(b)) && old(blocks) <= blocks
      ensures r.Done? ==> forall i :: |old(slabs)| <= i < |slabs| ==> fresh(slabs[i]) && slabs[i].pops == 0
      ensures r.Done? && slabs[r.value] !in old(slabs) ==>
                fresh(slabs[r.value]) && fresh(slabs[r.value].repr) && slabs[r.value].pops == 0
      ensures r.Done? ==> !slabs[r.value].grown && IsClassOf(r.value, n)
      ensures r.Done? ==> (old(first).Some? ==> first == old(first) && slabs == old(slabs))
    {
      hide Slab.Valid, Slab.Linked, Placed, Recorded, Best, ClassesTake;
      NeedInNumbers(n);
      NoClasses();
      if first.None? {
        var _ :- CreateSlabs();
      }
      var best := Pick(n);
      BestInNumbers(n);
      ClassesAreSearched(best.value);
      assert IsClass(first.value, best.value);
      return Done(first.value + best.value);
    }

    /** The heap bytes a request of `n` bytes takes. */
    ghost function Need(n: nat): nat
      requires Valid() && n <= LARGEST
      reads this, heap, slabs, blocks
    {
      if first.None? then ClassesTake(KMALLOC_SLABS)
      else
        BestInNumbers(n);
        ClassesAreSearched(Best(Searched(), n).value);
        Refill(first.value + Best(Searched(), n).value)
    }

    /** The first request of all makes the five classes; later ones refill theirs at its fourteenth,
        twenty-sixth, ... request. */
    lemma NeedInNumbers(n: nat)
      requires Valid() && n <= LARGEST
      ensures first.None? ==> Need(n) == 29112
      ensures first.Some? ==>
                var i := if n <= 64 then 0 else if n <= 128 then 1 else if n <= 256 then 2 else 3;
                && first.value + i < |slabs|
                && var s := slabs[first.value + i];
                   && s.size == [64, 128, 256, 512][i]
                   && Need(n) == if s.pops > 1 && s.pops % 12 == 1 then 12 * (16 + 32 + s.size) else 0
    {
      hide Separate, SlabsValid, HeadersSound, Recorded, Placed, Best, ClassSize;
      if first.Some? {
        BestInNumbers(n);
        var i := Best(Searched(), n).value;
        ClassesAreSearched(i);
        assert IsClass(first.value, i);
      }
    }

    /** kmalloc for a request its searched classes can serve; slab `k` served it with `page`. */
    method Kmalloc(n: nat) returns (r: Outcome<nat>, ghost page: MallocPage?, ghost k: nat)
      requires Valid() && n <= LARGEST
      modifies this`slabs, this`first, this`blocks, this`given, slabs, blocks, heap
      // when it is served, and what it takes of the heap
      ensures r.Done? <==> old(heap.ap) + old(Need(n)) < KERNEL_HEAP_LOW + 40960000
      ensures r.Done? ==> heap.ap == old(heap.ap) + old(Need(n))
      ensures r.Done? ==> Valid() && first.Some? && page != null && page in blocks && r.value == Payload(page)
      // the smallest of the searched classes that fits
      ensures r.Done? ==>
                n <= page.cap == if n <= 64 then 64 else if n <= 128 then 128 else if n <= 256 then 256 else 512
      ensures r.Done? ==> forall i :: 0 <= i < SEARCHED && n <= ClassSize(i) ==> page.cap <= ClassSize(i)
      ensures r.Done? ==> k < |slabs| && slabs[k].size == page.cap && page in slabs[k].issued
      ensures r.Done? ==> heap.headers == old(heap.headers)[page.base := Header(page.cap + 32, slabs[k], page)]
      ensures r.Done? ==> |old(slabs)| <= |slabs| && slabs[..|old(slabs)|] == old(slabs)
      // what was given out before stays so, and this page is added to it
      ensures r.Done? ==> given == old(given) + [Gift(page, slabs[k], false)] && old(blocks) <= blocks
      ensures r.Done? ==>
                forall s :: s in old(slabs) ==> s.issued == old(s.issued) + if s == slabs[k] then {page} else {}
      ensures r.Done? ==> forall b :: b in blocks ==> b in old(blocks) || fresh(b)
      ensures r.Done? ==> forall i :: |old(slabs)| <= i < |slabs| ==> fresh(slabs[i])
      // no slab had issued the page, but for the thirteenth request of its class
      ensures r.Done? ==> forall s :: s in old(slabs) ==>
                (page in old(s.issued) <==> s == slabs[k] && old(s.pops) == 12)
      // which counts the requests of each class
      ensures r.Done? ==> IsClassOf(k, n) && (old(first).Some? ==> first == old(first) && slabs == old(slabs))
      ensures r.Done? ==> forall s :: s in slabs ==>
                s.pops == (if s in old(slabs) then old(s.pops) else 0) + if s == slabs[k] then 1 else 0
    {
      hide Slab.Valid, Slab.Linked, Placed, IsClass, Classes, Recorded, Best, Searched, ClassSize, SlabList.NoDup;
      page := null;
      var chosen := Choose(n);
      if chosen.Panic? {
        return Panic, null, 0;
      }
      k := chosen.value;
      var p := PopFrom(chosen.value);
      if p.Panic? {
        return Panic, null, k;
      }
      page := p.value;
      return Done(p.value.base + HEADER), page, k;
    }

    /** The end of both reallocations: memcpy to the new place, then free the old one. */
    method MoveAndFree(ptr: nat, to: nat, n: nat)
      requires Valid()
      modifies this`bytes, slabs, blocks
      ensures Valid() && slabs == old(slabs)
      ensures forall s :: s in slabs ==> s.issued == old(s.issued) && s.size == old(s.size) && s.grown == old(s.grown)
      ensures SameBytes(bytes, to, old(bytes), ptr, n)
      ensures forall x :: x < to || to + n <= x ==> bytes(x) == old(bytes)(x)
      ensures ptr >= HEADER && ptr - HEADER in heap.headers ==> Freed(heap.headers[ptr - HEADER])
    {
      hide Slab.Valid, Slab.Linked, Placed, IsClass, SlabList.FreeOf;
      CopiedBytes(bytes, to, ptr, n);
      bytes := Copied(bytes, to, ptr, n);
      var _ := FreePtr(ptr);
    }

    lemma HeaderNamesABlock(base: nat)
      requires Valid() && base in heap.headers
      ensures var h := heap.headers[base]; h.page in blocks && h.page.base == base && h.trueSize == h.page.cap + HEADER
    {
      assert Sound(heap.headers[base], base);
    }

    lemma BasesDiffer(p: MallocPage, q: MallocPage)
      requires Valid() && p in blocks && q in blocks && p != q
      ensures p.base != q.base
    {
      hide Separate, SlabsValid, HeadersSound, Recorded, Classes;
      assert Apart(p, q);
    }

    lemma HeaderIsSound(base: nat)
      requires Valid() && base in heap.headers
      ensures Sound(heap.headers[base], base)
    {
    }

    /** krealloc of a live pointer (or NULL) to a size kmalloc serves; `page` is where the data
        lives afterwards. Data moves with its whole old payload. The returned pointer has room for
        the request in every case but one: a size up to a header above the old payload, which the
        code takes to fit because the recorded size includes the header. */
    method Krealloc(ptr: nat, size: nat) returns (r: Outcome<nat>, ghost page: MallocPage?, ghost gifts: seq<Gift>)
      requires Valid() && size <= LARGEST
      requires ptr == 0 || (HEADER <= ptr && ptr - HEADER in heap.headers)
      modifies this`slabs, this`first, this`blocks, this`given, this`bytes, slabs, blocks, heap
      ensures r.Done? <==> !Moves(ptr, size, old(heap.headers)) || old(heap.ap + Need(size)) < HEAP_END
      ensures r.Done? ==> Valid() && |old(slabs)| <= |slabs| && slabs[..|old(slabs)|] == old(slabs)
      ensures r.Done? ==> (forall b :: b in blocks ==> b in old(blocks) || fresh(b)) && old(blocks) <= blocks
      ensures r.Done? ==> forall i :: |old(slabs)| <= i < |slabs| ==> fresh(slabs[i])
      ensures r.Done? ==> (page == null <==> size == 0) && r.value == if page == null then 0 else Payload(page)
      // the result has a header, and what was given out before stays so
      ensures r.Done? && page != null ==> page.base in heap.headers && heap.headers[page.base].page == page
      ensures r.Done? ==> given == old(given) + gifts && heap.headers == Headed(old(heap.headers), gifts)
      ensures r.Done? ==>
                if Moves(ptr, size, old(heap.headers)) then |gifts| == 1 && gifts[0].page == page else gifts == []
      ensures r.Done? && size != 0 && ptr != 0 ==>
                var was := old(heap.headers)[ptr - HEADER].page;
                && (page == was || size <= page.cap)
                && (size <= page.cap <==> !(was.cap < size <= was.cap + 32))
                && (size <= was.cap + 32 ==> page == was && bytes == old(bytes))
                && SameBytes(bytes, r.value, old(bytes), ptr, was.cap)
                && (forall x :: x < r.value || r.value + page.cap <= x ==> bytes(x) == old(bytes)(x))
      ensures r.Done? && size != 0 && ptr == 0 ==>
                size <= page.cap ==
                if size <= 64 then 64 else if size <= 128 then 128 else if size <= 256 then 256 else 512
      // what becomes of the old block
      ensures r.Done? && ptr != 0 && (size == 0 || Moves(ptr, size, old(heap.headers))) ==>
                Freed(old(heap.headers)[ptr - HEADER])
      ensures r.Done? && size == 0 ==> slabs == old(slabs) && bytes == old(bytes) && forall s :: s in slabs ==>
                s.State() == if ptr != 0 && old(heap.headers)[ptr - HEADER].slab == s
                             then SlabList.FreeOf(old(s.State()), old(heap.headers)[ptr - HEADER].page)
                             else old(s.State())
      ensures r.Done? && size != 0 && !Moves(ptr, size, old(heap.headers)) ==>
                slabs == old(slabs) && forall s :: s in slabs ==> s.State() == old(s.State())
    {
      hide Slab.Valid, Slab.Linked, Slab.State, Placed, IsClass, Classes, IsClassOf, Sane, Recorded,
           SlabList.NoDup, SlabList.PopOf, SlabList.FreeOf, Best, ClassSize;
      page, gifts := null, [];
      if ptr != 0 {
        HeaderIsSound(ptr - HEADER);
      }
      if size == 0 {
        var _ := FreePtr(ptr);
        return Done(0), null, [];
      }
      ghost var k;
      if ptr == 0 {
        r, page, k := Kmalloc(size);
        gifts := if r.Panic? then [] else [Gift(page, slabs[k], false)];
        return;
      }
      var h := heap.headers[ptr - HEADER];
      var ptrSize := h.trueSize;
      if size <= ptrSize {
        return Done(ptr), h.page, [];
      }
      r, page, gifts := KmallocAndMove(ptr, size, ptrSize);
    }

    /** The growing half: a new block, the bytes moved there, the old block freed. */
    method KmallocAndMove(ptr: nat, size: nat, n: nat)
      returns (r: Outcome<nat>, ghost page: MallocPage?, ghost gifts: seq<Gift>)
      requires Valid() && size <= LARGEST && HEADER <= ptr && ptr - HEADER in heap.headers
      requires n == heap.headers[ptr - HEADER].trueSize < size
      modifies this`slabs, this`first, this`blocks, this`given, this`bytes, slabs, blocks, heap
      ensures r.Done? <==> old(heap.ap + Need(size)) < HEAP_END
      ensures r.Done? ==> Freed(old(heap.headers)[ptr - HEADER])
      ensures r.Done? ==> Valid() && |old(slabs)| <= |slabs| && slabs[..|old(slabs)|] == old(slabs)
      ensures r.Done? ==> (forall b :: b in blocks ==> b in old(blocks) || fresh(b)) && old(blocks) <= blocks
      ensures r.Done? ==> forall i :: |old(slabs)| <= i < |slabs| ==> fresh(slabs[i])
      ensures r.Done? ==> page != null && r.value == Payload(page) && size <= page.cap
      ensures r.Done? ==> |gifts| == 1 && gifts[0].page == page
      ensures r.Done? ==> given == old(given) + gifts && heap.headers == Headed(old(heap.headers), gifts)
      ensures r.Done? ==> SameBytes(bytes, r.value, old(bytes), ptr, n)
      ensures r.Done? ==> forall x :: x < r.value || r.value + page.cap <= x ==> bytes(x) == old(bytes)(x)
    {
      hide *;
      ghost var k;
      gifts := [];
      HeaderNamesABlock(ptr - HEADER);
      HeapEnd();
      r, page, k := Kmalloc(size);
      if r.Done? {
        gifts := [Gift(page, slabs[k], false)];
        HeadedByOne(old(heap.headers), gifts[0]);
        BasesDiffer(old(heap.headers)[ptr - HEADER].page, page);
        MoveAndFree(ptr, r.value, n);
      }
    }

    /** Over every run of the calls: what was given out lies apart from everything given out before,
        but for the thirteenth gifts of slabs not resized, which each repeat one. */
    lemma GiftsAreDisjoint(j: nat)
      requires Valid() && j < |given|
      ensures IsThirteenth(given, j) <==> exists i :: 0 <= i < j && given[i].page == given[j].page
      ensures forall i :: 0 <= i < j && given[i].page != given[j].page ==>
                Disjoint(Payload(given[i].page), given[i].page.cap, Payload(given[j].page), given[j].page.cap)
    {
      hide SlabsValid, HeadersSound, Classes, IsThirteenth;
      assert Repeats(given, j) <==> IsThirteenth(given, j);
      forall i | 0 <= i <= j
        ensures given[i].page in blocks
      {
        assert given[i].page in PagesOf(given, given[i].slab);
      }
      forall i | 0 <= i < j && given[i].page != given[j].page
        ensures Disjoint(Payload(given[i].page), given[i].page.cap, Payload(given[j].page), given[j].page.cap)
      {
        PayloadsAreDisjoint(blocks, KERNEL_HEAP_LOW, heap.ap, given[i].page, given[j].page);
      }
    }

    /** A slab of an object pool, which kmalloc does not use. */
    ghost predicate IsPool(k: nat)
      reads this`slabs, this`first
    {
      k < |slabs| && (first.Some? ==> k < first.value || first.value + KMALLOC_SLABS <= k)
    }

    method GrowSlab(k: nat, size: nat)
      requires Valid() && IsPool(k)
      modifies slabs[k]
      ensures Valid() && slabs[k].State() == SlabList.GrowOf(old(slabs[k].State()), size)
      ensures slabs[k].grown && slabs[k].issued == old(slabs[k].issued) && slabs[k].repr == old(slabs[k].repr)
    {
      hide Slab.Valid, Slab.Linked, Placed;
      slabs[k].Grow(size);
      forall s | s in slabs && s != slabs[k]
        ensures s.Valid() && unchanged(s)
      {
        assert s in old(slabs) && slabs[k] in old(slabs) && old(s.Valid());
      }
      if first.Some? {
        forall i | 0 <= i < KMALLOC_SLABS
          ensures IsClass(first.value, i)
        {
          assert old(IsClass(first.value, i)) && slabs[first.value + i] != slabs[k];
        }
      }
    }

    /** pool_realloc. Growing resizes the pool's slab for good and moves the object to a page never
        issued before, of exactly the new size, even though smaller freed pages may be linked. */
    method PoolRealloc(k: nat, ptr: nat, size: nat)
      returns (r: Outcome<nat>, ghost page: MallocPage?, ghost gifts: seq<Gift>)
      requires Valid() && IsPool(k)
      requires ptr == 0 || (HEADER <= ptr && ptr - HEADER in heap.headers)
      modifies this`blocks, this`given, this`bytes, slabs, blocks, heap
      ensures r.Done? <==>
              || !Moves(ptr, size, old(heap.headers))
              || (ptr == 0 && old(heap.ap + Refill(k)) < HEAP_END)
              || (ptr != 0 && old(heap.ap) + 12 * (16 + 32 + size) < HEAP_END)
      ensures r.Done? ==> Valid() && slabs == old(slabs)
      ensures r.Done? ==> (forall b :: b in blocks ==> b in old(blocks) || fresh(b)) && old(blocks) <= blocks
      ensures r.Done? ==> (page == null <==> size == 0) && r.value == if page == null then 0 else Payload(page)
      // the result has a header, and what was given out before stays so
      ensures r.Done? && page != null ==> page.base in heap.headers && heap.headers[page.base].page == page
      ensures r.Done? ==> given == old(given) + gifts && heap.headers == Headed(old(heap.headers), gifts)
      ensures r.Done? ==>
                if Moves(ptr, size, old(heap.headers)) then gifts == [Gift(page, slabs[k], slabs[k].grown)]
                else gifts == []
      ensures r.Done? && size != 0 && ptr != 0 ==>
                var was := old(heap.headers)[ptr - HEADER].page;
                if size <= was.cap + 32 then page == was && bytes == old(bytes)
                else
                  && page.cap == size == slabs[k].size && page !in old(slabs[k].issued) && page in slabs[k].issued
                  && SameBytes(bytes, r.value, old(bytes), ptr, was.cap)
                  && (forall x :: x < r.value || r.value + page.cap <= x ==> bytes(x) == old(bytes)(x))
      // the old block is freed when the object moves, and not when the size is 0
      ensures r.Done? && ptr != 0 && Moves(ptr, size, old(heap.headers)) ==> Freed(old(heap.headers)[ptr - HEADER])
      ensures r.Done? && !Moves(ptr, size, old(heap.headers)) ==> forall s :: s in slabs ==> s.State() == old(s.State())
      ensures r.Done? && size == 0 ==> bytes == old(bytes)
      ensures r.Done? && size != 0 && ptr == 0 ==>
                && bytes == old(bytes) && page.cap == slabs[k].size && page in slabs[k].issued
                && (page !in old(slabs[k].issued) <==> old(slabs[k].grown || slabs[k].pops != SlabList.BATCH))
    {
      hide Slab.Valid, Slab.Linked, Placed, IsClass, Classes, Recorded, SlabList.NoDup, SlabList.PopOf;
      page, gifts := null, [];
      if size == 0 {
        return Done(0), null, [];
      }
      if ptr != 0 {
        var h := heap.headers[ptr - HEADER];
        assert Sound(h, ptr - HEADER);
        var ptrSize := h.trueSize;
        if size <= ptrSize {
          return Done(ptr), h.page, [];
        }
        var q := GrowAndMove(k, ptr, size, ptrSize);
        if q.Panic? {
          return Panic, null, [];
        }
        return Done(q.value.base + HEADER), q.value, [Gift(q.value, slabs[k], true)];
      }
      var p := PopFrom(k);
      if p.Panic? {
        return Panic, null, [];
      }
      return Done(p.value.base + HEADER), p.value, [Gift(p.value, slabs[k], slabs[k].grown)];
    }

    /** The pool is resized and a page popped, which its new size makes a new one. */
    method GrowAndPop(k: nat, size: nat) returns (r: Outcome<MallocPage>)
      requires Valid() && IsPool(k)
      modifies this`blocks, this`given, slabs[k], slabs[k].repr, heap
      ensures r.Done? <==> old(heap.ap) + 12 * (16 + 32 + size) < HEAP_END
      ensures r.Done? ==> r.value in blocks
      ensures r.Done? ==> Valid() && (forall b :: b in blocks ==> b in old(blocks) || fresh(b)) && old(blocks) <= blocks
      ensures r.Done? ==> r.value.cap == size == slabs[k].size && slabs[k].grown
      ensures r.Done? ==> r.value !in old(slabs[k].issued) && r.value in slabs[k].issued
      ensures r.Done? ==> given == old(given) + [Gift(r.value, slabs[k], true)]
      ensures r.Done? ==> heap.headers == Headed(old(heap.headers), [Gift(r.value, slabs[k], true)])
    {
      hide Valid, Headed;
      GrowSlab(k, size);
      r := PopFrom(k);
      if r.Done? {
        HeadedByOne(old(heap.headers), Gift(r.value, slabs[k], true));
      }
    }

    lemma PoolIsASlab(k: nat)
      requires Valid() && IsPool(k)
      ensures k < |slabs| && slabs[k] in slabs && slabs[k].repr <= blocks
    {
    }

    lemma PayloadIsBehind(p: MallocPage)
      ensures Payload(p) == p.base + HEADER
    {
    }

    /** The growing half: a page of the new size, the bytes moved there, the old page freed. */
    method GrowAndMove(k: nat, ptr: nat, size: nat, n: nat) returns (r: Outcome<MallocPage>)
      requires Valid() && IsPool(k) && HEADER <= ptr && ptr - HEADER in heap.headers
      requires n == heap.headers[ptr - HEADER].trueSize < size
      modifies this`blocks, this`given, this`bytes, slabs, blocks, heap
      ensures r.Done? <==> old(heap.ap) + 12 * (16 + 32 + size) < HEAP_END
      ensures r.Done? ==> Freed(old(heap.headers)[ptr - HEADER])
      ensures r.Done? ==> Valid() && slabs == old(slabs) && old(blocks) <= blocks
      ensures r.Done? ==> forall b :: b in blocks ==> b in old(blocks) || fresh(b)
      ensures r.Done? ==> r.value.cap == size == slabs[k].size && slabs[k].grown
      ensures r.Done? ==> r.value !in old(slabs[k].issued) && r.value in slabs[k].issued
      ensures r.Done? ==> given == old(given) + [Gift(r.value, slabs[k], true)]
      ensures r.Done? ==> heap.headers == Headed(old(heap.headers), [Gift(r.value, slabs[k], true)])
      ensures r.Done? ==> SameBytes(bytes, Payload(r.value), old(bytes), ptr, n)
      ensures r.Done? ==> forall x :: x < Payload(r.value) || Payload(r.value) + size <= x ==> bytes(x) == old(bytes)(x)
    {
      hide *;
      PoolIsASlab(k);
      HeaderNamesABlock(ptr - HEADER);
      r := GrowAndPop(k, size);
      if r.Done? {
        HeadedByOne(old(heap.headers), Gift(r.value, slabs[k], true));
        BasesDiffer(old(heap.headers)[ptr - HEADER].page, r.value);
        PayloadIsBehind(r.value);
        MoveAndFree(ptr, r.value.base + HEADER, n);
      }
    }
  }

  function At(bytes: int -> int, from: nat, i: nat): int {
    bytes(from + i)
  }

  /** The `n` bytes at `a` are those that were at `b`. */
  ghost predicate SameBytes(now: int -> int, a: nat, was: int -> int, b: nat, n: nat) {
    forall i :: 0 <= i < n ==> At(now, a, i) == At(was, b, i)
  }

  lemma CopiedBytes(bytes: int -> int, dst: nat, src: nat, n: nat)
    ensures SameBytes(Copied(bytes, dst, src, n), dst, bytes, src, n)
    ensures forall x :: x < dst || dst + n <= x ==> Copied(bytes, dst, src, n)(x) == bytes(x)
  {
    hide Copied, CopiedAt;
    forall i | 0 <= i < n
      ensures At(Copied(bytes, dst, src, n), dst, i) == At(bytes, src, i)
    {
      CopiedByte(bytes, dst, src, n, dst + i);
      CopiedInside(bytes, dst, src, n, i);
    }
    forall x | x < dst || dst + n <= x
      ensures Copied(bytes, dst, src, n)(x) == bytes(x)
    {
      CopiedByte(bytes, dst, src, n, x);
      CopiedOutside(bytes, dst, src, n, x);
    }
  }

  lemma CopiedByte(bytes: int -> int, dst: nat, src: nat, n: nat, x: int)
    ensures Copied(bytes, dst, src, n)(x) == CopiedAt(bytes, dst, src, n, x)
  {
    hide CopiedAt;
  }

  lemma CopiedInside(bytes: int -> int, dst: nat, src: nat, n: nat, i: nat)
    requires i < n
    ensures CopiedAt(bytes, dst, src, n, dst + i) == At(bytes, src, i)
  {
    assert dst + i - dst + src == src + i;
  }

  lemma CopiedOutside(bytes: int -> int, dst: nat, src: nat, n: nat, x: int)
    requires x < dst || dst + n <= x
    ensures CopiedAt(bytes, dst, src, n, x) == bytes(x)
  {
  }

  function CopiedAt(bytes: int -> int, dst: nat, src: nat, n: nat, x: int): int {
    if dst <= x < dst + n then bytes(x - dst + src) else bytes(x)
  }

  /** memcpy on payload memory. */
  function Copied(bytes: int -> int, dst: nat, src: nat, n: nat): int -> int {
    x => CopiedAt(bytes, dst, src, n, x)
  }
}
