/** The region allocator of src/base/common.h:300-422. */
module Arena {
  import opened Int64

  const WORD_BYTES: nat := 8                                 // sizeof(void *)
  const MAX_ALIGN: nat := 16                                 // sizeof(max_align_t)
  const BLOCK_SIZE: nat := 65536

  // -------------------------------------------------------------------- rounding up

  function WNot(a: Word): Word {
    0xFFFF_FFFF_FFFF_FFFF - a
  }

  /** arena_align_up_size and arena_align_up_ptr. */
  function AlignUpWord(v: Word, align: Word): Word {
    WAnd(WAdd(v, WSub(align, 1)), WNot(WSub(align, 1)))
  }

  /** The least multiple of `a` from `v` on. */
  function AlignUp(v: nat, a: nat): (r: nat)
    requires a > 0
  {
    v + (0 - v) % a
  }

  lemma AlignUpLeast(v: nat, a: nat, m: nat)
    requires a > 0
    ensures AlignUp(v, a) % a == 0 && v <= AlignUp(v, a) < v + a
    ensures m >= v && m % a == 0 ==> AlignUp(v, a) <= m
  {
    var q, r := (0 - v) / a, (0 - v) % a;
    assert 0 - v == a * q + r;
    assert AlignUp(v, a) == a * (-q) by {
      assert a * (-q) == -(a * q);
    }
    ModOf(AlignUp(v, a), a, -q, 0);
    if m >= v && m % a == 0 && m < AlignUp(v, a) {
      var k := m / a;
      assert m == a * k;
      assert a * (-q - 1) == a * (-q) - a;
      if k <= -q - 1 {
        MulLe(a, k, -q - 1);
        assert false;
      } else {
        MulLe(a, -q, k);
        assert false;
      }
    }
  }

  lemma {:induction false} MaskKeepsAll(v: nat, n: nat)
    requires v < Pow2(n)
    ensures AndBits(v, Pow2(n) - 1, n) == v
    decreases n
  {
    if n > 0 {
      var q := Pow2(n - 1);
      MaskKeepsAll(v / 2, n - 1);
      assert (2 * q - 1) / 2 == q - 1 && (2 * q - 1) % 2 == 1;
    }
  }

  /** Masking with 2^n - 2^k clears the low k of n bits. */
  lemma {:induction false} MaskRoundsDown(v: nat, k: nat, n: nat)
    requires v < Pow2(n) && k <= n
    ensures AndBits(v, Pow2(n) - Pow2(k), n) == v - v % Pow2(k)
    decreases n
  {
    if k == 0 {
      MaskKeepsAll(v, n);
    } else {
      var q, p := Pow2(n - 1), Pow2(k - 1);
      assert (2 * q - 2 * p) / 2 == q - p && (2 * q - 2 * p) % 2 == 0;
      MaskRoundsDown(v / 2, k - 1, n - 1);
      HalfMod(v, k);
    }
  }

  lemma RoundDownUp(v: nat, a: nat)
    requires a > 0
    ensures v + a - 1 - (v + a - 1) % a == AlignUp(v, a)
  {
    var q, r := (0 - v) / a, (0 - v) % a;
    assert 0 - v == a * q + r;
    assert v + a - 1 == a * (-q) + (a - 1 - r) by {
      assert a * (-q) == -(a * q);
    }
    ModOf(v + a - 1, a, -q, a - 1 - r);
  }

  lemma Pow2Is64() returns (n: nat)
    ensures n == 64 && Pow2(n) == TWO64
  {
    Pow2Of64();
    n := 64;
  }

  lemma WAndIs(a: Word, b: Word, n: nat, r: Word)
    requires n == 64 && AndBits(a, b, n) == r
    ensures WAnd(a, b) == r
  {
  }

  /** The bit trick is rounding up to a multiple, as long as the sum does not wrap. */
  lemma AlignUpExact(v: Word, k: nat)
    requires k < 64 && v + Pow2(k) <= TWO64
    ensures Pow2(k) < TWO64 && AlignUpWord(v, Pow2(k)) == AlignUp(v, Pow2(k))
  {
    var n := Pow2Is64();
    Pow2Grows(k, n);
    var a: Word := Pow2(k);
    MaskRoundsDown(v + a - 1, k, n);
    RoundDownUp(v, a);
    AlignUpLeast(v, a, 0);
    WAndIs(v + a - 1, TWO64 - a, n, AlignUp(v, a));
    AlignUpWordIs(v, a, AlignUp(v, a));
  }

  lemma AlignUpWordIs(v: Word, a: Word, r: Word)
    requires 0 < a && v + a <= TWO64 && WAnd(v + a - 1, TWO64 - a) == r
    ensures AlignUpWord(v, a) == r
  {
    assert WSub(a, 1) == a - 1 && WAdd(v, a - 1) == v + a - 1;
  }

  // ------------------------------------------------------------- the power-of-two test

  lemma {:induction false} AndSelf(a: nat, n: nat)
    requires a < Pow2(n)
    ensures AndBits(a, a, n) == a
    decreases n
  {
    if n > 0 {
      AndSelf(a / 2, n - 1);
    }
  }

  lemma {:induction false} LowestBitTest(a: nat, n: nat) returns (k: nat)
    requires 0 < a < Pow2(n)
    ensures 0 <= AndBits(a, a - 1, n) < a
    ensures AndBits(a, a - 1, n) == 0 ==> a == Pow2(k)
    decreases n
  {
    if a % 2 == 1 {
      k := 0;
      AndSelf(a / 2, n - 1);
      assert (a - 1) / 2 == a / 2 && (a - 1) % 2 == 0;
    } else {
      assert (a - 1) / 2 == a / 2 - 1;
      k := LowestBitTest(a / 2, n - 1);
      k := k + 1;
    }
  }

  lemma {:induction false} Pow2Passes(k: nat, n: nat)
    requires k < n
    ensures AndBits(Pow2(k), Pow2(k) - 1, n) == 0
    decreases n
  {
    if k > 0 {
      Pow2Passes(k - 1, n - 1);
      assert (2 * Pow2(k - 1) - 1) / 2 == Pow2(k - 1) - 1;
    } else {
      ZeroBits(n - 1);
    }
  }

  lemma {:induction false} ZeroBits(n: nat)
    ensures AndBits(0, 0, n) == 0
  {
    if n > 0 {
      ZeroBits(n - 1);
    }
  }

  ghost predicate IsPow2(a: int) {
    exists k: nat :: a == Pow2(k)
  }

  lemma PowerTestBits(a: nat, n: nat) returns (r: nat)
    requires 0 < a < Pow2(n)
    ensures AndBits(a, a - 1, n) == r && r < a
    ensures r == 0 <==> IsPow2(a)
  {
    var k := LowestBitTest(a, n);
    r := AndBits(a, a - 1, n);
    if j: nat :| a == Pow2(j) {
      if j > n {
        Pow2Grows(n, j);
      }
      Pow2Passes(j, n);
    }
  }

  /** (align & (align - 1)) == 0 is the test for a power of two. */
  lemma PowerTestExact(a: Word)
    requires a > 0
    ensures WAnd(a, WSub(a, 1)) == 0 <==> IsPow2(a)
  {
    var n := Pow2Is64();
    var r := PowerTestBits(a, n);
    assert WSub(a, 1) == a - 1;
    WAndIs(a, a - 1, n, r);
  }

  // ------------------------------------------------------------------------- the arena

  datatype Region = Region(base: nat, cap: nat, off: nat)

  datatype Block = Block(at: nat, size: nat)

  predicate Apart(a: int, aLen: int, b: int, bLen: int) {
    a + aLen <= b || b + bLen <= a
  }

  predicate InRegion(b: Block, r: Region) {
    r.base <= b.at && b.at + b.size <= r.base + r.off
  }

  /** The alignment an allocation gets. */
  function EffectiveAlign(align: Word): (a: Word)
    ensures IsPow2(a) && a >= WORD_BYTES
    ensures IsPow2(align) && align >= WORD_BYTES ==> a == align
    ensures align < TWO61 ==> a < TWO61
  {
    var a := if align < WORD_BYTES then WORD_BYTES else align;
    PowerTestExact(a);
    assert Pow2(4) == 16;
    if WAnd(a, WSub(a, 1)) != 0 then MAX_ALIGN else a
  }

  /** Where in region `r` the next block would start. */
  function StartIn(r: Region, align: nat): nat
    requires align > 0
  {
    AlignUp(r.base + r.off, align) - r.base
  }

  predicate Fits(r: Region, rounded: nat, align: nat)
    requires align > 0
  {
    StartIn(r, align) <= r.cap && rounded <= r.cap - StartIn(r, align)
  }

  /** The first region from `i` on with room, |regions| when there is none. */
  function FirstFit(regions: seq<Region>, i: nat, rounded: nat, align: nat): (k: nat)
    requires i <= |regions| && align > 0
    ensures i <= k <= |regions|
    ensures k < |regions| ==> Fits(regions[k], rounded, align)
    decreases |regions| - i
  {
    if i == |regions| || Fits(regions[i], rounded, align) then i else FirstFit(regions, i + 1, rounded, align)
  }

  /** Addresses stay in the lower quarter of the address space, so no sum below wraps. */
  ghost predicate Addressable(r: Region) {
    r.base + r.cap < TWO62
  }

  ghost predicate RegionsOk(regions: seq<Region>, current: nat) {
    && current <= |regions|
    && (forall i :: 0 <= i < |regions| ==> regions[i].off <= regions[i].cap && Addressable(regions[i]))
    && (forall i :: current < i < |regions| ==> regions[i].off == 0)
    && (forall i, j :: 0 <= i < j < |regions| ==>
          Apart(regions[i].base, regions[i].cap, regions[j].base, regions[j].cap))
  }

  ghost predicate LiveOk(live: seq<Block>, regions: seq<Region>) {
    && (forall b :: b in live ==> exists i :: 0 <= i < |regions| && InRegion(b, regions[i]))
    && (forall i, j :: 0 <= i < j < |live| ==> Apart(live[i].at, live[i].size, live[j].at, live[j].size))
  }

  /** The masks of the source compute AlignUp for every alignment they are used with. */
  lemma AlignUpByMask(v: Word, a: Word)
    requires IsPow2(a) && a < TWO61 && v + a <= TWO64
    ensures AlignUpWord(v, a) == AlignUp(v, a)
  {
    var k: nat :| a == Pow2(k);
    var n := Pow2Is64();
    if k > n {
      Pow2Grows(n, k);
    }
    AlignUpExact(v, k);
  }

  /** A block taken at the end of what region `k` holds meets no live block. */
  lemma PlaceKeeps(regions: seq<Region>, current: nat, live: seq<Block>, k: nat, b: Block)
    requires RegionsOk(regions, current) && LiveOk(live, regions) && current <= k < |regions|
    requires regions[k].base + regions[k].off <= b.at && b.at + b.size <= regions[k].base + regions[k].cap
    ensures var after := regions[k := regions[k].(off := b.at + b.size - regions[k].base)];
            RegionsOk(after, k) && LiveOk(live + [b], after)
  {
    var after := regions[k := regions[k].(off := b.at + b.size - regions[k].base)];
    assert InRegion(b, after[k]);
    forall c | c in live
      ensures Apart(c.at, c.size, b.at, b.size)
      ensures exists i :: 0 <= i < |after| && InRegion(c, after[i])
    {
      var i :| 0 <= i < |regions| && InRegion(c, regions[i]);
      assert InRegion(c, after[i]);
      if i != k {
        assert Apart(regions[i].base, regions[i].cap, regions[k].base, regions[k].cap);
      }
    }
  }

  lemma PushKeeps(regions: seq<Region>, live: seq<Block>, r: Region)
    requires RegionsOk(regions, |regions|) && LiveOk(live, regions) && Addressable(r) && r.off == 0
    requires forall i :: 0 <= i < |regions| ==> Apart(regions[i].base, regions[i].cap, r.base, r.cap)
    ensures RegionsOk(regions + [r], |regions|) && LiveOk(live, regions + [r])
  {
    forall c | c in live
      ensures exists i :: 0 <= i < |regions + [r]| && InRegion(c, (regions + [r])[i])
    {
      var i :| 0 <= i < |regions| && InRegion(c, regions[i]);
      assert InRegion(c, (regions + [r])[i]);
    }
  }

  /** A request as the allocator serves it. */
  datatype Request = Request(bytes: nat, align: nat)

  function RequestOf(size: nat, align: Word): (q: Request)
    ensures q.bytes >= size && q.bytes > 0 && IsPow2(q.align) && q.align >= WORD_BYTES
    ensures q.bytes % q.align == 0
    ensures IsPow2(align) && align >= WORD_BYTES ==> q.align == align
    ensures size < TWO61 && align < TWO61 ==> q.bytes < TWO62 && q.align < TWO61
  {
    var a := EffectiveAlign(align);
    var bytes := if size == 0 then 1 else size;
    AlignUpLeast(bytes, a, 0);
    Request(AlignUp(bytes, a), a)
  }

  /** Region `r` with the request served at its end. */
  function Filled(r: Region, q: Request): Region
    requires q.align > 0
  {
    r.(off := StartIn(r, q.align) + q.bytes)
  }

  /** The regions once the `k`-th serves the request; `spare` is the new one when there is
      no k-th. */
  function Serve(regions: seq<Region>, k: nat, q: Request, spare: Region): seq<Region>
    requires k <= |regions| && q.align > 0
  {
    if k < |regions| then regions[k := Filled(regions[k], q)] else regions + [Filled(spare, q)]
  }

  class Arena {
    var regions: seq<Region>
    var current: nat                                         // |regions| stands for no region
    const regionSize: nat
    /** The blocks handed out since the last reset. */
    ghost var live: seq<Block>

    ghost predicate Valid()
      reads this
    {
      RegionsOk(regions, current) && LiveOk(live, regions) && regionSize < TWO61
    }

    constructor (regionSize: nat)
      requires regionSize < TWO61
      ensures Valid() && regions == [] && live == [] && this.regionSize == regionSize
    {
      regions, current, live := [], 0, [];
      this.regionSize := regionSize;
    }

    /** What the allocator asks the system for when no region has room. */
    function NewCap(q: Request): nat {
      var default := if regionSize != 0 then regionSize else BLOCK_SIZE;
      if q.bytes + q.align > default then q.bytes + q.align else default
    }

    /** The aligned address behind what region `k` holds. */
    method Place(k: nat, a: Word) returns (p: nat)
      requires k < |regions| && Addressable(regions[k]) && regions[k].off <= regions[k].cap && IsPow2(a) && a < TWO61
      ensures p == regions[k].base + StartIn(regions[k], a) && p % a == 0
      ensures regions[k].base + regions[k].off <= p < regions[k].base + regions[k].off + a
    {
      var v: Word := regions[k].base + regions[k].off;
      AlignUpByMask(v, a);
      AlignUpLeast(v, a, 0);
      p := AlignUpWord(v, a);
    }

    method Take(k: nat, p: nat, q: Request)
      requires Valid() && current <= k < |regions| && q.align > 0
      requires p == regions[k].base + StartIn(regions[k], q.align) && Fits(regions[k], q.bytes, q.align)
      modifies this
      ensures Valid() && current == k && live == old(live) + [Block(p, q.bytes)]
      ensures regions == old(regions)[k := Filled(old(regions)[k], q)]
    {
      PlaceKeeps(regions, current, live, k, Block(p, q.bytes));
      regions := regions[k := regions[k].(off := p + q.bytes - regions[k].base)];
      current := k;
      live := live + [Block(p, q.bytes)];
    }

    /** What calloc promises of a new region. */
    ghost predicate FreshRegion(base: nat, cap: nat)
      reads this
    {
      base + cap < TWO62 && forall i :: 0 <= i < |regions| ==> Apart(regions[i].base, regions[i].cap, base, cap)
    }

    /** arena_alloc_aligned; `base` is where the system puts a new region.  That the new
        block lies in a region, after what the region held, and meets no live block, is
        what Valid says of the longer list. */
    method AllocAligned(size: Word, align: Word, base: nat) returns (p: nat)
      requires Valid() && size < TWO61 && align < TWO61
      requires FreshRegion(base, NewCap(RequestOf(size, align)))
      modifies this
      ensures Valid() && p % RequestOf(size, align).align == 0
      ensures live == old(live) + [Block(p, RequestOf(size, align).bytes)]
      ensures Served(old(regions), old(current), RequestOf(size, align), base)
    {
      var bytes: Word := if size == 0 then 1 else size;
      var a := EffectiveAlign(align);
      AlignUpByMask(bytes, a);
      var n := AlignUpWord(bytes, a);
      assert Request(n, a) == RequestOf(size, align);
      p := Alloc(Request(n, a), base);
    }

    /** The first region with room from the old current one serves the request. */
    ghost predicate Served(before: seq<Region>, from: nat, q: Request, base: nat)
      requires q.align > 0 && from <= |before|
      reads this
    {
      && current == FirstFit(before, from, q.bytes, q.align)
      && regions == Serve(before, current, q, Region(base, NewCap(q), 0))
    }

    method Alloc(q: Request, base: nat) returns (p: nat)
      requires Valid() && IsPow2(q.align) && 0 < q.align < TWO61 && q.bytes < TWO62 && FreshRegion(base, NewCap(q))
      modifies this
      ensures Valid() && p % q.align == 0 && live == old(live) + [Block(p, q.bytes)]
      ensures Served(old(regions), old(current), q, base)
    {
      while current < |regions|
        invariant Valid() && old(current) <= current
        invariant FirstFit(regions, old(current), q.bytes, q.align) == FirstFit(regions, current, q.bytes, q.align)
        invariant regions == old(regions) && live == old(live)
        decreases |regions| - current
      {
        p := Place(current, q.align);
        var start := p - regions[current].base;
        if start <= regions[current].cap && q.bytes <= regions[current].cap - start {
          Take(current, p, q);
          return;
        }
        current := current + 1;
      }
      PushRegion(base, NewCap(q));
      p := Place(current, q.align);
      Take(current, p, q);
    }

    /** arena_push_region. */
    method PushRegion(base: nat, cap: nat)
      requires Valid() && current == |regions| && FreshRegion(base, cap)
      modifies this
      ensures Valid() && live == old(live) && current == old(current)
      ensures regions == old(regions) + [Region(base, cap, 0)]
    {
      PushKeeps(regions, live, Region(base, cap, 0));
      regions := regions + [Region(base, cap, 0)];
    }

    /** arena_reset: every region is empty again and none is given up. */
    method Reset()
      requires Valid()
      modifies this
      ensures Valid() && live == [] && current == 0 && |regions| == |old(regions)|
      ensures forall i :: 0 <= i < |regions| ==> regions[i] == old(regions)[i].(off := 0)
    {
      var i := 0;
      while i < |regions|
        invariant i <= |regions| && |regions| == |old(regions)|
        invariant forall k :: 0 <= k < i ==> regions[k] == old(regions)[k].(off := 0)
        invariant forall k :: i <= k < |regions| ==> regions[k] == old(regions)[k]
      {
        regions := regions[i := regions[i].(off := 0)];
        i := i + 1;
      }
      current := 0;
      live := [];
    }
  }
}
