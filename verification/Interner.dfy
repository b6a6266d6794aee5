/** The string interner of src/base/intern.c: a table of entries, an open-addressing map
    from strings to ids, an open-addressing set of the pointers handed out and a
    direct-mapped cache in front of it. */
module Interner {
  import opened Common
  import opened Probe

  const TABLE_CAP: nat := 4096
  const MAP_CAP: nat := 8192
  const PTR_MAP_CAP: nat := 8192
  const CACHE_SLOTS: nat := 8192

  datatype Entry = Entry(ptr: nat, str: string, hash: nat)

  /** Where the map starts looking for an id. */
  function HomeOf(table: seq<Entry>): nat -> nat {
    (id: nat) => if id < |table| then table[id].hash else 0
  }

  function CacheSlot(ptr: nat): (i: nat)
    ensures i < CACHE_SLOTS
  {
    (ptr / 8) % CACHE_SLOTS
  }

  function Strs(table: seq<Entry>): (r: seq<string>)
    ensures |r| == |table|
  {
    seq(|table|, i requires 0 <= i < |table| => table[i].str)
  }

  // ------------------------------------------------------------------ abstract interner

  /** The table once it exists: id 0 is the empty string. */
  function Started(strs: seq<string>): seq<string> {
    if strs == [] then [""] else strs
  }

  function IndexOf(strs: seq<string>, s: string): (i: nat)
    requires s in strs
    ensures i < |strs| && strs[i] == s && forall j :: 0 <= j < i ==> strs[j] != s
  {
    if strs[0] == s then 0 else 1 + IndexOf(strs[1..], s)
  }

  /** One intern call on the list of strings: the list after it and the id. */
  function InternStep(strs: seq<string>, s: string): (r: (seq<string>, nat)) {
    if s == "" then (strs, 0)
    else
      var t := Started(strs);
      if s in t then (t, IndexOf(t, s)) else (t + [s], |t|)
  }

  /** A run of intern calls: the list at the end and the ids, in order. */
  function InternRun(strs: seq<string>, calls: seq<string>): (r: (seq<string>, seq<nat>))
    ensures |r.1| == |calls|
    decreases |calls|
  {
    if calls == [] then (strs, [])
    else
      var step := InternStep(strs, calls[0]);
      var rest := InternRun(step.0, calls[1..]);
      (rest.0, [step.1] + rest.1)
  }

  /** What the list of a started interner is: the empty string first, and no string twice. */
  ghost predicate Interned(strs: seq<string>) {
    (strs != [] ==> strs[0] == "") && Distinct(strs)
  }

  lemma StepKeeps(strs: seq<string>, s: string)
    requires Interned(strs)
    ensures var (t, id) := InternStep(strs, s);
            && Interned(t) && strs <= t
            && (s != "" ==> 0 < id < |t| && t[id] == s && |t| <= |Started(strs)| + 1)
  {
  }

  /** Earlier ids keep their strings through any further calls, and each call's id
      stands for the string of that call. */
  lemma {:induction false} RunKeeps(strs: seq<string>, calls: seq<string>)
    requires Interned(strs)
    ensures var (t, ids) := InternRun(strs, calls);
            && Interned(t) && strs <= t
            && forall k :: 0 <= k < |calls| && calls[k] != "" ==> 0 < ids[k] < |t| && t[ids[k]] == calls[k]
    decreases |calls|
  {
    if calls != [] {
      StepKeeps(strs, calls[0]);
      RunKeeps(InternStep(strs, calls[0]).0, calls[1..]);
    }
  }

  /** Over any run of calls two nonempty strings get the same id exactly when they are equal. */
  lemma SameIdIffEqual(strs: seq<string>, calls: seq<string>, i: nat, j: nat)
    requires Interned(strs) && i < |calls| && j < |calls| && calls[i] != "" && calls[j] != ""
    ensures var ids := InternRun(strs, calls).1; ids[i] == ids[j] <==> calls[i] == calls[j]
  {
    RunKeeps(strs, calls);
  }

  // ------------------------------------------------------------------------ the state

  ghost function Ptrs(table: seq<Entry>): set<nat> {
    set i | 0 <= i < |table| :: table[i].ptr
  }

  /** The ids of a table of `n` entries, without the empty string's. */
  ghost function Ids(n: nat): (r: set<nat>)
    ensures forall i: nat :: i in r <==> 1 <= i < n
  {
    if n <= 1 then {} else Ids(n - 1) + {n - 1}
  }

  /** The map holds the ids 1 .. |table| - 1, each where a probe for its hash meets it. */
  ghost predicate MapHolds(map_: seq<Slot<nat>>, table: seq<Entry>) {
    Probe.Valid(map_, HomeOf(table)) && Items(map_) == Ids(|table|) && |FullSlots(map_)| + 1 == |table|
  }

  lemma PtrsAppend(table: seq<Entry>, e: Entry)
    ensures Ptrs(table + [e]) == Ptrs(table) + {e.ptr}
  {
    var t := table + [e];
    assert t[|table|] == e;
    forall i | 0 <= i < |table|
      ensures table[i].ptr in Ptrs(t)
    {
      assert t[i] == table[i];
    }
  }

  lemma StrsAppend(table: seq<Entry>, e: Entry)
    ensures Strs(table + [e]) == Strs(table) + [e.str]
  {
  }

  /** Growing the table moves no id's home. */
  lemma HomesStay(map_: seq<Slot<nat>>, table: seq<Entry>, e: Entry)
    requires MapHolds(map_, table)
    ensures Probe.Valid(map_, HomeOf(table + [e]))
  {
    var home, home2 := HomeOf(table), HomeOf(table + [e]);
    forall i | 0 <= i < |map_| && map_[i].Full?
      ensures Reached(map_, home2(map_[i].item), i)
    {
      assert map_[i].item in Items(map_);
      assert home2(map_[i].item) == home(map_[i].item);
    }
  }

  lemma FirstPtr(table: seq<Entry>)
    requires table != []
    ensures Ptrs(table) == Ptrs(table) + {table[0].ptr} && Strs(table) != []
    ensures |table| == 1 ==> Ptrs(table) == {table[0].ptr} && Strs(table) == [table[0].str]
  {
  }

  /** A new entry keeps what the table promises. */
  lemma AppendKeeps(table: seq<Entry>, e: Entry, hash: string -> nat)
    requires table != [] && Hashed(table, hash) && Interned(Strs(table)) && 0 !in Ptrs(table)
    requires e.str != "" && e.hash == hash(e.str) && e.str !in Strs(table) && e.ptr != 0
    ensures Hashed(table + [e], hash) && Interned(Strs(table + [e])) && 0 !in Ptrs(table + [e])
    ensures Strs(table + [e]) == Strs(table) + [e.str] && Ptrs(table + [e]) == Ptrs(table) + {e.ptr}
  {
    PtrsAppend(table, e);
    StrsAppend(table, e);
    StepKeeps(Strs(table), e.str);
  }

  lemma IdIsIndex(strs: seq<string>, s: string, id: nat)
    requires Interned(strs) && id < |strs| && strs[id] == s
    ensures s in strs && IndexOf(strs, s) == id
  {
  }

  // --------------------------------------------------------------------- the id map

  /** Every entry but the first is a nonempty string with its hash. */
  ghost predicate Hashed(table: seq<Entry>, hash: string -> nat) {
    forall i :: 1 <= i < |table| ==> table[i].str != "" && table[i].hash == hash(table[i].str)
  }

  /** The string of slot `i` is not `s`. */
  ghost predicate Differs(map_: seq<Slot<nat>>, table: seq<Entry>, i: nat, s: string) {
    i < |map_| && map_[i].Full? ==> map_[i].item < |table| && table[map_[i].item].str != s
  }

  /** Nor of any of the first `n` slots met from `start`. */
  ghost predicate NoneBefore(map_: seq<Slot<nat>>, table: seq<Entry>, start: nat, n: nat, s: string) {
    |map_| > 0 && (n == 0 ||
      (NoneBefore(map_, table, start, n - 1, s) && Differs(map_, table, At(start, n - 1, |map_|), s)))
  }

  lemma {:induction false} NoneBeforeAt(map_: seq<Slot<nat>>, table: seq<Entry>, start: nat, n: nat, s: string, k: nat)
    requires NoneBefore(map_, table, start, n, s) && k < n
    ensures Differs(map_, table, At(start, k, |map_|), s)
  {
    if k < n - 1 {
      NoneBeforeAt(map_, table, start, n - 1, s, k);
    }
  }

  lemma SlotHoldsId(map_: seq<Slot<nat>>, table: seq<Entry>, i: nat)
    requires MapHolds(map_, table) && i < |map_| && map_[i].Full?
    ensures 1 <= map_[i].item < |table|
  {
    assert map_[i].item in Items(map_);
  }

  lemma MissMeansAbsent(map_: seq<Slot<nat>>, table: seq<Entry>, hash: string -> nat, s: string, gap: nat)
    requires MapHolds(map_, table) && Hashed(table, hash) && s != "" && table != [] && table[0].str == ""
    requires GapAt(map_, hash(s), gap)
    requires NoneBefore(map_, table, hash(s), gap, s)
    ensures s !in Strs(table)
  {
    if s in Strs(table) {
      var j: nat :| j < |table| && Strs(table)[j] == s;
      BeforeGap(map_, HomeOf(table), j, gap);
      var k: nat :| k < gap && map_[At(hash(s), k, |map_|)] == Full(j);
      NoneBeforeAt(map_, table, hash(s), gap, s, k);
      assert false;
    }
  }

  /** The search loop of ny_intern_str: the id of the string, or 0 and the empty slot. */
  method Find(map_: seq<Slot<nat>>, table: seq<Entry>, hash: string -> nat, s: string)
    returns (id: nat, idx: nat, ghost gap: nat)
    requires MapHolds(map_, table) && Hashed(table, hash) && s != "" && table != [] && table[0].str == ""
    requires |table| <= |map_|
    ensures id != 0 ==> id < |table| && table[id].str == s
    ensures id == 0 ==> s !in Strs(table)
    ensures id == 0 ==> GapAt(map_, hash(s), gap) && idx == At(hash(s), gap, |map_|)
  {
    var h := hash(s);
    ghost var e := EmptyWithinReach(map_, h);
    idx := h % |map_|;
    gap := 0;
    while map_[idx].Full?
      invariant idx == At(h, gap, |map_|) && Taken(map_, h, gap) && gap <= e
      invariant NoneBefore(map_, table, h, gap, s)
      decreases e - gap
    {
      id := map_[idx].item;
      SlotHoldsId(map_, table, idx);
      if table[id].hash == h && table[id].str == s {
        return;
      }
      idx := Next(idx, |map_|);
      gap := gap + 1;
    }
    id := 0;
    MissMeansAbsent(map_, table, hash, s, gap);
  }

  /** Entering the next id keeps the map right for the longer table. */
  lemma EnterMap(map_: seq<Slot<nat>>, table: seq<Entry>, e: Entry, idx: nat, gap: nat)
    requires MapHolds(map_, table)
    requires GapAt(map_, e.hash, gap) && idx == At(e.hash, gap, |map_|)
    ensures MapHolds(map_[idx := Full(|table|)], table + [e])
  {
    HomesStay(map_, table, e);
    InsertValid(map_, HomeOf(table + [e]), |table|, gap);
  }

  /** The search loop of ny_intern_contains_ptr. */
  method LookupPtr(ptrMap: seq<Slot<nat>>, ptrHash: nat -> nat, ptr: nat) returns (found: bool)
    requires Probe.Valid(ptrMap, ptrHash) && |FullSlots(ptrMap)| < |ptrMap|
    ensures found <==> ptr in Items(ptrMap)
  {
    ghost var e := EmptyWithinReach(ptrMap, ptrHash(ptr));
    var idx := ptrHash(ptr) % |ptrMap|;
    ghost var gap := 0;
    while ptrMap[idx].Full?
      invariant idx == At(ptrHash(ptr), gap, |ptrMap|) && Taken(ptrMap, ptrHash(ptr), gap) && gap <= e
      invariant forall k: nat :: k < gap ==> ptrMap[At(ptrHash(ptr), k, |ptrMap|)] != Full(ptr)
      decreases e - gap
    {
      if ptrMap[idx].item == ptr {
        return true;
      }
      idx := Next(idx, |ptrMap|);
      gap := gap + 1;
    }
    if ptr in Items(ptrMap) {
      BeforeGap(ptrMap, ptrHash, ptr, gap);
    }
    return false;
  }

  /** Growth of the id map: the ids are entered afresh from the table's hashes. */
  method Refill(table: seq<Entry>, cap: nat) returns (map_: seq<Slot<nat>>)
    requires 1 <= |table| <= cap
    ensures |map_| == cap && MapHolds(map_, table)
  {
    map_ := Blank(cap);
    BlankIsEmpty<nat>(cap, HomeOf(table));
    var i := 1;
    while i < |table|
      invariant 1 <= i <= |table| && |map_| == cap && Probe.Valid(map_, HomeOf(table))
      invariant Items(map_) == Ids(i) && |FullSlots(map_)| + 1 == i
    {
      map_ := Probe.Insert(map_, HomeOf(table), i);
      i := i + 1;
    }
  }

  class Interner {
    const hash: string -> nat
    const ptrHash: nat -> nat
    /** The static empty string of entry 0. */
    const emptyPtr: nat
    var table: seq<Entry>
    var tableCap: nat
    var map_: seq<Slot<nat>>
    var ptrCache: seq<nat>
    var ptrMap: seq<Slot<nat>>
    var ptrMapLen: nat

    ghost predicate TableOk()
      reads this
    {
      && table != [] && table[0] == Entry(emptyPtr, "", 0) && |table| <= tableCap
      && Hashed(table, hash)
      && 0 !in Ptrs(table) && Interned(Strs(table))
    }

    ghost predicate MapOk()
      reads this
    {
      MapHolds(map_, table) && |table| * 10 <= |map_| * 7
    }

    ghost predicate PtrMapOk(ptrs: set<nat>)
      reads this
    {
      && Probe.Valid(ptrMap, ptrHash)
      && Items(ptrMap) == ptrs
      && |FullSlots(ptrMap)| == ptrMapLen
      && ptrMapLen * 10 <= |ptrMap| * 7 && |ptrMap| >= PTR_MAP_CAP
    }

    ghost predicate CacheOk()
      reads this
    {
      |ptrCache| == CACHE_SLOTS && forall k :: 0 <= k < CACHE_SLOTS ==> ptrCache[k] == 0 || ptrCache[k] in Pointers()
    }

    /** Before the first use and after a cleanup there is no table; then nothing is remembered. */
    ghost predicate Valid()
      reads this
    {
      CacheOk() && emptyPtr != 0 && (table != [] ==> TableOk() && MapOk() && PtrMapOk(Pointers()))
    }

    /** The pointers handed out and not freed. */
    ghost function Pointers(): set<nat>
      reads this
    {
      Ptrs(table)
    }

    constructor (hash: string -> nat, ptrHash: nat -> nat, emptyPtr: nat)
      requires emptyPtr != 0
      ensures Valid() && table == []
      ensures this.hash == hash && this.ptrHash == ptrHash && this.emptyPtr == emptyPtr
    {
      this.hash, this.ptrHash, this.emptyPtr := hash, ptrHash, emptyPtr;
      table, tableCap, map_, ptrMap, ptrMapLen := [], 0, [], [], 0;
      ptrCache := seq(CACHE_SLOTS, _ => 0);
    }

    /** ny_intern_ptr_map_put, with ny_intern_ptr_map_resize. */
    method PtrMapPut(ptr: nat, ghost ptrs: set<nat>)
      requires ptr != 0 && PtrMapOk(ptrs)
      modifies this`ptrMap, this`ptrMapLen
      ensures PtrMapOk(ptrs + {ptr})
    {
      if (ptrMapLen + 1) * 10 > |ptrMap| * 7 {
        ptrMap := Rehash(ptrMap, ptrHash, |ptrMap| * 2);
      }
      ghost var e := EmptyWithinReach(ptrMap, ptrHash(ptr));
      var idx := ptrHash(ptr) % |ptrMap|;
      ghost var gap := 0;
      while ptrMap[idx].Full?
        invariant idx == At(ptrHash(ptr), gap, |ptrMap|) && Taken(ptrMap, ptrHash(ptr), gap) && gap <= e
        decreases e - gap
      {
        if ptrMap[idx].item == ptr {
          assert ptr in Items(ptrMap);
          assert ptrs + {ptr} == ptrs;
          return;
        }
        idx := Next(idx, |ptrMap|);
        gap := gap + 1;
      }
      InsertValid(ptrMap, ptrHash, ptr, gap);
      ptrMap := ptrMap[idx := Full(ptr)];
      ptrMapLen := ptrMapLen + 1;
    }

    /** The body of ny_intern_init. */
    method Start()
      requires table == [] && CacheOk() && emptyPtr != 0
      modifies this`table, this`tableCap, this`map_, this`ptrMap, this`ptrMapLen
      ensures table == [Entry(emptyPtr, "", 0)] && TableOk() && MapOk() && PtrMapOk({emptyPtr})
    {
      tableCap := TABLE_CAP;
      table := [Entry(emptyPtr, "", 0)];
      map_ := Blank(MAP_CAP);
      BlankIsEmpty<nat>(MAP_CAP, HomeOf(table));
      ptrMap := Blank(PTR_MAP_CAP);
      BlankIsEmpty<nat>(PTR_MAP_CAP, ptrHash);
      ptrMapLen := 0;
      PtrMapPut(emptyPtr, {});
      assert {} + {emptyPtr} == {emptyPtr};
    }

    /** ny_intern_init. */
    method Init()
      requires Valid()
      modifies this`table, this`tableCap, this`map_, this`ptrMap, this`ptrMapLen
      ensures Valid() && table != [] && old(table) <= table && Strs(table) == Started(old(Strs(table)))
      ensures Pointers() == old(Pointers()) + {emptyPtr}
    {
      if table != [] {
        FirstPtr(table);
        return;
      }
      Start();
      FirstPtr(table);
    }

    /** ny_intern_str; `ptr` is the address the allocator gives a new copy. */
    method Intern(s: string, ptr: nat) returns (id: nat)
      requires Valid() && ptr != 0 && ptr != emptyPtr && ptr !in Pointers()
      modifies this
      ensures Valid() && old(table) <= table
      ensures (Strs(table), id) == InternStep(old(Strs(table)), s)
      ensures Pointers() ==
              if s == "" then old(Pointers())
              else if s in Started(old(Strs(table))) then old(Pointers()) + {emptyPtr}
              else old(Pointers()) + {emptyPtr} + {ptr}
    {
      if s == "" {
        return 0;
      }
      Init();
      id := InternStarted(s, ptr);
    }

    /** ny_intern_str once there is a table. */
    method InternStarted(s: string, ptr: nat) returns (id: nat)
      requires Valid() && table != [] && s != "" && ptr != 0 && ptr !in Pointers()
      modifies this
      ensures Valid() && old(table) <= table
      ensures var t := old(Strs(table));
              if s in t then Strs(table) == t && id == IndexOf(t, s) && Pointers() == old(Pointers())
              else Strs(table) == t + [s] && id == |t| && Pointers() == old(Pointers()) + {ptr}
    {
      var idx;
      ghost var gap;
      id, idx, gap := Find(map_, table, hash, s);
      if id != 0 {
        IdIsIndex(Strs(table), s, id);
      } else {
        id := |table|;
        Enter(s, ptr, idx, gap);
      }
    }

    /** The second half of ny_intern_str: a new entry, at slot `idx` of the id map. */
    method Enter(s: string, ptr: nat, idx: nat, ghost gap: nat)
      requires Valid() && table != [] && ptr != 0
      requires s != "" && s !in Strs(table)
      requires GapAt(map_, hash(s), gap) && idx == At(hash(s), gap, |map_|)
      modifies this
      ensures Valid() && table == old(table) + [Entry(ptr, s, hash(s))]
      ensures Strs(table) == old(Strs(table)) + [s] && Pointers() == old(Pointers()) + {ptr}
    {
      ghost var before := table;
      var e := Entry(ptr, s, hash(s));
      AppendKeeps(table, e, hash);
      if |table| >= tableCap {
        tableCap := tableCap * 2;
      }
      var id := |table|;
      table := table + [e];
      ptrCache := ptrCache[CacheSlot(ptr) := ptr];
      PtrMapPut(ptr, Ptrs(before));
      EnterMap(map_, before, e, idx, gap);
      MapPut(id, idx);
    }

    /** The id goes into the map, which then grows when it is 70 percent full. */
    method MapPut(id: nat, idx: nat)
      requires idx < |map_| && MapHolds(map_[idx := Full(id)], table) && |table| <= |map_|
      requires table != []
      modifies this`map_
      ensures MapOk()
    {
      map_ := map_[idx := Full(id)];
      if |table| * 10 > |map_| * 7 {
        map_ := Refill(table, |map_| * 2);
      }
    }

    /** ny_intern_get. */
    method Get(id: nat) returns (s: string)
      ensures s == if id < |table| then Strs(table)[id] else ""
    {
      if id >= |table| {
        return "";
      }
      return table[id].str;
    }

    /** ny_intern_contains_ptr. */
    method ContainsPtr(ptr: nat) returns (found: bool)
      requires Valid()
      modifies this`ptrCache
      ensures Valid() && (found <==> ptr in Pointers())
    {
      if ptr == 0 || table == [] {
        return false;
      }
      var slot := CacheSlot(ptr);
      if ptrCache[slot] == ptr {
        return true;
      }
      found := LookupPtr(ptrMap, ptrHash, ptr);
      if found {
        ptrCache := ptrCache[slot := ptr];
      }
    }

    /** ny_intern_cleanup_full. */
    method Cleanup()
      requires Valid()
      modifies this
      ensures Valid() && table == [] && Pointers() == {}
    {
      if table == [] {
        return;
      }
      table, tableCap, map_, ptrMap, ptrMapLen := [], 0, [], [], 0;
      ptrCache := seq(CACHE_SLOTS, _ => 0);
    }
  }
}
