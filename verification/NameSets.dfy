/** The name sets of src/code/code.h and src/code/core.c: parallel lists behind a Bloom
    filter, an open-addressing set for the larger ones, and the scopes of
    src/code/funcpurity.c, which cut the lists back. */
module NameSets {
  import Ast
  import opened Probe

  // ------------------------------------------------------------------ the Bloom filter

  /** Word and mask of the bit for one byte of the hash. */
  function Word(b: bv64): (i: nat)
    ensures i < 4
  {
    var w := (b & 255) >> 6;
    if w == 0 then 0 else if w == 1 then 1 else if w == 2 then 2 else 3
  }

  function Mask(b: bv64): bv64 {
    1 << (b & 63)
  }

  /** The two bytes of the hash the filter looks at. */
  function Low(hash: bv64): bv64 {
    hash & 255
  }

  function High(hash: bv64): bv64 {
    (hash >> 8) & 255
  }

  predicate BitSet(bloom: seq<bv64>, b: bv64)
    requires |bloom| == 4
  {
    bloom[Word(b)] & Mask(b) != 0
  }

  function WithBit(bloom: seq<bv64>, b: bv64): (r: seq<bv64>)
    requires |bloom| == 4
    ensures |r| == 4
  {
    bloom[Word(b) := bloom[Word(b)] | Mask(b)]
  }

  /** ny_name_bloom_maybe_has. */
  predicate MaybeHas(bloom: seq<bv64>, hash: bv64)
    requires |bloom| == 4
  {
    BitSet(bloom, Low(hash)) && BitSet(bloom, High(hash))
  }

  /** ny_name_bloom_add. */
  function WithHash(bloom: seq<bv64>, hash: bv64): (r: seq<bv64>)
    requires |bloom| == 4
    ensures |r| == 4
  {
    WithBit(WithBit(bloom, Low(hash)), High(hash))
  }

  /** Two masks meet exactly when they are for the same bit. */
  lemma MasksMeet(x: bv64, y: bv64)
    ensures Mask(x) & Mask(y) != 0 <==> x & 63 == y & 63
  {
  }

  lemma OrMeets(w: bv64, m: bv64, k: bv64)
    ensures (w | m) & k != 0 <==> w & k != 0 || m & k != 0
  {
  }

  lemma SameBit(b: bv64, c: bv64)
    ensures Word(b) == Word(c) && b & 63 == c & 63 <==> b & 255 == c & 255
  {
  }

  /** Setting a bit sets that bit and no other. */
  lemma BitAdded(bloom: seq<bv64>, b: bv64, c: bv64)
    requires |bloom| == 4
    ensures BitSet(WithBit(bloom, b), c) <==> BitSet(bloom, c) || b & 255 == c & 255
  {
    SameBit(b, c);
    MasksMeet(b, c);
    OrMeets(bloom[Word(b)], Mask(b), Mask(c));
  }

  function FilterOf(hashes: seq<bv64>): (r: seq<bv64>)
    ensures |r| == 4
  {
    if hashes == [] then [0, 0, 0, 0] else WithHash(FilterOf(hashes[..|hashes| - 1]), hashes[|hashes| - 1])
  }

  /** The bytes added with some hash of the list. */
  function BytesOf(hashes: seq<bv64>): set<bv64> {
    if hashes == [] then {}
    else BytesOf(hashes[..|hashes| - 1]) + {Low(hashes[|hashes| - 1]), High(hashes[|hashes| - 1])}
  }

  predicate IsByte(b: bv64) {
    b & 255 == b
  }

  lemma BytesMasked(h: bv64)
    ensures IsByte(Low(h)) && IsByte(High(h))
  {
  }

  lemma ByteAdded(bloom: seq<bv64>, b: bv64, c: bv64)
    requires |bloom| == 4 && IsByte(b) && IsByte(c)
    ensures BitSet(WithBit(bloom, b), c) <==> BitSet(bloom, c) || b == c
  {
    BitAdded(bloom, b, c);
  }

  lemma HashAdded(bloom: seq<bv64>, h: bv64, b: bv64)
    requires |bloom| == 4 && IsByte(b)
    ensures BitSet(WithHash(bloom, h), b) <==> BitSet(bloom, b) || b in {Low(h), High(h)}
  {
    BytesMasked(h);
    ByteAdded(bloom, Low(h), b);
    ByteAdded(WithBit(bloom, Low(h)), High(h), b);
  }

  lemma NoBits(b: bv64)
    ensures !BitSet([0, 0, 0, 0], b)
  {
    assert 0 & Mask(b) == 0;
  }

  lemma {:induction false} FilterBits(hashes: seq<bv64>, b: bv64)
    requires IsByte(b)
    ensures BitSet(FilterOf(hashes), b) <==> b in BytesOf(hashes)
    decreases |hashes|
  {
    if hashes == [] {
      NoBits(b);
    } else {
      var rest := hashes[..|hashes| - 1];
      FilterBits(rest, b);
      HashAdded(FilterOf(rest), hashes[|hashes| - 1], b);
    }
  }

  lemma {:induction false} BytesAdded(hashes: seq<bv64>, i: nat)
    requires i < |hashes|
    ensures Low(hashes[i]) in BytesOf(hashes) && High(hashes[i]) in BytesOf(hashes)
    decreases |hashes|
  {
    if i < |hashes| - 1 {
      BytesAdded(hashes[..|hashes| - 1], i);
    }
  }

  /** The filter lets a hash through exactly when both its low bytes have been added, each
      by some hash. */
  lemma FilterExact(hashes: seq<bv64>, hash: bv64)
    ensures MaybeHas(FilterOf(hashes), hash) <==> Low(hash) in BytesOf(hashes) && High(hash) in BytesOf(hashes)
  {
    BytesMasked(hash);
    FilterBits(hashes, Low(hash));
    FilterBits(hashes, High(hash));
  }

  /** No false negatives. */
  lemma NeverMissed(hashes: seq<bv64>, i: nat)
    requires i < |hashes|
    ensures MaybeHas(FilterOf(hashes), hashes[i])
  {
    FilterExact(hashes, hashes[i]);
    BytesAdded(hashes, i);
  }

  // -------------------------------------------------------------------- list and filter

  function Hashes(names: seq<string>, hash: string -> bv64): (r: seq<bv64>)
    ensures |r| == |names| && forall i :: 0 <= i < |r| ==> r[i] == hash(names[i])
  {
    seq(|names|, i requires 0 <= i < |names| => hash(names[i]))
  }

  datatype Checkpoint = Checkpoint(nameLen: nat, hashLen: nat, bloom: seq<bv64>)

  /** Adding a name to a plain list without repetition. */
  function Added(names: seq<string>, name: string): seq<string> {
    if name == "" || name in names then names else names + [name]
  }

  class NameList {
    const hash: string -> bv64
    var names: seq<string>
    var hashes: seq<bv64>
    const bloom: array<bv64>

    ghost predicate Valid()
      reads this, bloom
    {
      && bloom.Length == 4 && "" !in names
      && hashes == Hashes(names, hash) && bloom[..] == FilterOf(hashes)
    }

    constructor (hash: string -> bv64)
      ensures Valid() && fresh(bloom) && names == [] && this.hash == hash
    {
      this.hash := hash;
      names, hashes := [], [];
      bloom := new bv64[4](_ => 0);
    }

    lemma NotListed(name: string, h: bv64)
      requires Valid() && h == hash(name) && !MaybeHas(bloom[..], h)
      ensures name !in names
    {
      forall i: nat | i < |names|
        ensures names[i] != name
      {
        NeverMissed(hashes, i);
      }
    }

    /** assigned_name_has, with ny_name_set_has_hash. */
    method Has(name: string, h: bv64) returns (found: bool)
      requires Valid() && h == hash(name)
      ensures found <==> name in names
    {
      if |names| == 0 {
        return false;
      }
      if !MaybeHas(bloom[..], h) {
        NotListed(name, h);
        return false;
      }
      var hasHashes := |hashes| == |names|;
      for i := 0 to |names|
        invariant name !in names[..i]
      {
        if hasHashes && hashes[i] != h {
          continue;
        }
        if names[i] == name {
          return true;
        }
      }
      return false;
    }

    /** assigned_name_contains. */
    method Contains(name: string) returns (found: bool)
      requires Valid()
      ensures found <==> name in names
    {
      if name == "" {
        return false;
      }
      found := Has(name, hash(name));
    }

    /** assigned_name_add. */
    method Add(name: string)
      requires Valid()
      modifies this, bloom
      ensures Valid() && names == Added(old(names), name)
    {
      if name == "" {
        return;
      }
      var h := hash(name);
      var found := Has(name, h);
      if found {
        return;
      }
      Push(name, h);
    }

    method Push(name: string, h: bv64)
      requires Valid() && name != "" && h == hash(name)
      modifies this, bloom
      ensures Valid() && names == old(names) + [name]
    {
      assert (hashes + [h])[..|hashes|] == hashes;
      names := names + [name];
      hashes := hashes + [h];
      AddBit(Low(h));
      AddBit(High(h));
    }

    method AddBit(b: bv64)
      requires bloom.Length == 4
      modifies bloom
      ensures bloom[..] == WithBit(old(bloom[..]), b)
    {
      bloom[Word(b)] := bloom[Word(b)] | Mask(b);
    }

    /** ny_purity_scope_save. */
    method Save() returns (cp: Checkpoint)
      requires Valid()
      ensures cp == Checkpoint(|names|, |names|, bloom[..])
    {
      cp := Checkpoint(|names|, |hashes|, bloom[..]);
    }

    /** ny_purity_scope_restore; the checkpoint is of an earlier state of the list. */
    method Restore(cp: Checkpoint)
      requires Valid() && cp.nameLen == cp.hashLen <= |names| && cp.bloom == FilterOf(hashes[..cp.hashLen])
      modifies this, bloom
      ensures Valid() && names == old(names)[..cp.nameLen] && bloom[..] == cp.bloom
    {
      HashesPrefix(names[..cp.nameLen], names, hash);
      names := names[..cp.nameLen];
      hashes := hashes[..cp.hashLen];
      CopyBloom(cp.bloom);
    }

    method CopyBloom(words: seq<bv64>)
      requires bloom.Length == |words| == 4
      modifies bloom
      ensures bloom[..] == words
    {
      bloom[0] := words[0];
      bloom[1] := words[1];
      bloom[2] := words[2];
      bloom[3] := words[3];
    }
  }

  // ------------------------------------------------------------------------ scopes nest

  /** What a walk does with its list of local names. */
  datatype Item = Declare(name: string) | Lookup(name: string) | Scope(body: seq<Item>)

  /** The same walk on a plain set: the set after it and the answers. */
  function Meaning(scope: set<string>, items: seq<Item>): (r: (set<string>, seq<bool>))
    decreases items
  {
    if items == [] then (scope, [])
    else
      var first: (set<string>, seq<bool>) :=
        match items[0]
        case Declare(name) => (Ast.Add(scope, name), [])
        case Lookup(name) => (scope, [name != "" && name in scope])
        case Scope(body) => (scope, Meaning(scope, body).1);
      var rest := Meaning(first.0, items[1..]);
      (rest.0, first.1 + rest.1)
  }

  function Members(names: seq<string>): set<string> {
    set n | n in names
  }

  lemma AddedMembers(names: seq<string>, name: string)
    ensures Members(Added(names, name)) == Ast.Add(Members(names), name)
  {
  }

  /** Every properly nested run of the filtered lists answers as a plain set does; names
      are only ever added at the end. */
  method Walk(list: NameList, items: seq<Item>) returns (answers: seq<bool>)
    requires list.Valid()
    modifies list, list.bloom
    ensures list.Valid() && old(list.names) <= list.names
    ensures (Members(list.names), answers) == Meaning(Members(old(list.names)), items)
    decreases items
  {
    if items == [] {
      return [];
    }
    var first := WalkItem(list, items[0]);
    var rest := Walk(list, items[1..]);
    answers := first + rest;
  }

  method WalkItem(list: NameList, item: Item) returns (answers: seq<bool>)
    requires list.Valid()
    modifies list, list.bloom
    ensures list.Valid() && old(list.names) <= list.names
    ensures item.Declare? ==> Members(list.names) == Ast.Add(Members(old(list.names)), item.name) && answers == []
    ensures item.Lookup? ==>
              list.names == old(list.names) && answers == [item.name != "" && item.name in Members(list.names)]
    ensures item.Scope? ==>
              list.names == old(list.names) && answers == Meaning(Members(list.names), item.body).1
    decreases item
  {
    match item
    case Declare(name) =>
      AddedMembers(list.names, name);
      list.Add(name);
      answers := [];
    case Lookup(name) =>
      var found := list.Contains(name);
      answers := [found];
    case Scope(body) =>
      ghost var names := list.names;
      var cp := list.Save();
      answers := Walk(list, body);
      HashesPrefix(names, list.names, list.hash);
      list.Restore(cp);
  }

  lemma HashesPrefix(names: seq<string>, longer: seq<string>, hash: string -> bv64)
    requires names <= longer
    ensures Hashes(longer, hash)[..|names|] == Hashes(names, hash) && longer[..|names|] == names
  {
  }

  // ------------------------------------------------------- the open-addressing name set

  datatype NameSlot = NameSlot(name: string, hash: bv64)

  const FIRST_CAP: nat := 32

  ghost function Entries(names: seq<string>, hash: string -> bv64): set<NameSlot> {
    set n | n in names :: NameSlot(n, hash(n))
  }

  lemma EntriesAppend(names: seq<string>, hash: string -> bv64, name: string)
    ensures Entries(names + [name], hash) == Entries(names, hash) + {NameSlot(name, hash(name))}
  {
    var longer := names + [name];
    assert longer[|names|] == name;
    forall n | n in names
      ensures NameSlot(n, hash(n)) in Entries(longer, hash)
    {
      assert n in longer;
    }
  }

  lemma EntryListed(names: seq<string>, hash: string -> bv64, name: string)
    ensures NameSlot(name, hash(name)) in Entries(names, hash) <==> name in names
  {
  }

  /** ny_lazy_name_set_contains_hash, at most one round. */
  method ContainsHash(slots: seq<Slot<NameSlot>>, mix: bv64 -> nat, name: string, h: bv64) returns (found: bool)
    requires slots != [] ==> Probe.Valid(slots, (e: NameSlot) => mix(e.hash)) && |FullSlots(slots)| < |slots|
    ensures found <==> name != "" && NameSlot(name, h) in Items(slots)
  {
    if |slots| == 0 || name == "" {
      return false;
    }
    var start := mix(h);
    ghost var e := EmptyWithinReach(slots, start);
    var idx := start % |slots|;
    var probe := 0;
    while probe < |slots|
      invariant idx == At(start, probe, |slots|) && Taken(slots, start, probe) && probe <= e
      invariant forall k: nat :: k < probe ==> slots[At(start, k, |slots|)] != Full(NameSlot(name, h))
    {
      if slots[idx].Empty? {
        Absent(slots, mix, name, h, probe);
        return false;
      }
      if slots[idx].item.hash == h && slots[idx].item.name == name {
        return true;
      }
      idx := Next(idx, |slots|);
      probe := probe + 1;
    }
    assert false;
  }

  lemma Absent(slots: seq<Slot<NameSlot>>, mix: bv64 -> nat, name: string, h: bv64, gap: nat)
    requires Probe.Valid(slots, (e: NameSlot) => mix(e.hash)) && GapAt(slots, mix(h), gap)
    requires forall k: nat :: k < gap ==> slots[At(mix(h), k, |slots|)] != Full(NameSlot(name, h))
    ensures NameSlot(name, h) !in Items(slots)
  {
    var home := (e: NameSlot) => mix(e.hash);
    if NameSlot(name, h) in Items(slots) {
      assert home(NameSlot(name, h)) == mix(h);
      BeforeGap(slots, home, NameSlot(name, h), gap);
    }
  }

  /** A list of emitted names with its filter and, from the first name on, the set. */
  class LazyNames {
    const list: NameList
    const mix: bv64 -> nat
    var slots: seq<Slot<NameSlot>>
    var len: nat

    function Home(): NameSlot -> nat {
      (e: NameSlot) => mix(e.hash)
    }

    ghost predicate SlotsHold(names: seq<string>)
      reads this
    {
      && Items(slots) == Entries(names, list.hash) && |FullSlots(slots)| == len
      && (slots == [] ==> len == 0)
      && (slots != [] ==> Probe.Valid(slots, Home()) && len * 10 < |slots| * 7 && |slots| >= FIRST_CAP)
    }

    ghost predicate Valid()
      reads this, list, list.bloom
    {
      list.Valid() && SlotsHold(list.names) && (slots == [] ==> list.names == [])
    }

    constructor (hash: string -> bv64, mix: bv64 -> nat)
      ensures Valid() && fresh(list) && fresh(list.bloom) && list.names == []
      ensures list.hash == hash && this.mix == mix
    {
      list := new NameList(hash);
      this.mix := mix;
      slots, len := [], 0;
    }

    /** ny_lazy_name_set_grow. */
    method Grow(minCap: nat, ghost names: seq<string>)
      requires SlotsHold(names) && len * 10 < minCap * 7
      modifies this`slots
      ensures SlotsHold(names) && slots != [] && |slots| >= minCap
    {
      var cap := if |slots| > 0 then |slots| else FIRST_CAP;
      while cap < minCap
        invariant cap > 0
      {
        cap := cap * 2;
      }
      slots := Rehash(slots, Home(), cap);
    }

    /** ny_lazy_name_set_insert_hash. */
    method Insert(name: string, h: bv64, ghost names: seq<string>) returns (added: bool)
      requires SlotsHold(names) && h == list.hash(name) && "" !in names
      modifies this`slots, this`len
      ensures added <==> name != "" && name !in names
      ensures SlotsHold(Added(names, name)) && (added || old(slots) != [] ==> slots != [])
    {
      if name == "" {
        return false;
      }
      var found := ContainsHash(slots, mix, name, h);
      EntryListed(names, list.hash, name);
      if found {
        return false;
      }
      if |slots| == 0 || (len + 1) * 10 >= |slots| * 7 {
        var target := if |slots| > 0 then |slots| * 2 else FIRST_CAP;
        Grow(target, names);
      }
      Fill(name, h, names);
      added := true;
    }

    method Fill(name: string, h: bv64, ghost names: seq<string>)
      requires SlotsHold(names) && slots != [] && (len + 1) * 10 < |slots| * 7 && h == list.hash(name)
      modifies this`slots, this`len
      ensures SlotsHold(names + [name]) && slots != []
    {
      EntriesAppend(names, list.hash, name);
      slots := Probe.Insert(slots, Home(), NameSlot(name, h));
      len := len + 1;
    }

    /** ny_lazy_emit_name_list_contains: filter, then set, or the list while there is none. */
    method Contains(name: string, h: bv64) returns (found: bool)
      requires Valid() && h == list.hash(name)
      ensures found <==> name in list.names
    {
      if name == "" {
        return false;
      }
      if !MaybeHas(list.bloom[..], h) {
        list.NotListed(name, h);
        return false;
      }
      if |slots| > 0 {
        EntryListed(list.names, list.hash, name);
        found := ContainsHash(slots, mix, name, h);
      } else {
        found := list.Has(name, h);
      }
    }

    /** ny_lazy_emit_add_stable_name: list, filter and set stay in step. */
    method Add(name: string)
      requires Valid()
      modifies this`slots, this`len, list, list.bloom
      ensures Valid() && list.names == Added(old(list.names), name)
    {
      if name == "" {
        return;
      }
      var h := list.hash(name);
      var found := Contains(name, h);
      if found {
        return;
      }
      ghost var names := list.names;
      list.Push(name, h);
      var added := Insert(name, h, names);
    }
  }
}
