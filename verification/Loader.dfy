/** The module index of src/base/loader.c: the list in memory and the file it is kept in. */
module Loader {
  import opened Int64

  /** Bytes, as characters below 256. */
  type Bytes = string

  const MAGIC_OLD: nat := 0xACE711DC
  const MAGIC: nat := 0xACE711DD

  datatype Mod = Mod(name: Bytes, path: Bytes, package: Bytes)

  /** The list, and the newest source time when it is known. */
  datatype State = State(mods: seq<Mod>, latest: nat, known: bool)

  // --------------------------------------------------------------------------- numbers

  /** The low `n` bytes of `v`, lowest first. */
  function Le(v: nat, n: nat): (s: Bytes)
    ensures |s| == n
    decreases n, v
  {
    if n == 0 then [] else [(v % 256) as char] + Le(v / 256, n - 1)
  }

  function UnLe(s: Bytes): nat {
    if s == [] then 0 else s[0] as int + 256 * UnLe(s[1..])
  }

  function Pow256(n: nat): nat {
    if n == 0 then 1 else 256 * Pow256(n - 1)
  }

  lemma {:induction false} LeReadBack(v: nat, n: nat)
    requires v < Pow256(n)
    ensures UnLe(Le(v, n)) == v
    decreases n
  {
    if n > 0 {
      LeReadBack(v / 256, n - 1);
      assert Le(v, n)[1..] == Le(v / 256, n - 1);
    }
  }

  /** A 32-bit and a 64-bit number as they are written and, little end first, lie in the file. */
  function Bytes32(v: nat): (r: Bytes)
    ensures |r| == 4 && (v < TWO32 ==> UnLe(r) == v)
  {
    assert Pow256(4) == TWO32;
    if v < TWO32 then LeReadBack(v, 4); Le(v, 4) else Le(v % TWO32, 4)
  }

  function Bytes64(v: nat): (r: Bytes)
    ensures |r| == 8 && (v < TWO64 ==> UnLe(r) == v)
  {
    assert Pow256(8) == TWO64;
    if v < TWO64 then LeReadBack(v, 8); Le(v, 8) else Le(v % TWO64, 8)
  }

  // ------------------------------------------------------------------------- the list

  predicate Named(mods: seq<Mod>, name: Bytes) {
    exists i :: 0 <= i < |mods| && mods[i].name == name
  }

  /** std_push_mod: the first module of a name stays. */
  function Pushed(mods: seq<Mod>, m: Mod): seq<Mod> {
    if Named(mods, m.name) then mods else mods + [m]
  }

  ghost predicate DistinctNames(mods: seq<Mod>) {
    forall i, j :: 0 <= i < j < |mods| ==> mods[i].name != mods[j].name
  }

  /** However modules are pushed, names stay distinct and earlier modules stay in place. */
  lemma PushKeeps(mods: seq<Mod>, m: Mod)
    requires DistinctNames(mods)
    ensures DistinctNames(Pushed(mods, m)) && mods <= Pushed(mods, m) && Named(Pushed(mods, m), m.name)
  {
    if !Named(mods, m.name) {
      assert (mods + [m])[|mods|] == m;
    }
  }

  /** A C string ends at its first zero byte. */
  function CString(s: Bytes): (r: Bytes)
    ensures '\0' !in r && ('\0' !in s ==> r == s)
  {
    if s == [] || s[0] == '\0' then [] else [s[0]] + CString(s[1..])
  }

  // ------------------------------------------------------------------------- the file

  /** One record: three lengths, cast to 32 bits, and the three texts. */
  function RecordOf(m: Mod): Bytes {
    Lengths(m) + m.name + m.path + m.package
  }

  function Lengths(m: Mod): Bytes {
    Bytes32(|m.name|) + Bytes32(|m.path|) + Bytes32(|m.package|)
  }

  function RecordsOf(write: Mod -> Bytes, mods: seq<Mod>): Bytes {
    if mods == [] then [] else write(mods[0]) + RecordsOf(write, mods[1..])
  }

  /** What ny_std_save_cache writes. */
  function FileOf(st: State, mtime: nat): Bytes {
    Bytes32(MAGIC) + Bytes64(mtime) + Bytes64(st.latest) + Bytes32(|st.mods|) + RecordsOf(RecordOf, st.mods)
  }

  datatype Read = Short | Record(m: Mod, rest: Bytes)

  /** The three texts of a record, of the given lengths. */
  function ReadTexts(t: Bytes, nl: nat, pl: nat, kl: nat): Read {
    if |t| < nl + pl + kl then Short
    else Record(Mod(CString(t[..nl]), CString(t[nl..nl + pl]), CString(t[nl + pl..nl + pl + kl])), t[nl + pl + kl..])
  }

  function ReadRecord(s: Bytes): Read {
    if |s| < 12 then Short else ReadTexts(s[12..], UnLe(s[..4]), UnLe(s[4..8]), UnLe(s[8..12]))
  }

  /** The record loop of ny_std_load_cache: whether every record was read, and the list. */
  function ReadRecords(read: Bytes -> Read, s: Bytes, count: nat, readable: Bytes -> bool, mods: seq<Mod>)
    : (r: (bool, seq<Mod>))
    decreases count
  {
    if count == 0 then (true, mods)
    else
      var r := read(s);
      if r.Short? || !readable(r.m.path) then (false, mods)
      else ReadRecords(read, r.rest, count - 1, readable, Pushed(mods, r.m))
  }

  /** ny_std_free_modules, which does nothing while there is no list. */
  function Freed(st: State): State {
    if st.mods == [] then st else State([], 0, false)
  }

  /** ny_std_load_cache. */
  function Load(file: Bytes, mtime: nat, readable: Bytes -> bool, st: State): (r: (bool, State)) {
    if |file| < 4 || (UnLe(file[..4]) != MAGIC_OLD && UnLe(file[..4]) != MAGIC) then (false, st)
    else if |file| < 12 || UnLe(file[4..12]) != mtime then (false, st)
    else
      var dated := UnLe(file[..4]) == MAGIC;
      var t := file[12..];
      if dated && |t| < 8 then (false, st.(latest := 0, known := false))
      else LoadList(if dated then t[8..] else t, readable,
                    if dated then st.(latest := UnLe(t[..8]), known := true) else st.(latest := 0, known := false))
  }

  function LoadList(t: Bytes, readable: Bytes -> bool, st: State): (r: (bool, State)) {
    if |t| < 4 then (false, st)
    else
      var r := ReadRecords(ReadRecord, t[4..], UnLe(t[..4]), readable, st.mods);
      var after := st.(mods := r.1);
      if r.0 then (true, after) else (false, Freed(after))
  }

  // --------------------------------------------------------------------- round trip

  /** A module as the list holds it: texts without zero bytes, of lengths that fit. */
  ghost predicate Storable(m: Mod) {
    && '\0' !in m.name && '\0' !in m.path && '\0' !in m.package
    && |m.name| < TWO32 && |m.path| < TWO32 && |m.package| < TWO32
  }

  ghost predicate AllStorable(mods: seq<Mod>) {
    forall i :: 0 <= i < |mods| ==> Storable(mods[i])
  }

  ghost predicate AllReadable(mods: seq<Mod>, readable: Bytes -> bool) {
    forall i :: 0 <= i < |mods| ==> readable(mods[i].path)
  }

  lemma HeadRead(a: Bytes, b: Bytes, c: Bytes, t: Bytes, n: nat, p: nat, k: nat)
    requires |a| == 4 && |b| == 4 && |c| == 4 && UnLe(a) == n && UnLe(b) == p && UnLe(c) == k
    ensures var s := a + b + c + t;
            && |s| >= 12 && UnLe(s[..4]) == n && UnLe(s[4..8]) == p && UnLe(s[8..12]) == k && s[12..] == t
  {
    var s := a + b + c + t;
    assert s[..4] == a && s[4..8] == b && s[8..12] == c;
  }

  lemma Texts(h: Bytes, a: Bytes, b: Bytes, c: Bytes, t: Bytes)
    ensures h + a + b + c + t == h + (a + b + c + t)
  {
  }

  lemma LengthsRead(m: Mod, t: Bytes)
    requires Storable(m)
    ensures var s := Lengths(m) + t;
            |s| >= 12 && UnLe(s[..4]) == |m.name| && UnLe(s[4..8]) == |m.path| && UnLe(s[8..12]) == |m.package|
    ensures (Lengths(m) + t)[12..] == t
  {
    var a, b, c := Bytes32(|m.name|), Bytes32(|m.path|), Bytes32(|m.package|);
    HeadRead(a, b, c, t, |m.name|, |m.path|, |m.package|);
  }

  lemma TextParts(m: Mod, t: Bytes)
    ensures var s := m.name + m.path + m.package + t;
            var nl, pl, kl := |m.name|, |m.path|, |m.package|;
            && s[..nl] == m.name && s[nl..nl + pl] == m.path
            && s[nl + pl..nl + pl + kl] == m.package && s[nl + pl + kl..] == t
  {
  }

  /** One record is read back. */
  lemma RecordBack(m: Mod, t: Bytes)
    requires Storable(m)
    ensures ReadRecord(RecordOf(m) + t) == Record(m, t)
  {
    var texts := m.name + m.path + m.package + t;
    Texts(Lengths(m), m.name, m.path, m.package, t);
    LengthsRead(m, texts);
    TextParts(m, t);
  }

  lemma ShortRecord(m: Mod, k: nat)
    requires Storable(m) && k < |RecordOf(m)|
    ensures ReadRecord(RecordOf(m)[..k]).Short?
  {
    var texts := m.name + m.path + m.package;
    assert RecordOf(m) == Lengths(m) + texts;
    if k >= 12 {
      assert RecordOf(m)[..k] == Lengths(m) + texts[..k - 12];
      LengthsRead(m, texts[..k - 12]);
    }
  }

  lemma NotYetNamed(acc: seq<Mod>, mods: seq<Mod>)
    requires DistinctNames(acc + mods) && mods != []
    ensures !Named(acc, mods[0].name) && acc + [mods[0]] + mods[1..] == acc + mods
  {
    var all := acc + mods;
    assert all[|acc|] == mods[0];
    forall i | 0 <= i < |acc|
      ensures acc[i].name != mods[0].name
    {
      assert all[i].name != all[|acc|].name;
    }
  }

  /** `read` inverts `write` at `m`: whatever follows, and never from less than all of it. */
  ghost predicate Inverts(write: Mod -> Bytes, read: Bytes -> Read, m: Mod) {
    && (forall t: Bytes :: read(write(m) + t) == Record(m, t))
    && (forall k :: 0 <= k < |write(m)| ==> read(write(m)[..k]).Short?)
  }

  ghost predicate AllInvert(write: Mod -> Bytes, read: Bytes -> Read, mods: seq<Mod>) {
    forall i :: 0 <= i < |mods| ==> Inverts(write, read, mods[i])
  }

  lemma RecordsInvert(mods: seq<Mod>)
    requires AllStorable(mods)
    ensures AllInvert(RecordOf, ReadRecord, mods)
  {
    forall i | 0 <= i < |mods|
      ensures Inverts(RecordOf, ReadRecord, mods[i])
    {
      RecordInverts(mods[i]);
    }
  }

  lemma RecordInverts(m: Mod)
    requires Storable(m)
    ensures Inverts(RecordOf, ReadRecord, m)
  {
    forall t: Bytes
      ensures ReadRecord(RecordOf(m) + t) == Record(m, t)
    {
      RecordBack(m, t);
    }
    forall k | 0 <= k < |RecordOf(m)|
      ensures ReadRecord(RecordOf(m)[..k]).Short?
    {
      ShortRecord(m, k);
    }
  }

  lemma {:induction false} ReadBack(write: Mod -> Bytes, read: Bytes -> Read, mods: seq<Mod>,
                                    readable: Bytes -> bool, acc: seq<Mod>)
    requires AllInvert(write, read, mods) && AllReadable(mods, readable) && DistinctNames(acc + mods)
    ensures ReadRecords(read, RecordsOf(write, mods), |mods|, readable, acc) == (true, acc + mods)
    decreases |mods|
  {
    if mods == [] {
      assert acc + mods == acc;
    } else {
      assert Inverts(write, read, mods[0]);
      NotYetNamed(acc, mods);
      ReadBack(write, read, mods[1..], readable, acc + [mods[0]]);
    }
  }

  lemma FileSlices(a: Bytes, b: Bytes, c: Bytes, d: Bytes, t: Bytes)
    requires |a| == 4 && |b| == 8 && |c| == 8 && |d| == 4
    ensures var s := a + b + c + d + t;
            |s| >= 24 && s[..4] == a && s[4..12] == b && s[12..20] == c && s[20..24] == d && s[24..] == t
  {
  }

  /** The fields of a file. */
  ghost predicate Fields(s: Bytes, mtime: nat, latest: nat, count: nat, records: Bytes) {
    && |s| >= 24 && UnLe(s[..4]) == MAGIC && UnLe(s[4..12]) == mtime
    && UnLe(s[12..20]) == latest && UnLe(s[20..24]) == count && s[24..] == records
  }

  lemma FieldsOf(a: Bytes, b: Bytes, c: Bytes, d: Bytes, t: Bytes, mtime: nat, latest: nat, count: nat)
    requires |a| == 4 && |b| == 8 && |c| == 8 && |d| == 4
    requires UnLe(a) == MAGIC && UnLe(b) == mtime && UnLe(c) == latest && UnLe(d) == count
    ensures Fields(a + b + c + d + t, mtime, latest, count, t)
  {
    FileSlices(a, b, c, d, t);
  }

  lemma FileParts(st: State, mtime: nat)
    requires mtime < TWO64 && st.latest < TWO64 && |st.mods| < TWO32
    ensures Fields(FileOf(st, mtime), mtime, st.latest, |st.mods|, RecordsOf(RecordOf, st.mods))
  {
    FieldsOf(Bytes32(MAGIC), Bytes64(mtime), Bytes64(st.latest), Bytes32(|st.mods|), RecordsOf(RecordOf, st.mods),
             mtime, st.latest, |st.mods|);
  }

  lemma DropTwice(s: Bytes, i: nat, j: nat)
    requires i + j <= |s|
    ensures s[i..][j..] == s[i + j..] && s[i..][..j] == s[i..i + j]
  {
  }

  lemma LoadOfFields(s: Bytes, mtime: nat, latest: nat, count: nat, records: Bytes,
                     readable: Bytes -> bool, st: State)
    requires Fields(s, mtime, latest, count, records)
    ensures var r := ReadRecords(ReadRecord, records, count, readable, st.mods);
            var after := State(r.1, latest, true);
            Load(s, mtime, readable, st) == if r.0 then (true, after) else (false, Freed(after))
  {
    DropTwice(s, 12, 8);
    DropTwice(s, 20, 4);
  }

  /** Loading a saved file restores the same modules in the same order, and the time. */
  lemma RoundTrip(st: State, mtime: nat, readable: Bytes -> bool, before: State)
    requires mtime < TWO64 && st.latest < TWO64 && |st.mods| < TWO32
    requires AllStorable(st.mods) && DistinctNames(st.mods) && AllReadable(st.mods, readable) && before.mods == []
    ensures Load(FileOf(st, mtime), mtime, readable, before) == (true, State(st.mods, st.latest, true))
  {
    FileParts(st, mtime);
    LoadOfFields(FileOf(st, mtime), mtime, st.latest, |st.mods|, RecordsOf(RecordOf, st.mods), readable, before);
    assert [] + st.mods == st.mods;
    RecordsInvert(st.mods);
    ReadBack(RecordOf, ReadRecord, st.mods, readable, []);
  }

  /** A file written at another time is refused and changes nothing. */
  lemma OtherTimeRefused(st: State, mtime: nat, now: nat, readable: Bytes -> bool, before: State)
    requires mtime < TWO64 && st.latest < TWO64 && |st.mods| < TWO32 && mtime != now
    ensures Load(FileOf(st, mtime), now, readable, before) == (false, before)
  {
    FileParts(st, mtime);
  }

  // ------------------------------------------------------------------- truncated files

  lemma CutConcat(a: Bytes, b: Bytes, k: nat)
    requires k <= |a + b|
    ensures (a + b)[..k] == if k < |a| then a[..k] else a + b[..k - |a|]
  {
  }

  lemma {:induction false} RecordsCut(write: Mod -> Bytes, read: Bytes -> Read, mods: seq<Mod>, k: nat,
                                      readable: Bytes -> bool, acc: seq<Mod>)
    requires AllInvert(write, read, mods) && k < |RecordsOf(write, mods)|
    ensures !ReadRecords(read, RecordsOf(write, mods)[..k], |mods|, readable, acc).0
    decreases |mods|
  {
    var first, rest := write(mods[0]), RecordsOf(write, mods[1..]);
    assert Inverts(write, read, mods[0]);
    CutConcat(first, rest, k);
    if k >= |first| {
      RecordsCut(write, read, mods[1..], k - |first|, readable, Pushed(acc, mods[0]));
    }
  }

  lemma FieldsCut(s: Bytes, k: nat, mtime: nat, latest: nat, count: nat, records: Bytes)
    requires Fields(s, mtime, latest, count, records) && 24 <= k <= |s|
    ensures Fields(s[..k], mtime, latest, count, records[..k - 24])
  {
    var p := s[..k];
    assert p[..4] == s[..4] && p[4..12] == s[4..12] && p[12..20] == s[12..20] && p[20..24] == s[20..24];
    assert p[24..] == records[..k - 24];
  }

  lemma HeadCut(s: Bytes, k: nat, mtime: nat, readable: Bytes -> bool, before: State)
    requires |s| >= 24 && UnLe(s[..4]) == MAGIC && k < 24 && before.mods == []
    ensures var r := Load(s[..k], mtime, readable, before); !r.0 && r.1.mods == []
  {
    var p := s[..k];
    if k >= 4 {
      assert p[..4] == s[..4];
      if k >= 12 {
        assert |p[12..]| == k - 12;
      }
    }
  }

  /** Every proper prefix of a saved file is refused, whatever is readable, and an empty
      list stays empty. */
  lemma TruncatedRefused(st: State, mtime: nat, k: nat, readable: Bytes -> bool, before: State)
    requires mtime < TWO64 && st.latest < TWO64 && |st.mods| < TWO32 && AllStorable(st.mods) && before.mods == []
    requires k < |FileOf(st, mtime)|
    ensures var r := Load(FileOf(st, mtime)[..k], mtime, readable, before); !r.0 && r.1.mods == []
  {
    var s, records := FileOf(st, mtime), RecordsOf(RecordOf, st.mods);
    FileParts(st, mtime);
    if k < 24 {
      HeadCut(s, k, mtime, readable, before);
    } else {
      FieldsCut(s, k, mtime, st.latest, |st.mods|, records);
      LoadOfFields(s[..k], mtime, st.latest, |st.mods|, records[..k - 24], readable, before);
      RecordsInvert(st.mods);
      RecordsCut(RecordOf, ReadRecord, st.mods, k - 24, readable, []);
    }
  }

  // ---------------------------------------------------------- what a refusal leaves set

  /** The file is an index, of this time. */
  predicate Headed(file: Bytes, mtime: nat) {
    |file| >= 12 && (UnLe(file[..4]) == MAGIC_OLD || UnLe(file[..4]) == MAGIC) && UnLe(file[4..12]) == mtime
  }

  /** The first record of `s` is cut short or names a path that cannot be read. */
  predicate FirstFails(s: Bytes, readable: Bytes -> bool) {
    ReadRecord(s).Short? || !readable(ReadRecord(s).m.path)
  }

  lemma {:induction false} ReadKeepsSome(read: Bytes -> Read, s: Bytes, count: nat, readable: Bytes -> bool,
                                         mods: seq<Mod>)
    requires mods != []
    ensures ReadRecords(read, s, count, readable, mods).1 != []
    decreases count
  {
    if count > 0 {
      var r := read(s);
      if r.Record? && readable(r.m.path) {
        ReadKeepsSome(read, r.rest, count - 1, readable, Pushed(mods, r.m));
      }
    }
  }

  /** A refusal in the records comes with an empty list exactly when the first record fails. */
  lemma RefusedWithNone(s: Bytes, count: nat, readable: Bytes -> bool, mods: seq<Mod>)
    requires !ReadRecords(ReadRecord, s, count, readable, mods).0
    ensures ReadRecords(ReadRecord, s, count, readable, mods).1 == [] <==> mods == [] && FirstFails(s, readable)
  {
    if mods != [] {
      ReadKeepsSome(ReadRecord, s, count, readable, mods);
    } else if !FirstFails(s, readable) {
      var r := ReadRecord(s);
      ReadKeepsSome(ReadRecord, r.rest, count - 1, readable, Pushed(mods, r.m));
    }
  }

  lemma LoadOfHeaded(file: Bytes, mtime: nat, readable: Bytes -> bool, before: State)
    requires Headed(file, mtime) && UnLe(file[..4]) == MAGIC && |file| >= 24
    ensures var r := ReadRecords(ReadRecord, file[24..], UnLe(file[20..24]), readable, before.mods);
            var after := State(r.1, UnLe(file[12..20]), true);
            Load(file, mtime, readable, before) == if r.0 then (true, after) else (false, Freed(after))
  {
    DropTwice(file, 12, 8);
    DropTwice(file, 20, 4);
  }

  /** Whether any refused file leaves a source time behind as known.  One of another kind or
      time leaves what there was.  Any other does so exactly when it carries a time and
      either ends within the count, or is the first to list modules and fails at its first. */
  lemma RefusedKnownExactlyWhen(file: Bytes, mtime: nat, readable: Bytes -> bool, before: State)
    requires !Load(file, mtime, readable, before).0
    ensures Load(file, mtime, readable, before).1.known <==>
            if !Headed(file, mtime) then before.known
            else UnLe(file[..4]) == MAGIC && |file| >= 20
                 && (|file| < 24 || (before.mods == [] && FirstFails(file[24..], readable)))
  {
    if Headed(file, mtime) && UnLe(file[..4]) == MAGIC && |file| >= 24 {
      LoadOfHeaded(file, mtime, readable, before);
      RefusedWithNone(file[24..], UnLe(file[20..24]), readable, before.mods);
    }
  }

  // ------------------------------------------------------------------------ in place

  /** A file being read. */
  class Stream {
    const bytes: Bytes
    var pos: nat

    ghost predicate Valid()
      reads this
    {
      pos <= |bytes|
    }

    ghost function Rest(): Bytes
      reads this
      requires Valid()
    {
      bytes[pos..]
    }

    constructor (bytes: Bytes)
      ensures Valid() && Rest() == bytes
    {
      this.bytes, pos := bytes, 0;
    }

    /** fread: up to `n` bytes, fewer only at the end. */
    method Read(n: nat) returns (got: Bytes)
      requires Valid()
      modifies this
      ensures Valid() && old(Rest()) == got + Rest()
      ensures |got| == n || (|got| < n && Rest() == "")
    {
      var end := if n <= |bytes| - pos then pos + n else |bytes|;
      got := bytes[pos..end];
      pos := end;
    }

    /** Three texts in a row, or not all of them. */
    method ReadThree(nl: nat, pl: nat, kl: nat) returns (ok: bool, a: Bytes, b: Bytes, c: Bytes)
      requires Valid()
      modifies this
      ensures Valid() && (ok <==> |old(Rest())| >= nl + pl + kl)
      ensures ok ==> |a| == nl && |b| == pl && |c| == kl && old(Rest()) == a + b + c + Rest()
    {
      b, c := "", "";
      a := Read(nl);
      if |a| != nl {
        return false, a, b, c;
      }
      b := Read(pl);
      if |b| != pl {
        return false, a, b, c;
      }
      c := Read(kl);
      ok := |c| == kl;
    }
  }

  ghost predicate IsReadRecord(read: Bytes -> Read) {
    forall s: Bytes {:trigger ReadRecord(s)} :: read(s) == ReadRecord(s)
  }

  lemma RecordsStep(read: Bytes -> Read, s: Bytes, count: nat, readable: Bytes -> bool, mods: seq<Mod>)
    requires count > 0 && IsReadRecord(read)
    ensures var r := ReadRecord(s);
            ReadRecords(read, s, count, readable, mods) ==
            if r.Short? || !readable(r.m.path) then (false, mods)
            else ReadRecords(read, r.rest, count - 1, readable, Pushed(mods, r.m))
  {
    assert read(s) == ReadRecord(s);
  }

  /** The module list of the process. */
  class Index {
    var mods: seq<Mod>
    var latest: nat
    var known: bool

    ghost function View(): State
      reads this
    {
      State(mods, latest, known)
    }

    constructor ()
      ensures View() == State([], 0, false)
    {
      mods, latest, known := [], 0, false;
    }

    /** std_push_mod. */
    method PushMod(m: Mod)
      modifies this`mods
      ensures mods == Pushed(old(mods), m)
    {
      for i := 0 to |mods|
        invariant !Named(mods[..i], m.name)
        invariant mods == old(mods)
      {
        if mods[i].name == m.name {
          return;
        }
        assert mods[..i + 1] == mods[..i] + [mods[i]];
      }
      assert mods[..|mods|] == mods;
      mods := mods + [m];
    }

    /** ny_std_free_modules. */
    method FreeModules()
      modifies this
      ensures View() == Freed(old(View()))
    {
      if mods == [] {
        return;
      }
      mods, latest, known := [], 0, false;
    }

    /** One turn of the record loop. */
    method LoadRecord(f: Stream, readable: Bytes -> bool) returns (ok: bool)
      requires f.Valid()
      modifies f, this`mods
      ensures f.Valid()
      ensures var r := ReadRecord(old(f.Rest()));
              ok == (r.Record? && readable(r.m.path)) &&
              mods == (if ok then Pushed(old(mods), r.m) else old(mods)) && (ok ==> f.Rest() == r.rest)
    {
      ghost var s := f.Rest();
      var a := f.Read(4);
      if |a| != 4 {
        return false;
      }
      var b := f.Read(4);
      if |b| != 4 {
        return false;
      }
      var c := f.Read(4);
      if |c| != 4 {
        return false;
      }
      HeadRead(a, b, c, f.Rest(), UnLe(a), UnLe(b), UnLe(c));
      assert s == a + b + c + f.Rest();
      ok := LoadTexts(f, readable, UnLe(a), UnLe(b), UnLe(c));
    }

    method LoadTexts(f: Stream, readable: Bytes -> bool, nl: nat, pl: nat, kl: nat) returns (ok: bool)
      requires f.Valid()
      modifies f, this`mods
      ensures f.Valid()
      ensures var r := ReadTexts(old(f.Rest()), nl, pl, kl);
              ok == (r.Record? && readable(r.m.path)) &&
              mods == (if ok then Pushed(old(mods), r.m) else old(mods)) && (ok ==> f.Rest() == r.rest)
    {
      var name, path, package;
      ok, name, path, package := f.ReadThree(nl, pl, kl);
      if !ok {
        return;
      }
      TextParts(Mod(name, path, package), f.Rest());
      var m := Mod(CString(name), CString(path), CString(package));
      if !readable(m.path) {
        return false;
      }
      PushMod(m);
    }

    /** One of the `left` turns of the record loop; `read` is ReadRecord. */
    method LoadNext(f: Stream, ghost read: Bytes -> Read, readable: Bytes -> bool, ghost left: nat) returns (ok: bool)
      requires f.Valid() && left > 0 && IsReadRecord(read)
      modifies f, this`mods
      ensures f.Valid()
      ensures ReadRecords(read, old(f.Rest()), left, readable, old(mods))
              == if ok then ReadRecords(read, f.Rest(), left - 1, readable, mods) else (false, mods)
    {
      RecordsStep(read, f.Rest(), left, readable, mods);
      ok := LoadRecord(f, readable);
    }

    /** The record loop. */
    method LoadRecords(f: Stream, ghost read: Bytes -> Read, count: nat, readable: Bytes -> bool) returns (ok: bool)
      requires f.Valid() && IsReadRecord(read)
      modifies f, this`mods
      ensures (ok, mods) == ReadRecords(read, old(f.Rest()), count, readable, old(mods))
    {
      ghost var all := ReadRecords(read, f.Rest(), count, readable, mods);
      for i := 0 to count
        invariant f.Valid() && ReadRecords(read, f.Rest(), count - i, readable, mods) == all
      {
        ok := LoadNext(f, read, readable, count - i);
        if !ok {
          return;
        }
      }
      ok := true;
    }

    /** The part of ny_std_load_cache from the count on. */
    method LoadModules(f: Stream, readable: Bytes -> bool) returns (ok: bool)
      requires f.Valid()
      modifies f, this
      ensures (ok, View()) == LoadList(old(f.Rest()), readable, old(View()))
    {
      var c := f.Read(4);
      if |c| != 4 {
        return false;
      }
      assert old(f.Rest())[..4] == c && old(f.Rest())[4..] == f.Rest();
      ok := LoadRecords(f, ReadRecord, UnLe(c), readable);
      if !ok {
        FreeModules();
      }
    }

    /** ny_std_load_cache on an open file. */
    method LoadCache(file: Bytes, mtime: nat, readable: Bytes -> bool) returns (ok: bool)
      modifies this
      ensures (ok, View()) == Load(file, mtime, readable, old(View()))
    {
      var f := new Stream(file);
      var a := f.Read(4);
      if |a| != 4 || (UnLe(a) != MAGIC_OLD && UnLe(a) != MAGIC) {
        assert |file| >= 4 ==> file[..4] == a;
        return false;
      }
      var b := f.Read(8);
      assert file[..4] == a && (|b| == 8 ==> file[4..12] == b && file[12..] == f.Rest());
      if |b| != 8 || UnLe(b) != mtime {
        return false;
      }
      latest, known := 0, false;
      if UnLe(a) == MAGIC {
        var c := f.Read(8);
        assert file[12..] == c + f.Rest();
        if |c| != 8 {
          return false;
        }
        assert file[12..][..8] == c && file[12..][8..] == f.Rest();
        latest, known := UnLe(c), true;
      }
      ok := LoadModules(f, readable);
    }

    /** ny_std_save_cache: the bytes written. */
    method SaveCache(mtime: nat) returns (file: Bytes)
      ensures file == FileOf(View(), mtime)
    {
      file := Bytes32(MAGIC) + Bytes64(mtime) + Bytes64(latest) + Bytes32(|mods|);
      file := WriteRecords(RecordOf, file, mods);
    }
  }

  lemma RecordsFrom(write: Mod -> Bytes, mods: seq<Mod>, i: nat, out: Bytes)
    requires i < |mods|
    ensures out + RecordsOf(write, mods[i..]) == out + write(mods[i]) + RecordsOf(write, mods[i + 1..])
  {
    assert mods[i..][1..] == mods[i + 1..];
  }

  /** The write loop. */
  method WriteRecords(write: Mod -> Bytes, head: Bytes, mods: seq<Mod>) returns (file: Bytes)
    ensures file == head + RecordsOf(write, mods)
  {
    file := head;
    assert mods[0..] == mods;
    for i := 0 to |mods|
      invariant file + RecordsOf(write, mods[i..]) == head + RecordsOf(write, mods)
    {
      RecordsFrom(write, mods, i, file);
      file := file + write(mods[i]);
    }
  }
}
