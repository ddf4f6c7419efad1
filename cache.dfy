/**
 * The resolver's cache: a bounded least-recently-used map from the folded form
 * of a path to the case-exact path, validated against the filesystem when read.
 *
 * The LRU map is modelled as its slots in recency order, least recently used
 * first and most recently used last; `Put`, `Promote` and `Pop` are the three
 * map operations the cache uses (`put`, the recency bump of `get`, and `pop`).
 */
module PathCache {
  import opened Options
  import opened Paths
  import opened FileSystem

  /** The value stored for a key: the case-exact path. */
  datatype Entry = Entry(path: Path)

  /** One key/value pair of the map. */
  datatype Slot = Slot(key: Path, entry: Entry)

  /** The position of the slot stored under `key`, if any. */
  function IndexOf(slots: seq<Slot>, key: Path): (r: Option<nat>)
    ensures r.Some? ==> r.value < |slots| && slots[r.value].key == key
    ensures r.Some? ==> forall j :: 0 <= j < r.value ==> slots[j].key != key
    ensures r.None? ==> forall i :: 0 <= i < |slots| ==> slots[i].key != key
  {
    if slots == [] then None
    else if slots[0].key == key then Some(0)
    else match IndexOf(slots[1..], key)
      case None => None
      case Some(j) => Some(j + 1)
  }

  predicate DistinctKeys(slots: seq<Slot>) {
    forall i, j :: 0 <= i < j < |slots| ==> slots[i].key != slots[j].key
  }

  /**
   * The cache invariant: never more slots than the capacity, one slot per key,
   * and every key is the folded form of the path stored under it.
   */
  ghost predicate WellFormed(slots: seq<Slot>, cap: nat) {
    && |slots| <= cap
    && DistinctKeys(slots)
    && forall i :: 0 <= i < |slots| ==> slots[i].key == LowerPath(slots[i].entry.path)
  }

  function RemoveAt(slots: seq<Slot>, i: nat): seq<Slot>
    requires i < |slots|
  {
    slots[..i] + slots[i + 1..]
  }

  /** The recency bump of a read: the slot at `i` becomes the most recently used. */
  function Promote(slots: seq<Slot>, i: nat): seq<Slot>
    requires i < |slots|
  {
    RemoveAt(slots, i) + [slots[i]]
  }

  /** `LruCache::pop`: drop the slot stored under `key`, if any. */
  function Pop(slots: seq<Slot>, key: Path): seq<Slot> {
    match IndexOf(slots, key)
    case None => slots
    case Some(i) => RemoveAt(slots, i)
  }

  /**
   * `LruCache::put`: an existing slot under `key` is replaced and becomes the
   * most recently used; a new key evicts the least recently used slot when the
   * map is full. A map of capacity zero stores nothing.
   */
  function Put(slots: seq<Slot>, cap: nat, key: Path, e: Entry): seq<Slot> {
    match IndexOf(slots, key)
    case Some(i) => RemoveAt(slots, i) + [Slot(key, e)]
    case None =>
      if cap == 0 then slots
      else if |slots| >= cap then slots[1..] + [Slot(key, e)]
      else slots + [Slot(key, e)]
  }

  /** What `Cache::get` returns, and the slots it leaves behind. */
  datatype Got = Got(found: Option<Path>, slots: seq<Slot>)

  /**
   * `Cache::get`: fold the query, find its slot (bumping its recency), and
   * re-query the metadata of the stored path; a dead path is popped.
   */
  function Validated(fs: Fs, slots: seq<Slot>, query: Path): Got {
    var key := LowerPath(query);
    match IndexOf(slots, key)
    case None => Got(None, slots)
    case Some(i) =>
      var e := slots[i].entry;
      var bumped := Promote(slots, i);
      if Metadata(fs, e.path).Err? then Got(None, Pop(bumped, key))
      else Got(Some(e.path), bumped)
  }

  /** The slots stored under any key other than `key`, in recency order. */
  function Others(slots: seq<Slot>, key: Path): seq<Slot> {
    if slots == [] then []
    else (if slots[0].key == key then [] else [slots[0]]) + Others(slots[1..], key)
  }

  lemma {:induction false} OthersAppend(a: seq<Slot>, b: seq<Slot>, key: Path)
    ensures Others(a + b, key) == Others(a, key) + Others(b, key)
  {
    if a == [] {
      assert a + b == b;
    } else {
      assert (a + b)[1..] == a[1..] + b;
      OthersAppend(a[1..], b, key);
    }
  }

  lemma {:induction false} OthersAbsent(slots: seq<Slot>, key: Path)
    requires forall i :: 0 <= i < |slots| ==> slots[i].key != key
    ensures Others(slots, key) == slots
  {
    if slots != [] {
      OthersAbsent(slots[1..], key);
    }
  }

  lemma {:induction false} OthersMembership(slots: seq<Slot>, key: Path, s: Slot)
    ensures s in Others(slots, key) <==> s in slots && s.key != key
  {
    if slots != [] {
      OthersMembership(slots[1..], key, s);
      assert slots == [slots[0]] + slots[1..];
    }
  }

  /** Removing or moving the slot stored under `key` leaves the other slots as they were. */
  lemma {:induction false} OthersAround(slots: seq<Slot>, i: nat)
    requires i < |slots|
    ensures Others(RemoveAt(slots, i), slots[i].key) == Others(slots, slots[i].key)
    ensures Others(Promote(slots, i), slots[i].key) == Others(slots, slots[i].key)
  {
    var key, a, x, b := slots[i].key, slots[..i], slots[i], slots[i + 1..];
    assert slots == (a + [x]) + b;
    assert Others([x], key) == [] by {
      assert [x][1..] == [];
    }
    OthersAppend(a + [x], b, key);
    OthersAppend(a, [x], key);
    OthersAppend(a, b, key);
    OthersAppend(a + b, [x], key);
  }

  lemma RemoveAtWellFormed(slots: seq<Slot>, cap: nat, i: nat)
    requires WellFormed(slots, cap) && i < |slots|
    ensures WellFormed(RemoveAt(slots, i), cap)
    ensures forall j :: 0 <= j < |RemoveAt(slots, i)| ==> RemoveAt(slots, i)[j].key != slots[i].key
  {
    var r := RemoveAt(slots, i);
    assert forall j :: 0 <= j < |r| ==> r[j] == if j < i then slots[j] else slots[j + 1];
  }

  /** Every slot `Put` leaves behind was there before or is the new one. */
  lemma PutKeeps(slots: seq<Slot>, cap: nat, key: Path, e: Entry, s: Slot)
    requires s in Put(slots, cap, key, e)
    ensures s in slots || s == Slot(key, e)
  {
    match IndexOf(slots, key)
    case Some(i) =>
      assert s in slots[..i] || s in slots[i + 1..] || s == Slot(key, e);
    case None =>
  }

  /** `insert`/`put` keeps the cache invariant when the key is the path's folded form. */
  lemma PutWellFormed(slots: seq<Slot>, cap: nat, p: Path)
    requires WellFormed(slots, cap)
    ensures WellFormed(Put(slots, cap, LowerPath(p), Entry(p)), cap)
  {
    var key := LowerPath(p);
    match IndexOf(slots, key)
    case Some(i) =>
      RemoveAtWellFormed(slots, cap, i);
    case None =>
      if cap != 0 && |slots| >= cap {
        assert forall j :: 0 <= j < |slots| - 1 ==> slots[1..][j] == slots[j + 1];
      }
  }

  /** After `put`, the one slot under `key` is the new entry, and it is the most recently used. */
  lemma PutStores(slots: seq<Slot>, cap: nat, key: Path, e: Entry)
    requires DistinctKeys(slots) && cap > 0
    ensures var r := Put(slots, cap, key, e);
      && |r| > 0 && r[|r| - 1] == Slot(key, e)
      && (forall j :: 0 <= j < |r| - 1 ==> r[j].key != key)
      && IndexOf(r, key) == Some(|r| - 1)
  {
    var r := Put(slots, cap, key, e);
    match IndexOf(slots, key)
    case Some(i) =>
      assert forall j :: 0 <= j < |r| - 1 ==> r[j] == if j < i then slots[j] else slots[j + 1];
    case None =>
  }

  /**
   * With room for two slots, `put` under another key keeps the most recently
   * used slot: eviction only takes the least recently used one.
   */
  lemma PutKeepsNewest(slots: seq<Slot>, cap: nat, key: Path, e: Entry)
    requires 0 < |slots| <= cap && cap >= 2 && slots[|slots| - 1].key != key
    ensures slots[|slots| - 1] in Put(slots, cap, key, e)
  {
    var last := slots[|slots| - 1];
    match IndexOf(slots, key)
    case Some(i) =>
      assert last in slots[i + 1..];
    case None =>
      if |slots| >= cap {
        assert last == slots[1..][|slots| - 2];
      }
  }

  /**
   * `put` leaves the slots of every other key in their recency order; the only
   * other change is the eviction of the least recently used slot when a new key
   * arrives at a full map.
   */
  lemma PutLeavesOthers(slots: seq<Slot>, cap: nat, key: Path, e: Entry)
    ensures IndexOf(slots, key).Some? || cap == 0 || |slots| < cap ==>
      Others(Put(slots, cap, key, e), key) == Others(slots, key)
    ensures IndexOf(slots, key).None? && 0 < cap <= |slots| ==>
      Others(Put(slots, cap, key, e), key) == slots[1..]
  {
    var added := Slot(key, e);
    assert Others([added], key) == [] by {
      assert [added][1..] == [];
    }
    match IndexOf(slots, key)
    case Some(i) =>
      OthersAround(slots, i);
      OthersAppend(RemoveAt(slots, i), [added], key);
    case None =>
      OthersAbsent(slots, key);
      if cap != 0 && |slots| >= cap {
        OthersAbsent(slots[1..], key);
        OthersAppend(slots[1..], [added], key);
      } else if cap != 0 {
        OthersAppend(slots, [added], key);
      }
  }

  /** Every slot a read leaves behind was there before. */
  lemma ValidatedKeeps(fs: Fs, slots: seq<Slot>, query: Path, s: Slot)
    requires s in Validated(fs, slots, query).slots
    ensures s in slots
  {
    var key := LowerPath(query);
    match IndexOf(slots, key)
    case None =>
    case Some(i) =>
      var bumped := Promote(slots, i);
      assert s in bumped ==> s in slots[..i] || s in slots[i + 1..] || s == slots[i];
      match IndexOf(bumped, key)
      case None =>
      case Some(k) =>
        assert s in Pop(bumped, key) ==> s in bumped[..k] || s in bumped[k + 1..];
  }

  /** The recency bump keeps the invariant; popping the bumped key afterwards just removes its slot. */
  lemma PromoteWellFormed(slots: seq<Slot>, cap: nat, i: nat)
    requires WellFormed(slots, cap) && i < |slots|
    ensures WellFormed(Promote(slots, i), cap)
    ensures Pop(Promote(slots, i), slots[i].key) == RemoveAt(slots, i)
  {
    RemoveAtWellFormed(slots, cap, i);
    var rest, bumped := RemoveAt(slots, i), Promote(slots, i);
    assert forall j :: 0 <= j < |rest| ==> bumped[j] == rest[j];
    assert bumped[|bumped| - 1] == slots[i];
    assert IndexOf(bumped, slots[i].key) == Some(|bumped| - 1);
    assert bumped[..|bumped| - 1] == rest;
  }

  /** `get` keeps the cache invariant. */
  lemma ValidatedWellFormed(fs: Fs, slots: seq<Slot>, cap: nat, query: Path)
    requires WellFormed(slots, cap)
    ensures WellFormed(Validated(fs, slots, query).slots, cap)
  {
    match IndexOf(slots, LowerPath(query))
    case None =>
    case Some(i) =>
      PromoteWellFormed(slots, cap, i);
      RemoveAtWellFormed(slots, cap, i);
  }

  /**
   * `get` answers `Some(p)` exactly when the slot stored under the query's
   * folded form holds `p` and `p` exists; that slot becomes the most recently
   * used. Otherwise it answers `None` and no slot under that key remains: a
   * slot whose path fails the metadata query is dropped.
   */
  lemma ValidatedAnswer(fs: Fs, slots: seq<Slot>, cap: nat, query: Path)
    requires WellFormed(slots, cap)
    ensures var g := Validated(fs, slots, query);
      var key := LowerPath(query);
      && (g.found.Some? <==> IndexOf(slots, key).Some? && Exists(fs, slots[IndexOf(slots, key).value].entry.path))
      && (g.found.Some? ==>
            && g.found.value == slots[IndexOf(slots, key).value].entry.path
            && LowerPath(g.found.value) == key
            && g.slots[|g.slots| - 1] == Slot(key, Entry(g.found.value)))
      && (g.found.None? ==> IndexOf(g.slots, key).None?)
  {
    var key := LowerPath(query);
    match IndexOf(slots, key)
    case None =>
    case Some(i) =>
      PromoteWellFormed(slots, cap, i);
      RemoveAtWellFormed(slots, cap, i);
  }

  /** `get` leaves the slots of every other key, and their recency order, untouched. */
  lemma ValidatedLeavesOthers(fs: Fs, slots: seq<Slot>, query: Path)
    ensures Others(Validated(fs, slots, query).slots, LowerPath(query)) == Others(slots, LowerPath(query))
  {
    var key := LowerPath(query);
    match IndexOf(slots, key)
    case None =>
    case Some(i) =>
      var bumped := Promote(slots, i);
      OthersAround(slots, i);
      match IndexOf(bumped, key)
      case None =>
      case Some(k) =>
        OthersAround(bumped, k);
  }

  /** The most recently used slot is served to any query with its key, while its path exists. */
  lemma ValidatedServesNewest(fs: Fs, slots: seq<Slot>, cap: nat, p: Path, query: Path)
    requires WellFormed(slots, cap) && |slots| > 0 && slots[|slots| - 1] == Slot(LowerPath(p), Entry(p))
    requires LowerPath(query) == LowerPath(p) && Exists(fs, p)
    ensures Validated(fs, slots, query).found == Some(p)
  {
    assert IndexOf(slots, LowerPath(query)) == Some(|slots| - 1);
  }

  /** A second `get` of the same path answers as the first did and changes nothing more. */
  lemma ValidatedRepeat(fs: Fs, slots: seq<Slot>, cap: nat, query: Path)
    requires WellFormed(slots, cap)
    ensures var g := Validated(fs, slots, query);
      Validated(fs, g.slots, query) == g
  {
    var g := Validated(fs, slots, query);
    ValidatedAnswer(fs, slots, cap, query);
    ValidatedWellFormed(fs, slots, cap, query);
    if g.found.Some? {
      var n := |g.slots|;
      assert IndexOf(g.slots, LowerPath(query)) == Some(n - 1);
      assert Promote(g.slots, n - 1) == g.slots by {
        assert g.slots[..n - 1] + [g.slots[n - 1]] == g.slots;
      }
    }
  }

  /**
   * A path stored by `insert` is served by the next `get` of any case variant
   * of it, as long as the path exists.
   */
  lemma InsertThenGet(fs: Fs, slots: seq<Slot>, cap: nat, p: Path, query: Path)
    requires WellFormed(slots, cap) && cap > 0
    requires LowerPath(query) == LowerPath(p) && Exists(fs, p)
    ensures Validated(fs, Put(slots, cap, LowerPath(p), Entry(p)), query).found == Some(p)
  {
    PutStores(slots, cap, LowerPath(p), Entry(p));
  }

  /**
   * `Cache`: the LRU map behind the resolver. `slots` is the map's content in
   * recency order; the capacity is fixed when the cache is made.
   */
  class Cache {
    var slots: seq<Slot>
    const capacity: nat

    ghost predicate Valid()
      reads this
    {
      WellFormed(slots, capacity)
    }

    /** `Cache::new`. */
    constructor (size: nat)
      ensures Valid() && capacity == size && slots == []
    {
      capacity := size;
      slots := [];
    }

    /** `Cache::insert`: store `path` under its folded form. */
    method Insert(path: Path)
      requires Valid()
      modifies this
      ensures Valid()
      ensures slots == Put(old(slots), capacity, LowerPath(path), Entry(path))
    {
      var key := LowerPath(path);
      PutWellFormed(slots, capacity, path);
      slots := Put(slots, capacity, key, Entry(path));
    }

    /** `Cache::get`: the validated case-exact path stored for `path`'s folded form. */
    method Get(fs: Fs, path: Path) returns (r: Option<Path>)
      requires Valid()
      modifies this
      ensures Valid()
      ensures r == Validated(fs, old(slots), path).found
      ensures slots == Validated(fs, old(slots), path).slots
    {
      ValidatedWellFormed(fs, slots, capacity, path);
      var key := LowerPath(path);
      var i := IndexOf(slots, key);
      if i.None? {
        return None;
      }
      var e := slots[i.value].entry;
      slots := Promote(slots, i.value);
      if Metadata(fs, e.path).Err? {
        slots := Pop(slots, key);
        return None;
      }
      return Some(e.path);
    }
  }
}
