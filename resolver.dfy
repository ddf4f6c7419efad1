/**
 * The case-insensitive resolver: `lookup` resolves one component inside a
 * directory, and `resolve` combines the cache, direct existence checks, a
 * shortcut through the parent directory and a walk from the base directory.
 *
 * Each operation is a method over the filesystem oracle (and, for `resolve`,
 * the cache object), proved equal to a function that the property lemmas in
 * `ResolveProperties` are about.
 */
module Resolver {
  import opened Options
  import opened Paths
  import opened FileSystem
  import opened PathCache

  /** A directory item whose name decodes and folds to `folded`. */
  predicate Matches(item: DirItem, folded: string) {
    item.Named? && item.name.Text? && LowerStr(item.name.s) == folded
  }

  /** The position of the first item, in enumeration order, that matches `folded`. */
  function FirstMatch(items: seq<DirItem>, folded: string): (r: Option<nat>)
    ensures r.Some? ==> r.value < |items| && Matches(items[r.value], folded)
    ensures r.Some? ==> forall j :: 0 <= j < r.value ==> !Matches(items[j], folded)
    ensures r.None? ==> forall j :: 0 <= j < |items| ==> !Matches(items[j], folded)
  {
    if items == [] then None
    else if Matches(items[0], folded) then Some(0)
    else match FirstMatch(items[1..], folded)
      case None => None
      case Some(j) => Some(j + 1)
  }

  /** What `lookup` returns: the candidate path, and whether resolution stops here. */
  datatype Step = Step(path: Path, terminal: bool)

  /** The outcome of `lookup(dir, seg, noInitCheck)`. */
  function LookupStep(fs: Fs, dir: Path, seg: Seg, noInitCheck: bool): Step {
    var verbatim := dir.Push(seg);
    if !noInitCheck && Metadata(fs, verbatim).Ok? then Step(verbatim, false)
    else if !noInitCheck && Metadata(fs, verbatim) == Err(Other) then Step(verbatim, true)
    else
      match seg
      case Raw(_) => Step(verbatim, true)
      case Text(s) =>
        match ReadDir(fs, dir)
        case None => Step(verbatim, true)
        case Some(items) =>
          match FirstMatch(items, LowerStr(s))
          case None => Step(verbatim, true)
          case Some(k) => Step(dir.Push(items[k].name), false)
  }

  /**
   * `lookup`: unless `noInitCheck`, try `dir/seg` as given; then scan the
   * directory for the first entry whose decoded name folds like `seg`.
   */
  method Lookup(fs: Fs, dir: Path, seg: Seg, noInitCheck: bool) returns (path: Path, terminal: bool)
    ensures Step(path, terminal) == LookupStep(fs, dir, seg, noInitCheck)
  {
    var verbatim := dir.Push(seg);
    if !noInitCheck {
      var m := Metadata(fs, verbatim);
      if m.Ok? {
        return verbatim, false;
      }
      if m.kind != NotFound {
        return verbatim, true;
      }
    }
    if seg.Raw? {
      return verbatim, true;
    }
    var folded := LowerStr(seg.s);
    var listing := ReadDir(fs, dir);
    if listing.None? {
      return verbatim, true;
    }
    var items := listing.value;
    var i := 0;
    while i < |items|
      invariant 0 <= i <= |items|
      invariant forall j :: 0 <= j < i ==> !Matches(items[j], folded)
    {
      var item := items[i];
      if item.Named? && item.name.Text? && LowerStr(item.name.s) == folded {
        return dir.Push(item.name), false;
      }
      i := i + 1;
    }
    return verbatim, true;
  }

  /** The state of the segment loop of `resolve`: the path so far, the slots, and `stop`. */
  datatype Walk = Walk(path: Path, slots: seq<Slot>, terminal: bool)

  /**
   * The segment loop of `resolve`, from the path `acc` built so far over the
   * segments still to go. Before looking up the last segment the walk stores
   * its parent in the cache; once a lookup is terminal the remaining segments
   * are appended as given.
   */
  function RootWalk(fs: Fs, slots: seq<Slot>, cap: nat, acc: Path, segs: seq<Seg>, stop: bool): Walk
    decreases |segs|
  {
    if segs == [] then Walk(acc, slots, stop)
    else if stop then RootWalk(fs, slots, cap, acc.Push(segs[0]), segs[1..], true)
    else
      var seeded := if |segs| == 1 then Put(slots, cap, LowerPath(acc), Entry(acc)) else slots;
      var step := LookupStep(fs, acc, segs[0], false);
      RootWalk(fs, seeded, cap, step.path, segs[1..], step.terminal)
  }

  /** Where the parent shortcut starts: the parent to look in, whether it exists, and the slots. */
  datatype Start = Start(path: Path, found: bool, slots: seq<Slot>)

  /**
   * The parent of a path of several segments is taken from the cache, or
   * checked on disk and stored when it exists; for a single segment the parent
   * is assumed to exist, unchecked.
   */
  function ParentStart(fs: Fs, slots: seq<Slot>, cap: nat, parent: Path, deep: bool): Start {
    if !deep then Start(parent, true, slots)
    else
      var got := Validated(fs, slots, parent);
      if got.found.Some? then Start(got.found.value, true, got.slots)
      else if Exists(fs, parent) then Start(parent, true, Put(got.slots, cap, LowerPath(parent), Entry(parent)))
      else Start(parent, false, got.slots)
  }

  /** Which branch of `resolve` produced the result. */
  datatype Route =
    | Verbatim               // case-insensitive matching is off
    | Unresolved             // not rooted, not text, no parent, or no segments
    | Cached                 // served by the cache
    | Exact                  // exists exactly as given
    | Shortcut(terminal: bool)  // one lookup in the parent directory
    | Walked(terminal: bool)    // segment by segment from the base directory

  datatype Resolution = Resolution(path: Path, slots: seq<Slot>, route: Route)

  /** The input path with its leading root taken off. */
  function Strip(raw: Path): Path {
    Path(false, raw.segs)
  }

  /** The parent of `base` joined with `segs`: all but the last segment. */
  function Above(base: Path, segs: seq<Seg>): Path
    requires |segs| > 0
  {
    Path(base.rooted, base.segs + segs[..|segs| - 1])
  }

  /** The outcome of `resolve(base, raw, caseInsensitive)` against a cache holding `slots`. */
  function Resolved(fs: Fs, slots: seq<Slot>, cap: nat, base: Path, raw: Path, caseInsensitive: bool): Resolution {
    var rel := Strip(raw);
    var full := Join(base, rel);
    if !caseInsensitive then Resolution(full, slots, Verbatim)
    else if !full.rooted || !IsText(full) || Parent(full).None? then Resolution(full, slots, Unresolved)
    else Probed(fs, slots, cap, base, rel.segs, full)
  }

  /** `resolve` past its guards: the cache, then the exact check, then the search. */
  function Probed(fs: Fs, slots: seq<Slot>, cap: nat, base: Path, segs: seq<Seg>, full: Path): Resolution {
    var hit := Validated(fs, slots, full);
    if hit.found.Some? then Resolution(hit.found.value, hit.slots, Cached)
    else if Exists(fs, full) then Resolution(full, hit.slots, Exact)
    else if segs == [] then Resolution(full, hit.slots, Unresolved)
    else Searched(fs, hit.slots, cap, base, segs)
  }

  /** `resolve` once the cache and the exact check have failed: the parent shortcut, or the walk. */
  function Searched(fs: Fs, slots: seq<Slot>, cap: nat, base: Path, segs: seq<Seg>): Resolution
    requires |segs| > 0
  {
    var start := ParentStart(fs, slots, cap, Above(base, segs), |segs| > 1);
    if start.found then
      var step := LookupStep(fs, start.path, segs[|segs| - 1], true);
      var after := if step.terminal then start.slots
                   else Put(start.slots, cap, LowerPath(step.path), Entry(step.path));
      Resolution(step.path, after, Shortcut(step.terminal))
    else
      var w := RootWalk(fs, start.slots, cap, base, segs, false);
      var after := if w.terminal then w.slots else Put(w.slots, cap, LowerPath(w.path), Entry(w.path));
      Resolution(w.path, after, Walked(w.terminal))
  }

  /** `resolve`: the case-exact form of `base` joined with `raw`, where one can be found. */
  method Resolve(cache: Cache, fs: Fs, base: Path, raw: Path, caseInsensitive: bool) returns (r: Path)
    requires cache.Valid()
    modifies cache
    ensures cache.Valid()
    ensures r == Resolved(fs, old(cache.slots), cache.capacity, base, raw, caseInsensitive).path
    ensures cache.slots == Resolved(fs, old(cache.slots), cache.capacity, base, raw, caseInsensitive).slots
  {
    // make the path relative
    var rel := raw;
    while rel.rooted
      invariant rel.segs == raw.segs
      decreases rel.rooted
    {
      rel := Path(false, rel.segs);
    }

    if !caseInsensitive {
      return Join(base, rel);
    }

    var full := Join(base, rel);
    if !full.rooted || !IsText(full) {
      return full;
    }
    var parentOf := Parent(full);
    if parentOf.None? {
      return full;
    }

    var hit := cache.Get(fs, full);
    if hit.Some? {
      return hit.value;
    }
    if Exists(fs, full) {
      return full;
    }

    if |rel.segs| == 0 {
      return full;
    }
    r := Search(cache, fs, base, rel.segs);
  }

  /** The search part of `resolve`: the parent shortcut, then the walk from the base. */
  method Search(cache: Cache, fs: Fs, base: Path, segs: seq<Seg>) returns (r: Path)
    requires cache.Valid() && |segs| > 0
    modifies cache
    ensures cache.Valid()
    ensures r == Searched(fs, old(cache.slots), cache.capacity, base, segs).path
    ensures cache.slots == Searched(fs, old(cache.slots), cache.capacity, base, segs).slots
  {
    var parent := Above(base, segs);
    // the parent shortcut
    var start, found := parent, true;
    if |segs| > 1 {
      var cached := cache.Get(fs, parent);
      if cached.Some? {
        start := cached.value;
      } else {
        found := Exists(fs, parent);
        if found {
          cache.Insert(parent);
        }
      }
    }
    if found {
      var newpath, stop := Lookup(fs, start, segs[|segs| - 1], true);
      if !stop {
        cache.Insert(newpath);
      }
      return newpath;
    }

    // walk from the base, segment by segment
    ghost var before := cache.slots;
    var stop := false;
    var newpath := base;
    var idx := 0;
    while idx < |segs|
      invariant 0 <= idx <= |segs|
      invariant cache.Valid()
      invariant RootWalk(fs, cache.slots, cache.capacity, newpath, segs[idx..], stop)
        == RootWalk(fs, before, cache.capacity, base, segs, false)
    {
      var seg := segs[idx];
      assert segs[idx..][0] == seg && segs[idx..][1..] == segs[idx + 1..];
      if !stop {
        if idx == |segs| - 1 {
          cache.Insert(newpath);
        }
        newpath, stop := Lookup(fs, newpath, seg, false);
      } else {
        newpath := newpath.Push(seg);
      }
      idx := idx + 1;
    }
    if !stop {
      cache.Insert(newpath);
    }
    return newpath;
  }
}
