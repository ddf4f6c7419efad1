/** Properties of `resolve` as a whole. */
module ResolveProperties {
  import opened Options
  import opened Paths
  import opened FileSystem
  import opened PathCache
  import opened Resolver
  import opened WalkProperties

  /** The candidate `base + raw` with the leading root of `raw` removed. */
  function Candidate(base: Path, raw: Path): Path {
    Path(base.rooted, base.segs + raw.segs)
  }

  /**
   * With case-insensitive matching off, the result is the base joined with the
   * relative form of the input, and the cache is not consulted or changed.
   */
  lemma PassThrough(fs: Fs, slots: seq<Slot>, cap: nat, base: Path, raw: Path)
    ensures Resolved(fs, slots, cap, base, raw, false) == Resolution(Candidate(base, raw), slots, Verbatim)
  {
  }

  /** A leading root on the input makes no difference: `/a/b` resolves as `a/b`. */
  lemma LeadingRootIgnored(fs: Fs, slots: seq<Slot>, cap: nat, base: Path, segs: seq<Seg>, ci: bool)
    ensures Resolved(fs, slots, cap, base, Path(true, segs), ci) == Resolved(fs, slots, cap, base, Path(false, segs), ci)
  {
  }

  /** A candidate that is not rooted, does not decode, or has no parent comes back unchanged. */
  lemma UnresolvableUnchanged(fs: Fs, slots: seq<Slot>, cap: nat, base: Path, raw: Path)
    requires var full := Candidate(base, raw); !full.rooted || !IsText(full) || full.segs == []
    ensures Resolved(fs, slots, cap, base, raw, true) == Resolution(Candidate(base, raw), slots, Unresolved)
  {
  }

  /** The search keeps the cache invariant. */
  lemma SearchedWellFormed(fs: Fs, slots: seq<Slot>, cap: nat, base: Path, segs: seq<Seg>)
    requires WellFormed(slots, cap) && |segs| > 0
    ensures WellFormed(Searched(fs, slots, cap, base, segs).slots, cap)
  {
    var start := ParentStart(fs, slots, cap, Above(base, segs), |segs| > 1);
    ParentStartSimilar(fs, slots, cap, Above(base, segs), |segs| > 1);
    if start.found {
      var step := LookupStep(fs, start.path, segs[|segs| - 1], true);
      PutWellFormed(start.slots, cap, step.path);
    } else {
      var w := RootWalk(fs, start.slots, cap, base, segs, false);
      WalkWellFormed(fs, start.slots, cap, base, segs, false);
      PutWellFormed(w.slots, cap, w.path);
    }
  }

  /** `resolve` keeps the cache invariant. */
  lemma ResolvedWellFormed(fs: Fs, slots: seq<Slot>, cap: nat, base: Path, raw: Path, ci: bool)
    requires WellFormed(slots, cap)
    ensures WellFormed(Resolved(fs, slots, cap, base, raw, ci).slots, cap)
  {
    var full := Join(base, Strip(raw));
    if ci && full.rooted && IsText(full) && Parent(full).Some? {
      ValidatedWellFormed(fs, slots, cap, full);
      if raw.segs != [] {
        SearchedWellFormed(fs, Validated(fs, slots, full).slots, cap, base, raw.segs);
      }
    }
  }

  /** The parent the shortcut starts from is a case variant of the candidate's parent. */
  lemma ParentStartSimilar(fs: Fs, slots: seq<Slot>, cap: nat, parent: Path, deep: bool)
    requires WellFormed(slots, cap)
    ensures Similar(ParentStart(fs, slots, cap, parent, deep).path, parent)
    ensures WellFormed(ParentStart(fs, slots, cap, parent, deep).slots, cap)
  {
    if deep {
      ValidatedAnswer(fs, slots, cap, parent);
      ValidatedWellFormed(fs, slots, cap, parent);
      var got := Validated(fs, slots, parent);
      if got.found.Some? {
        SameKeyIffSimilar(got.found.value, parent);
      } else {
        PutWellFormed(got.slots, cap, parent);
      }
    }
  }

  /** The search returns a case variant of `base` joined with `segs`. */
  lemma SearchedIsCaseVariant(fs: Fs, slots: seq<Slot>, cap: nat, base: Path, segs: seq<Seg>)
    requires WellFormed(slots, cap) && |segs| > 0
    ensures Similar(Searched(fs, slots, cap, base, segs).path, Path(base.rooted, base.segs + segs))
  {
    var parent := Above(base, segs);
    var last := segs[|segs| - 1];
    assert parent.Push(last) == Path(base.rooted, base.segs + segs) by {
      assert segs == segs[..|segs| - 1] + [last];
    }
    var start := ParentStart(fs, slots, cap, parent, |segs| > 1);
    if start.found {
      ParentStartSimilar(fs, slots, cap, parent, |segs| > 1);
      LookupAddsOneComponent(fs, start.path, last, true);
      SimilarPush(start.path, parent, last, last);
      SimilarTransitive(LookupStep(fs, start.path, last, true).path, start.path.Push(last), parent.Push(last));
    } else {
      WalkIgnoresCache(fs, start.slots, cap, base, segs, false);
      WalkShape(fs, base, segs, false);
    }
  }

  /**
   * Whatever route it takes, `resolve` returns a case variant of the
   * candidate: same root, one component per component of `base + raw`, each
   * folding like the one it replaces.
   */
  lemma ResolvedIsCaseVariant(fs: Fs, slots: seq<Slot>, cap: nat, base: Path, raw: Path, ci: bool)
    requires WellFormed(slots, cap)
    ensures Similar(Resolved(fs, slots, cap, base, raw, ci).path, Candidate(base, raw))
  {
    var full := Join(base, Strip(raw));
    assert full == Candidate(base, raw);
    if ci && full.rooted && IsText(full) && Parent(full).Some? {
      var hit := Validated(fs, slots, full);
      ValidatedAnswer(fs, slots, cap, full);
      if hit.found.Some? {
        SameKeyIffSimilar(hit.found.value, full);
      } else if !Exists(fs, full) && raw.segs != [] {
        ValidatedWellFormed(fs, slots, cap, full);
        SearchedIsCaseVariant(fs, hit.slots, cap, base, raw.segs);
      }
    }
  }

  /** Every slot of `after` that is not in `before` holds a path that exists. */
  ghost predicate AddsOnlyLive(fs: Fs, before: seq<Slot>, after: seq<Slot>) {
    forall s :: s in after && s !in before ==> Exists(fs, s.entry.path)
  }

  lemma AddsOnlyLiveTransitive(fs: Fs, a: seq<Slot>, b: seq<Slot>, c: seq<Slot>)
    requires AddsOnlyLive(fs, a, b) && AddsOnlyLive(fs, b, c)
    ensures AddsOnlyLive(fs, a, c)
  {
  }

  /** Every slot of `after` that is not in `before` holds a path of fewer than `n` components. */
  ghost predicate AddsOnlyShorter(before: seq<Slot>, after: seq<Slot>, n: nat) {
    forall s :: s in after && s !in before ==> |s.entry.path.segs| < n
  }

  lemma AddsOnlyShorterTransitive(a: seq<Slot>, b: seq<Slot>, c: seq<Slot>, m: nat, n: nat)
    requires AddsOnlyShorter(a, b, m) && AddsOnlyShorter(b, c, n) && m <= n
    ensures AddsOnlyShorter(a, c, n)
  {
  }

  /** A read adds no slot. */
  lemma ValidatedAddsNothing(fs: Fs, slots: seq<Slot>, query: Path)
    ensures AddsOnlyLive(fs, slots, Validated(fs, slots, query).slots)
    ensures AddsOnlyShorter(slots, Validated(fs, slots, query).slots, 0)
  {
    forall s | s in Validated(fs, slots, query).slots
      ensures s in slots
    {
      ValidatedKeeps(fs, slots, query, s);
    }
  }

  lemma PutAddsLive(fs: Fs, slots: seq<Slot>, cap: nat, p: Path)
    requires Exists(fs, p)
    ensures AddsOnlyLive(fs, slots, Put(slots, cap, LowerPath(p), Entry(p)))
  {
    forall s | s in Put(slots, cap, LowerPath(p), Entry(p))
      ensures s in slots || s.entry.path == p
    {
      PutKeeps(slots, cap, LowerPath(p), Entry(p), s);
    }
  }

  /** What the walk adds to the cache is the parent of the last segment, which exists on a consistent filesystem. */
  lemma WalkAddsLive(fs: Fs, slots: seq<Slot>, cap: nat, base: Path, segs: seq<Seg>)
    requires Consistent(fs) && |segs| > 1
    ensures AddsOnlyLive(fs, slots, RootWalk(fs, slots, cap, base, segs, false).slots)
  {
    var init := segs[..|segs| - 1];
    var before := WalkPath(fs, base, init, false);
    WalkSeedsParent(fs, slots, cap, base, segs);
    WalkFoundExists(fs, base, init, false);
    if !before.terminal {
      PutAddsLive(fs, slots, cap, before.path);
    }
  }

  /** The parent step adds only the parent it found on disk. */
  lemma ParentStartAddsLive(fs: Fs, slots: seq<Slot>, cap: nat, parent: Path, deep: bool)
    ensures AddsOnlyLive(fs, slots, ParentStart(fs, slots, cap, parent, deep).slots)
  {
    if deep {
      var got := Validated(fs, slots, parent);
      ValidatedAddsNothing(fs, slots, parent);
      if got.found.None? && Exists(fs, parent) {
        PutAddsLive(fs, got.slots, cap, parent);
        AddsOnlyLiveTransitive(fs, slots, got.slots, Put(got.slots, cap, LowerPath(parent), Entry(parent)));
      }
    }
  }

  /** On a consistent filesystem the search adds to the cache only paths that exist. */
  lemma SearchedAddsLive(fs: Fs, slots: seq<Slot>, cap: nat, base: Path, segs: seq<Seg>)
    requires Consistent(fs) && |segs| > 0
    ensures AddsOnlyLive(fs, slots, Searched(fs, slots, cap, base, segs).slots)
  {
    var res := Searched(fs, slots, cap, base, segs);
    var start := ParentStart(fs, slots, cap, Above(base, segs), |segs| > 1);
    ParentStartAddsLive(fs, slots, cap, Above(base, segs), |segs| > 1);
    var last := segs[|segs| - 1];
    if start.found {
      var step := LookupStep(fs, start.path, last, true);
      if !step.terminal {
        LookupFoundExists(fs, start.path, last, true);
        PutAddsLive(fs, start.slots, cap, step.path);
        AddsOnlyLiveTransitive(fs, slots, start.slots, res.slots);
      }
    } else {
      var w := RootWalk(fs, start.slots, cap, base, segs, false);
      WalkIgnoresCache(fs, start.slots, cap, base, segs, false);
      WalkAddsLive(fs, start.slots, cap, base, segs);
      AddsOnlyLiveTransitive(fs, slots, start.slots, w.slots);
      if !w.terminal {
        WalkFoundExists(fs, base, segs, false);
        PutAddsLive(fs, w.slots, cap, w.path);
        AddsOnlyLiveTransitive(fs, slots, w.slots, res.slots);
      }
    }
  }

  /**
   * On a consistent filesystem, `resolve` adds to the cache only paths that
   * exist: the parent it checked, the parent the walk reached, and a result that
   * did not go terminal.
   */
  lemma ResolvedStoresOnlyLive(fs: Fs, slots: seq<Slot>, cap: nat, base: Path, raw: Path, ci: bool)
    requires Consistent(fs)
    ensures AddsOnlyLive(fs, slots, Resolved(fs, slots, cap, base, raw, ci).slots)
  {
    var full := Join(base, Strip(raw));
    if ci && full.rooted && IsText(full) && Parent(full).Some? {
      var hit := Validated(fs, slots, full);
      ValidatedAddsNothing(fs, slots, full);
      if hit.found.None? && !Exists(fs, full) && raw.segs != [] {
        SearchedAddsLive(fs, hit.slots, cap, base, raw.segs);
        AddsOnlyLiveTransitive(fs, slots, hit.slots, Resolved(fs, slots, cap, base, raw, ci).slots);
      }
    }
  }

  /** A search that did not go terminal stores its result as the most recently used slot. */
  lemma SearchedStoresSuccess(fs: Fs, slots: seq<Slot>, cap: nat, base: Path, segs: seq<Seg>)
    requires WellFormed(slots, cap) && cap > 0 && |segs| > 0
    ensures var res := Searched(fs, slots, cap, base, segs);
      res.route == Shortcut(false) || res.route == Walked(false) ==>
        |res.slots| > 0 && res.slots[|res.slots| - 1] == Slot(LowerPath(res.path), Entry(res.path))
  {
    var start := ParentStart(fs, slots, cap, Above(base, segs), |segs| > 1);
    ParentStartSimilar(fs, slots, cap, Above(base, segs), |segs| > 1);
    if start.found {
      var step := LookupStep(fs, start.path, segs[|segs| - 1], true);
      PutStores(start.slots, cap, LowerPath(step.path), Entry(step.path));
    } else {
      var w := RootWalk(fs, start.slots, cap, base, segs, false);
      WalkWellFormed(fs, start.slots, cap, base, segs, false);
      PutStores(w.slots, cap, LowerPath(w.path), Entry(w.path));
    }
  }

  /** A resolution that did not go terminal stores its result as the most recently used slot. */
  lemma ResolvedStoresSuccess(fs: Fs, slots: seq<Slot>, cap: nat, base: Path, raw: Path, ci: bool)
    requires WellFormed(slots, cap) && cap > 0
    ensures var res := Resolved(fs, slots, cap, base, raw, ci);
      res.route == Shortcut(false) || res.route == Walked(false) ==>
        |res.slots| > 0 && res.slots[|res.slots| - 1] == Slot(LowerPath(res.path), Entry(res.path))
  {
    var full := Join(base, Strip(raw));
    if ci && full.rooted && IsText(full) && Parent(full).Some? {
      var hit := Validated(fs, slots, full);
      ValidatedWellFormed(fs, slots, cap, full);
      if hit.found.None? && !Exists(fs, full) && raw.segs != [] {
        SearchedStoresSuccess(fs, hit.slots, cap, base, raw.segs);
      }
    }
  }

  /** The slots the parent step adds hold the candidate's parent, one component short. */
  lemma ParentStartAddsParent(fs: Fs, slots: seq<Slot>, cap: nat, parent: Path, deep: bool)
    ensures AddsOnlyShorter(slots, ParentStart(fs, slots, cap, parent, deep).slots, |parent.segs| + 1)
    ensures !ParentStart(fs, slots, cap, parent, deep).found ==> AddsOnlyShorter(slots, ParentStart(fs, slots, cap, parent, deep).slots, 0)
  {
    var start := ParentStart(fs, slots, cap, parent, deep);
    var got := Validated(fs, slots, parent);
    forall s | s in start.slots && s !in slots
      ensures start.found && |s.entry.path.segs| < |parent.segs| + 1
    {
      if deep && got.found.None? && Exists(fs, parent) {
        PutKeeps(got.slots, cap, LowerPath(parent), Entry(parent), s);
        if s != Slot(LowerPath(parent), Entry(parent)) {
          ValidatedKeeps(fs, slots, parent, s);
        }
      } else if deep {
        ValidatedKeeps(fs, slots, parent, s);
      }
    }
  }

  /** The walk adds at most the parent of its last segment, one component short of the result. */
  lemma WalkAddsOnlyParent(fs: Fs, slots: seq<Slot>, cap: nat, base: Path, segs: seq<Seg>)
    requires |segs| > 0
    ensures AddsOnlyShorter(slots, RootWalk(fs, slots, cap, base, segs, false).slots, |base.segs| + |segs|)
  {
    var w := RootWalk(fs, slots, cap, base, segs, false);
    var init := segs[..|segs| - 1];
    var before := WalkPath(fs, base, init, false);
    WalkSeedsParent(fs, slots, cap, base, segs);
    WalkShape(fs, base, init, false);
    forall s | s in w.slots && s !in slots
      ensures |s.entry.path.segs| < |base.segs| + |segs|
    {
      if !before.terminal {
        PutKeeps(slots, cap, LowerPath(before.path), Entry(before.path), s);
      }
    }
  }

  /** A search that went terminal adds only paths shorter than the candidate. */
  lemma SearchedTerminalAddsShorter(fs: Fs, slots: seq<Slot>, cap: nat, base: Path, segs: seq<Seg>)
    requires |segs| > 0
    ensures var res := Searched(fs, slots, cap, base, segs);
      !(res.route == Shortcut(false) || res.route == Walked(false)) ==>
        AddsOnlyShorter(slots, res.slots, |base.segs| + |segs|)
  {
    var parent := Above(base, segs);
    var start := ParentStart(fs, slots, cap, parent, |segs| > 1);
    ParentStartAddsParent(fs, slots, cap, parent, |segs| > 1);
    if !start.found {
      WalkAddsOnlyParent(fs, start.slots, cap, base, segs);
      AddsOnlyShorterTransitive(slots, start.slots, RootWalk(fs, start.slots, cap, base, segs, false).slots,
        |parent.segs| + 1, |base.segs| + |segs|);
    }
  }

  /**
   * Every resolution that is not a non-terminal shortcut or walk (it went
   * terminal, was served by the cache, existed as given, or was not resolved)
   * adds at most ancestors of its result to the cache, never the result itself.
   */
  lemma ResolvedTerminalStoresOnlyAncestors(fs: Fs, slots: seq<Slot>, cap: nat, base: Path, raw: Path, ci: bool)
    requires WellFormed(slots, cap)
    ensures var res := Resolved(fs, slots, cap, base, raw, ci);
      !(res.route == Shortcut(false) || res.route == Walked(false)) ==>
        AddsOnlyShorter(slots, res.slots, |res.path.segs|)
  {
    var res := Resolved(fs, slots, cap, base, raw, ci);
    var n := |base.segs| + |raw.segs|;
    assert |res.path.segs| == n by {
      ResolvedIsCaseVariant(fs, slots, cap, base, raw, ci);
    }
    var full := Join(base, Strip(raw));
    if ci && full.rooted && IsText(full) && Parent(full).Some? {
      var hit := Validated(fs, slots, full);
      ValidatedAddsNothing(fs, slots, full);
      if hit.found.None? && !Exists(fs, full) && raw.segs != [] {
        SearchedTerminalAddsShorter(fs, hit.slots, cap, base, raw.segs);
        if !(res.route == Shortcut(false) || res.route == Walked(false)) {
          AddsOnlyShorterTransitive(slots, hit.slots, res.slots, 0, n);
        }
      } else {
        AddsOnlyShorterTransitive(slots, hit.slots, hit.slots, 0, n);
      }
    }
  }

  /**
   * An input that exists exactly as given comes back as given, unless the cache
   * holds a live case variant of it under the same key, which `resolve`
   * consults first and returns instead.
   */
  lemma ExactMatchKept(fs: Fs, slots: seq<Slot>, cap: nat, base: Path, raw: Path)
    requires var full := Candidate(base, raw); full.rooted && IsText(full) && full.segs != [] && Exists(fs, full)
    ensures var key := LowerPath(Candidate(base, raw));
      var variant := IndexOf(slots, key).Some? && Exists(fs, slots[IndexOf(slots, key).value].entry.path);
      Resolved(fs, slots, cap, base, raw, true).path ==
        if variant then slots[IndexOf(slots, key).value].entry.path else Candidate(base, raw)
  {
    assert Join(base, Strip(raw)) == Candidate(base, raw);
  }

  /** Resolving `report.txt` in a directory holding `Report.TXT` recovers the stored case. */
  lemma CaseRecovery()
    ensures var root := Path(true, []);
      var stored := root.Push(Text("Report.TXT"));
      var fs := Fs(map[stored := Ok], map[root := [Named(Text("Report.TXT"))]]);
      Resolved(fs, [], 1024, root, Path(false, [Text("report.txt")]), true)
        == Resolution(stored, [Slot(LowerPath(stored), Entry(stored))], Shortcut(false))
  {
    var root := Path(true, []);
    var stored := root.Push(Text("Report.TXT"));
    var asked := root.Push(Text("report.txt"));
    assert asked != stored by {
      assert asked.segs[0].s[0] != stored.segs[0].s[0];
    }
    assert LowerStr("Report.TXT") == LowerStr("report.txt");
    assert LowerPath(asked) == LowerPath(stored) by {
      assert IsText(asked) && IsText(stored);
    }
  }

  /** The cache holds a slot under the folded form of `p` whose path exists. */
  ghost predicate HoldsLive(fs: Fs, slots: seq<Slot>, p: Path) {
    exists s :: s in slots && s.key == LowerPath(p) && Exists(fs, s.entry.path)
  }

  /** A search that walked and succeeded leaves the resolved parent in the cache. */
  lemma SearchedWalkLeavesParent(fs: Fs, slots: seq<Slot>, cap: nat, base: Path, segs: seq<Seg>)
    requires Consistent(fs) && WellFormed(slots, cap) && cap >= 2
    requires |segs| > 1 && IsText(Above(base, segs))
    requires Searched(fs, slots, cap, base, segs).route == Walked(false)
    ensures HoldsLive(fs, Searched(fs, slots, cap, base, segs).slots, Above(base, segs))
  {
    var res := Searched(fs, slots, cap, base, segs);
    var start := ParentStart(fs, slots, cap, Above(base, segs), true);
    ParentStartSimilar(fs, slots, cap, Above(base, segs), true);
    var w := RootWalk(fs, start.slots, cap, base, segs, false);
    WalkIgnoresCache(fs, start.slots, cap, base, segs, false);
    WalkWellFormed(fs, start.slots, cap, base, segs, false);
    WalkLastStep(fs, base, segs);
    WalkStoresParent(fs, start.slots, cap, base, segs);
    var p := WalkPath(fs, base, segs[..|segs| - 1], false).path;
    var seat := Slot(LowerPath(p), Entry(p));
    // the result has one component more than `p`, so their keys differ
    WalkShape(fs, base, segs, false);
    LowerPathShape(p);
    LowerPathShape(w.path);
    PutKeepsNewest(w.slots, cap, LowerPath(w.path), Entry(w.path));
    assert seat in res.slots;
  }

  /**
   * A resolution that walked from the base and succeeded leaves the resolved
   * parent of its last segment in the cache, and that parent exists. A cache of
   * one slot would evict the parent when the result is stored, hence the
   * capacity of two.
   */
  lemma WalkLeavesParentCached(fs: Fs, slots: seq<Slot>, cap: nat, base: Path, raw: Path)
    requires Consistent(fs) && WellFormed(slots, cap) && cap >= 2
    requires |raw.segs| > 1 && Resolved(fs, slots, cap, base, raw, true).route == Walked(false)
    ensures HoldsLive(fs, Resolved(fs, slots, cap, base, raw, true).slots, Above(base, raw.segs))
  {
    var full := Join(base, Strip(raw));
    var parent := Above(base, raw.segs);
    assert IsText(parent) by {
      assert forall i :: 0 <= i < |parent.segs| ==> parent.segs[i] == full.segs[i];
    }
    ValidatedWellFormed(fs, slots, cap, full);
    SearchedWalkLeavesParent(fs, Validated(fs, slots, full).slots, cap, base, raw.segs);
  }

  /** A search whose parent has a live case variant in the cache takes the shortcut. */
  lemma SearchedCachedParentSkipsWalk(fs: Fs, slots: seq<Slot>, cap: nat, base: Path, segs: seq<Seg>)
    requires WellFormed(slots, cap) && |segs| > 1
    requires HoldsLive(fs, slots, Above(base, segs))
    ensures Searched(fs, slots, cap, base, segs).route.Shortcut?
  {
    var parent := Above(base, segs);
    var seat :| seat in slots && seat.key == LowerPath(parent) && Exists(fs, seat.entry.path);
    var k :| 0 <= k < |slots| && slots[k] == seat;
    assert IndexOf(slots, LowerPath(parent)) == Some(k);
    ValidatedAnswer(fs, slots, cap, parent);
  }

  /** A read under another key keeps a live slot. */
  lemma ValidatedKeepsLive(fs: Fs, slots: seq<Slot>, query: Path, p: Path)
    requires LowerPath(query) != LowerPath(p) && HoldsLive(fs, slots, p)
    ensures HoldsLive(fs, Validated(fs, slots, query).slots, p)
  {
    var seat :| seat in slots && seat.key == LowerPath(p) && Exists(fs, seat.entry.path);
    ValidatedLeavesOthers(fs, slots, query);
    OthersMembership(slots, LowerPath(query), seat);
    OthersMembership(Validated(fs, slots, query).slots, LowerPath(query), seat);
  }

  /**
   * When the cache holds a live case variant of the parent of a path of
   * several segments, resolving that path never walks from the base: it is
   * served by the cache, exists as given, or takes the parent shortcut.
   */
  lemma CachedParentSkipsWalk(fs: Fs, slots: seq<Slot>, cap: nat, base: Path, raw: Path)
    requires WellFormed(slots, cap) && |raw.segs| > 1
    requires HoldsLive(fs, slots, Above(base, raw.segs))
    ensures !Resolved(fs, slots, cap, base, raw, true).route.Walked?
  {
    var parent := Above(base, raw.segs);
    var full := Join(base, Strip(raw));
    assert LowerPath(full) != LowerPath(parent) by {
      LowerPathShape(full);
      LowerPathShape(parent);
    }
    ValidatedKeepsLive(fs, slots, full, parent);
    ValidatedWellFormed(fs, slots, cap, full);
    SearchedCachedParentSkipsWalk(fs, Validated(fs, slots, full).slots, cap, base, raw.segs);
  }

  /**
   * After a resolution that walked a path of several segments from the base
   * and succeeded, resolving any sibling (same parent) no longer walks.
   */
  lemma SiblingSkipsWalk(fs: Fs, slots: seq<Slot>, cap: nat, base: Path, raw: Path, sib: Path)
    requires Consistent(fs) && WellFormed(slots, cap) && cap >= 2
    requires |raw.segs| > 1 && Resolved(fs, slots, cap, base, raw, true).route == Walked(false)
    requires |sib.segs| == |raw.segs| && sib.segs[..|sib.segs| - 1] == raw.segs[..|raw.segs| - 1]
    ensures !Resolved(fs, Resolved(fs, slots, cap, base, raw, true).slots, cap, base, sib, true).route.Walked?
  {
    WalkLeavesParentCached(fs, slots, cap, base, raw);
    ResolvedWellFormed(fs, slots, cap, base, raw, true);
    assert Above(base, sib.segs) == Above(base, raw.segs);
    CachedParentSkipsWalk(fs, Resolved(fs, slots, cap, base, raw, true).slots, cap, base, sib);
  }
}
