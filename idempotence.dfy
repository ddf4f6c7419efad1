/**
 * Resolving the same input twice in succession, with the filesystem unchanged,
 * yields the same path the second time, provided every listed entry exists and
 * no metadata query fails with an error other than not-found.
 *
 * Without the second condition the property fails: the walk from the base
 * probes the last segment exactly as given and stops on such an error, while
 * the repeated call starts from the parent the walk cached, skips that probe
 * and scans the directory (`RepeatCanDiffer`).
 */
module Idempotence {
  import opened Options
  import opened Paths
  import opened FileSystem
  import opened PathCache
  import opened Resolver
  import opened WalkProperties
  import opened ResolveProperties

  /** Every metadata query succeeds or reports that the path does not exist. */
  ghost predicate NoOtherErrors(fs: Fs) {
    forall p :: Metadata(fs, p) != Err(Other)
  }

  /** The candidate `base + segs` a search works on. */
  function Target(base: Path, segs: seq<Seg>): Path {
    Path(base.rooted, base.segs + segs)
  }

  /** The search's result, when it did not go terminal, exists and carries the candidate's key. */
  lemma SearchedSuccessLive(fs: Fs, slots: seq<Slot>, cap: nat, base: Path, segs: seq<Seg>)
    requires Consistent(fs) && WellFormed(slots, cap) && |segs| > 0 && IsText(Target(base, segs))
    ensures var res := Searched(fs, slots, cap, base, segs);
      res.route == Shortcut(false) || res.route == Walked(false) ==>
        Exists(fs, res.path) && LowerPath(res.path) == LowerPath(Target(base, segs))
  {
    var res := Searched(fs, slots, cap, base, segs);
    var start := ParentStart(fs, slots, cap, Above(base, segs), |segs| > 1);
    if start.found {
      LookupFoundExists(fs, start.path, segs[|segs| - 1], true);
    } else {
      WalkIgnoresCache(fs, start.slots, cap, base, segs, false);
      WalkFoundExists(fs, base, segs, false);
    }
    SearchedIsCaseVariant(fs, slots, cap, base, segs);
    SimilarKeepsText(res.path, Target(base, segs));
    SameKeyIffSimilar(res.path, Target(base, segs));
  }

  /** After a successful search the candidate is served from the cache. */
  lemma SearchedSuccessServed(fs: Fs, slots: seq<Slot>, cap: nat, base: Path, segs: seq<Seg>)
    requires Consistent(fs) && WellFormed(slots, cap) && cap > 0 && |segs| > 0 && IsText(Target(base, segs))
    ensures var res := Searched(fs, slots, cap, base, segs);
      res.route == Shortcut(false) || res.route == Walked(false) ==>
        Validated(fs, res.slots, Target(base, segs)).found == Some(res.path)
  {
    var res := Searched(fs, slots, cap, base, segs);
    if res.route == Shortcut(false) || res.route == Walked(false) {
      SearchedSuccessLive(fs, slots, cap, base, segs);
      SearchedStoresSuccess(fs, slots, cap, base, segs);
      SearchedWellFormed(fs, slots, cap, base, segs);
      ValidatedServesNewest(fs, res.slots, cap, res.path, Target(base, segs));
    }
  }

  /**
   * A search that went terminal leaves no slot under the candidate's key when
   * there was none before: it adds only paths with fewer components.
   */
  lemma SearchedTerminalKeepsKeyAbsent(fs: Fs, slots: seq<Slot>, cap: nat, base: Path, segs: seq<Seg>)
    requires WellFormed(slots, cap) && |segs| > 0
    requires IndexOf(slots, LowerPath(Target(base, segs))).None?
    ensures var res := Searched(fs, slots, cap, base, segs);
      !(res.route == Shortcut(false) || res.route == Walked(false)) ==>
        IndexOf(res.slots, LowerPath(Target(base, segs))).None?
  {
    var res := Searched(fs, slots, cap, base, segs);
    var full := Target(base, segs);
    if !(res.route == Shortcut(false) || res.route == Walked(false)) {
      SearchedTerminalAddsShorter(fs, slots, cap, base, segs);
      SearchedWellFormed(fs, slots, cap, base, segs);
      forall i | 0 <= i < |res.slots|
        ensures res.slots[i].key != LowerPath(full)
      {
        var s := res.slots[i];
        if s !in slots {
          LowerPathShape(s.entry.path);
          LowerPathShape(full);
        }
      }
    }
  }

  /** Without another error kind, a failed probe behaves as a skipped one. */
  lemma LookupProbeNotFound(fs: Fs, dir: Path, seg: Seg)
    requires NoOtherErrors(fs) && LookupStep(fs, dir, seg, false).terminal
    ensures LookupStep(fs, dir, seg, false) == LookupStep(fs, dir, seg, true)
  {
    assert Metadata(fs, dir.Push(seg)) != Err(Other);
  }

  /**
   * A walk that went terminal, repeated against the slots it left: the parent
   * it stored (if it got that far) is served and the shortcut reaches the same
   * path; otherwise the same walk runs again.
   */
  lemma WalkTerminalRepeat(fs: Fs, slots: seq<Slot>, cap: nat, base: Path, segs: seq<Seg>)
    requires Consistent(fs) && NoOtherErrors(fs) && WellFormed(slots, cap) && cap > 0
    requires |segs| > 1 && IsText(Above(base, segs))
    requires Validated(fs, slots, Above(base, segs)).found.None? && !Exists(fs, Above(base, segs))
    requires RootWalk(fs, Validated(fs, slots, Above(base, segs)).slots, cap, base, segs, false).terminal
    ensures var first := Searched(fs, slots, cap, base, segs);
      Searched(fs, first.slots, cap, base, segs).path == first.path
  {
    var parent := Above(base, segs);
    var n := |segs|;
    var g := Validated(fs, slots, parent);
    ValidatedRepeat(fs, slots, cap, parent);
    ValidatedWellFormed(fs, slots, cap, parent);
    var w := RootWalk(fs, g.slots, cap, base, segs, false);
    WalkIgnoresCache(fs, g.slots, cap, base, segs, false);
    WalkLastStep(fs, base, segs);
    WalkSeedsParent(fs, g.slots, cap, base, segs);
    var before := WalkPath(fs, base, segs[..n - 1], false);
    if !before.terminal {
      var p := before.path;
      WalkStoresParent(fs, g.slots, cap, base, segs);
      WalkWellFormed(fs, g.slots, cap, base, segs, false);
      ValidatedServesNewest(fs, w.slots, cap, p, parent);
      LookupProbeNotFound(fs, p, segs[n - 1]);
    }
  }

  /** A search that went terminal, repeated against the slots it left, reaches the same path. */
  lemma SearchedTerminalRepeat(fs: Fs, slots: seq<Slot>, cap: nat, base: Path, segs: seq<Seg>)
    requires Consistent(fs) && NoOtherErrors(fs) && WellFormed(slots, cap) && cap > 0
    requires |segs| > 0 && IsText(Above(base, segs))
    requires var first := Searched(fs, slots, cap, base, segs);
      !(first.route == Shortcut(false) || first.route == Walked(false))
    ensures var first := Searched(fs, slots, cap, base, segs);
      Searched(fs, first.slots, cap, base, segs).path == first.path
  {
    var parent := Above(base, segs);
    if |segs| > 1 {
      var g := Validated(fs, slots, parent);
      ValidatedRepeat(fs, slots, cap, parent);
      ValidatedWellFormed(fs, slots, cap, parent);
      if g.found.None? {
        if Exists(fs, parent) {
          InsertThenGet(fs, g.slots, cap, parent, parent);
        } else {
          WalkTerminalRepeat(fs, slots, cap, base, segs);
        }
      }
    }
  }

  /** The search phase, repeated against the slots it left, yields the same path. */
  lemma SearchedRepeat(fs: Fs, slots: seq<Slot>, cap: nat, base: Path, segs: seq<Seg>)
    requires Consistent(fs) && NoOtherErrors(fs) && WellFormed(slots, cap) && cap > 0
    requires |segs| > 0 && IsText(Target(base, segs))
    requires IndexOf(slots, LowerPath(Target(base, segs))).None? && !Exists(fs, Target(base, segs))
    ensures var first := Searched(fs, slots, cap, base, segs);
      Probed(fs, first.slots, cap, base, segs, Target(base, segs)).path == first.path
  {
    var full := Target(base, segs);
    var first := Searched(fs, slots, cap, base, segs);
    SearchedWellFormed(fs, slots, cap, base, segs);
    if first.route == Shortcut(false) || first.route == Walked(false) {
      SearchedSuccessServed(fs, slots, cap, base, segs);
    } else {
      SearchedTerminalKeepsKeyAbsent(fs, slots, cap, base, segs);
      assert IsText(Above(base, segs)) by {
        assert forall i :: 0 <= i < |Above(base, segs).segs| ==> Above(base, segs).segs[i] == full.segs[i];
      }
      SearchedTerminalRepeat(fs, slots, cap, base, segs);
    }
  }

  /**
   * On a consistent filesystem where no metadata query fails with an error
   * other than not-found, resolving the same input again, against the cache
   * the first resolution left, yields the same path.
   */
  lemma ResolveIdempotent(fs: Fs, slots: seq<Slot>, cap: nat, base: Path, raw: Path, ci: bool)
    requires Consistent(fs) && NoOtherErrors(fs) && WellFormed(slots, cap)
    ensures var first := Resolved(fs, slots, cap, base, raw, ci);
      Resolved(fs, first.slots, cap, base, raw, ci).path == first.path
  {
    var first := Resolved(fs, slots, cap, base, raw, ci);
    var full := Join(base, Strip(raw));
    assert full == Target(base, raw.segs);
    ResolvedWellFormed(fs, slots, cap, base, raw, ci);
    if cap == 0 {
      assert slots == [] && first.slots == [];
    } else if ci && full.rooted && IsText(full) && Parent(full).Some? {
      var hit := Validated(fs, slots, full);
      ValidatedRepeat(fs, slots, cap, full);
      ValidatedAnswer(fs, slots, cap, full);
      if hit.found.None? && !Exists(fs, full) && raw.segs != [] {
        ValidatedWellFormed(fs, slots, cap, full);
        SearchedRepeat(fs, hit.slots, cap, base, raw.segs);
      }
    }
  }

  // The directory `/A` is readable but not searchable, so every metadata query
  // below it fails with a permission error.
  const Root := Path(true, [])
  const DirA := Root.Push(Text("A"))
  const Denied := Fs(map[DirA := Ok, DirA.Push(Text("foo")) := Err(Other), DirA.Push(Text("Foo")) := Err(Other)],
                     map[Root := [Named(Text("A"))], DirA := [Named(Text("Foo"))]])
  const Asked := Path(false, [Text("a"), Text("foo")])

  lemma DeniedNames()
    ensures LowerPath(Root.Push(Text("a"))) == LowerPath(DirA)
    ensures Root.Push(Text("a")) !in Denied.stat
    ensures Root.Push(Text("a")).Push(Text("foo")) !in Denied.stat
    ensures LowerStr("Foo") == LowerStr("foo")
  {
    var dira := Root.Push(Text("a"));
    assert LowerStr("A") == LowerStr("a");
    assert IsText(dira) && IsText(DirA);
    assert dira.segs[0].s[0] != DirA.segs[0].s[0];
    assert dira.Push(Text("foo")).segs[0].s[0] != DirA.segs[0].s[0];
  }

  /** The first call walks: `a` matches `A`, `/A` is stored, and the probe of `/A/foo` stops the walk. */
  lemma DeniedFirstCall()
    ensures Resolved(Denied, [], 1024, Root, Asked, true)
      == Resolution(DirA.Push(Text("foo")), [Slot(LowerPath(DirA), Entry(DirA))], Walked(true))
  {
    DeniedNames();
    var dira := Root.Push(Text("a"));
    assert Above(Root, Asked.segs) == dira;
    assert ParentStart(Denied, [], 1024, dira, true) == Start(dira, false, []);
    assert LookupStep(Denied, Root, Text("a"), false) == Step(DirA, false);
    assert LookupStep(Denied, DirA, Text("foo"), false) == Step(DirA.Push(Text("foo")), true);
    assert RootWalk(Denied, [], 1024, Root, Asked.segs, false)
      == RootWalk(Denied, [], 1024, DirA, [Text("foo")], false);
  }

  /** The second call is served `/A` for the parent and finds `Foo` by scanning it. */
  lemma DeniedSecondCall()
    ensures Resolved(Denied, [Slot(LowerPath(DirA), Entry(DirA))], 1024, Root, Asked, true).path
      == DirA.Push(Text("Foo"))
  {
    DeniedNames();
    var dira := Root.Push(Text("a"));
    var slots := [Slot(LowerPath(DirA), Entry(DirA))];
    assert Above(Root, Asked.segs) == dira;
    assert LowerPath(dira.Push(Text("foo"))) != LowerPath(DirA) by {
      LowerPathShape(dira.Push(Text("foo")));
      LowerPathShape(DirA);
    }
    assert Validated(Denied, slots, dira.Push(Text("foo"))) == Got(None, slots);
    assert Validated(Denied, slots, dira).found == Some(DirA);
    assert LookupStep(Denied, DirA, Text("foo"), true) == Step(DirA.Push(Text("Foo")), false);
  }

  /**
   * Why the second condition is needed: the first call returns `/A/foo`, the
   * repeated call `/A/Foo`.
   */
  lemma RepeatCanDiffer()
    ensures var first := Resolved(Denied, [], 1024, Root, Asked, true);
      && first.path == DirA.Push(Text("foo"))
      && Resolved(Denied, first.slots, 1024, Root, Asked, true).path == DirA.Push(Text("Foo"))
  {
    DeniedFirstCall();
    DeniedSecondCall();
  }
}
