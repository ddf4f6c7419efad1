/**
 * Properties of one `lookup` and of the segment walk of `resolve`.
 *
 * `WalkPath` is the walk without the cache: the path it builds and whether it
 * went terminal. The walk's result never depends on the cache, and its only
 * effect on the cache is the store of the parent of the last segment.
 */
module WalkProperties {
  import opened Options
  import opened Paths
  import opened FileSystem
  import opened PathCache
  import opened Resolver

  /** The initial check: an existing `dir/seg` is returned at once; an error other than not-found stops. */
  lemma LookupInitialCheck(fs: Fs, dir: Path, seg: Seg)
    ensures Metadata(fs, dir.Push(seg)).Ok? ==> LookupStep(fs, dir, seg, false) == Step(dir.Push(seg), false)
    ensures Metadata(fs, dir.Push(seg)) == Err(Other) ==> LookupStep(fs, dir, seg, false) == Step(dir.Push(seg), true)
  {
  }

  /**
   * The scan: without the initial check (or after a not-found), `lookup`
   * succeeds exactly when `seg` decodes, the directory can be read and some
   * entry's decoded name folds like `seg`; it then returns the first such
   * entry in enumeration order, skipping items that fail to read or decode.
   */
  lemma LookupScan(fs: Fs, dir: Path, seg: Seg, noInitCheck: bool)
    requires noInitCheck || Metadata(fs, dir.Push(seg)) == Err(NotFound)
    ensures var step := LookupStep(fs, dir, seg, noInitCheck);
      && (!step.terminal <==>
            seg.Text? && ReadDir(fs, dir).Some?
            && exists k :: 0 <= k < |ReadDir(fs, dir).value| && Matches(ReadDir(fs, dir).value[k], LowerStr(seg.s)))
      && (!step.terminal ==>
            exists k :: 0 <= k < |ReadDir(fs, dir).value|
              && Matches(ReadDir(fs, dir).value[k], LowerStr(seg.s))
              && (forall j :: 0 <= j < k ==> !Matches(ReadDir(fs, dir).value[j], LowerStr(seg.s)))
              && step.path == dir.Push(ReadDir(fs, dir).value[k].name))
  {
    if seg.Text? && ReadDir(fs, dir).Some? {
      var items := ReadDir(fs, dir).value;
      var m := FirstMatch(items, LowerStr(seg.s));
      if m.Some? {
        assert Matches(items[m.value], LowerStr(seg.s));
      }
    }
  }

  /** Every terminal outcome is the verbatim candidate `dir/seg`. */
  lemma LookupTerminalIsVerbatim(fs: Fs, dir: Path, seg: Seg, noInitCheck: bool)
    ensures LookupStep(fs, dir, seg, noInitCheck).terminal ==> LookupStep(fs, dir, seg, noInitCheck).path == dir.Push(seg)
  {
  }

  /** `lookup` adds exactly one component to `dir`, a case variant of `seg`. */
  lemma LookupAddsOneComponent(fs: Fs, dir: Path, seg: Seg, noInitCheck: bool)
    ensures var p := LookupStep(fs, dir, seg, noInitCheck).path;
      && |p.segs| == |dir.segs| + 1
      && p == dir.Push(p.segs[|dir.segs|])
      && FoldSeg(p.segs[|dir.segs|]) == FoldSeg(seg)
      && Similar(p, dir.Push(seg))
  {
    var step := LookupStep(fs, dir, seg, noInitCheck);
    var p := step.path;
    assert p.segs[..|dir.segs|] == dir.segs;
    if !step.terminal && seg.Text? && p != dir.Push(seg) {
      var items := ReadDir(fs, dir).value;
      var k := FirstMatch(items, LowerStr(seg.s)).value;
      assert Matches(items[k], LowerStr(seg.s));
      LowerStrIdempotent(seg.s);
    }
    SimilarPush(dir, dir, p.segs[|dir.segs|], seg);
  }

  /** On a consistent filesystem, a non-terminal `lookup` names a path that exists. */
  lemma LookupFoundExists(fs: Fs, dir: Path, seg: Seg, noInitCheck: bool)
    requires Consistent(fs)
    ensures !LookupStep(fs, dir, seg, noInitCheck).terminal ==> Exists(fs, LookupStep(fs, dir, seg, noInitCheck).path)
  {
    var step := LookupStep(fs, dir, seg, noInitCheck);
    if !step.terminal && !(!noInitCheck && Metadata(fs, dir.Push(seg)).Ok?) {
      var items := ReadDir(fs, dir).value;
      var k := FirstMatch(items, LowerStr(seg.s)).value;
      assert fs.dirs[dir][k].Named?;
    }
  }

  /** The walk of `resolve` without the cache: the path it builds and whether it stopped. */
  function WalkPath(fs: Fs, acc: Path, segs: seq<Seg>, stop: bool): Step
    decreases |segs|
  {
    if segs == [] then Step(acc, stop)
    else if stop then WalkPath(fs, acc.Push(segs[0]), segs[1..], true)
    else
      var step := LookupStep(fs, acc, segs[0], false);
      WalkPath(fs, step.path, segs[1..], step.terminal)
  }

  /** The path the walk builds, and where it stops, do not depend on the cache. */
  lemma {:induction false} WalkIgnoresCache(fs: Fs, slots: seq<Slot>, cap: nat, acc: Path, segs: seq<Seg>, stop: bool)
    ensures RootWalk(fs, slots, cap, acc, segs, stop).path == WalkPath(fs, acc, segs, stop).path
    ensures RootWalk(fs, slots, cap, acc, segs, stop).terminal == WalkPath(fs, acc, segs, stop).terminal
    decreases |segs|
  {
    if segs != [] {
      if stop {
        WalkIgnoresCache(fs, slots, cap, acc.Push(segs[0]), segs[1..], true);
      } else {
        var seeded := if |segs| == 1 then Put(slots, cap, LowerPath(acc), Entry(acc)) else slots;
        var step := LookupStep(fs, acc, segs[0], false);
        WalkIgnoresCache(fs, seeded, cap, step.path, segs[1..], step.terminal);
      }
    }
  }

  /** Once the walk has stopped, every remaining segment is appended verbatim and the cache is left alone. */
  lemma {:induction false} WalkAfterStop(fs: Fs, slots: seq<Slot>, cap: nat, acc: Path, segs: seq<Seg>)
    ensures RootWalk(fs, slots, cap, acc, segs, true) == Walk(Path(acc.rooted, acc.segs + segs), slots, true)
    ensures WalkPath(fs, acc, segs, true) == Step(Path(acc.rooted, acc.segs + segs), true)
    decreases |segs|
  {
    if segs == [] {
      assert acc.segs + segs == acc.segs;
    } else {
      WalkAfterStop(fs, slots, cap, acc.Push(segs[0]), segs[1..]);
      assert acc.Push(segs[0]).segs + segs[1..] == acc.segs + segs;
    }
  }

  /**
   * The walk keeps the components built so far and adds exactly one per
   * remaining segment, each a case variant of that segment.
   */
  lemma {:induction false} WalkShape(fs: Fs, acc: Path, segs: seq<Seg>, stop: bool)
    ensures var p := WalkPath(fs, acc, segs, stop).path;
      && p.rooted == acc.rooted
      && |p.segs| == |acc.segs| + |segs|
      && p.segs[..|acc.segs|] == acc.segs
      && Similar(p, Path(acc.rooted, acc.segs + segs))
    decreases |segs|
  {
    if segs != [] {
      var next := if stop then acc.Push(segs[0]) else LookupStep(fs, acc, segs[0], false).path;
      var nextStop := if stop then true else LookupStep(fs, acc, segs[0], false).terminal;
      assert WalkPath(fs, acc, segs, stop) == WalkPath(fs, next, segs[1..], nextStop);
      WalkShape(fs, next, segs[1..], nextStop);
      assert next.segs[..|acc.segs|] == acc.segs && Similar(next, acc.Push(segs[0])) by {
        LookupAddsOneComponent(fs, acc, segs[0], false);
      }
      SimilarAppend(next, acc.Push(segs[0]), segs[1..]);
      assert acc.Push(segs[0]).segs + segs[1..] == acc.segs + segs;
      var p := WalkPath(fs, acc, segs, stop).path;
      assert p.segs[..|acc.segs|] == p.segs[..|next.segs|][..|acc.segs|];
    }
  }

  /** Walking one more segment continues from where the shorter walk ended. */
  lemma {:induction false} WalkPathSnoc(fs: Fs, acc: Path, segs: seq<Seg>, seg: Seg, stop: bool)
    ensures WalkPath(fs, acc, segs + [seg], stop) ==
      var before := WalkPath(fs, acc, segs, stop);
      if before.terminal then Step(before.path.Push(seg), true) else LookupStep(fs, before.path, seg, false)
    decreases |segs|
  {
    if segs == [] {
      assert segs + [seg] == [seg];
    } else {
      assert (segs + [seg])[0] == segs[0] && (segs + [seg])[1..] == segs[1..] + [seg];
      if stop {
        WalkPathSnoc(fs, acc.Push(segs[0]), segs[1..], seg, true);
      } else {
        var step := LookupStep(fs, acc, segs[0], false);
        WalkPathSnoc(fs, step.path, segs[1..], seg, step.terminal);
      }
    }
  }

  /**
   * The walk's only effect on the cache: when it reaches the last segment
   * without having stopped, it stores the path built so far (the parent of the
   * last segment); a walk that stops earlier stores nothing.
   */
  lemma {:induction false} WalkSeedsParent(fs: Fs, slots: seq<Slot>, cap: nat, acc: Path, segs: seq<Seg>)
    requires |segs| > 0
    ensures var before := WalkPath(fs, acc, segs[..|segs| - 1], false);
      RootWalk(fs, slots, cap, acc, segs, false).slots ==
        if before.terminal then slots else Put(slots, cap, LowerPath(before.path), Entry(before.path))
    decreases |segs|
  {
    var step := LookupStep(fs, acc, segs[0], false);
    if |segs| == 1 {
      assert segs[..0] == [];
    } else {
      var init := segs[..|segs| - 1];
      assert init[0] == segs[0] && init[1..] == segs[1..][..|segs| - 2];
      if step.terminal {
        WalkAfterStop(fs, slots, cap, step.path, segs[1..]);
        WalkAfterStop(fs, slots, cap, step.path, init[1..]);
      } else {
        WalkSeedsParent(fs, slots, cap, step.path, segs[1..]);
      }
    }
  }

  /** On a consistent filesystem, a walk over some segments that did not stop ends at a path that exists. */
  lemma {:induction false} WalkFoundExists(fs: Fs, acc: Path, segs: seq<Seg>, stop: bool)
    requires Consistent(fs) && |segs| > 0
    ensures !WalkPath(fs, acc, segs, stop).terminal ==> Exists(fs, WalkPath(fs, acc, segs, stop).path)
    decreases |segs|
  {
    if stop {
      WalkAfterStop(fs, [], 0, acc, segs);
    } else {
      var step := LookupStep(fs, acc, segs[0], false);
      LookupFoundExists(fs, acc, segs[0], false);
      if |segs| > 1 {
        WalkFoundExists(fs, step.path, segs[1..], step.terminal);
      }
    }
  }

  /** The walk keeps the cache invariant. */
  lemma WalkWellFormed(fs: Fs, slots: seq<Slot>, cap: nat, acc: Path, segs: seq<Seg>, stop: bool)
    requires WellFormed(slots, cap)
    ensures WellFormed(RootWalk(fs, slots, cap, acc, segs, stop).slots, cap)
  {
    if |segs| > 0 {
      if stop {
        WalkAfterStop(fs, slots, cap, acc, segs);
      } else {
        var before := WalkPath(fs, acc, segs[..|segs| - 1], false);
        WalkSeedsParent(fs, slots, cap, acc, segs);
        PutWellFormed(slots, cap, before.path);
      }
    }
  }

  /**
   * A walk over several segments that reached the last one without stopping
   * stores the parent it reached as the most recently used slot; on a
   * consistent filesystem that parent exists, and when the candidate's parent
   * decodes its key is the candidate parent's key.
   */
  lemma WalkStoresParent(fs: Fs, slots: seq<Slot>, cap: nat, base: Path, segs: seq<Seg>)
    requires Consistent(fs) && DistinctKeys(slots) && cap > 0
    requires |segs| > 1 && IsText(Above(base, segs))
    requires !WalkPath(fs, base, segs[..|segs| - 1], false).terminal
    ensures var w := RootWalk(fs, slots, cap, base, segs, false);
      var p := WalkPath(fs, base, segs[..|segs| - 1], false).path;
      && |w.slots| > 0 && w.slots[|w.slots| - 1] == Slot(LowerPath(p), Entry(p))
      && Exists(fs, p)
      && LowerPath(p) == LowerPath(Above(base, segs))
      && |p.segs| == |base.segs| + |segs| - 1
  {
    var init := segs[..|segs| - 1];
    var p := WalkPath(fs, base, init, false).path;
    WalkSeedsParent(fs, slots, cap, base, segs);
    WalkFoundExists(fs, base, init, false);
    PutStores(slots, cap, LowerPath(p), Entry(p));
    WalkShape(fs, base, init, false);
    SimilarKeepsText(p, Above(base, segs));
    SameKeyIffSimilar(p, Above(base, segs));
  }

  /** A walk that did not stop had not stopped before its last segment either. */
  lemma WalkLastStep(fs: Fs, acc: Path, segs: seq<Seg>)
    requires |segs| > 0
    ensures var before := WalkPath(fs, acc, segs[..|segs| - 1], false);
      WalkPath(fs, acc, segs, false) ==
        if before.terminal then Step(Path(before.path.rooted, before.path.segs + [segs[|segs| - 1]]), true)
        else LookupStep(fs, before.path, segs[|segs| - 1], false)
  {
    var n := |segs|;
    assert segs == segs[..n - 1] + [segs[n - 1]];
    WalkPathSnoc(fs, acc, segs[..n - 1], segs[n - 1], false);
  }
}
