/** The small option type the resolver and the cache return. */
module Options {
  datatype Option<T> = None | Some(value: T)
}

/**
 * Paths as the resolver sees them: a flag saying whether the path starts at the
 * root, followed by its components. A component is either text (its bytes are
 * valid UTF-8) or raw bytes that do not decode; only text can be case folded.
 */
module Paths {
  import opened Options

  datatype Seg = Text(s: string) | Raw(bytes: seq<bv8>)

  datatype Path = Path(rooted: bool, segs: seq<Seg>) {
    /** `PathBuf::push` of a single component. */
    function Push(seg: Seg): Path {
      Path(rooted, segs + [seg])
    }
  }

  /** `PathBuf::push` of a whole path: an absolute path replaces the base. */
  function Join(base: Path, rel: Path): Path {
    if rel.rooted then rel else Path(base.rooted, base.segs + rel.segs)
  }

  /** `Path::parent`: none for a path without components. */
  function Parent(p: Path): Option<Path> {
    if p.segs == [] then None else Some(Path(p.rooted, p.segs[..|p.segs| - 1]))
  }

  /** `Path::to_str` succeeds exactly when every component is text. */
  predicate IsText(p: Path) {
    forall i :: 0 <= i < |p.segs| ==> p.segs[i].Text?
  }

  function LowerChar(c: char): char {
    if 'A' <= c <= 'Z' then (c as int + 32) as char else c
  }

  function LowerStr(s: string): string {
    seq(|s|, i requires 0 <= i < |s| => LowerChar(s[i]))
  }

  /** The folded form of one component; raw components fold to themselves. */
  function FoldSeg(seg: Seg): Seg {
    match seg
    case Text(s) => Text(LowerStr(s))
    case Raw(_) => seg
  }

  /**
   * `pathbuf_to_lowercase`: a path that decodes is lowercased as a whole
   * (the separator is unaffected, so component by component); a path with any
   * undecodable component is returned unchanged.
   */
  function LowerPath(p: Path): Path {
    if IsText(p) then Path(p.rooted, seq(|p.segs|, i requires 0 <= i < |p.segs| => FoldSeg(p.segs[i])))
    else p
  }

  /** Two paths that differ at most in the case of their text components. */
  predicate Similar(p: Path, q: Path) {
    && p.rooted == q.rooted
    && |p.segs| == |q.segs|
    && forall i :: 0 <= i < |p.segs| ==> FoldSeg(p.segs[i]) == FoldSeg(q.segs[i])
  }

  lemma LowerStrIdempotent(s: string)
    ensures LowerStr(LowerStr(s)) == LowerStr(s)
  {
  }

  /** Folding keeps the shape of a path and never turns text into raw bytes or back. */
  lemma LowerPathShape(p: Path)
    ensures LowerPath(p).rooted == p.rooted
    ensures |LowerPath(p).segs| == |p.segs|
    ensures IsText(LowerPath(p)) <==> IsText(p)
    ensures Similar(LowerPath(p), p)
  {
    if IsText(p) {
      forall i | 0 <= i < |p.segs|
        ensures FoldSeg(LowerPath(p).segs[i]) == FoldSeg(p.segs[i])
      {
        LowerStrIdempotent(p.segs[i].s);
      }
    }
  }

  /** pathbuf_to_lowercase is idempotent: a folded key folds to itself. */
  lemma LowerPathIdempotent(p: Path)
    ensures LowerPath(LowerPath(p)) == LowerPath(p)
  {
    LowerPathShape(p);
    if IsText(p) {
      var q := LowerPath(p);
      forall i | 0 <= i < |q.segs|
        ensures LowerPath(q).segs[i] == q.segs[i]
      {
        LowerStrIdempotent(p.segs[i].s);
      }
    }
  }

  /**
   * Two paths with the same folded key differ only in case; for paths that
   * decode the converse holds too, so the cache key identifies exactly the
   * case variants of a path.
   */
  lemma {:induction false} SameKeyIffSimilar(p: Path, q: Path)
    ensures LowerPath(p) == LowerPath(q) ==> Similar(p, q)
    ensures IsText(p) && IsText(q) && Similar(p, q) ==> LowerPath(p) == LowerPath(q)
  {
    LowerPathShape(p);
    LowerPathShape(q);
    if LowerPath(p) == LowerPath(q) {
      if !IsText(p) {
        assert p == q;
      } else {
        forall i | 0 <= i < |p.segs|
          ensures FoldSeg(p.segs[i]) == FoldSeg(q.segs[i])
        {
          assert LowerPath(p).segs[i] == LowerPath(q).segs[i];
        }
      }
    }
    if IsText(p) && IsText(q) && Similar(p, q) {
      assert LowerPath(p).segs == LowerPath(q).segs;
    }
  }

  /** Case variants agree on whether they decode. */
  lemma SimilarKeepsText(p: Path, q: Path)
    requires Similar(p, q)
    ensures IsText(p) <==> IsText(q)
  {
    assert forall i :: 0 <= i < |p.segs| ==> FoldSeg(p.segs[i]) == FoldSeg(q.segs[i]);
  }

  lemma SimilarTransitive(p: Path, q: Path, r: Path)
    requires Similar(p, q) && Similar(q, r)
    ensures Similar(p, r)
  {
  }

  /** Pushing case variants of one component onto case variants of one path. */
  lemma SimilarPush(p: Path, q: Path, a: Seg, b: Seg)
    requires Similar(p, q) && FoldSeg(a) == FoldSeg(b)
    ensures Similar(p.Push(a), q.Push(b))
  {
    assert forall i :: 0 <= i < |p.segs| ==> p.Push(a).segs[i] == p.segs[i] && q.Push(b).segs[i] == q.segs[i];
  }

  /** Appending the same components to two case variants. */
  lemma SimilarAppend(p: Path, q: Path, rest: seq<Seg>)
    requires Similar(p, q)
    ensures Similar(Path(p.rooted, p.segs + rest), Path(q.rooted, q.segs + rest))
  {
    var p', q' := p.segs + rest, q.segs + rest;
    assert forall i :: |p.segs| <= i < |p'| ==> p'[i] == q'[i];
  }
}
