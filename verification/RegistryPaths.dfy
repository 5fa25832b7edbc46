/**
 Registry paths (registry/registry.c): the text of a path, the segments that lookup and creation
 cut it into, and the text stored in a key.
 */
module RegistryPaths {

  type Name = string
  type Path = seq<Name>

  const NAME_LEN := 64
  const REG_PATH_MAX := 512

  // The position of the next slash at or after i, or the end of the text.
  function NextSlash(s: string, i: nat): (j: nat)
    requires i <= |s|
    ensures i <= j <= |s|
    ensures forall k | i <= k < j :: s[k] != '/'
    ensures j < |s| ==> s[j] == '/'
    decreases |s| - i
  {
    if i == |s| || s[i] == '/' then i else NextSlash(s, i + 1)
  }

  // The non-empty pieces between slashes, from position i on.
  function Segments(s: string, i: nat): Path
    decreases |s| - i
  {
    if i >= |s| then []
    else
      var j := NextSlash(s, i);
      (if j > i then [s[i..j]] else []) + Segments(s, j + 1)
  }

  // The copy that a path is cut to before it is taken apart.
  function Clip(s: string): (c: string)
    ensures c <= s && |c| == if |s| <= 511 then |s| else 511
  {
    if |s| < REG_PATH_MAX then s else s[..REG_PATH_MAX - 1]
  }

  // A key keeps the first NAME_LEN - 1 characters of its name.
  function CutName(n: Name): Name { if |n| < NAME_LEN then n else n[..NAME_LEN - 1] }

  function CutNames(p: Path): (c: Path)
    ensures |c| == |p| && forall i | 0 <= i < |p| :: c[i] == CutName(p[i])
  {
    seq(|p|, i requires 0 <= i < |p| => CutName(p[i]))
  }

  predicate Short(p: Path) { forall n <- p :: |n| < NAME_LEN }

  // Only short names are kept whole.
  lemma CutShort(p: Path)
    ensures CutNames(p) == p <==> Short(p)
  {
    if CutNames(p) == p {
      forall n | n in p ensures |n| < NAME_LEN {
        var i :| 0 <= i < |p| && p[i] == n;
        assert CutName(n) == n;
      }
    }
  }

  lemma CutKid(p: Path, n: Name)
    ensures CutNames(p + [n]) == CutNames(p) + [CutName(n)]
  {
  }

  // A text that can be stored in the key at p: it fits, and leads to p once its names are cut.
  predicate Labels(text: string, p: Path) {
    text != "" && text[0] == '/' && |text| < REG_PATH_MAX && CutNames(Segments(text, 1)) == p
  }

  predicate GoodName(n: Name) { 0 < |n| < NAME_LEN && '/' !in n }

  predicate GoodPath(p: Path) { (forall n <- p :: GoodName(n)) && |Join(p)| < REG_PATH_MAX }

  // The text of a path: "/" for the root, "/a/b" below it.
  function Join(p: Path): string { if p == [] then "/" else JoinSegments(p) }

  function JoinSegments(p: Path): string {
    if p == [] then "" else JoinSegments(p[..|p| - 1]) + "/" + p[|p| - 1]
  }

  // What the key called n under p is given as its path.
  lemma JoinChild(p: Path, n: Name)
    ensures Join(p + [n]) == if p == [] then "/" + n else Join(p) + "/" + n
  {
    assert (p + [n])[..|p|] == p;
    assert JoinSegments(p + [n]) == JoinSegments(p) + "/" + n;
    assert "" + "/" + n == "/" + n;
  }

  lemma {:induction false} SegmentsGood(s: string, i: nat)
    ensures forall n <- Segments(s, i) :: 0 < |n| && '/' !in n
    decreases |s| - i
  {
    if i < |s| {
      SegmentsGood(s, NextSlash(s, i) + 1);
    }
  }

  // The text built from the segments is no longer than the text they were cut from.
  lemma {:induction false} SegmentsShort(s: string, i: nat)
    requires i <= |s|
    ensures |JoinSegments(Segments(s, i))| <= |s| - i + 1
    decreases |s| - i
  {
    if i < |s| {
      var j := NextSlash(s, i);
      if j < |s| {
        SegmentsShort(s, j + 1);
      }
      if j > i {
        assert Segments(s, i) == [s[i..j]] + Segments(s, j + 1);
        JoinSegmentsCons(s[i..j], Segments(s, j + 1));
      } else {
        assert Segments(s, i) == Segments(s, j + 1);
      }
    }
  }

  lemma {:induction false} JoinPrefixShorter(p: Path, q: Path)
    requires p <= q
    ensures |JoinSegments(p)| <= |JoinSegments(q)|
    decreases |q|
  {
    if p != q {
      JoinPrefixShorter(p, q[..|q| - 1]);
    }
  }

  lemma {:induction false} CutShorter(p: Path)
    ensures |JoinSegments(CutNames(p))| <= |JoinSegments(p)|
    decreases |p|
  {
    if p != [] {
      var k := |p| - 1;
      CutShorter(p[..k]);
      assert CutNames(p)[..k] == CutNames(p[..k]);
    }
  }

  lemma CutGood(p: Path)
    requires forall n <- p :: 0 < |n| && '/' !in n
    ensures forall n <- CutNames(p) :: GoodName(n)
  {
    forall n | n in CutNames(p) ensures GoodName(n) {
      var i :| 0 <= i < |p| && n == CutName(p[i]);
      assert p[i] in p;
    }
  }

  // Every prefix of what a text is cut into makes a good path, and its text can be stored there.
  lemma CutIsGood(s: string, p: Path)
    requires s != "" && |s| < REG_PATH_MAX && p <= Segments(s, 1)
    ensures GoodPath(CutNames(p)) && Labels(Join(p), CutNames(p)) && forall n <- p :: 0 < |n| && '/' !in n
  {
    hide Segments, JoinSegments;
    SegmentsGood(s, 1);
    SegmentsShort(s, 1);
    JoinPrefixShorter(p, Segments(s, 1));
    CutShorter(p);
    assert forall n <- p :: n in Segments(s, 1);
    JoinCuts(p);
    CutGood(p);
  }

  lemma {:induction false} JoinSegmentsCons(n: Name, p: Path)
    ensures JoinSegments([n] + p) == "/" + n + JoinSegments(p)
    decreases |p|
  {
    if p == [] {
      assert [n] + p == [n];
      assert [n][..0] == [];
      assert JoinSegments([n]) == JoinSegments([]) + "/" + n;
    } else {
      JoinSegmentsCons(n, p[..|p| - 1]);
      assert ([n] + p)[..|p|] == [n] + p[..|p| - 1];
    }
  }

  lemma CutFirst(s: string, i: nat, n: Name, rest: string)
    requires i <= |s| && s[i..] == "/" + n + rest
    ensures i + 1 + |n| <= |s| && s[i] == '/'
    ensures s[i + 1..i + 1 + |n|] == n && s[i + 1 + |n|..] == rest
  {
    var t := s[i..];
    assert |s| == i + |t|;
    assert s[i + 1..i + 1 + |n|] == t[1..1 + |n|] == n;
    assert s[i + 1 + |n|..] == t[1 + |n|..] == rest;
    assert s[i] == t[0];
  }

  lemma SlashAfter(s: string, i: nat, j: nat)
    requires i <= j <= |s| && '/' !in s[i..j] && (j == |s| || s[j] == '/')
    ensures NextSlash(s, i) == j
  {
    assert forall k | i <= k < j :: s[k] == s[i..j][k - i];
  }

  lemma SegmentsStep(s: string, i: nat, j: nat)
    requires i < j <= |s| && NextSlash(s, i) == j
    ensures Segments(s, i) == [s[i..j]] + Segments(s, j + 1)
    ensures j == |s| ==> Segments(s, j + 1) == []
  {
  }

  // A walk along the segments of s has taken q and goes on at position i.
  ghost predicate Walking(s: string, target: Path, q: Path, i: nat) {
    target == q + Segments(s, i)
  }

  lemma WalkStart(s: string)
    ensures Walking(s, Segments(s, 1), [], 1)
    ensures |s| <= 1 ==> Segments(s, 1) == []
  {
  }

  lemma WalkStep(s: string, target: Path, q: Path, i: nat)
    requires Walking(s, target, q, i)
    ensures i >= |s| ==> q == target
    ensures i < |s| ==> var j := NextSlash(s, i);
      if j > i then q + [s[i..j]] <= target && Walking(s, target, q + [s[i..j]], j + 1)
      else Walking(s, target, q, j + 1)
  {
    if i < |s| && NextSlash(s, i) > i {
      var seg := s[i..NextSlash(s, i)];
      assert q + ([seg] + Segments(s, NextSlash(s, i) + 1)) == (q + [seg]) + Segments(s, NextSlash(s, i) + 1);
    }
  }

  // Cutting the text of a path gives the path back.
  lemma {:induction false} SegmentsOfJoin(s: string, i: nat, p: Path)
    requires forall n <- p :: 0 < |n| && '/' !in n
    requires i <= |s| && s[i..] == JoinSegments(p)
    ensures p == [] ==> i == |s|
    ensures p != [] ==> i < |s| && s[i] == '/' && Segments(s, i + 1) == p
    decreases |p|
  {
    hide JoinSegments, NextSlash, Segments;
    JoinSegmentsNone();
    if p == [] {
      assert |s[i..]| == 0;
    } else {
      var n, q := p[0], p[1..];
      assert p == [n] + q && n in p;
      JoinSegmentsCons(n, q);
      var j := i + 1 + |n|;
      CutFirst(s, i, n, JoinSegments(q));
      SegmentsOfJoin(s, j, q);
      SlashAfter(s, i + 1, j);
      SegmentsStep(s, i + 1, j);
    }
  }

  lemma JoinSegmentsNone()
    ensures JoinSegments([]) == ""
  {
  }

  // The text of a path leads along its segments.
  lemma JoinCuts(p: Path)
    requires forall n <- p :: 0 < |n| && '/' !in n
    ensures Join(p) != "" && Join(p)[0] == '/' && Segments(Join(p), 1) == p
  {
    hide JoinSegments;
    var s := Join(p);
    if p != [] {
      assert s[0..] == s;
      SegmentsOfJoin(s, 0, p);
    }
  }

  // One more name behind a text.
  lemma {:induction false} SegmentsMore(t: string, n: Name, i: nat)
    requires i <= |t| && 0 < |n| && '/' !in n
    ensures Segments(t + "/" + n, i) == Segments(t, i) + [n]
    decreases |t| - i
  {
    hide Segments, NextSlash;
    var s := t + "/" + n;
    if i == |t| {
      SegmentsSkip(s, i);
      SegmentsEnd(t, i);
      assert s[i + 1..|s|] == n;
      SlashAfter(s, i + 1, |s|);
      SegmentsStep(s, i + 1, |s|);
    } else if t[i] == '/' {
      SegmentsSkip(s, i);
      SegmentsSkip(t, i);
      SegmentsMore(t, n, i + 1);
    } else {
      var j := NextSlash(t, i);
      assert s[i..j] == t[i..j];
      SlashAfter(s, i, j);
      SegmentsStep(s, i, j);
      SegmentsStep(t, i, j);
      if j < |t| {
        SegmentsMore(t, n, j + 1);
        assert [t[i..j]] + (Segments(t, j + 1) + [n]) == ([t[i..j]] + Segments(t, j + 1)) + [n];
      } else {
        SegmentsMore(t, n, j);
        SegmentsSkip(s, j);
        SegmentsEnd(t, j);
      }
    }
  }

  lemma SegmentsSkip(s: string, i: nat)
    requires i < |s| && s[i] == '/'
    ensures Segments(s, i) == Segments(s, i + 1)
  {
    assert NextSlash(s, i) == i;
    assert Segments(s, i) == [] + Segments(s, i + 1);
  }

  lemma SegmentsEnd(s: string, i: nat)
    requires |s| <= i
    ensures Segments(s, i) == []
  {
  }

  // strchr(p, '/')
  method FindSlash(s: string, i: nat) returns (j: nat)
    requires i <= |s|
    ensures j == NextSlash(s, i)
  {
    j := i;
    while j < |s| && s[j] != '/'
      invariant i <= j <= |s|
      invariant NextSlash(s, i) == NextSlash(s, j)
    {
      j := j + 1;
    }
  }
}
