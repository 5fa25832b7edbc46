/**
 Mount, unmount and bind (registry/registry.c) on the registry as a map.

 `MountAt`, `BindAt` and `UnmountAt` say, path by path, what the three operations make of the
 registry; `MountView`, `BindView` and `UnmountView` are the maps.  Source and target are paths of
 which neither contains the other.
 */
module RegistryMaps {
  import opened RegistryPaths
  import opened RegistryShape
  import opened RegistryEdits
  import opened Wire
  import opened Wrappers

  // ----- Maps

  ghost predicate Apart(s: Path, d: Path) { !Under(s, d) && !Under(d, s) }

  // A path below d, seen below s instead.
  function Image(s: Path, d: Path, p: Path): Path
    requires Under(d, p)
  {
    s + p[|d|..]
  }

  ghost function Find(v: View, p: Path): Option<Entry> { if p in v then Some(v[p]) else None }

  // The child of d that p lies under.
  function Branch(d: Path, p: Path): Name
    requires Under(d, p) && p != d
  {
    p[|d|]
  }

  /**
   * The entry at p after the children of s with these names have been mounted on d.  A child that
   * d does not have is copied with everything below it.  A child that d has already keeps what is
   * below it, and takes over the source's value and rights only when mounted before.
   */
  ghost function MountAt(v: View, s: Path, d: Path, before: bool, names: seq<Name>, p: Path): Option<Entry> {
    if !Under(d, p) || p == d || Branch(d, p) !in names then Find(v, p)
    else if Kid(d, Branch(d, p)) !in v || (before && p == Kid(d, Branch(d, p))) then Find(v, Image(s, d, p))
    else Find(v, p)
  }

  ghost predicate Mounted(v: View, v': View, s: Path, d: Path, before: bool, names: seq<Name>) {
    forall p {:trigger MountAt(v, s, d, before, names, p)} :: Find(v', p) == MountAt(v, s, d, before, names, p)
  }

  lemma SameMap(v: View, v': View)
    requires forall p :: Find(v', p) == Find(v, p)
    ensures v' == v
  {
    forall p ensures (p in v <==> p in v') && (p in v ==> v'[p] == v[p]) { assert Find(v', p) == Find(v, p); }
  }

  // names are the children of s in v
  ghost predicate ChildrenAre(v: View, s: Path, names: seq<Name>) {
    forall n {:trigger Kid(s, n)} :: n in names <==> Kid(s, n) in v
  }

  // The image of something below d is not below d.
  lemma ImageApart(s: Path, d: Path, p: Path)
    requires Apart(s, d) && Under(d, p)
    ensures !Under(d, Image(s, d, p)) && Under(s, Image(s, d, p))
  {
    Comparable(d, s, p[|d|..]);
  }

  lemma Comparable(d: Path, s: Path, x: Path)
    ensures d <= s + x ==> d <= s || s <= d
  {
    if |d| <= |s| { assert (s + x)[..|d|] == s[..|d|]; }
  }

  lemma KidFacts(d: Path, n: Name)
    ensures Under(d, Kid(d, n)) && Kid(d, n) != d && Branch(d, Kid(d, n)) == n
  {
  }

  lemma KidOnWay(d: Path, n: Name, p: Path)
    ensures Under(Kid(d, n), p) <==> Under(d, p) && p != d && Branch(d, p) == n
  {
    if Under(d, p) && p != d && Branch(d, p) == n {
      assert p[..|d| + 1] == p[..|d|] + [p[|d|]];
    }
  }

  lemma ImageKid(s: Path, d: Path, n: Name, p: Path)
    requires Under(Kid(d, n), p)
    ensures Under(d, p) && Image(s, d, p) == Image(Kid(s, n), Kid(d, n), p)
    ensures Image(Kid(s, n), Kid(d, n), Kid(d, n)) == Kid(s, n)
  {
    KidOnWay(d, n, p);
    assert p[|d|..] == [n] + p[|d| + 1..];
  }

  lemma ApartKids(s: Path, d: Path, n: Name)
    requires Apart(s, d)
    ensures Apart(Kid(s, n), Kid(d, n)) && !Under(d, Kid(s, n)) && Kid(s, n) != Kid(d, n)
  {
    var a, b := Kid(s, n), Kid(d, n);
    assert Image(s, d, b) == a;
    ImageApart(s, d, b);
    ImageApart(d, s, a);
    assert Image(d, s, a) == b;
  }

  lemma MountNothing(v: View, s: Path, d: Path, before: bool)
    ensures Mounted(v, v, s, d, before, [])
  {
  }

  // One more child that d has already.
  lemma MountExisting(v0: View, v: View, s: Path, d: Path, before: bool, names: seq<Name>, n: Name)
    requires Apart(s, d) && Mounted(v0, v, s, d, before, names) && n !in names && Kid(s, n) in v && Kid(d, n) in v
    ensures Mounted(v0, if before then v[Kid(d, n) := v[Kid(s, n)]] else v, s, d, before, names + [n])
  {
    var b := Kid(d, n);
    var v' := if before then v[b := v[Kid(s, n)]] else v;
    KidFacts(d, n);
    ApartKids(s, d, n);
    assert Image(s, d, b) == Kid(s, n);
    assert MountAt(v0, s, d, before, names, b) == Find(v0, b);
    assert MountAt(v0, s, d, before, names, Kid(s, n)) == Find(v0, Kid(s, n));
    forall p ensures Find(v', p) == MountAt(v0, s, d, before, names + [n], p) {
      assert Find(v, p) == MountAt(v0, s, d, before, names, p);
    }
  }

  /**
   * One more child that d does not have: a copy of it, and then the source child's own children
   * mounted on the copy.
   */
  lemma MountFresh(v0: View, v: View, v': View, s: Path, d: Path, before: bool, names: seq<Name>, n: Name, kids: seq<Name>)
    requires IsPrefixClosed(v0) && Apart(s, d) && Mounted(v0, v, s, d, before, names) && n !in names
    requires Kid(s, n) in v && Kid(d, n) !in v && ChildrenAre(v0, Kid(s, n), kids)
    requires Mounted(v[Kid(d, n) := v[Kid(s, n)]], v', Kid(s, n), Kid(d, n), before, kids)
    ensures Mounted(v0, v', s, d, before, names + [n])
  {
    hide Kid, Under;
    var a, b := Kid(s, n), Kid(d, n);
    var v1 := v[b := v[a]];
    forall p ensures Find(v', p) == MountAt(v0, s, d, before, names + [n], p) {
      assert Find(v', p) == MountAt(v1, a, b, before, kids, p);
      assert Find(v, p) == MountAt(v0, s, d, before, names, p);
      KidOnWay(d, n, p);
      UnderSelf(b);
      if Under(b, p) {
        FreshPoint(v0, v, s, d, before, names, n, kids, p);
      }
    }
  }

  // A path in the copied branch.
  lemma FreshPoint(v0: View, v: View, s: Path, d: Path, before: bool, names: seq<Name>, n: Name, kids: seq<Name>, p: Path)
    requires IsPrefixClosed(v0) && Apart(s, d) && Mounted(v0, v, s, d, before, names) && n !in names
    requires Kid(s, n) in v && Kid(d, n) !in v && ChildrenAre(v0, Kid(s, n), kids) && Under(Kid(d, n), p)
    ensures MountAt(v[Kid(d, n) := v[Kid(s, n)]], Kid(s, n), Kid(d, n), before, kids, p)
         == MountAt(v0, s, d, before, names + [n], p)
  {
    hide Kid, Under;
    var a, b := Kid(s, n), Kid(d, n);
    var v1 := v[b := v[a]];
    KidFacts(d, n);
    KidOnWay(d, n, p);
    ApartKids(s, d, n);
    ImageKid(s, d, n, p);
    var q := Image(s, d, p);
    ImageApart(s, d, p);
    ImageApart(a, b, p);
    assert MountAt(v0, s, d, before, names, b) == Find(v0, b);
    assert Find(v, q) == MountAt(v0, s, d, before, names, q) == Find(v0, q);
    assert Find(v, a) == MountAt(v0, s, d, before, names, a) == Find(v0, a);
    assert MountAt(v0, s, d, before, names + [n], p) == Find(v0, q);
    if p != b {
      var m := Branch(b, p);
      KidFacts(b, m);
      var c := Kid(b, m);
      KidOnWay(d, n, c);
      assert Under(b, c) && c != b;
      assert Find(v, c) == MountAt(v0, s, d, before, names, c) == Find(v0, c);
      assert Find(v, p) == MountAt(v0, s, d, before, names, p) == Find(v0, p);
      assert c !in v0 && p !in v0;
      if m !in kids { MissingImage(v0, a, b, m, p); }
    }
  }

  lemma MissingImage(v: View, a: Path, b: Path, m: Name, p: Path)
    requires IsPrefixClosed(v) && Under(b, p) && p != b && Branch(b, p) == m && Kid(a, m) !in v
    ensures Image(a, b, p) !in v
  {
    assert p[|b|..] == [m] + p[|b| + 1..];
    assert Under(Kid(a, m), Image(a, b, p));
  }

  // ----- Bind with flag 0

  // The entry at p after s has been bound over d.
  ghost function BindAt(v: View, s: Path, d: Path, p: Path): Option<Entry> {
    if Under(d, p) then Find(v, Image(s, d, p)) else Find(WithPath(v, d, RK_ALL), p)
  }

  ghost predicate Bound(v: View, v': View, s: Path, d: Path) {
    forall p {:trigger BindAt(v, s, d, p)} :: Find(v', p) == BindAt(v, s, d, p)
  }

  // The map after d has been made, cleared and given the source's value and rights.
  ghost predicate Cleared(v: View, v': View, s: Path, d: Path) {
    forall p {:trigger Find(v', p)} ::
      Find(v', p) == if p == d then Find(v, s) else if Under(d, p) then None else Find(WithPath(v, d, RK_ALL), p)
  }

  // Making the target does not touch anything below the source.
  lemma SourceUntouched(v: View, s: Path, d: Path, q: Path)
    requires IsPrefixClosed(v) && Apart(s, d) && Under(s, q)
    ensures Find(WithPath(v, d, RK_ALL), q) == Find(v, q)
  {
    hide IsPrefixClosed;
    WithPathKeys(v, d, RK_ALL, q);
    assert Under(q, d) ==> Under(s, d);
  }

  lemma BindPoint(v: View, v2: View, s: Path, d: Path, names: seq<Name>, p: Path)
    requires IsPrefixClosed(v) && Apart(s, d) && Cleared(v, v2, s, d) && ChildrenAre(v, s, names)
    ensures MountAt(v2, s, d, true, names, p) == BindAt(v, s, d, p)
  {
    hide WithPath, IsPrefixClosed, Kid, Under;
    UnderSelf(d);
    assert Find(v2, p) == if p == d then Find(v, s) else if Under(d, p) then None else Find(WithPath(v, d, RK_ALL), p);
    if Under(d, p) {
      var q := Image(s, d, p);
      ImageApart(s, d, p);
      SourceUntouched(v, s, d, q);
      assert Find(v2, q) == Find(v, q);
      if p == d {
        assert q == s;
      } else {
        var m := Branch(d, p);
        KidFacts(d, m);
        assert Find(v2, Kid(d, m)) == None;
        if m !in names { MissingImage(v, s, d, m, p); }
      }
    }
  }

  lemma BindIsCopy(v: View, v2: View, v': View, s: Path, d: Path, names: seq<Name>)
    requires IsPrefixClosed(v) && Apart(s, d) && Cleared(v, v2, s, d) && ChildrenAre(v, s, names)
    requires Mounted(v2, v', s, d, true, names)
    ensures Bound(v, v', s, d)
  {
    hide MountAt, BindAt, Cleared, ChildrenAre, IsPrefixClosed;
    forall p ensures Find(v', p) == BindAt(v, s, d, p) {
      BindPoint(v, v2, s, d, names, p);
    }
  }

  lemma ClearedView(v: View, nodes: Nodes, v2: View, s: Path, d: Path)
    requires IsPrefixClosed(v) && Apart(s, d) && s in v && d in nodes && nodes.Keys == WithPath(v, d, RK_ALL).Keys
    requires v2 == (WithPath(v, d, RK_ALL) - Below(nodes, d))[d := v[s]]
    ensures Cleared(v, v2, s, d)
  {
    hide WithPath, IsPrefixClosed, Under;
  }

  // ----- Unmount

  // The entry at p after every child of d that has one of these names is gone.
  ghost function UnmountAt(v: View, d: Path, names: seq<Name>, p: Path): Option<Entry> {
    if Under(d, p) && p != d && Branch(d, p) in names then None else Find(v, p)
  }

  ghost predicate Unmounted(v: View, v': View, d: Path, names: seq<Name>) {
    forall p {:trigger UnmountAt(v, d, names, p)} :: Find(v', p) == UnmountAt(v, d, names, p)
  }

  /**
   * Mounting on an existing target and unmounting again restores the map exactly when source and
   * target have no child name in common.
   */
  lemma MountUnmountRestores(v: View, v1: View, v2: View, s: Path, d: Path, before: bool, names: seq<Name>)
    requires IsPrefixClosed(v) && Apart(s, d) && ChildrenAre(v, s, names)
    requires Mounted(v, v1, s, d, before, names) && Unmounted(v1, v2, d, names)
    ensures v2 == v <==> forall n :: n in names ==> Kid(d, n) !in v
  {
    hide Kid, Under, IsPrefixClosed, ChildrenAre;
    forall n | n in names && Kid(d, n) in v ensures v2 != v {
      KidFacts(d, n);
      assert Find(v2, Kid(d, n)) == UnmountAt(v1, d, names, Kid(d, n)) == None;
    }
    if forall n :: n in names ==> Kid(d, n) !in v {
      forall p ensures Find(v2, p) == Find(v, p) {
        RestoredPoint(v, v1, v2, s, d, before, names, p);
      }
      SameMap(v, v2);
    }
  }

  lemma RestoredPoint(v: View, v1: View, v2: View, s: Path, d: Path, before: bool, names: seq<Name>, p: Path)
    requires IsPrefixClosed(v) && Mounted(v, v1, s, d, before, names) && Unmounted(v1, v2, d, names)
    requires forall n :: n in names ==> Kid(d, n) !in v
    ensures Find(v2, p) == Find(v, p)
  {
    hide Kid, Under;
    assert Find(v2, p) == UnmountAt(v1, d, names, p);
    assert Find(v1, p) == MountAt(v, s, d, before, names, p);
    if Under(d, p) && p != d && Branch(d, p) in names {
      KidOnWay(d, Branch(d, p), p);
      assert Under(Kid(d, Branch(d, p)), p);
    }
  }

  // ----- The maps themselves

  // Everything at and below s, moved to d.
  ghost function Copies(v: View, s: Path, d: Path): set<Path> { set q | q in v && Under(s, q) :: Image(d, s, q) }

  // The entry at p after all of s has been mounted on d.
  ghost function MountAllAt(v: View, s: Path, d: Path, before: bool, p: Path): Option<Entry> {
    if !Under(d, p) || p == d || Kid(s, Branch(d, p)) !in v then Find(v, p)
    else if Kid(d, Branch(d, p)) !in v || (before && p == Kid(d, Branch(d, p))) then Find(v, Image(s, d, p))
    else Find(v, p)
  }

  ghost function MountView(v: View, s: Path, d: Path, before: bool): View {
    map p | p in v.Keys + Copies(v, s, d) && MountAllAt(v, s, d, before, p).Some? :: MountAllAt(v, s, d, before, p).value
  }

  ghost function BindView(v: View, s: Path, d: Path): View {
    map p | p in WithPath(v, d, RK_ALL).Keys + Copies(v, s, d) && BindAt(v, s, d, p).Some? :: BindAt(v, s, d, p).value
  }

  // The map without what lies below the children of d that s has too.
  ghost function UnmountView(v: View, s: Path, d: Path): View {
    map p | p in v && !(Under(d, p) && p != d && Kid(s, Branch(d, p)) in v) :: v[p]
  }

  lemma CopyOf(v: View, s: Path, d: Path, p: Path)
    requires Under(d, p) && Image(s, d, p) in v
    ensures p in Copies(v, s, d)
  {
    var q := Image(s, d, p);
    assert Under(s, q) && Image(d, s, q) == p;
  }

  lemma MountViewAt(v: View, s: Path, d: Path, before: bool, p: Path)
    ensures Find(MountView(v, s, d, before), p) == MountAllAt(v, s, d, before, p)
  {
    hide Kid, Under, Copies;
    if Under(d, p) && Image(s, d, p) in v { CopyOf(v, s, d, p); }
  }

  lemma BindViewAt(v: View, s: Path, d: Path, p: Path)
    ensures Find(BindView(v, s, d), p) == BindAt(v, s, d, p)
  {
    hide Under, Copies, WithPath;
    if Under(d, p) && Image(s, d, p) in v { CopyOf(v, s, d, p); }
  }

  /**
   * A mount in terms of the paths alone.  A child of the source that the target lacks is copied with
   * everything below it; of a child that both have, the target takes over value and rights when
   * mounting before and nothing otherwise; nothing else changes.
   */
  lemma MountPoints(v: View, s: Path, d: Path, before: bool, n: Name, t: Path)
    ensures
      var v' := MountView(v, s, d, before);
      var from, to := s + [n], d + [n];
      && (from in v && to !in v ==> Find(v', to + t) == Find(v, from + t))
      && (from in v && to in v && before ==> Find(v', to) == Find(v, from))
      && (from in v && to in v && !before ==> Find(v', to) == Find(v, to))
      && (from in v && to in v && t != [] ==> Find(v', to + t) == Find(v, to + t))
      && (from !in v ==> Find(v', to + t) == Find(v, to + t))
    ensures forall p | !(d <= p) || p == d :: Find(MountView(v, s, d, before), p) == Find(v, p)
  {
    hide MountView;
    var from, to := s + [n], d + [n];
    assert Kid(s, n) == from && Kid(d, n) == to;
    PointBelow(d, n, t);
    PointBelow(d, n, []);
    assert to + [] == to;
    assert Image(s, d, to + t) == from + t;
    assert Image(s, d, to) == from;
    MountViewAt(v, s, d, before, to + t);
    MountViewAt(v, s, d, before, to);
    forall p | !(d <= p) || p == d ensures Find(MountView(v, s, d, before), p) == Find(v, p) {
      MountViewAt(v, s, d, before, p);
    }
  }

  lemma PointBelow(d: Path, n: Name, t: Path)
    ensures Under(d, d + [n] + t) && d + [n] + t != d && Branch(d, d + [n] + t) == n
    ensures t != [] ==> d + [n] + t != d + [n]
  {
    assert |d + [n] + t| == |d| + 1 + |t|;
  }

  // A replacing bind: every path of the target is the path of the source, and outside it only
  // ancestors of the target are new, holding nil with all rights.
  lemma BindPoints(v: View, s: Path, d: Path, t: Path, p: Path)
    requires IsPrefixClosed(v) && s in v && Apart(s, d)
    ensures Find(BindView(v, s, d), d + t) == Find(v, s + t)
    ensures !(d <= p) && (p in v || !(p <= d)) ==> Find(BindView(v, s, d), p) == Find(v, p)
    ensures !(d <= p) && p !in v && p <= d ==> Find(BindView(v, s, d), p) == Some(Entry(Nil, 15))
  {
    hide BindView, WithPath, IsPrefixClosed;
    assert d <= d + t && Image(s, d, d + t) == s + t;
    BindViewAt(v, s, d, d + t);
    BindViewAt(v, s, d, p);
    WithPathKeys(v, d, RK_ALL, p);
  }

  // An unmount: the children that the source has too go with everything below them, nothing else.
  lemma UnmountPoints(v: View, s: Path, d: Path, n: Name, t: Path)
    ensures Find(UnmountView(v, s, d), d + [n] + t) == if s + [n] in v then None else Find(v, d + [n] + t)
    ensures forall p | !(d <= p) || p == d :: Find(UnmountView(v, s, d), p) == Find(v, p)
  {
    PointBelow(d, n, t);
    assert Kid(s, n) == s + [n];
  }

  lemma MountedIsView(v: View, v': View, s: Path, d: Path, before: bool, names: seq<Name>)
    requires ChildrenAre(v, s, names) && Mounted(v, v', s, d, before, names)
    ensures v' == MountView(v, s, d, before)
  {
    hide MountView, Kid, Under;
    forall p ensures Find(v', p) == Find(MountView(v, s, d, before), p) {
      MountViewAt(v, s, d, before, p);
      assert Find(v', p) == MountAt(v, s, d, before, names, p);
    }
    SameMap(MountView(v, s, d, before), v');
  }

  lemma BoundIsView(v: View, v': View, s: Path, d: Path)
    requires Bound(v, v', s, d)
    ensures v' == BindView(v, s, d)
  {
    hide BindView, BindAt;
    forall p ensures Find(v', p) == Find(BindView(v, s, d), p) {
      BindViewAt(v, s, d, p);
      assert Find(v', p) == BindAt(v, s, d, p);
    }
    SameMap(BindView(v, s, d), v');
  }

  lemma UnmountedIsView(v: View, v': View, s: Path, d: Path, names: seq<Name>)
    requires ChildrenAre(v, s, names) && Unmounted(v, v', d, names)
    ensures v' == UnmountView(v, s, d)
  {
    hide Kid, Under;
    forall p ensures Find(v', p) == Find(UnmountView(v, s, d), p) {
      assert Find(v', p) == UnmountAt(v, d, names, p);
    }
    SameMap(UnmountView(v, s, d), v');
  }

  // The same, said of the maps: mounting and unmounting is the identity exactly when no child name is shared.
  lemma ViewsRestore(v: View, s: Path, d: Path, before: bool, names: seq<Name>)
    requires IsPrefixClosed(v) && Apart(s, d) && ChildrenAre(v, s, names)
    ensures UnmountView(MountView(v, s, d, before), s, d) == v <==> forall n :: Kid(s, n) in v ==> Kid(d, n) !in v
  {
    hide IsPrefixClosed, Under, Kid, Find;
    var v1 := MountView(v, s, d, before);
    var v2 := UnmountView(v1, s, d);
    forall p ensures Find(v1, p) == MountAt(v, s, d, before, names, p) { MountViewPoint(v, s, d, before, names, p); }
    SourceSame(v, v1, s, d, before, names);
    forall p ensures Find(v2, p) == UnmountAt(v1, d, names, p) { UnmountViewPoint(v1, s, d, names, p); }
    MountUnmountRestores(v, v1, v2, s, d, before, names);
  }

  lemma MountViewPoint(v: View, s: Path, d: Path, before: bool, names: seq<Name>, p: Path)
    requires ChildrenAre(v, s, names)
    ensures Find(MountView(v, s, d, before), p) == MountAt(v, s, d, before, names, p)
  {
    hide MountView, Under, Kid;
    MountViewAt(v, s, d, before, p);
  }

  lemma UnmountViewPoint(v: View, s: Path, d: Path, names: seq<Name>, p: Path)
    requires ChildrenAre(v, s, names)
    ensures Find(UnmountView(v, s, d), p) == UnmountAt(v, d, names, p)
  {
    hide Under, Kid;
  }

  // Mounting does not touch the children of the source.
  lemma SourceSame(v: View, v1: View, s: Path, d: Path, before: bool, names: seq<Name>)
    requires Apart(s, d) && ChildrenAre(v, s, names) && Mounted(v, v1, s, d, before, names)
    ensures ChildrenAre(v1, s, names)
  {
    hide Under, Kid;
    forall n ensures n in names <==> Kid(s, n) in v1 {
      ApartKids(s, d, n);
      assert Find(v1, Kid(s, n)) == MountAt(v, s, d, before, names, Kid(s, n));
    }
  }

  // A child that source and target share is lost: mounting /s on /d and unmounting it removes /d/x.
  lemma SharedChildLost(e: Entry, before: bool)
    ensures
      var v := map[[] := e, ["s"] := e, ["s", "x"] := e, ["d"] := e, ["d", "x"] := e];
      ["d", "x"] !in UnmountView(MountView(v, ["s"], ["d"], before), ["s"], ["d"])
  {
    var v := map[[] := e, ["s"] := e, ["s", "x"] := e, ["d"] := e, ["d", "x"] := e];
    var s, d := ["s"], ["d"];
    var k := Kid(s, "x");
    assert k == ["s", "x"] && k[0][0] == 's' && d[0][0] == 'd';
    assert k[0] != d[0] && !Under(d, k);
    MountViewAt(v, s, d, before, Kid(s, "x"));
    assert Kid(s, "x") in MountView(v, s, d, before);
    assert Under(d, ["d", "x"]) && Branch(d, ["d", "x"]) == "x" by { assert ["d", "x"][..1] == d; }
  }
}
