/**
 Whole runs of the registry: any sequence of set, get, delete, mount, bind and unmount does what it
 does on a plain map from paths to values and rights.
 */
module RegistryRuns {
  import opened RegistryPaths
  import opened RegistryShape
  import opened RegistryEdits
  import opened RegistryMaps
  import opened RegistryTree
  import opened RegistryMount
  import opened RegistryBind
  import opened Wire
  import opened Wrappers

  datatype Op =
    | Set(path: string, val: Value, rights: nat)
    | Get(path: string)
    | Delete(path: string)
    | Mount(src: string, dst: string, before: bool)
    | Bind(src: string, dst: string, flag: int)
    | Unmount(src: string, dst: string)
    | UnmountAll(dst: string)

  datatype Outcome = Done(ok: bool) | Got(val: Value)

  // The map after one call, and what the call returns.
  ghost function PlainStep(v: View, op: Op): (View, Outcome) {
    match op
    case Set(path, val, rights) =>
      if Target(path).None? then (v, Done(false))
      else
        var p := CutNames(Place(path));
        (WithPath(v, p, rights)[p := Entry(val, rights)], Done(true))
    case Get(path) => (v, Got(if Present(v.Keys, path) then v[Place(path)].val else NOT_FOUND))
    case Delete(path) =>
      if !Present(v.Keys, path) then (v, Done(false)) else (v - (set q <- v | Under(Place(path), q)), Done(true))
    case Mount(src, dst, before) =>
      if !Present(v.Keys, src) || Target(dst).None? then (v, Done(false))
      else (MountView(WithPath(v, Place(dst), RK_ALL), Place(src), Place(dst), before), Done(true))
    case Bind(src, dst, flag) =>
      if !Present(v.Keys, src) || Target(dst).None? then (v, Done(false))
      else if flag == 0 then (BindView(v, Place(src), Place(dst)), Done(true))
      else (MountView(WithPath(v, Place(dst), RK_ALL), Place(src), Place(dst), flag == 1), Done(true))
    case Unmount(src, dst) =>
      if !Present(v.Keys, src) || !Present(v.Keys, dst) then (v, Done(false))
      else (UnmountView(v, Place(src), Place(dst)), Done(true))
    case UnmountAll(dst) =>
      if !Present(v.Keys, dst) then (v, Done(false)) else (v - (set q <- v | StrictlyUnder(Place(dst), q)), Done(true))
  }

  // No second key of a name that is cut, the root not deleted, source and target apart, copies within the limits.
  ghost predicate Admissible(v: View, op: Op) {
    match op
    case Set(path, _, _) => CutIsNew(v.Keys, Place(path))
    case Get(_) => true
    case Delete(path) => Target(path) != Some([])
    case Mount(src, dst, _) => Mountable(v.Keys, src, dst)
    case Bind(src, dst, _) => Mountable(v.Keys, src, dst)
    case Unmount(src, dst) => Present(v.Keys, src) && Present(v.Keys, dst) ==> Apart(Place(src), Place(dst))
    case UnmountAll(dst) => true
  }

  // Nothing larger than the stack of the free is freed at once.
  ghost predicate Small(v: View, op: Op) {
    match op
    case Delete(path) => |set q <- v | Under(Place(path), q)| <= FREE_STACK_MAX
    case Bind(_, dst, flag) => flag == 0 ==> SmallBranches(v, Place(dst))
    case Unmount(_, dst) => SmallBranches(v, Place(dst))
    case UnmountAll(dst) => SmallBranches(v, Place(dst))
    case _ => true
  }

  ghost predicate SmallBranches(v: View, d: Path) {
    forall n {:trigger Kid(d, n)} :: |set q <- v | Under(Kid(d, n), q)| <= FREE_STACK_MAX
  }

  // ----- Small branches leak nothing

  lemma SmallBranch(v: View, nodes: Nodes, order: Order, b: Path)
    requires Shape(nodes, order) && v.Keys == nodes.Keys && |set q <- v | Under(b, q)| <= FREE_STACK_MAX
    ensures StackSuffices(nodes, order, b)
  {
    hide Shape, Rank;
    assert (set q <- v | Under(b, q)) == Subtree(nodes, b);
    if b in nodes {
      SmallSuffices(nodes, order, b);
    } else {
      forall q | q in nodes ensures !Under(b, q) {
        if Under(b, q) { PrefixClosed(nodes, order, b, q); }
      }
    }
  }

  lemma SmallClears(v: View, nodes: Nodes, order: Order, d: Path, names: seq<Name>)
    requires Shape(nodes, order) && v.Keys == nodes.Keys && SmallBranches(v, d)
    ensures ClearLeaks(nodes, order, d) == {} && UnmountLeaks(nodes, order, d, names) == {}
  {
    hide Shape, StackSuffices, ClearLeaks, UnmountLeaks, Under;
    forall n ensures StackSuffices(nodes, order, Kid(d, n)) { SmallBranch(v, nodes, order, Kid(d, n)); }
    ClearLeaksNothing(nodes, order, d);
    UnmountLeaksNothing(nodes, order, d, names);
  }

  // ----- Runs

  method PerformOne(r: Registry, op: Op) returns (outcome: Outcome)
    requires op.Set? || op.Get? || op.Delete?
    requires r.Tree() && r.nodes.Values <= r.heap.Keys && Admissible(r.View(), op)
    modifies r
    ensures r.Tree() && r.nodes.Values <= r.heap.Keys && (r.View(), outcome) == PlainStep(old(r.View()), op)
    ensures Small(old(r.View()), op) ==> Leaked(r.heap, r.nodes) == old(Leaked(r.heap, r.nodes))
    ensures old(r.Counted()) ==> r.Counted()
  {
    hide IsRegistry, Target, WithPath, ViewOf, Under, Leaked, Reached, RefsOf, StackSuffices;
    match op {
      case Set(path, val, rights) =>
        var ok := r.Set(path, val, rights);
        outcome := Done(ok);
      case Get(path) =>
        var v := r.Get(path);
        outcome := Got(v);
      case Delete(path) =>
        DeleteSmall(r, path);
        var ok := r.Delete(path);
        outcome := Done(ok);
        assert old(Leaked(r.heap, r.nodes)) + {} == old(Leaked(r.heap, r.nodes));
    }
    RegistryFacts(r.heap, r.nextRef, r.root, r.nodes, r.order);
  }

  lemma DeleteSmall(r: Registry, path: string)
    requires r.Tree() && r.nodes.Values <= r.heap.Keys
    ensures |set q <- r.View() | Under(Place(path), q)| <= FREE_STACK_MAX ==> r.DeleteLeaks(path) == {}
  {
    hide Under, Target, Reached, StackSuffices, IsRegistry;
    if Target(path).Some? && Target(path).value in r.nodes {
      assert (set q <- r.View() | Under(Place(path), q)) == Subtree(r.nodes, Place(path));
      r.DeleteLeaksNothingIff(path);
    }
  }

  method PerformTwo(r: Registry, op: Op) returns (outcome: Outcome)
    requires op.Mount? || op.Bind? || op.Unmount? || op.UnmountAll?
    requires r.Tree() && r.nodes.Values <= r.heap.Keys && Admissible(r.View(), op)
    modifies r
    ensures r.Tree() && r.nodes.Values <= r.heap.Keys && (r.View(), outcome) == PlainStep(old(r.View()), op)
    ensures Small(old(r.View()), op) ==> Leaked(r.heap, r.nodes) == old(Leaked(r.heap, r.nodes))
    ensures old(r.Counted()) && !op.Unmount? ==> r.Counted()
  {
    hide IsRegistry, Target, WithPath, ViewOf, Under, Leaked, MountView, BindView, UnmountView, ClearLeaks, UnmountLeaks, SmallBranches, Apart, GoodPath, Join, Labels, Kid;
    RegistryFacts(r.heap, r.nextRef, r.root, r.nodes, r.order);
    ghost var names := if op.Unmount? && Place(op.src) in r.order then r.order[Place(op.src)] else [];
    if !op.Mount? && SmallBranches(r.View(), Place(op.dst)) { TreeShape(r); SmallClears(r.View(), r.nodes, r.order, Place(op.dst), names); }
    assert old(Leaked(r.heap, r.nodes)) + {} == old(Leaked(r.heap, r.nodes));
    var ok;
    match op {
      case Mount(src, dst, before) => ok := RegistryMount.Mount(r, src, dst, before);
      case Bind(src, dst, flag) => ok := RegistryBind.Bind(r, src, dst, flag);
      case Unmount(src, dst) => ok := RegistryBind.Unmount(r, src, dst);
      case UnmountAll(dst) => ok := RegistryBind.UnmountAll(r, dst);
    }
    outcome := Done(ok);
    RegistryFacts(r.heap, r.nextRef, r.root, r.nodes, r.order);
  }

  lemma TreeShape(r: Registry)
    requires r.Tree()
    ensures Shape(r.nodes, r.order)
  {
  }

  method Perform(r: Registry, op: Op) returns (outcome: Outcome)
    requires r.Tree() && r.nodes.Values <= r.heap.Keys && Admissible(r.View(), op)
    modifies r
    ensures r.Tree() && r.nodes.Values <= r.heap.Keys && (r.View(), outcome) == PlainStep(old(r.View()), op)
    ensures Small(old(r.View()), op) ==> Leaked(r.heap, r.nodes) == old(Leaked(r.heap, r.nodes))
    ensures old(r.Counted()) && !op.Unmount? ==> r.Counted()
  {
    hide *;
    if op.Set? || op.Get? || op.Delete? {
      outcome := PerformOne(r, op);
    } else {
      outcome := PerformTwo(r, op);
    }
  }

  // A run on the plain map: every map on the way, every outcome.
  ghost predicate PlainRun(views: seq<View>, ops: seq<Op>, outcomes: seq<Outcome>) {
    && |views| == |ops| + 1 && |outcomes| == |ops|
    && forall i {:trigger PlainStep(views[i], ops[i])} | 0 <= i < |ops| :: (views[i + 1], outcomes[i]) == PlainStep(views[i], ops[i])
  }

  // The maps a run goes through are determined by the first.
  ghost function ViewAfter(v: View, ops: seq<Op>): View {
    if ops == [] then v else PlainStep(ViewAfter(v, ops[..|ops| - 1]), ops[|ops| - 1]).0
  }

  /**
   * Every run gives the results and the maps of the same run on a plain map, and the pointers stay
   * sound.  total_keys stays the number of allocated keys unless something is unmounted with a
   * source, and nothing leaks unless more is freed at once than the stack holds.
   */
  method Run(r: Registry, ops: seq<Op>) returns (outcomes: seq<Outcome>, ghost views: seq<View>)
    requires r.Tree() && r.nodes.Values <= r.heap.Keys
    requires forall i | 0 <= i < |ops| :: Admissible(ViewAfter(r.View(), ops[..i]), ops[i])
    modifies r
    ensures r.Tree() && r.nodes.Values <= r.heap.Keys
    ensures PlainRun(views, ops, outcomes) && |views| == |ops| + 1 && views[0] == old(r.View()) && views[|ops|] == r.View()
    ensures old(r.Counted()) && Without(ops) ==> r.Counted()
    ensures AllSmall(views, ops) ==> Leaked(r.heap, r.nodes) == old(Leaked(r.heap, r.nodes))
  {
    hide IsRegistry, ViewOf, PlainStep, Admissible, Small, Leaked, PlainRun, ViewAfter, Registry.Counted;
    outcomes, views := [], [r.View()];
    ghost var v := r.View();
    RunStart(v);
    for k := 0 to |ops|
      invariant r.Tree() && r.nodes.Values <= r.heap.Keys && r.View() == ViewAfter(v, ops[..k])
      invariant PlainRun(views, ops[..k], outcomes) && |views| == k + 1 && views[0] == v && views[k] == r.View()
      invariant old(r.Counted()) && Without(ops[..k]) ==> r.Counted()
      invariant AllSmall(views, ops[..k]) ==> Leaked(r.heap, r.nodes) == old(Leaked(r.heap, r.nodes))
    {
      RunMore(v, views, ops, k, outcomes);
      var outcome := Perform(r, ops[k]);
      outcomes, views := outcomes + [outcome], views + [r.View()];
    }
    assert ops[..|ops|] == ops;
  }

  // No unmount with a source among these calls.
  predicate Without(ops: seq<Op>) { forall i | 0 <= i < |ops| :: !ops[i].Unmount? }

  // No call of the run frees more at once than the stack holds.
  ghost predicate AllSmall(views: seq<View>, ops: seq<Op>)
    requires |views| == |ops| + 1
  {
    forall i | 0 <= i < |ops| :: Small(views[i], ops[i])
  }

  lemma RunStart(v: View)
    ensures PlainRun([v], [], []) && ViewAfter(v, []) == v
  {
  }

  lemma RunMore(v: View, views: seq<View>, ops: seq<Op>, k: nat, outcomes: seq<Outcome>)
    requires k < |ops| && PlainRun(views, ops[..k], outcomes) && |views| == k + 1 && views[k] == ViewAfter(v, ops[..k])
    ensures ViewAfter(v, ops[..k + 1]) == PlainStep(views[k], ops[k]).0
    ensures
      var (v', outcome) := PlainStep(views[k], ops[k]);
      PlainRun(views + [v'], ops[..k + 1], outcomes + [outcome])
    ensures Without(ops[..k + 1]) ==> Without(ops[..k]) && !ops[k].Unmount?
    ensures forall v' :: AllSmall(views + [v'], ops[..k + 1]) ==> AllSmall(views, ops[..k]) && Small(views[k], ops[k])
  {
    hide PlainStep, Small;
    assert ops[..k + 1][..k] == ops[..k] && ops[..k + 1][k] == ops[k];
    assert Without(ops[..k + 1]) ==> !ops[..k + 1][k].Unmount?;
    forall v' | AllSmall(views + [v'], ops[..k + 1]) ensures AllSmall(views, ops[..k]) && Small(views[k], ops[k]) {
      forall i | 0 <= i < k + 1 ensures Small(views[i], ops[i]) {
        assert Small((views + [v'])[i], ops[..k + 1][i]);
      }
    }
  }

  // When nothing has leaked, a right count is the size of the map.
  lemma CountIsSize(r: Registry)
    requires r.Tree() && r.nodes.Values <= r.heap.Keys && r.Counted() && Leaked(r.heap, r.nodes) == {}
    ensures r.totalKeys == |r.View()|
  {
    hide GoodPath, ListsChildren;
    RefsCount(r.nodes, r.nodes.Keys);
    assert r.heap.Keys == r.nodes.Values + Leaked(r.heap, r.nodes);
    assert RefsOf(r.nodes, r.nodes.Keys) == r.nodes.Values;
    assert |r.View().Keys| == |r.nodes.Keys|;
  }
}
