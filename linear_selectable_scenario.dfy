/**
 * The three-element walk-through: leaves 2, 3, 4 in a horizontal region 1,
 * which sits in a vertical region 0 that has no parent.
 */
module LinearSelectableScenario {
  import opened Options
  import opened Dom
  import opened Selectable
  import opened LinearCommon
  import opened LinearSelectable
  import opened LinearSelectableProperties

  const Column: Settings := Settings(Vertical, false, false, false)

  function RowHierarchy(): Hierarchy
  {
    Hierarchy(map[0 := [1], 1 := [2, 3, 4]], map[1 := 0, 2 := 1, 3 := 1, 4 := 1], {0, 1})
  }

  function RowRanking(): Ranking
  {
    Ranking(map[0 := 2, 1 := 1, 2 := 0, 3 := 0, 4 := 0], 3)
  }

  /** Selection state of the walk: region 1 at element `x`, region 0 untouched. */
  function At(x: Option<Node>): Selection
  {
    map[0 := None, 1 := x]
  }

  lemma RowIsAcyclic()
    ensures WellFormed(RowHierarchy()) && Ranked(RowHierarchy(), RowRanking())
  {
    var h, o := RowHierarchy(), RowRanking();
    assert h.children.Keys == {0, 1} && h.parent.Keys == {1, 2, 3, 4};
    assert h.children[0] == [1] && h.children[1] == [2, 3, 4];
    forall p, c | p in h.children && c in h.children[p] ensures c in h.parent && h.parent[c] == p {
      if p == 0 { assert c == 1; } else { assert c in [2, 3, 4]; }
    }
    forall c | c in h.parent ensures c in ChildrenOf(h, h.parent[c]) {
      if c == 1 { assert h.parent[c] == 0; } else { assert h.parent[c] == 1; }
    }
    forall p, i, j | p in h.children && 0 <= i < j < |h.children[p]|
      ensures h.children[p][i] != h.children[p][j]
    {
      assert p == 1;
    }
    assert WellFormed(h);
    forall c | c in h.parent
      ensures c in o.rank && h.parent[c] in o.rank && o.rank[c] < o.rank[h.parent[c]]
    {
      if c == 1 { assert h.parent[c] == 0; } else { assert h.parent[c] == 1; }
    }
    assert o.rank.Keys == {0, 1, 2, 3, 4};
  }

  /**
   * The shape of the walk-through: a vertical region 0 without a parent holds
   * the horizontal region 1, whose children 2, 3 and 4 are leaves.
   */
  ghost predicate IsRow(h: Hierarchy, o: Ranking, cfg: map<Node, Settings>)
  {
    WellFormed(h) && Ranked(h, o) &&
    h.regions == {0, 1} && ChildrenOf(h, 1) == [2, 3, 4] &&
    ParentOf(h, 1) == Some(0) && ParentOf(h, 0) == None &&
    SettingsOf(cfg, 0) == Column && SettingsOf(cfg, 1) == Defaults
  }

  lemma RowIsRow()
    ensures IsRow(RowHierarchy(), RowRanking(), map[0 := Column, 1 := Defaults])
  {
    RowIsAcyclic();
  }

  lemma RowIsSound(h: Hierarchy, o: Ranking, cfg: map<Node, Settings>, x: Option<Node>)
    requires IsRow(h, o, cfg) && (x.Some? ==> x.value in [2, 3, 4])
    ensures Sound(h, o, At(x))
  {
    var sel := At(x);
    forall n | n in sel && sel[n].Some? ensures sel[n].value in ChildrenOf(h, n) {
      assert n == 1;
    }
  }

  lemma RowEnter(h: Hierarchy, o: Ranking, cfg: map<Node, Settings>)
    requires IsRow(h, o, cfg)
    ensures Enter(h, o, At(None), 1) == Step(At(Some(2)), [2])
  {
    RowIsSound(h, o, cfg, None);
    assert CurrentElement(h, At(None), 1) == Some(2);
    ChooseLeaf(h, o, At(None), 1, 2);
    assert At(None)[1 := Some(2)] == At(Some(2));
  }

  /** The scan positions of the walk. */
  lemma RowTargets(h: Hierarchy, o: Ranking, cfg: map<Node, Settings>)
    requires IsRow(h, o, cfg)
    ensures Target(h, At(Some(2)), 1, Right) == Some(3)
    ensures Target(h, At(Some(3)), 1, Right) == Some(4)
    ensures Target(h, At(Some(4)), 1, Right) == None
    ensures Target(h, At(Some(4)), 1, Left) == Some(3)
    ensures Target(h, At(Some(3)), 1, Left) == Some(2)
  {
    TargetAt(h, At(Some(2)), 1, Right, 0);
    TargetAt(h, At(Some(3)), 1, Right, 1);
    TargetAt(h, At(Some(4)), 1, Right, 2);
    TargetAt(h, At(Some(4)), 1, Left, 2);
    TargetAt(h, At(Some(3)), 1, Left, 1);
  }

  /** A left or right command on region 1 whose scan from `x` finds `y` selects and announces `y`. */
  lemma RowMoveFinds(h: Hierarchy, o: Ranking, cfg: map<Node, Settings>, x: Node, cmd: Command, y: Node)
    requires IsRow(h, o, cfg) && x in [2, 3, 4]
    requires cmd == Left || cmd == Right
    requires Target(h, At(Some(x)), 1, cmd) == Some(y)
    ensures Move(h, cfg, o, At(Some(x)), 1, cmd) == Step(At(Some(y)), [y])
  {
    RowIsSound(h, o, cfg, Some(x));
    MoveToLeaf(h, cfg, o, At(Some(x)), 1, cmd);
    assert At(Some(x))[1 := Some(y)] == At(Some(y));
  }

  /**
   * A left or right command on region 1 whose scan from `x` finds nothing
   * goes to region 0, which is vertical and has no parent: nothing changes.
   */
  lemma RowMoveDropped(h: Hierarchy, o: Ranking, cfg: map<Node, Settings>, x: Node, cmd: Command)
    requires IsRow(h, o, cfg) && x in [2, 3, 4]
    requires cmd == Left || cmd == Right
    requires Target(h, At(Some(x)), 1, cmd) == None
    ensures Move(h, cfg, o, At(Some(x)), 1, cmd) == Step(At(Some(x)), [])
  {
    RowIsSound(h, o, cfg, Some(x));
    FailedScanPassesOn(h, cfg, o, At(Some(x)), 1, cmd);
  }

  /**
   * `select` selects 2; `right` moves to 3, then 4; a further `right` goes to
   * the vertical parent, which drops it, so nothing changes; `left` twice
   * comes back to 2.  Each selection is announced once.
   */
  lemma RowWalk(h: Hierarchy, o: Ranking, cfg: map<Node, Settings>)
    requires IsRow(h, o, cfg)
    ensures Enter(h, o, At(None), 1) == Step(At(Some(2)), [2])
    ensures Move(h, cfg, o, At(Some(2)), 1, Right) == Step(At(Some(3)), [3])
    ensures Move(h, cfg, o, At(Some(3)), 1, Right) == Step(At(Some(4)), [4])
    ensures Move(h, cfg, o, At(Some(4)), 1, Right) == Step(At(Some(4)), [])
    ensures Move(h, cfg, o, At(Some(4)), 1, Left) == Step(At(Some(3)), [3])
    ensures Move(h, cfg, o, At(Some(3)), 1, Left) == Step(At(Some(2)), [2])
  {
    RowTargets(h, o, cfg);
    RowEnter(h, o, cfg);
    RowMoveFinds(h, o, cfg, 2, Right, 3);
    RowMoveFinds(h, o, cfg, 3, Right, 4);
    RowMoveDropped(h, o, cfg, 4, Right);
    RowMoveFinds(h, o, cfg, 4, Left, 3);
    RowMoveFinds(h, o, cfg, 3, Left, 2);
  }

  /** One horizontal command of the walk-through on a `World` holding its state. */
  method RowStep(w: World, cmd: Command, x: Node, y: Node)
    requires w.Valid() && IsRow(w.h, w.order, w.settings) && w.selected == At(Some(x))
    requires (cmd, x, y) in {(Right, 2, 3), (Right, 3, 4), (Right, 4, 4), (Left, 4, 3), (Left, 3, 2)}
    modifies w`selected, w`events
    ensures w.Valid() && w.selected == At(Some(y))
    ensures w.events == old(w.events) + (if x == y then [] else [y])
  {
    RowWalk(w.h, w.order, w.settings);
    if cmd == Right {
      w.Right(1);
    } else {
      w.Left(1);
    }
  }

  /** A `World` for the walk-through, configured and entered: region 1 selects 2. */
  method RowStart(h: Hierarchy, ghost o: Ranking) returns (w: World)
    requires IsRow(h, o, map[0 := Column, 1 := Defaults])
    ensures fresh(w) && w.Valid() && w.h == h && IsRow(w.h, w.order, w.settings)
    ensures w.selected == At(Some(2)) && w.events == [2]
  {
    w := new World(h, o);
    w.Configure(0, Column);
    assert IsRow(h, o, w.settings);
    RowEnter(h, o, w.settings);
    assert w.selected == At(None);
    w.Select(1, None);
  }

  /**
   * The walk-through driven through `World`: after each operation the
   * inner region's `selectedElement` is read.
   */
  method Walk(h: Hierarchy, ghost o: Ranking) returns (trail: seq<Option<Node>>)
    requires IsRow(h, o, map[0 := Column, 1 := Defaults])
    ensures trail == [Some(2), Some(3), Some(4), Some(4), Some(3), Some(2)]
  {
    var w := RowStart(h, o);
    trail := [w.SelectedElement(1)];
    RowStep(w, Right, 2, 3);
    trail := trail + [w.SelectedElement(1)];
    RowStep(w, Right, 3, 4);
    trail := trail + [w.SelectedElement(1)];
    RowStep(w, Right, 4, 4);
    trail := trail + [w.SelectedElement(1)];
    RowStep(w, Left, 4, 3);
    trail := trail + [w.SelectedElement(1)];
    RowStep(w, Left, 3, 2);
    trail := trail + [w.SelectedElement(1)];
    assert w.events == [2, 3, 4, 3, 2];
  }
}
