/**
 * The two versions side by side: where they agree, and the inputs on which
 * the earlier one goes wrong while the current one does what was meant.
 */
module LegacyComparison {
  import opened Options
  import opened Dom
  import opened Selectable
  import opened LinearCommon
  import Current = LinearSelectable
  import CurrentProperties = LinearSelectableProperties
  import Legacy = LegacyLinearSelectable
  import LegacyProperties = LegacyLinearSelectableProperties

  /** On a sound state, `select()` on a region whose current element is not a region does the same in both versions. */
  lemma AgreeOnLeafEntry(h: Hierarchy, o: Ranking, d: nat, sel: Selection, r: Node)
    requires Current.Sound(h, o, sel) && r in h.regions
    requires CurrentElement(h, sel, r).Some? && CurrentElement(h, sel, r).value !in h.regions
    ensures Legacy.Enter(h, d, sel, r, None) ==
              Legacy.Finished(Current.Enter(h, o, sel, r).sel, Current.Enter(h, o, sel, r).events)
  {
    var c := CurrentElement(h, sel, r).value;
    CurrentProperties.ChooseLeaf(h, o, sel, r, c);
  }

  /**
   * On a sound state, a command the region handles by reaching an element
   * that is not a region does the same in both versions.
   */
  lemma AgreeOnLeafTarget(h: Hierarchy, cfg: map<Node, Settings>, o: Ranking, d: nat, sel: Selection, r: Node, cmd: Command)
    requires Current.Sound(h, o, sel) && r in h.regions
    requires OnAxis(cfg, r, cmd) && Target(h, sel, r, cmd).Some? && Target(h, sel, r, cmd).value !in h.regions
    ensures Legacy.Move(h, cfg, o, d, sel, r, cmd) ==
              Legacy.Finished(Current.Move(h, cfg, o, sel, r, cmd).sel, Current.Move(h, cfg, o, sel, r, cmd).events)
  {
    CurrentProperties.MoveToLeaf(h, cfg, o, sel, r, cmd);
    LegacyProperties.OnAxisMovesLocally(h, cfg, o, d, sel, r, cmd);
  }

  /**
   * The earlier version on a region whose selection is a region `e` that
   * has been reset: `select()` calls `e.select(e)`, and from there `select`
   * on `e` without end.
   */
  lemma LegacyReenterAfterReset(h: Hierarchy, d: nat, sel: Selection, r: Node, e: Node)
    requires e in h.regions && SelectedOf(sel, r) == Some(e) && SelectedOf(sel, e).None?
    ensures Legacy.Enter(h, d, sel, r, None).Exhausted?
  {
    if d > 0 {
      LegacyProperties.SelfEntryNeverEnds(h, d - 1, sel[r := Some(e)], e, Some(e));
    }
  }

  /** The current version on the same state: `e` stays selected and enters its first child. */
  lemma CurrentReenterAfterReset(h: Hierarchy, o: Ranking, sel: Selection, r: Node, e: Node)
    requires Current.Sound(h, o, sel) && r in h.regions
    requires e in h.regions && SelectedOf(sel, r) == Some(e) && SelectedOf(sel, e).None?
    ensures SelectedOf(Current.Enter(h, o, sel, r).sel, r) == Some(e)
    ensures SelectedOf(Current.Enter(h, o, sel, r).sel, e) ==
              if ChildrenOf(h, e) == [] then None else Some(ChildrenOf(h, e)[0])
  {
    ChildRanksBelow(h, o, r, e);
    assert Current.Enter(h, o, sel, r) == Current.Enter(h, o, sel[r := Some(e)], e);
  }

  /**
   * The shape of the sibling case: a horizontal region 0 with children 1
   * and 2, where 1 is not a region and 2 is a region holding 3.
   */
  ghost predicate SplitRow(h: Hierarchy, o: Ranking, cfg: map<Node, Settings>)
  {
    WellFormed(h) && Ranked(h, o) &&
    h.regions == {0, 2} && ChildrenOf(h, 0) == [1, 2] && ChildrenOf(h, 2) == [3] &&
    SettingsOf(cfg, 0) == Defaults
  }

  lemma SplitRowExists()
    ensures
      SplitRow(Hierarchy(map[0 := [1, 2], 2 := [3]], map[1 := 0, 2 := 0, 3 := 2], {0, 2}),
               Ranking(map[0 := 2, 1 := 0, 2 := 1, 3 := 0], 3), map[])
  {
    var h := Hierarchy(map[0 := [1, 2], 2 := [3]], map[1 := 0, 2 := 0, 3 := 2], {0, 2});
    var o := Ranking(map[0 := 2, 1 := 0, 2 := 1, 3 := 0], 3);
    assert h.children.Keys == {0, 2} && h.parent.Keys == {1, 2, 3};
    assert h.children[0] == [1, 2] && h.children[2] == [3];
    forall p, c | p in h.children && c in h.children[p] ensures c in h.parent && h.parent[c] == p {
      if p == 0 { assert c in [1, 2]; } else { assert c == 3; }
    }
    forall c | c in h.parent ensures c in ChildrenOf(h, h.parent[c]) {
      if c == 3 { assert h.parent[c] == 2; } else { assert h.parent[c] == 0; }
    }
    forall p, i, j | p in h.children && 0 <= i < j < |h.children[p]|
      ensures h.children[p][i] != h.children[p][j]
    {
      assert p == 0;
    }
    assert WellFormed(h);
    forall c | c in h.parent
      ensures c in o.rank && h.parent[c] in o.rank && o.rank[c] < o.rank[h.parent[c]]
    {
      if c == 3 { assert h.parent[c] == 2; } else { assert h.parent[c] == 0; }
    }
    assert o.rank.Keys == {0, 1, 2, 3};
  }

  /**
   * The earlier version with 1 selected in region 0: `right()` selects 2
   * and calls `2.select(1)`, so region 2 selects 1, which is not one of its
   * children, and 1 is announced again.
   */
  lemma LegacyAdoptsSibling(h: Hierarchy, o: Ranking, cfg: map<Node, Settings>, d: nat)
    requires SplitRow(h, o, cfg) && d >= 1
    ensures Legacy.Move(h, cfg, o, d, map[0 := Some(1)], 0, Right) ==
              Legacy.Finished(map[0 := Some(2), 2 := Some(1)], [1])
    ensures !ChildSelection(h, map[0 := Some(2), 2 := Some(1)])
  {
    var sel := map[0 := Some(1)];
    TargetAt(h, sel, 0, Right, 0);
    LegacyProperties.OnAxisMovesLocally(h, cfg, o, d, sel, 0, Right);
    LegacyProperties.EnterRegionPreference(h, d, sel, 0, 2);
    LegacyProperties.EnterAdoptsPreference(h, d - 1, sel[0 := Some(2)], 2, 1);
    assert sel[0 := Some(2)][2 := Some(1)] == map[0 := Some(2), 2 := Some(1)];
    assert 1 !in ChildrenOf(h, 2);
  }

  /** The current version on the same state: region 2 enters its own child 3, which is announced. */
  lemma CurrentEntersOwnChild(h: Hierarchy, o: Ranking, cfg: map<Node, Settings>)
    requires SplitRow(h, o, cfg)
    ensures Current.Sound(h, o, map[0 := Some(1)])
    ensures Current.Move(h, cfg, o, map[0 := Some(1)], 0, Right) == Step(map[0 := Some(2), 2 := Some(3)], [3])
  {
    var sel := map[0 := Some(1)];
    var next := sel[0 := Some(2)];
    assert ChildSelection(h, sel) by {
      forall n | n in sel && sel[n].Some? ensures sel[n].value in ChildrenOf(h, n) {
        assert n == 0;
      }
    }
    assert ChildSelection(h, next) by {
      forall n | n in next && next[n].Some? ensures next[n].value in ChildrenOf(h, n) {
        assert n == 0;
      }
    }
    TargetAt(h, sel, 0, Right, 0);
    CurrentProperties.OnAxisMovesLocally(h, cfg, o, sel, 0, Right);
    assert Current.Choose(h, o, sel, 0, 2) == Current.Enter(h, o, next, 2);
    assert CurrentElement(h, next, 2) == Some(3);
    CurrentProperties.ChooseLeaf(h, o, next, 2, 3);
    assert next[2 := Some(3)] == map[0 := Some(2), 2 := Some(3)];
  }
}
