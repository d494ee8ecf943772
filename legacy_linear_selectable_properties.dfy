/** Properties of the earlier linear selectable behaviour. */
module LegacyLinearSelectableProperties {
  import opened Options
  import opened Dom
  import opened Selectable
  import opened LinearCommon
  import opened LegacyLinearSelectable

  /**
   * A run of `select` that ends within some depth ends the same way with
   * any larger depth: the bound only cuts off runs, it never changes one.
   */
  lemma {:induction false} EnterDepthMonotone(h: Hierarchy, d: nat, d2: nat, sel: Selection, r: Node, pref: Option<Node>)
    requires d <= d2 && !Enter(h, d, sel, r, pref).Exhausted?
    decreases d, 1
    ensures Enter(h, d2, sel, r, pref) == Enter(h, d, sel, r, pref)
  {
    ChooseDepthMonotone(h, d, d2, sel, r, Pick(h, sel, r, pref));
  }

  lemma {:induction false} ChooseDepthMonotone(h: Hierarchy, d: nat, d2: nat, sel: Selection, r: Node, e: Option<Node>)
    requires d <= d2 && !Choose(h, d, sel, r, e).Exhausted?
    decreases d, 0
    ensures Choose(h, d2, sel, r, e) == Choose(h, d, sel, r, e)
  {
    if e.Some? && e.value in h.regions {
      EnterDepthMonotone(h, d - 1, d2 - 1, sel[r := e], e.value, SelectedOf(sel, r));
    }
  }

  /** The same holds for a directional command, whichever region ends up handling it. */
  lemma {:induction false} MoveDepthMonotone(h: Hierarchy, cfg: map<Node, Settings>, o: Ranking, d: nat, d2: nat, sel: Selection, r: Node, cmd: Command)
    requires Sound(h, o) && r in h.regions
    requires d <= d2 && !Move(h, cfg, o, d, sel, r, cmd).Exhausted?
    decreases o.top - o.rank[r]
    ensures Move(h, cfg, o, d2, sel, r, cmd) == Move(h, cfg, o, d, sel, r, cmd)
  {
    var current := CurrentElement(h, sel, r);
    if OnAxis(cfg, r, cmd) && current.None? {
    } else {
      var target := if OnAxis(cfg, r, cmd) then Target(h, sel, r, cmd) else None;
      if target.Some? {
        ChooseDepthMonotone(h, d, d2, sel, r, target);
      } else if Delegates(cfg, r, cmd) && SelectableParent(h, r).Some? {
        SelectableParentRanksAbove(h, o, r);
        MoveDepthMonotone(h, cfg, o, d, d2, sel, SelectableParent(h, r).value, cmd);
      }
    }
  }

  /** `select()` on a region with no selection and no children hands `null` on and throws. */
  lemma EnterEmptyRegionThrows(h: Hierarchy, d: nat, sel: Selection, r: Node)
    requires SelectedOf(sel, r).None? && ChildrenOf(h, r) == []
    ensures Enter(h, d, sel, r, None) == Threw(sel[r := None])
  {
  }

  /** Without a preference, `select()` selects the current selection or else the first child. */
  lemma EnterWithoutPreference(h: Hierarchy, d: nat, sel: Selection, r: Node)
    requires SelectedOf(sel, r).Some? || ChildrenOf(h, r) != []
    ensures Enter(h, d, sel, r, None) == Choose(h, d, sel, r, CurrentElement(h, sel, r))
    ensures CurrentElement(h, sel, r) ==
              if SelectedOf(sel, r).Some? then SelectedOf(sel, r) else Some(ChildrenOf(h, r)[0])
  {
  }

  /**
   * `select(p)` with an element `p` that is not a region selects and
   * announces `p`, whether or not `p` is a child of the region.
   */
  lemma EnterAdoptsPreference(h: Hierarchy, d: nat, sel: Selection, r: Node, p: Node)
    requires p !in h.regions
    ensures Enter(h, d, sel, r, Some(p)) == Finished(sel[r := Some(p)], [p])
  {
  }

  /**
   * `select(p)` with a region `p` selects `p` and enters it one level
   * deeper, with this region's previous selection as `p`'s preference.
   */
  lemma EnterRegionPreference(h: Hierarchy, d: nat, sel: Selection, r: Node, p: Node)
    requires p in h.regions
    ensures d == 0 ==> Enter(h, d, sel, r, Some(p)).Exhausted?
    ensures d > 0 ==> Enter(h, d, sel, r, Some(p)) == Enter(h, d - 1, sel[r := Some(p)], p, SelectedOf(sel, r))
  {
  }

  /** An on-axis command on a region with no current element throws, leaving everything as it was. */
  lemma MoveWithoutCurrentThrows(h: Hierarchy, cfg: map<Node, Settings>, o: Ranking, d: nat, sel: Selection, r: Node, cmd: Command)
    requires Sound(h, o) && r in h.regions
    requires OnAxis(cfg, r, cmd) && SelectedOf(sel, r).None? && ChildrenOf(h, r) == []
    ensures Move(h, cfg, o, d, sel, r, cmd) == Threw(sel)
  {
  }

  /** An on-axis command whose scan finds a sibling selects it in this region. */
  lemma OnAxisMovesLocally(h: Hierarchy, cfg: map<Node, Settings>, o: Ranking, d: nat, sel: Selection, r: Node, cmd: Command)
    requires Sound(h, o) && r in h.regions
    requires OnAxis(cfg, r, cmd) && Target(h, sel, r, cmd).Some?
    ensures Move(h, cfg, o, d, sel, r, cmd) == Choose(h, d, sel, r, Target(h, sel, r, cmd))
  {
  }

  /**
   * A direction off the region's axis goes to a selectable parent, or is
   * dropped with nothing changed.
   */
  lemma OffAxisPassesOn(h: Hierarchy, cfg: map<Node, Settings>, o: Ranking, d: nat, sel: Selection, r: Node, cmd: Command)
    requires Sound(h, o) && r in h.regions
    requires cmd != Back && !OnAxis(cfg, r, cmd)
    ensures SelectableParent(h, r).Some? ==>
              Move(h, cfg, o, d, sel, r, cmd) == Move(h, cfg, o, d, sel, SelectableParent(h, r).value, cmd)
    ensures SelectableParent(h, r).None? ==> Move(h, cfg, o, d, sel, r, cmd) == Finished(sel, [])
  {
  }

  /**
   * An on-axis direction whose scan from an existing current element finds
   * no sibling goes to a selectable parent, or is dropped with nothing changed.
   */
  lemma FailedScanPassesOn(h: Hierarchy, cfg: map<Node, Settings>, o: Ranking, d: nat, sel: Selection, r: Node, cmd: Command)
    requires Sound(h, o) && r in h.regions
    requires cmd != Back && OnAxis(cfg, r, cmd)
    requires CurrentElement(h, sel, r).Some? && Target(h, sel, r, cmd).None?
    ensures SelectableParent(h, r).Some? ==>
              Move(h, cfg, o, d, sel, r, cmd) == Move(h, cfg, o, d, sel, SelectableParent(h, r).value, cmd)
    ensures SelectableParent(h, r).None? ==> Move(h, cfg, o, d, sel, r, cmd) == Finished(sel, [])
  {
  }

  /**
   * With `canMoveBack`, `back` stays in the region: it throws without a
   * current element and otherwise selects the previous sibling, or does nothing.
   */
  lemma BackWithinRegion(h: Hierarchy, cfg: map<Node, Settings>, o: Ranking, d: nat, sel: Selection, r: Node)
    requires Sound(h, o) && r in h.regions
    requires SettingsOf(cfg, r).canMoveBack
    ensures CurrentElement(h, sel, r).None? ==> Move(h, cfg, o, d, sel, r, Back) == Threw(sel)
    ensures CurrentElement(h, sel, r).Some? && Target(h, sel, r, Back).None? ==>
              Move(h, cfg, o, d, sel, r, Back) == Finished(sel, [])
    ensures Target(h, sel, r, Back).Some? ==>
              Move(h, cfg, o, d, sel, r, Back) == Choose(h, d, sel, r, Target(h, sel, r, Back))
  {
  }

  /** Without `canMoveBack`, `back` goes to a selectable parent, or is dropped. */
  lemma BackLeavesRegion(h: Hierarchy, cfg: map<Node, Settings>, o: Ranking, d: nat, sel: Selection, r: Node)
    requires Sound(h, o) && r in h.regions
    requires !SettingsOf(cfg, r).canMoveBack
    ensures SelectableParent(h, r).Some? ==>
              Move(h, cfg, o, d, sel, r, Back) == Move(h, cfg, o, d, sel, SelectableParent(h, r).value, Back)
    ensures SelectableParent(h, r).None? ==> Move(h, cfg, o, d, sel, r, Back) == Finished(sel, [])
  {
  }

  /**
   * Entering a region `e` whose own selection is `e` or nothing, with `e`
   * as the preference (a region whose selection is `e` re-entering `e`),
   * calls `e.select(e)` forever: no depth is enough.
   */
  lemma {:induction false} SelfEntryNeverEnds(h: Hierarchy, d: nat, sel: Selection, e: Node, pref: Option<Node>)
    requires e in h.regions
    requires pref == Some(e) || (pref.None? && SelectedOf(sel, e) == Some(e))
    requires SelectedOf(sel, e).None? || SelectedOf(sel, e) == Some(e)
    decreases d
    ensures Enter(h, d, sel, e, pref).Exhausted?
  {
    if d > 0 {
      SelfEntryNeverEnds(h, d - 1, sel[e := Some(e)], e, SelectedOf(sel, e));
    }
  }
}
