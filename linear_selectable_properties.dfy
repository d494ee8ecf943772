/**
 * Properties of the current linear selectable behaviour, stated over the
 * effect functions that the methods of `LinearSelectable.World` are proved
 * to implement.
 */
module LinearSelectableProperties {
  import opened Options
  import opened Dom
  import opened Selectable
  import opened LinearCommon
  import opened LinearSelectable

  /** `select` on a region with no selection and no children changes nothing and announces nothing. */
  lemma EnterEmptyRegion(h: Hierarchy, o: Ranking, sel: Selection, r: Node)
    requires Sound(h, o, sel) && r in h.regions
    requires SelectedOf(sel, r).None? && ChildrenOf(h, r) == []
    ensures Enter(h, o, sel, r) == Step(sel, [])
  {
  }

  /**
   * `select` on an unselected region with children runs `__selectElement` on
   * the first child: it is entered when it is a region and announced when not.
   */
  lemma EnterSelectsFirstChild(h: Hierarchy, o: Ranking, sel: Selection, r: Node)
    requires Sound(h, o, sel) && r in h.regions
    requires SelectedOf(sel, r).None? && ChildrenOf(h, r) != []
    ensures Enter(h, o, sel, r) == Choose(h, o, sel, r, ChildrenOf(h, r)[0])
    ensures SelectedOf(Enter(h, o, sel, r).sel, r) == Some(ChildrenOf(h, r)[0])
  {
  }

  /**
   * `select` on a region that has a selection runs `__selectElement` on that
   * element again: it is re-entered when it is a region and re-announced
   * when it is not.
   */
  lemma EnterKeepsSelection(h: Hierarchy, o: Ranking, sel: Selection, r: Node)
    requires Sound(h, o, sel) && r in h.regions
    requires SelectedOf(sel, r).Some?
    ensures Enter(h, o, sel, r) == Choose(h, o, sel, r, SelectedOf(sel, r).value)
    ensures SelectedOf(Enter(h, o, sel, r).sel, r) == SelectedOf(sel, r)
  {
  }

  /**
   * Entering a second time changes no selection further and announces the
   * same element again.
   */
  lemma {:induction false} EnterTwice(h: Hierarchy, o: Ranking, sel: Selection, r: Node)
    requires Sound(h, o, sel) && r in h.regions
    ensures Enter(h, o, Enter(h, o, sel, r).sel, r) == Enter(h, o, sel, r)
    decreases o.rank[r]
  {
    match CurrentElement(h, sel, r)
    case None =>
    case Some(c) =>
      ChildRanksBelow(h, o, r, c);
      var next := sel[r := Some(c)];
      var s := Enter(h, o, sel, r);
      assert s == Choose(h, o, sel, r, c);
      assert s.sel[r := Some(c)] == s.sel;
      if c in h.regions {
        EnterTwice(h, o, next, c);
      }
  }

  /**
   * The element an entry ends at: follow the current elements down from `r`
   * until one is not a region; none if the path ends at a region with
   * neither a selection nor children.
   */
  ghost function Landing(h: Hierarchy, o: Ranking, sel: Selection, r: Node): (l: Option<Node>)
    requires Sound(h, o, sel) && r in h.regions
    decreases o.rank[r]
  {
    match CurrentElement(h, sel, r)
    case None => None
    case Some(c) =>
      ChildRanksBelow(h, o, r, c);
      if c in h.regions then Landing(h, o, sel, c) else Some(c)
  }

  /** The landing element depends only on the selections inside `r`. */
  lemma {:induction false} LandingInside(h: Hierarchy, o: Ranking, sel: Selection, sel': Selection, r: Node)
    requires Sound(h, o, sel) && Sound(h, o, sel') && r in h.regions
    requires forall n :: Below(h, o, n, r) ==> SelectedOf(sel, n) == SelectedOf(sel', n)
    ensures Landing(h, o, sel, r) == Landing(h, o, sel', r)
    decreases o.rank[r]
  {
    assert Below(h, o, r, r);
    match CurrentElement(h, sel, r)
    case None =>
    case Some(c) =>
      ChildRanksBelow(h, o, r, c);
      if c in h.regions {
        BelowChild(h, o, c, r);
        LandingInside(h, o, sel, sel', c);
      }
  }

  /**
   * `select` announces exactly one element, the one the entry lands on, and
   * nothing when it lands on no element; a region on the way is never
   * announced itself.
   */
  lemma {:induction false} EnterAnnouncesLanding(h: Hierarchy, o: Ranking, sel: Selection, r: Node)
    requires Sound(h, o, sel) && r in h.regions
    ensures Enter(h, o, sel, r).events ==
              match Landing(h, o, sel, r) case None => [] case Some(l) => [l]
    decreases o.rank[r]
  {
    match CurrentElement(h, sel, r)
    case None =>
    case Some(c) =>
      ChildRanksBelow(h, o, r, c);
      if c in h.regions {
        var next := sel[r := Some(c)];
        EnterAnnouncesLanding(h, o, next, c);
        forall n | Below(h, o, n, c) ensures SelectedOf(next, n) == SelectedOf(sel, n) {
          BelowRanks(h, o, n, c);
        }
        LandingInside(h, o, next, sel, c);
      }
  }

  /** `__selectElement` of an element that is not a region announces exactly that element. */
  lemma ChooseLeaf(h: Hierarchy, o: Ranking, sel: Selection, r: Node, e: Node)
    requires Sound(h, o, sel) && r in h.regions && e in ChildrenOf(h, r)
    requires e !in h.regions
    ensures Choose(h, o, sel, r, e) == Step(sel[r := Some(e)], [e])
  {
  }

  /**
   * `__selectElement` of a region selects it and then enters it: every new
   * selection and every announcement is that of `select` on `e`, and the
   * region itself is never announced.
   */
  lemma ChooseRegion(h: Hierarchy, o: Ranking, sel: Selection, r: Node, e: Node)
    requires Sound(h, o, sel) && r in h.regions && e in ChildrenOf(h, r)
    requires e in h.regions
    ensures Sound(h, o, sel[r := Some(e)])
    ensures Choose(h, o, sel, r, e) == Enter(h, o, sel[r := Some(e)], e)
    ensures e !in Choose(h, o, sel, r, e).events
  {
  }

  /** The region satisfies the command itself. */
  ghost predicate Handles(h: Hierarchy, cfg: map<Node, Settings>, sel: Selection, r: Node, cmd: Command)
  {
    OnAxis(cfg, r, cmd) && Target(h, sel, r, cmd).Some?
  }

  /** What a region does with a command it does not satisfy itself. */
  ghost function PassOn(h: Hierarchy, cfg: map<Node, Settings>, o: Ranking, sel: Selection, r: Node, cmd: Command): Step
    requires Sound(h, o, sel) && r in h.regions
  {
    if Delegates(cfg, r, cmd) && SelectableParent(h, r).Some? then
      Move(h, cfg, o, sel, SelectableParent(h, r).value, cmd)
    else
      Step(sel, [])
  }

  /**
   * `left`/`right` on a vertical region and `up`/`down` on a horizontal one
   * never scan: the command goes once to a selectable parent, or is dropped.
   */
  lemma OffAxisPassesOn(h: Hierarchy, cfg: map<Node, Settings>, o: Ranking, sel: Selection, r: Node, cmd: Command)
    requires Sound(h, o, sel) && r in h.regions
    requires cmd != Back && !OnAxis(cfg, r, cmd)
    ensures Move(h, cfg, o, sel, r, cmd) == PassOn(h, cfg, o, sel, r, cmd)
    ensures SelectableParent(h, r).Some? ==>
              Move(h, cfg, o, sel, r, cmd) == Move(h, cfg, o, sel, SelectableParent(h, r).value, cmd)
    ensures SelectableParent(h, r).None? ==> Move(h, cfg, o, sel, r, cmd) == Step(sel, [])
  {
  }

  /** An on-axis command whose scan finds a sibling selects it and is not passed on. */
  lemma OnAxisMovesLocally(h: Hierarchy, cfg: map<Node, Settings>, o: Ranking, sel: Selection, r: Node, cmd: Command)
    requires Sound(h, o, sel) && r in h.regions
    requires Handles(h, cfg, sel, r, cmd)
    ensures Move(h, cfg, o, sel, r, cmd) == Choose(h, o, sel, r, Target(h, sel, r, cmd).value)
    ensures SelectedOf(Move(h, cfg, o, sel, r, cmd).sel, r) == Target(h, sel, r, cmd)
  {
  }

  /** A command the region handles by reaching an element that is not a region announces exactly that element. */
  lemma MoveToLeaf(h: Hierarchy, cfg: map<Node, Settings>, o: Ranking, sel: Selection, r: Node, cmd: Command)
    requires Sound(h, o, sel) && r in h.regions
    requires Handles(h, cfg, sel, r, cmd) && Target(h, sel, r, cmd).value !in h.regions
    ensures Move(h, cfg, o, sel, r, cmd) ==
              Step(sel[r := Target(h, sel, r, cmd)], [Target(h, sel, r, cmd).value])
  {
  }

  /** An on-axis directional command whose scan fails goes to a selectable parent, or is dropped. */
  lemma FailedScanPassesOn(h: Hierarchy, cfg: map<Node, Settings>, o: Ranking, sel: Selection, r: Node, cmd: Command)
    requires Sound(h, o, sel) && r in h.regions
    requires cmd != Back && OnAxis(cfg, r, cmd) && Target(h, sel, r, cmd).None?
    ensures Move(h, cfg, o, sel, r, cmd) == PassOn(h, cfg, o, sel, r, cmd)
  {
  }

  /** With `canMoveBack`, `back` is a local previous-scan that is never passed on, even when it fails. */
  lemma BackWithinRegion(h: Hierarchy, cfg: map<Node, Settings>, o: Ranking, sel: Selection, r: Node)
    requires Sound(h, o, sel) && r in h.regions
    requires SettingsOf(cfg, r).canMoveBack
    ensures Target(h, sel, r, Back).None? ==> Move(h, cfg, o, sel, r, Back) == Step(sel, [])
    ensures Target(h, sel, r, Back).Some? ==>
              Move(h, cfg, o, sel, r, Back) == Choose(h, o, sel, r, Target(h, sel, r, Back).value)
  {
  }

  /** Without `canMoveBack`, `back` leaves the region alone and goes to a selectable parent, or is dropped. */
  lemma BackLeavesRegion(h: Hierarchy, cfg: map<Node, Settings>, o: Ranking, sel: Selection, r: Node)
    requires Sound(h, o, sel) && r in h.regions
    requires !SettingsOf(cfg, r).canMoveBack
    ensures Move(h, cfg, o, sel, r, Back) == PassOn(h, cfg, o, sel, r, Back)
  {
  }

  /**
   * A command bubbles up through selectable parents: it is either dropped
   * with nothing changed, or carried out by `r` or an enclosing region that
   * handles it, exactly as that region's own `__selectElement` would.
   */
  lemma {:induction false} MoveHandledAbove(h: Hierarchy, cfg: map<Node, Settings>, o: Ranking, sel: Selection, r: Node, cmd: Command)
    requires Sound(h, o, sel) && r in h.regions
    ensures var s := Move(h, cfg, o, sel, r, cmd);
      s == Step(sel, []) ||
      exists a :: a in h.regions && Below(h, o, r, a) && Handles(h, cfg, sel, a, cmd) &&
        s == Choose(h, o, sel, a, Target(h, sel, a, cmd).value)
    decreases o.top - o.rank[r]
  {
    var s := Move(h, cfg, o, sel, r, cmd);
    if Handles(h, cfg, sel, r, cmd) {
      assert Below(h, o, r, r);
    } else if Delegates(cfg, r, cmd) && SelectableParent(h, r).Some? {
      var p := SelectableParent(h, r).value;
      SelectableParentRanksAbove(h, o, r);
      MoveHandledAbove(h, cfg, o, sel, p, cmd);
      if s != Step(sel, []) {
        var a :| a in h.regions && Below(h, o, p, a) && Handles(h, cfg, sel, a, cmd) &&
          s == Choose(h, o, sel, a, Target(h, sel, a, cmd).value);
        assert Below(h, o, r, a);
      }
    }
  }

  /** Clearing a region's selection keeps the ownership rule, and the next `select` starts again from the first child. */
  lemma ResetThenEnter(h: Hierarchy, o: Ranking, sel: Selection, r: Node)
    requires Sound(h, o, sel) && r in h.regions
    ensures Sound(h, o, sel[r := None])
    ensures ChildrenOf(h, r) == [] ==> Enter(h, o, sel[r := None], r) == Step(sel[r := None], [])
    ensures ChildrenOf(h, r) != [] ==>
              SelectedOf(Enter(h, o, sel[r := None], r).sel, r) == Some(ChildrenOf(h, r)[0])
  {
  }
}
