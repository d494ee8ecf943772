/**
 * The current linear selectable behaviour.  A region keeps one reference to
 * a selected child; `select` enters the region, a directional command moves
 * the selection to a neighbouring sibling or is passed to the parent region,
 * and entering a child either enters it in turn (a region) or announces it
 * (any other element).
 *
 * The first half gives each operation's effect as a function of the
 * selection state; the class `World` below holds that state and performs
 * the operations in place, each method proved to have exactly that effect.
 */
module LinearSelectable {
  import opened Options
  import opened Dom
  import opened Selectable
  import opened LinearCommon

  /** The hierarchy is well formed and acyclic and every region selects only its own children. */
  ghost predicate Sound(h: Hierarchy, o: Ranking, sel: Selection)
  {
    WellFormed(h) && Ranked(h, o) && ChildSelection(h, sel)
  }

  /** `_selectInternal`: this version accepts no preferred element. */
  function SelectInternal(element: Option<Node>): (chosen: Option<Node>)
    ensures chosen == None
  {
    None
  }

  /**
   * The effect of `select` on region `r`: it keeps its selection, or else
   * selects its first child, and enters that element; a region with neither
   * stays as it is.
   */
  ghost function Enter(h: Hierarchy, o: Ranking, sel: Selection, r: Node): (s: Step)
    requires Sound(h, o, sel) && r in h.regions
    decreases o.rank[r], 1
    ensures ChildSelection(h, s.sel)
    ensures SelectedOf(s.sel, r) == CurrentElement(h, sel, r)
    ensures AnnouncesLeafBelow(h, o, s.events, r)
    ensures forall n :: !Below(h, o, n, r) ==> SelectedOf(s.sel, n) == SelectedOf(sel, n)
  {
    match CurrentElement(h, sel, r)
    case None => Step(sel, [])
    case Some(c) => Choose(h, o, sel, r, c)
  }

  /**
   * The effect of `__selectElement(e)` in region `r`: `e` becomes the
   * selection; a region `e` is then entered, any other `e` is announced.
   */
  ghost function Choose(h: Hierarchy, o: Ranking, sel: Selection, r: Node, e: Node): (s: Step)
    requires Sound(h, o, sel) && r in h.regions && e in ChildrenOf(h, r)
    decreases o.rank[r], 0
    ensures ChildSelection(h, s.sel)
    ensures SelectedOf(s.sel, r) == Some(e)
    ensures AnnouncesLeafBelow(h, o, s.events, r)
    ensures forall n :: !Below(h, o, n, r) ==> SelectedOf(s.sel, n) == SelectedOf(sel, n)
  {
    ChildRanksBelow(h, o, r, e);
    BelowChild(h, o, e, r);
    NotBelowLower(h, o, r, e);
    var next := sel[r := Some(e)];
    if e in h.regions then Enter(h, o, next, e) else Step(next, [e])
  }

  /**
   * The effect of a directional command on region `r`: an on-axis region
   * whose scan finds a sibling selects it; otherwise the command goes to a
   * selectable parent when `Delegates` allows, and is dropped when not.
   */
  ghost function Move(h: Hierarchy, cfg: map<Node, Settings>, o: Ranking, sel: Selection, r: Node, cmd: Command): (s: Step)
    requires Sound(h, o, sel) && r in h.regions
    decreases o.top - o.rank[r]
    ensures ChildSelection(h, s.sel)
    ensures |s.events| <= 1 && forall e :: e in s.events ==> e !in h.regions
  {
    var target := if OnAxis(cfg, r, cmd) then Target(h, sel, r, cmd) else None;
    if target.Some? then
      Choose(h, o, sel, r, target.value)
    else if Delegates(cfg, r, cmd) && SelectableParent(h, r).Some? then
      SelectableParentRanksAbove(h, o, r);
      Move(h, cfg, o, sel, SelectableParent(h, r).value, cmd)
    else
      Step(sel, [])
  }

  /**
   * All regions of one document with their state.  The hierarchy is fixed;
   * navigation changes only `selected` and the announcement log, and the
   * host (or a subclass) changes `settings`.
   */
  class World {
    const h: Hierarchy
    ghost const order: Ranking
    var settings: map<Node, Settings>
    var selected: Selection
    /** Every `selection-changed` event fired so far, by target element. */
    ghost var events: seq<Node>

    ghost predicate Valid()
      reads this
    {
      Sound(h, order, selected)
    }

    /** Every region is constructed with the defaults and no selection. */
    constructor (hierarchy: Hierarchy, ghost ranking: Ranking)
      requires WellFormed(hierarchy) && Ranked(hierarchy, ranking)
      ensures Valid()
      ensures h == hierarchy && order == ranking
      ensures settings == map r | r in hierarchy.regions :: Defaults
      ensures selected == map r | r in hierarchy.regions :: None
      ensures events == []
    {
      h := hierarchy;
      order := ranking;
      settings := map r | r in hierarchy.regions :: Defaults;
      selected := map r | r in hierarchy.regions :: None;
      events := [];
    }

    /** The `selectedElement` getter: none, or one of the region's children. */
    function SelectedElement(r: Node): (e: Option<Node>)
      reads this
      ensures Valid() && e.Some? ==> e.value in ChildrenOf(h, r)
    {
      SelectedOf(selected, r)
    }

    /** The host assigns a region's public configuration fields. */
    method Configure(r: Node, s: Settings)
      requires Valid() && r in h.regions
      modifies this`settings
      ensures Valid()
      ensures settings == old(settings)[r := s]
    {
      settings := settings[r := s];
    }

    method Select(r: Node, element: Option<Node>)
      requires Valid() && r in h.regions
      modifies this`selected, this`events
      decreases 0, order.rank[r], 1
      ensures Valid()
      ensures selected == Enter(h, order, old(selected), r).sel
      ensures events == old(events) + Enter(h, order, old(selected), r).events
    {
      var chosen := SelectInternal(element);
      if chosen.None? {
        chosen := CurrentElement(h, selected, r);
        if chosen.None? {
          return;
        }
      }
      var _ := SelectElement(r, chosen.value);
    }

    method Left(r: Node)
      requires Valid() && r in h.regions
      modifies this`selected, this`events
      decreases 1, order.top - order.rank[r], 0
      ensures Valid()
      ensures selected == Move(h, settings, order, old(selected), r, Command.Left).sel
      ensures events == old(events) + Move(h, settings, order, old(selected), r, Command.Left).events
    {
      var moved := false;
      if SettingsOf(settings, r).direction == Horizontal {
        moved := Previous(r);
      }
      if !moved && IsSelectable(h, ParentOf(h, r)) {
        SelectableParentRanksAbove(h, order, r);
        Left(ParentOf(h, r).value);
      }
    }

    method Right(r: Node)
      requires Valid() && r in h.regions
      modifies this`selected, this`events
      decreases 1, order.top - order.rank[r], 0
      ensures Valid()
      ensures selected == Move(h, settings, order, old(selected), r, Command.Right).sel
      ensures events == old(events) + Move(h, settings, order, old(selected), r, Command.Right).events
    {
      var moved := false;
      if SettingsOf(settings, r).direction == Horizontal {
        moved := Next(r);
      }
      if !moved && IsSelectable(h, ParentOf(h, r)) {
        SelectableParentRanksAbove(h, order, r);
        Right(ParentOf(h, r).value);
      }
    }

    method Up(r: Node)
      requires Valid() && r in h.regions
      modifies this`selected, this`events
      decreases 1, order.top - order.rank[r], 0
      ensures Valid()
      ensures selected == Move(h, settings, order, old(selected), r, Command.Up).sel
      ensures events == old(events) + Move(h, settings, order, old(selected), r, Command.Up).events
    {
      var moved := false;
      if SettingsOf(settings, r).direction == Vertical {
        moved := Previous(r);
      }
      if !moved && IsSelectable(h, ParentOf(h, r)) {
        SelectableParentRanksAbove(h, order, r);
        Up(ParentOf(h, r).value);
      }
    }

    method Down(r: Node)
      requires Valid() && r in h.regions
      modifies this`selected, this`events
      decreases 1, order.top - order.rank[r], 0
      ensures Valid()
      ensures selected == Move(h, settings, order, old(selected), r, Command.Down).sel
      ensures events == old(events) + Move(h, settings, order, old(selected), r, Command.Down).events
    {
      var moved := false;
      if SettingsOf(settings, r).direction == Vertical {
        moved := Next(r);
      }
      if !moved && IsSelectable(h, ParentOf(h, r)) {
        SelectableParentRanksAbove(h, order, r);
        Down(ParentOf(h, r).value);
      }
    }

    method Back(r: Node)
      requires Valid() && r in h.regions
      modifies this`selected, this`events
      decreases 1, order.top - order.rank[r], 0
      ensures Valid()
      ensures selected == Move(h, settings, order, old(selected), r, Command.Back).sel
      ensures events == old(events) + Move(h, settings, order, old(selected), r, Command.Back).events
    {
      if SettingsOf(settings, r).canMoveBack {
        var _ := Previous(r);
      } else if IsSelectable(h, ParentOf(h, r)) {
        SelectableParentRanksAbove(h, order, r);
        Back(ParentOf(h, r).value);
      }
    }

    /** Clears the region's selection; nothing is announced. */
    method ResetSelection(r: Node)
      requires Valid() && r in h.regions
      modifies this`selected
      ensures Valid()
      ensures selected == old(selected)[r := None]
    {
      selected := selected[r := None];
    }

    /** `__previous`: moves to the sibling before the current element, if there is one. */
    method Previous(r: Node) returns (moved: bool)
      requires Valid() && r in h.regions
      modifies this`selected, this`events
      decreases 0, order.rank[r], 2
      ensures Valid()
      ensures moved == Target(h, old(selected), r, Command.Left).Some?
      ensures moved ==>
        var s := Choose(h, order, old(selected), r, Target(h, old(selected), r, Command.Left).value);
        selected == s.sel && events == old(events) + s.events
      ensures !moved ==> selected == old(selected) && events == old(events)
    {
      var current := CurrentElement(h, selected, r);
      if current.None? {
        return false;
      }
      var previous := PreviousSibling(h, current.value);
      ScanStopsAtFirstSibling(h, current.value);
      if previous.Some? {
        moved := SelectElement(r, previous.value);
      } else {
        moved := false;
      }
    }

    /** `__next`: moves to the sibling after the current element, if there is one. */
    method Next(r: Node) returns (moved: bool)
      requires Valid() && r in h.regions
      modifies this`selected, this`events
      decreases 0, order.rank[r], 2
      ensures Valid()
      ensures moved == Target(h, old(selected), r, Command.Right).Some?
      ensures moved ==>
        var s := Choose(h, order, old(selected), r, Target(h, old(selected), r, Command.Right).value);
        selected == s.sel && events == old(events) + s.events
      ensures !moved ==> selected == old(selected) && events == old(events)
    {
      var current := CurrentElement(h, selected, r);
      if current.None? {
        return false;
      }
      var next := NextSibling(h, current.value);
      ScanStopsAtFirstSibling(h, current.value);
      if next.Some? {
        moved := SelectElement(r, next.value);
      } else {
        moved := false;
      }
    }

    /**
     * `__selectElement`: makes `element` the selection and always succeeds;
     * a region is entered with this region's previous selection as its
     * preference, any other element is announced.
     */
    method SelectElement(r: Node, element: Node) returns (moved: bool)
      requires Valid() && r in h.regions && element in ChildrenOf(h, r)
      modifies this`selected, this`events
      decreases 0, order.rank[r], 0
      ensures Valid()
      ensures moved
      ensures selected == Choose(h, order, old(selected), r, element).sel
      ensures events == old(events) + Choose(h, order, old(selected), r, element).events
    {
      var previous := SelectedOf(selected, r);
      selected := selected[r := Some(element)];
      if IsSelectable(h, Some(element)) {
        ChildRanksBelow(h, order, r, element);
        Select(element, previous);
      } else {
        events := events + [element];
      }
      moved := true;
    }
  }
}
