/**
 * The earlier linear selectable behaviour.  It differs from the current one
 * in three ways: `_selectInternal` returns the preferred element it is given,
 * so `select(p)` selects `p` whatever `p` is; `select` on a region with
 * nothing to pick evaluates `'select' in null` inside `isSelectable`, and
 * `__previous`/`__next` on a region with no current element read a sibling
 * of `null`, and both throw a `TypeError`; and entering a region may call
 * `select` on the same regions again and again.
 *
 * No invariant ties a region's selection to its own children here, so the
 * operations are stated for every selection state.  A run of nested `select`
 * calls is followed for at most `depth` levels: a run that needs more is
 * `Exhausted`, which stands for the engine's call-stack limit.
 */
module LegacyLinearSelectable {
  import opened Options
  import opened Dom
  import opened Selectable
  import opened LinearCommon

  /** The hierarchy is well formed and acyclic. */
  ghost predicate Sound(h: Hierarchy, o: Ranking)
  {
    WellFormed(h) && Ranked(h, o)
  }

  /**
   * How an operation ends: it returns normally, with the new selection state
   * and the elements it announced; or it throws a `TypeError`, leaving the
   * selection writes made before the throw and announcing nothing; or it
   * needs more than the given depth of nested `select` calls.
   */
  datatype Run = Finished(sel: Selection, events: seq<Node>) | Threw(sel: Selection) | Exhausted

  /** The announcements of a run that ended: none when it threw. */
  function Announced(s: Run): (events: seq<Node>)
    requires !s.Exhausted?
    ensures s.Threw? ==> events == []
  {
    if s.Finished? then s.events else []
  }

  /** `_selectInternal`: this version hands back the preferred element unchanged. */
  function SelectInternal(element: Option<Node>): (chosen: Option<Node>)
    ensures chosen == element
  {
    element
  }

  /**
   * What `select(pref)` passes to `__selectElement`: the preference when
   * there is one, or else what `__getSelectedElement` returns, which is
   * `null` for a region with no selection and no children.
   */
  function Pick(h: Hierarchy, sel: Selection, r: Node, pref: Option<Node>): (chosen: Option<Node>)
    ensures pref.Some? ==> chosen == pref
    ensures pref.None? ==> chosen == CurrentElement(h, sel, r)
    ensures chosen.None? <==> pref.None? && SelectedOf(sel, r).None? && ChildrenOf(h, r) == []
  {
    if SelectInternal(pref).Some? then pref else CurrentElement(h, sel, r)
  }

  /**
   * The effect of `select(pref)` on region `r`: it selects what `Pick`
   * gives.  A run that ends normally announces exactly one element, which is
   * not a region; only `r` and regions have their selection written.
   */
  ghost function Enter(h: Hierarchy, depth: nat, sel: Selection, r: Node, pref: Option<Node>): (s: Run)
    decreases depth, 1
    ensures s.Finished? ==> |s.events| == 1 && s.events[0] !in h.regions
    ensures !s.Exhausted? ==>
              forall n :: n != r && n !in h.regions ==> SelectedOf(s.sel, n) == SelectedOf(sel, n)
  {
    Choose(h, depth, sel, r, Pick(h, sel, r, pref))
  }

  /**
   * The effect of `__selectElement(e)` in region `r`: `e` (possibly `null`)
   * becomes the selection; a region `e` is then entered with `r`'s previous
   * selection as its preference, any other `e` is announced, and `null`
   * throws.
   */
  ghost function Choose(h: Hierarchy, depth: nat, sel: Selection, r: Node, e: Option<Node>): (s: Run)
    decreases depth, 0
    ensures s.Finished? ==> |s.events| == 1 && s.events[0] !in h.regions
    ensures !s.Exhausted? ==>
              forall n :: n != r && n !in h.regions ==> SelectedOf(s.sel, n) == SelectedOf(sel, n)
    ensures e.None? ==> s == Threw(sel[r := None])
    ensures e.Some? && e.value !in h.regions ==> s == Finished(sel[r := e], [e.value])
  {
    var next := sel[r := e];
    match e
    case None => Threw(next)
    case Some(x) =>
      if x !in h.regions then Finished(next, [x])
      else if depth == 0 then Exhausted
      else Enter(h, depth - 1, next, x, SelectedOf(sel, r))
  }

  /**
   * The effect of a directional command on region `r`.  An on-axis region
   * reads the sibling of its current element, and throws when it has none;
   * when there is such a sibling it selects it.  Otherwise the command goes
   * to a selectable parent when `Delegates` allows, and is dropped when not.
   */
  ghost function Move(h: Hierarchy, cfg: map<Node, Settings>, o: Ranking, depth: nat, sel: Selection, r: Node, cmd: Command): (s: Run)
    requires Sound(h, o) && r in h.regions
    decreases o.top - o.rank[r]
    ensures s.Finished? ==> |s.events| <= 1 && forall e :: e in s.events ==> e !in h.regions
  {
    var current := CurrentElement(h, sel, r);
    if OnAxis(cfg, r, cmd) && current.None? then
      Threw(sel)
    else
      var target := if OnAxis(cfg, r, cmd) then Target(h, sel, r, cmd) else None;
      if target.Some? then
        Choose(h, depth, sel, r, target)
      else if Delegates(cfg, r, cmd) && SelectableParent(h, r).Some? then
        SelectableParentRanksAbove(h, o, r);
        Move(h, cfg, o, depth, sel, SelectableParent(h, r).value, cmd)
      else
        Finished(sel, [])
  }

  /**
   * All regions of one document with their state, as in the current
   * version, plus the public `selectedElement` field, which this version
   * declares and never assigns.
   */
  class World {
    const h: Hierarchy
    ghost const order: Ranking
    var settings: map<Node, Settings>
    var selected: Selection
    var selectedElement: Selection
    /** Every `selection-changed` event fired so far, by target element. */
    ghost var events: seq<Node>

    ghost predicate Valid()
      reads this
    {
      Sound(h, order) && selectedElement == map[]
    }

    /** Every region is constructed with the defaults; nothing is selected. */
    constructor (hierarchy: Hierarchy, ghost ranking: Ranking)
      requires Sound(hierarchy, ranking)
      ensures Valid()
      ensures h == hierarchy && order == ranking
      ensures settings == map r | r in hierarchy.regions :: Defaults
      ensures selected == map[] && selectedElement == map[]
      ensures events == []
    {
      h := hierarchy;
      order := ranking;
      settings := map r | r in hierarchy.regions :: Defaults;
      selected := map[];
      selectedElement := map[];
      events := [];
    }

    /** Reading the public `selectedElement` field: it is never set. */
    function SelectedElement(r: Node): (e: Option<Node>)
      reads this
      requires Valid()
      ensures e == None
    {
      SelectedOf(selectedElement, r)
    }

    /** The host assigns a region's public configuration fields. */
    method Configure(r: Node, s: Settings)
      requires Valid() && r in h.regions
      modifies this`settings
      ensures Valid()
      ensures settings == old(settings)[r := s]
    {
      settings := settings[r := s];
    }

    /** `select(element)`; `threw` reports the `TypeError`. */
    method Select(r: Node, element: Option<Node>, ghost depth: nat) returns (threw: bool)
      requires Valid() && r in h.regions
      requires !Enter(h, depth, selected, r, element).Exhausted?
      modifies this`selected, this`events
      decreases 0, depth, 1
      ensures Valid()
      ensures threw == Enter(h, depth, old(selected), r, element).Threw?
      ensures selected == Enter(h, depth, old(selected), r, element).sel
      ensures events == old(events) + Announced(Enter(h, depth, old(selected), r, element))
    {
      var chosen := SelectInternal(element);
      if chosen.None? {
        chosen := CurrentElement(h, selected, r);
      }
      var _, t := SelectElement(r, chosen, depth);
      threw := t;
    }

    method Left(r: Node, ghost depth: nat) returns (threw: bool)
      requires Valid() && r in h.regions
      requires !Move(h, settings, order, depth, selected, r, Command.Left).Exhausted?
      modifies this`selected, this`events
      decreases 1, order.top - order.rank[r], 0
      ensures Valid()
      ensures threw == Move(h, settings, order, depth, old(selected), r, Command.Left).Threw?
      ensures selected == Move(h, settings, order, depth, old(selected), r, Command.Left).sel
      ensures events == old(events) + Announced(Move(h, settings, order, depth, old(selected), r, Command.Left))
    {
      var moved := false;
      threw := false;
      if SettingsOf(settings, r).direction == Horizontal {
        moved, threw := Previous(r, depth);
        if threw {
          return;
        }
      }
      if !moved && IsSelectable(h, ParentOf(h, r)) {
        SelectableParentRanksAbove(h, order, r);
        threw := Left(ParentOf(h, r).value, depth);
      }
    }

    method Right(r: Node, ghost depth: nat) returns (threw: bool)
      requires Valid() && r in h.regions
      requires !Move(h, settings, order, depth, selected, r, Command.Right).Exhausted?
      modifies this`selected, this`events
      decreases 1, order.top - order.rank[r], 0
      ensures Valid()
      ensures threw == Move(h, settings, order, depth, old(selected), r, Command.Right).Threw?
      ensures selected == Move(h, settings, order, depth, old(selected), r, Command.Right).sel
      ensures events == old(events) + Announced(Move(h, settings, order, depth, old(selected), r, Command.Right))
    {
      var moved := false;
      threw := false;
      if SettingsOf(settings, r).direction == Horizontal {
        moved, threw := Next(r, depth);
        if threw {
          return;
        }
      }
      if !moved && IsSelectable(h, ParentOf(h, r)) {
        SelectableParentRanksAbove(h, order, r);
        threw := Right(ParentOf(h, r).value, depth);
      }
    }

    method Up(r: Node, ghost depth: nat) returns (threw: bool)
      requires Valid() && r in h.regions
      requires !Move(h, settings, order, depth, selected, r, Command.Up).Exhausted?
      modifies this`selected, this`events
      decreases 1, order.top - order.rank[r], 0
      ensures Valid()
      ensures threw == Move(h, settings, order, depth, old(selected), r, Command.Up).Threw?
      ensures selected == Move(h, settings, order, depth, old(selected), r, Command.Up).sel
      ensures events == old(events) + Announced(Move(h, settings, order, depth, old(selected), r, Command.Up))
    {
      var moved := false;
      threw := false;
      if SettingsOf(settings, r).direction == Vertical {
        moved, threw := Previous(r, depth);
        if threw {
          return;
        }
      }
      if !moved && IsSelectable(h, ParentOf(h, r)) {
        SelectableParentRanksAbove(h, order, r);
        threw := Up(ParentOf(h, r).value, depth);
      }
    }

    method Down(r: Node, ghost depth: nat) returns (threw: bool)
      requires Valid() && r in h.regions
      requires !Move(h, settings, order, depth, selected, r, Command.Down).Exhausted?
      modifies this`selected, this`events
      decreases 1, order.top - order.rank[r], 0
      ensures Valid()
      ensures threw == Move(h, settings, order, depth, old(selected), r, Command.Down).Threw?
      ensures selected == Move(h, settings, order, depth, old(selected), r, Command.Down).sel
      ensures events == old(events) + Announced(Move(h, settings, order, depth, old(selected), r, Command.Down))
    {
      var moved := false;
      threw := false;
      if SettingsOf(settings, r).direction == Vertical {
        moved, threw := Next(r, depth);
        if threw {
          return;
        }
      }
      if !moved && IsSelectable(h, ParentOf(h, r)) {
        SelectableParentRanksAbove(h, order, r);
        threw := Down(ParentOf(h, r).value, depth);
      }
    }

    method Back(r: Node, ghost depth: nat) returns (threw: bool)
      requires Valid() && r in h.regions
      requires !Move(h, settings, order, depth, selected, r, Command.Back).Exhausted?
      modifies this`selected, this`events
      decreases 1, order.top - order.rank[r], 0
      ensures Valid()
      ensures threw == Move(h, settings, order, depth, old(selected), r, Command.Back).Threw?
      ensures selected == Move(h, settings, order, depth, old(selected), r, Command.Back).sel
      ensures events == old(events) + Announced(Move(h, settings, order, depth, old(selected), r, Command.Back))
    {
      threw := false;
      if SettingsOf(settings, r).canMoveBack {
        var _, t := Previous(r, depth);
        threw := t;
      } else if IsSelectable(h, ParentOf(h, r)) {
        SelectableParentRanksAbove(h, order, r);
        threw := Back(ParentOf(h, r).value, depth);
      }
    }

    /** Clears the region's selection; nothing is announced. */
    method ResetSelection(r: Node)
      requires Valid() && r in h.regions
      modifies this`selected
      ensures Valid()
      ensures selected == old(selected)[r := None]
    {
      selected := selected[r := None];
    }

    /**
     * `__previous`: reads the sibling before the current element, throwing
     * when there is no current element, and selects that sibling if there is
     * one.
     */
    method Previous(r: Node, ghost depth: nat) returns (moved: bool, threw: bool)
      requires Valid() && r in h.regions
      requires CurrentElement(h, selected, r).Some? && PreviousSibling(h, CurrentElement(h, selected, r).value).Some? ==>
                 !Choose(h, depth, selected, r, PreviousSibling(h, CurrentElement(h, selected, r).value)).Exhausted?
      modifies this`selected, this`events
      decreases 0, depth, 2
      ensures Valid()
      ensures CurrentElement(h, old(selected), r).None? ==>
                threw && !moved && selected == old(selected) && events == old(events)
      ensures CurrentElement(h, old(selected), r).Some? ==>
                var target := PreviousSibling(h, CurrentElement(h, old(selected), r).value);
                moved == target.Some? &&
                (moved ==> var s := Choose(h, depth, old(selected), r, target);
                           threw == s.Threw? && selected == s.sel && events == old(events) + Announced(s)) &&
                (!moved ==> !threw && selected == old(selected) && events == old(events))
    {
      var current := CurrentElement(h, selected, r);
      if current.None? {
        return false, true;
      }
      var previous := PreviousSibling(h, current.value);
      ScanStopsAtFirstSibling(h, current.value);
      if previous.Some? {
        moved, threw := SelectElement(r, previous, depth);
      } else {
        moved, threw := false, false;
      }
    }

    /**
     * `__next`: reads the sibling after the current element, throwing when
     * there is no current element, and selects that sibling if there is one.
     */
    method Next(r: Node, ghost depth: nat) returns (moved: bool, threw: bool)
      requires Valid() && r in h.regions
      requires CurrentElement(h, selected, r).Some? && NextSibling(h, CurrentElement(h, selected, r).value).Some? ==>
                 !Choose(h, depth, selected, r, NextSibling(h, CurrentElement(h, selected, r).value)).Exhausted?
      modifies this`selected, this`events
      decreases 0, depth, 2
      ensures Valid()
      ensures CurrentElement(h, old(selected), r).None? ==>
                threw && !moved && selected == old(selected) && events == old(events)
      ensures CurrentElement(h, old(selected), r).Some? ==>
                var target := NextSibling(h, CurrentElement(h, old(selected), r).value);
                moved == target.Some? &&
                (moved ==> var s := Choose(h, depth, old(selected), r, target);
                           threw == s.Threw? && selected == s.sel && events == old(events) + Announced(s)) &&
                (!moved ==> !threw && selected == old(selected) && events == old(events))
    {
      var current := CurrentElement(h, selected, r);
      if current.None? {
        return false, true;
      }
      var next := NextSibling(h, current.value);
      ScanStopsAtFirstSibling(h, current.value);
      if next.Some? {
        moved, threw := SelectElement(r, next, depth);
      } else {
        moved, threw := false, false;
      }
    }

    /**
     * `__selectElement(element)`: makes `element` the selection; a region is
     * entered with this region's previous selection as its preference, any
     * other element is announced, and `null` throws when the version tests
     * whether it is selectable.
     */
    method SelectElement(r: Node, element: Option<Node>, ghost depth: nat) returns (moved: bool, threw: bool)
      requires Valid()
      requires !Choose(h, depth, selected, r, element).Exhausted?
      modifies this`selected, this`events
      decreases 0, depth, 0
      ensures Valid()
      ensures threw == Choose(h, depth, old(selected), r, element).Threw?
      ensures moved == element.Some?
      ensures selected == Choose(h, depth, old(selected), r, element).sel
      ensures events == old(events) + Announced(Choose(h, depth, old(selected), r, element))
    {
      var previous := SelectedOf(selected, r);
      selected := selected[r := element];
      if element.None? {
        return false, true;
      }
      if IsSelectable(h, element) {
        threw := Select(element.value, previous, depth - 1);
      } else {
        events := events + [element.value];
        threw := false;
      }
      moved := true;
    }
  }
}
