/**
 * The Selectable capability: what every region in the hierarchy exposes,
 * and the duck-typed test that tells a region from a plain element.
 *
 * A region exposes `select(element?)`, `back`, `up`, `down`, `left`, `right`
 * and `resetSelection`, none of which reports an error, and a read-only
 * `selectedElement` that is an element or null.  In this model the
 * operations are methods of the class that owns all regions' state
 * (`LinearSelectable.World`), taking the region as their first argument.
 */
module Selectable {
  import opened Options
  import opened Dom

  /** The directional commands of the capability. */
  datatype Command = Back | Up | Down | Left | Right

  /**
   * `isSelectable(object)`: the object exposes a `select` member.  This
   * holds for the elements that carry the selectable behaviour and also for
   * native elements with a `select()` method (`<input>`, `<textarea>`).  Such
   * a native element belongs in `regions` with no children: its `select()`
   * then announces nothing, which is what the current version's `Enter` does
   * on a region with no children.  A null object (an element without a
   * parent) is not selectable here.
   */
  function IsSelectable(h: Hierarchy, n: Option<Node>): (b: bool)
    ensures b <==> n.Some? && n.value in h.regions
  {
    match n
    case None => false
    case Some(e) => e in h.regions
  }

  /** `this.parentElement`, when `isSelectable(this.parentElement)` holds. */
  function SelectableParent(h: Hierarchy, r: Node): (p: Option<Node>)
    ensures p.Some? <==> r in h.parent && h.parent[r] in h.regions
    ensures p.Some? ==> p == ParentOf(h, r)
  {
    if IsSelectable(h, ParentOf(h, r)) then ParentOf(h, r) else None
  }

  /** Delegation goes strictly up the (acyclic) hierarchy. */
  lemma SelectableParentRanksAbove(h: Hierarchy, o: Ranking, r: Node)
    requires Ranked(h, o)
    requires SelectableParent(h, r).Some?
    ensures r in o.rank && SelectableParent(h, r).value in o.rank
    ensures o.rank[r] < o.rank[SelectableParent(h, r).value] < o.top
  {
  }

  /** Every region's selection reference; a region without an entry has none. */
  type Selection = map<Node, Option<Node>>

  /**
   * The `selectedElement` getter of region `r`; its contract is stated by
   * `LinearSelectable.World.SelectedElement`.
   */
  function SelectedOf(sel: Selection, r: Node): Option<Node>
  {
    if r in sel then sel[r] else None
  }

  /** The ownership rule: a region's selected element is one of its own children. */
  ghost predicate ChildSelection(h: Hierarchy, sel: Selection)
  {
    forall n :: n in sel && sel[n].Some? ==> sel[n].value in ChildrenOf(h, n)
  }
}
