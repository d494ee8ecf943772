/**
 * What both versions of the linear selectable behaviour declare alike: the
 * `Direction` enum, the per-region configuration with its constructor
 * defaults, `canSelectElement`, `__getSelectedElement`, the choice of
 * sibling a directional command scans for, and the axis rule that decides
 * whether a region handles a command itself or passes it to its parent.
 */
module LinearCommon {
  import opened Options
  import opened Dom
  import opened Selectable

  datatype Direction = Horizontal | Vertical

  /** The configuration fields of one region. */
  datatype Settings = Settings(direction: Direction, canMoveBack: bool, wrapStart: bool, wrapEnd: bool)

  /** What the region constructor assigns. */
  const Defaults: Settings := Settings(Horizontal, false, false, false)

  function SettingsOf(cfg: map<Node, Settings>, r: Node): Settings
  {
    if r in cfg then cfg[r] else Defaults
  }

  /** `canSelectElement`: every element that exists is eligible. */
  function CanSelectElement(e: Option<Node>): (b: bool)
    ensures b <==> e != None
  {
    e.Some?
  }

  /**
   * The sibling scans of `__previous` and `__next` skip siblings for which
   * `canSelectElement` fails; no existing sibling fails it, so the first
   * sibling the scan reads is the one it stops at.
   */
  lemma ScanStopsAtFirstSibling(h: Hierarchy, e: Node)
    ensures !(PreviousSibling(h, e).Some? && !CanSelectElement(PreviousSibling(h, e)))
    ensures !(NextSibling(h, e).Some? && !CanSelectElement(NextSibling(h, e)))
  {
  }

  /**
   * `__getSelectedElement`: the current selection, or else the first child,
   * or else nothing.
   */
  function CurrentElement(h: Hierarchy, sel: Selection, r: Node): (c: Option<Node>)
    ensures c.None? <==> SelectedOf(sel, r).None? && ChildrenOf(h, r) == []
    ensures ChildSelection(h, sel) && c.Some? ==> c.value in ChildrenOf(h, r)
  {
    if SelectedOf(sel, r).Some? then SelectedOf(sel, r)
    else if |ChildrenOf(h, r)| > 0 then Some(ChildrenOf(h, r)[0])
    else None
  }

  /** Whether the command uses `__previous` (left, up, back) or `__next` (right, down). */
  function Backward(cmd: Command): bool
  {
    cmd == Back || cmd == Up || cmd == Left
  }

  /**
   * Whether the region itself scans its siblings for the command: the
   * direction test of `left`/`right`/`up`/`down` and the `canMoveBack` test
   * of `back`.  What it decides is stated by `OffAxisPassesOn`,
   * `OnAxisMovesLocally`, `FailedScanPassesOn`, `BackWithinRegion` and
   * `BackLeavesRegion` of both versions.
   */
  function OnAxis(cfg: map<Node, Settings>, r: Node, cmd: Command): bool
  {
    match cmd
    case Left | Right => SettingsOf(cfg, r).direction == Horizontal
    case Up | Down => SettingsOf(cfg, r).direction == Vertical
    case Back => SettingsOf(cfg, r).canMoveBack
  }

  /**
   * Whether a command the region does not satisfy locally goes to the
   * parent: always for the four directions, and for `back` only when the
   * region does not handle it itself.  Stated by the same lemmas as
   * `OnAxis`.
   */
  function Delegates(cfg: map<Node, Settings>, r: Node, cmd: Command): bool
  {
    cmd != Back || !SettingsOf(cfg, r).canMoveBack
  }

  /**
   * The sibling a scan from the current element reaches: the one before it
   * for `__previous`, the one after it for `__next`, none when there is no
   * current element or no such sibling.
   */
  function Target(h: Hierarchy, sel: Selection, r: Node, cmd: Command): (t: Option<Node>)
    ensures WellFormed(h) && ChildSelection(h, sel) && t.Some? ==> t.value in ChildrenOf(h, r)
  {
    match CurrentElement(h, sel, r)
    case None => None
    case Some(c) => if Backward(cmd) then PreviousSibling(h, c) else NextSibling(h, c)
  }

  /** Starting at position `i` of the region's children, a scan reaches the neighbouring position. */
  lemma TargetAt(h: Hierarchy, sel: Selection, r: Node, cmd: Command, i: nat)
    requires WellFormed(h)
    requires i < |ChildrenOf(h, r)| && CurrentElement(h, sel, r) == Some(ChildrenOf(h, r)[i])
    ensures Backward(cmd) ==>
              Target(h, sel, r, cmd) == (if i > 0 then Some(ChildrenOf(h, r)[i - 1]) else None)
    ensures !Backward(cmd) ==>
              Target(h, sel, r, cmd) == (if i + 1 < |ChildrenOf(h, r)| then Some(ChildrenOf(h, r)[i + 1]) else None)
  {
    SiblingsAt(h, r, i);
  }

  /** The effect of one operation: every region's new selection and the announcements it fired, in order. */
  datatype Step = Step(sel: Selection, events: seq<Node>)

  /** At most one announcement, and only of an element that is not a region and lies inside `r`. */
  ghost predicate AnnouncesLeafBelow(h: Hierarchy, o: Ranking, events: seq<Node>, r: Node)
    requires Ranked(h, o)
  {
    |events| <= 1 && forall e :: e in events ==> e !in h.regions && Below(h, o, e, r)
  }
}
