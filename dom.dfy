/**
 * The part of the live DOM that navigation reads: each element's ordered
 * children, its parent element, and its siblings (the neighbours in the
 * parent's child sequence).  Which elements carry the selectable behaviour
 * is recorded here too, because it is a property of the element itself.
 */
module Dom {
  import opened Options

  /** An element, identified by a number. */
  type Node = nat

  datatype Hierarchy = Hierarchy(
    children: map<Node, seq<Node>>,  // `element.children`, in document order
    parent: map<Node, Node>,         // `element.parentElement`; absent means null
    regions: set<Node>)              // elements that carry the selectable behaviour

  /** `element.children`: an element with no entry has no children. */
  function ChildrenOf(h: Hierarchy, n: Node): seq<Node>
  {
    if n in h.children then h.children[n] else []
  }

  /** `element.parentElement`. */
  function ParentOf(h: Hierarchy, n: Node): Option<Node>
  {
    if n in h.parent then Some(h.parent[n]) else None
  }

  /**
   * The children and parent maps describe one containment relation, and no
   * element occurs twice among its parent's children.
   */
  ghost predicate WellFormed(h: Hierarchy)
  {
    (forall p, c :: p in h.children && c in h.children[p] ==> c in h.parent && h.parent[c] == p)
    && (forall c :: c in h.parent ==> c in ChildrenOf(h, h.parent[c]))
    && (forall p, i, j :: p in h.children && 0 <= i < j < |h.children[p]| ==>
          h.children[p][i] != h.children[p][j])
  }

  /**
   * A witness that the containment relation is acyclic: every parent ranks
   * strictly above its children, and every rank is below `top`.
   */
  datatype Ranking = Ranking(rank: map<Node, nat>, top: nat)

  ghost predicate Ranked(h: Hierarchy, o: Ranking)
  {
    (forall c :: c in h.parent ==>
       c in o.rank && h.parent[c] in o.rank && o.rank[c] < o.rank[h.parent[c]])
    && h.regions <= o.rank.Keys
    && (forall n :: n in o.rank ==> o.rank[n] < o.top)
  }

  lemma ChildRanksBelow(h: Hierarchy, o: Ranking, p: Node, c: Node)
    requires WellFormed(h) && Ranked(h, o)
    requires c in ChildrenOf(h, p)
    ensures c in h.parent && h.parent[c] == p
    ensures c in o.rank && p in o.rank && o.rank[c] < o.rank[p]
  {
  }

  /** The position of the first occurrence of `x` in `s`. */
  function IndexOf(s: seq<Node>, x: Node): (i: nat)
    requires x in s
    ensures i < |s| && s[i] == x
    ensures forall j :: 0 <= j < i ==> s[j] != x
  {
    if s[0] == x then 0 else 1 + IndexOf(s[1..], x)
  }

  /** `element.previousElementSibling`. */
  function PreviousSibling(h: Hierarchy, e: Node): (s: Option<Node>)
    ensures s.Some? ==> e in h.parent && s.value in ChildrenOf(h, h.parent[e]) && s.value != e
  {
    if e in h.parent && e in ChildrenOf(h, h.parent[e]) then
      var siblings := ChildrenOf(h, h.parent[e]);
      var i := IndexOf(siblings, e);
      if i > 0 then Some(siblings[i - 1]) else None
    else
      None
  }

  /**
   * `element.nextElementSibling`.  It differs from `e` whenever the parent
   * lists no child twice.
   */
  function NextSibling(h: Hierarchy, e: Node): (s: Option<Node>)
    ensures s.Some? ==> e in h.parent && s.value in ChildrenOf(h, h.parent[e])
    ensures WellFormed(h) && s.Some? ==> s.value != e
  {
    if e in h.parent && e in ChildrenOf(h, h.parent[e]) then
      var siblings := ChildrenOf(h, h.parent[e]);
      var i := IndexOf(siblings, e);
      if i + 1 < |siblings| then Some(siblings[i + 1]) else None
    else
      None
  }

  /** In a well-formed hierarchy the sibling pointers are the neighbouring positions. */
  lemma SiblingsAt(h: Hierarchy, p: Node, i: nat)
    requires WellFormed(h)
    requires i < |ChildrenOf(h, p)|
    ensures PreviousSibling(h, ChildrenOf(h, p)[i]) ==
              if i > 0 then Some(ChildrenOf(h, p)[i - 1]) else None
    ensures NextSibling(h, ChildrenOf(h, p)[i]) ==
              if i + 1 < |ChildrenOf(h, p)| then Some(ChildrenOf(h, p)[i + 1]) else None
  {
    var s := ChildrenOf(h, p);
    var e := s[i];
    assert e in h.children[p];
    assert IndexOf(s, e) == i;
  }

  /** `n` is `a` or lies inside `a`, following parent pointers up from `n`. */
  ghost predicate Below(h: Hierarchy, o: Ranking, n: Node, a: Node)
    requires Ranked(h, o)
    decreases if n in o.rank then o.top - o.rank[n] else 0
  {
    n == a || (n in h.parent && Below(h, o, h.parent[n], a))
  }

  lemma {:induction false} BelowThrough(h: Hierarchy, o: Ranking, n: Node, e: Node, a: Node)
    requires Ranked(h, o)
    requires e in h.parent && h.parent[e] == a
    requires Below(h, o, n, e)
    ensures Below(h, o, n, a)
    decreases if n in o.rank then o.top - o.rank[n] else 0
  {
    if n != e {
      BelowThrough(h, o, h.parent[n], e, a);
    }
  }

  /** Everything inside a child of `a` is inside `a`. */
  lemma BelowChild(h: Hierarchy, o: Ranking, e: Node, a: Node)
    requires WellFormed(h) && Ranked(h, o)
    requires e in ChildrenOf(h, a)
    ensures forall n :: Below(h, o, n, e) ==> Below(h, o, n, a)
  {
    forall n | Below(h, o, n, e) ensures Below(h, o, n, a) {
      BelowThrough(h, o, n, e, a);
    }
  }

  /** Only `a` itself and elements ranked below it lie inside `a`. */
  lemma {:induction false} BelowRanks(h: Hierarchy, o: Ranking, n: Node, a: Node)
    requires Ranked(h, o)
    requires Below(h, o, n, a)
    ensures n == a || (n in o.rank && a in o.rank && o.rank[n] < o.rank[a])
    decreases if n in o.rank then o.top - o.rank[n] else 0
  {
    if n != a {
      BelowRanks(h, o, h.parent[n], a);
    }
  }

  /** An element ranked above `a` never lies inside `a`. */
  lemma NotBelowLower(h: Hierarchy, o: Ranking, n: Node, a: Node)
    requires Ranked(h, o)
    requires n in o.rank && a in o.rank && o.rank[a] < o.rank[n]
    ensures !Below(h, o, n, a)
  {
    if Below(h, o, n, a) {
      BelowRanks(h, o, n, a);
    }
  }
}
