/** Bounds, conservation and completeness of the page-tree walk, on every object graph. */
module PageTreeProperties {
  import opened Basics
  import opened PageTreeWalk

  // ---- What every step keeps -----------------------------------------------

  /** The bound a skip stands for, if any. */
  function BoundOf(skip: Skip): Option<Truncation> {
    match skip.reason
    case Cycle(_) => Some(AtCycle(skip.kid.objectNumber))
    case MaxDepthExceeded(_, _) => Some(AtMaxDepth)
    case MaxVisitedNodesExceeded(_) => Some(AtMaxVisitedNodes)
    case _ => None
  }

  function FirstBound(skipped: seq<Skip>): Option<Truncation> {
    if skipped == [] then None
    else
      var before := FirstBound(skipped[..|skipped| - 1]);
      if before.Some? then before else BoundOf(skipped[|skipped| - 1])
  }

  ghost predicate EachOnce(expanded: seq<Expansion>, visited: set<nat>) {
    (forall i | 0 <= i < |expanded| :: expanded[i].reference.objectNumber in visited
      && 0 < expanded[i].depth <= MAX_PAGE_TREE_DEPTH)
    && forall i, j | 0 <= i < j < |expanded| :: expanded[i].reference.objectNumber != expanded[j].reference.objectNumber
  }

  ghost predicate Sound(w: Walk) {
    w.count == |w.visited| <= MAX_VISITED_PAGE_TREE_NODES
    && w.truncated == FirstBound(w.skipped)
    && EachOnce(w.expanded, w.visited)
    && forall i | 0 <= i < |w.pages| :: w.pages[i].ordinal == i
  }

  /** How much a walk has grown. */
  ghost predicate Extends(w: Walk, after: Walk) {
    w.pages <= after.pages && w.skipped <= after.skipped && w.visited <= after.visited && w.expanded <= after.expanded
    && forall i | |w.expanded| <= i < |after.expanded| :: after.expanded[i].reference.objectNumber !in w.visited
  }

  lemma AddSkipKeeps(w: Walk, kid: IndirectRef, parentOffset: nat, reason: SkipReason)
    requires Sound(w) && BoundOf(Skip(kid, parentOffset, reason)).None?
    ensures Sound(w.AddSkip(kid, parentOffset, reason)) && Extends(w, w.AddSkip(kid, parentOffset, reason))
  {
    assert (w.skipped + [Skip(kid, parentOffset, reason)])[..|w.skipped|] == w.skipped;
  }

  lemma StopDescentKeeps(w: Walk, kid: IndirectRef, parentOffset: nat, truncation: Truncation, reason: SkipReason)
    requires Sound(w) && BoundOf(Skip(kid, parentOffset, reason)) == Some(truncation)
    ensures Sound(w.StopDescent(kid, parentOffset, truncation, reason))
      && Extends(w, w.StopDescent(kid, parentOffset, truncation, reason))
  {
    assert (w.skipped + [Skip(kid, parentOffset, reason)])[..|w.skipped|] == w.skipped;
  }

  lemma ExpandKeeps(w: Walk, expansion: Expansion)
    requires Sound(w) && expansion.reference.objectNumber !in w.visited && 0 < expansion.depth <= MAX_PAGE_TREE_DEPTH
    requires w.count < MAX_VISITED_PAGE_TREE_NODES
    ensures Sound(w.Visit(expansion.reference.objectNumber))
    ensures var after := w.Visit(expansion.reference.objectNumber).Expand(expansion); Sound(after) && Extends(w, after)
  {
  }

  lemma ExtendsThrough(a: Walk, b: Walk, c: Walk)
    requires Extends(a, b) && Extends(b, c)
    ensures Extends(a, c)
  {
    forall i | |a.expanded| <= i < |c.expanded| ensures c.expanded[i].reference.objectNumber !in a.visited {
      if i < |b.expanded| {
        assert c.expanded[i] == b.expanded[i];
      }
    }
  }

  lemma {:induction false} KidsKeepSound(g: Graph, w: Walk, kids: seq<Kid>, parentOffset: nat,
                                         context: ResourceContext, depth: nat)
    requires depth <= MAX_PAGE_TREE_DEPTH && Sound(w)
    ensures Sound(ProcessKids(g, w, kids, parentOffset, context, depth))
    ensures Extends(w, ProcessKids(g, w, kids, parentOffset, context, depth))
    decreases MAX_PAGE_TREE_DEPTH - depth, |kids|, 2
  {
    hide Sound, Extends, ProcessKid;
    if kids == [] {
      ExtendsItself(w);
    } else {
      KidKeepsSound(g, w, kids[0], parentOffset, context, depth);
      var next := ProcessKid(g, w, kids[0], parentOffset, context, depth);
      KidsKeepSound(g, next, kids[1..], parentOffset, context, depth);
      ExtendsThrough(w, next, ProcessKids(g, w, kids, parentOffset, context, depth));
    }
  }

  lemma ExtendsItself(w: Walk)
    ensures Extends(w, w)
  {
  }

  lemma AddPageKeeps(w: Walk, reference: IndirectRef, offset: nat, context: ResourceContext)
    requires Sound(w)
    ensures Sound(w.AddPage(reference, offset, context)) && Extends(w, w.AddPage(reference, offset, context))
  {
  }

  lemma {:induction false} KidKeepsSound(g: Graph, w: Walk, kid: Kid, parentOffset: nat, context: ResourceContext,
                                         depth: nat)
    requires depth <= MAX_PAGE_TREE_DEPTH && Sound(w)
    ensures Sound(ProcessKid(g, w, kid, parentOffset, context, depth))
    ensures Extends(w, ProcessKid(g, w, kid, parentOffset, context, depth))
    decreases MAX_PAGE_TREE_DEPTH - depth, 0, 1
  {
    hide Sound, Extends, ProcessKids;
    match kid.target {
      case PageTarget(offset) => AddPageKeeps(w, kid.reference, offset, PageContext(g, offset, context));
      case OtherTarget(offset) => AddSkipKeeps(w, kid.reference, parentOffset, OtherNodeType(offset));
      case Unresolved => AddSkipKeeps(w, kid.reference, parentOffset, UnresolvedTarget);
      case PagesTarget(offset) =>
        var number := kid.reference.objectNumber;
        if number in w.visited {
          StopDescentKeeps(w, kid.reference, parentOffset, AtCycle(number), Cycle(offset));
        } else if depth + 1 > MAX_PAGE_TREE_DEPTH {
          StopDescentKeeps(w, kid.reference, parentOffset, AtMaxDepth, MaxDepthExceeded(offset, depth + 1));
        } else if w.count >= MAX_VISITED_PAGE_TREE_NODES {
          StopDescentKeeps(w, kid.reference, parentOffset, AtMaxVisitedNodes, MaxVisitedNodesExceeded(offset));
        } else {
          match g.expand(offset) {
            case None =>
              ExpandKeeps(w, Expansion(kid.reference, Node(number, 0, Absent, []), depth + 1));
              AddSkipKeeps(w.Visit(number), kid.reference, parentOffset, NodeExpansionFailed);
              VisitExtends(w, number);
              ExtendsThrough(w, w.Visit(number),
                             w.Visit(number).AddSkip(kid.reference, parentOffset, NodeExpansionFailed));
            case Some(node) =>
              var expansion := Expansion(kid.reference, node, depth + 1);
              ExpandKeeps(w, expansion);
              var inside := w.Visit(number).Expand(expansion);
              KidsKeepSound(g, inside, node.kids, node.headerOffset, Inherit(context, node.own), depth + 1);
              ExtendsThrough(w, inside,
                ProcessKids(g, inside, node.kids, node.headerOffset, Inherit(context, node.own), depth + 1));
          }
        }
    }
  }

  lemma VisitExtends(w: Walk, number: nat)
    ensures Extends(w, w.Visit(number))
  {
  }

  /**
   * On every graph the walk visits at most the bounded number of nodes and counts them exactly, goes into
   * no object twice (the root included) and never deeper than the bound, numbers pages from zero, and
   * reports the first bound that stopped it.
   */
  lemma WalkIsBounded(g: Graph, root: Node)
    ensures var w := WalkTree(g, root);
      w.count == |w.visited| <= MAX_VISITED_PAGE_TREE_NODES
      && w.truncated == FirstBound(w.skipped)
      && EachOnce(w.expanded, w.visited - {root.objectNumber})
      && forall i | 0 <= i < |w.pages| :: w.pages[i].ordinal == i
  {
    hide ProcessKids;
    KidsKeepSound(g, StartAt(root), root.kids, root.headerOffset, Inherit(NO_RESOURCES, root.own), 0);
  }

  // ---- Conservation --------------------------------------------------------

  function References(kids: seq<Kid>): multiset<IndirectRef> {
    if kids == [] then multiset{} else multiset{kids[0].reference} + References(kids[1..])
  }

  /** Where kids end up: pages, skips and expanded children. */
  function Outcomes(w: Walk): multiset<IndirectRef> {
    multiset(seq(|w.pages|, i requires 0 <= i < |w.pages| => w.pages[i].reference))
    + multiset(seq(|w.skipped|, i requires 0 <= i < |w.skipped| => w.skipped[i].kid))
    + multiset(seq(|w.expanded|, i requires 0 <= i < |w.expanded| => w.expanded[i].reference))
  }

  /** Where kids come from: the nodes expanded below the root. */
  function KidsExpanded(expanded: seq<Expansion>): multiset<IndirectRef> {
    if expanded == [] then multiset{}
    else KidsExpanded(expanded[..|expanded| - 1]) + References(expanded[|expanded| - 1].node.kids)
  }

  /** `after` accounts for exactly the given kids beyond what `w` accounts for. */
  ghost predicate Accounts(w: Walk, after: Walk, kids: multiset<IndirectRef>) {
    forall r :: Outcomes(after)[r] + KidsExpanded(w.expanded)[r]
      == Outcomes(w)[r] + KidsExpanded(after.expanded)[r] + kids[r]
  }

  lemma AccountsThrough(a: Walk, b: Walk, c: Walk, first: multiset<IndirectRef>, rest: multiset<IndirectRef>)
    requires Accounts(a, b, first) && Accounts(b, c, rest)
    ensures Accounts(a, c, first + rest)
  {
    forall r
      ensures Outcomes(c)[r] + KidsExpanded(a.expanded)[r]
        == Outcomes(a)[r] + KidsExpanded(c.expanded)[r] + (first + rest)[r]
    {
      assert Outcomes(b)[r] + KidsExpanded(a.expanded)[r] == Outcomes(a)[r] + KidsExpanded(b.expanded)[r] + first[r];
    }
  }

  lemma PageAccounted(w: Walk, reference: IndirectRef, offset: nat, context: ResourceContext)
    ensures Accounts(w, w.AddPage(reference, offset, context), multiset{reference})
  {
    var page := Page(|w.pages|, reference, offset, context);
    assert seq(|w.pages| + 1, i requires 0 <= i < |w.pages| + 1 => (w.pages + [page])[i].reference)
        == seq(|w.pages|, i requires 0 <= i < |w.pages| => w.pages[i].reference) + [reference];
  }

  lemma SkipAccounted(w: Walk, kid: IndirectRef, parentOffset: nat, reason: SkipReason)
    ensures Accounts(w, w.AddSkip(kid, parentOffset, reason), multiset{kid})
  {
    var skip := Skip(kid, parentOffset, reason);
    assert seq(|w.skipped| + 1, i requires 0 <= i < |w.skipped| + 1 => (w.skipped + [skip])[i].kid)
        == seq(|w.skipped|, i requires 0 <= i < |w.skipped| => w.skipped[i].kid) + [kid];
  }

  lemma ExpansionAccounted(w: Walk, expansion: Expansion)
    ensures Outcomes(w.Expand(expansion)) == Outcomes(w) + multiset{expansion.reference}
    ensures KidsExpanded(w.Expand(expansion).expanded) == KidsExpanded(w.expanded) + References(expansion.node.kids)
  {
    assert seq(|w.expanded| + 1, i requires 0 <= i < |w.expanded| + 1 => (w.expanded + [expansion])[i].reference)
        == seq(|w.expanded|, i requires 0 <= i < |w.expanded| => w.expanded[i].reference) + [expansion.reference];
    assert (w.expanded + [expansion])[..|w.expanded|] == w.expanded;
  }

  lemma {:induction false} KidsAccounted(g: Graph, w: Walk, kids: seq<Kid>, parentOffset: nat,
                                         context: ResourceContext, depth: nat)
    requires depth <= MAX_PAGE_TREE_DEPTH
    ensures Accounts(w, ProcessKids(g, w, kids, parentOffset, context, depth), References(kids))
    decreases MAX_PAGE_TREE_DEPTH - depth, |kids|, 2
  {
    hide Outcomes, KidsExpanded, ProcessKid;
    if kids != [] {
      var next := ProcessKid(g, w, kids[0], parentOffset, context, depth);
      KidAccounted(g, w, kids[0], parentOffset, context, depth);
      KidsAccounted(g, next, kids[1..], parentOffset, context, depth);
      AccountsThrough(w, next, ProcessKids(g, w, kids, parentOffset, context, depth), multiset{kids[0].reference},
                      References(kids[1..]));
    }
  }

  lemma {:induction false} KidAccounted(g: Graph, w: Walk, kid: Kid, parentOffset: nat, context: ResourceContext,
                                        depth: nat)
    requires depth <= MAX_PAGE_TREE_DEPTH
    ensures Accounts(w, ProcessKid(g, w, kid, parentOffset, context, depth), multiset{kid.reference})
    decreases MAX_PAGE_TREE_DEPTH - depth, 0, 1
  {
    hide ProcessKids, Outcomes, KidsExpanded, Accounts;
    match kid.target {
      case PageTarget(offset) => PageAccounted(w, kid.reference, offset, PageContext(g, offset, context));
      case OtherTarget(offset) => SkipAccounted(w, kid.reference, parentOffset, OtherNodeType(offset));
      case Unresolved => SkipAccounted(w, kid.reference, parentOffset, UnresolvedTarget);
      case PagesTarget(offset) =>
        var number := kid.reference.objectNumber;
        if number in w.visited {
          StopAccounted(w, kid.reference, parentOffset, AtCycle(number), Cycle(offset));
        } else if depth + 1 > MAX_PAGE_TREE_DEPTH {
          StopAccounted(w, kid.reference, parentOffset, AtMaxDepth, MaxDepthExceeded(offset, depth + 1));
        } else if w.count >= MAX_VISITED_PAGE_TREE_NODES {
          StopAccounted(w, kid.reference, parentOffset, AtMaxVisitedNodes, MaxVisitedNodesExceeded(offset));
        } else {
          match g.expand(offset) {
            case None =>
              SkipAccounted(w.Visit(number), kid.reference, parentOffset, NodeExpansionFailed);
              VisitAccounted(w, number, w.Visit(number).AddSkip(kid.reference, parentOffset, NodeExpansionFailed),
                             multiset{kid.reference});
            case Some(node) =>
              var expansion := Expansion(kid.reference, node, depth + 1);
              var inside := w.Visit(number).Expand(expansion);
              KidsAccounted(g, inside, node.kids, node.headerOffset, Inherit(context, node.own), depth + 1);
              ChildAccounted(w, number, expansion,
                ProcessKids(g, inside, node.kids, node.headerOffset, Inherit(context, node.own), depth + 1));
          }
        }
    }
  }

  lemma StopAccounted(w: Walk, kid: IndirectRef, parentOffset: nat, truncation: Truncation, reason: SkipReason)
    ensures Accounts(w, w.StopDescent(kid, parentOffset, truncation, reason), multiset{kid})
  {
    SkipAccounted(w, kid, parentOffset, reason);
    assert Outcomes(w.StopDescent(kid, parentOffset, truncation, reason))
      == Outcomes(w.AddSkip(kid, parentOffset, reason));
  }

  /** Marking a node visited accounts for nothing. */
  lemma VisitAccounted(w: Walk, number: nat, after: Walk, kids: multiset<IndirectRef>)
    requires Accounts(w.Visit(number), after, kids)
    ensures Accounts(w, after, kids)
  {
    assert Outcomes(w.Visit(number)) == Outcomes(w);
  }

  /** An expanded child stands for itself once its own kids are accounted for. */
  lemma ChildAccounted(w: Walk, number: nat, expansion: Expansion, after: Walk)
    requires Accounts(w.Visit(number).Expand(expansion), after, References(expansion.node.kids))
    ensures Accounts(w, after, multiset{expansion.reference})
  {
    hide Outcomes, KidsExpanded;
    var visited := w.Visit(number);
    var inside := visited.Expand(expansion);
    ExpansionAccounted(visited, expansion);
    forall r ensures Outcomes(after)[r] + KidsExpanded(visited.expanded)[r]
      == Outcomes(visited)[r] + KidsExpanded(after.expanded)[r] + multiset{expansion.reference}[r]
    {
      assert Outcomes(after)[r] + KidsExpanded(inside.expanded)[r]
        == Outcomes(inside)[r] + KidsExpanded(after.expanded)[r] + References(expansion.node.kids)[r];
    }
    VisitAccounted(w, number, after, multiset{expansion.reference});
  }

  /** Conservation: every kid of the root and of every expanded node is a page, a skip or an expanded child, once. */
  lemma EveryKidAccounted(g: Graph, root: Node)
    ensures Outcomes(WalkTree(g, root)) == References(root.kids) + KidsExpanded(WalkTree(g, root).expanded)
  {
    hide ProcessKids;
    KidsAccounted(g, StartAt(root), root.kids, root.headerOffset, Inherit(NO_RESOURCES, root.own), 0);
    var w := WalkTree(g, root);
    assert Outcomes(StartAt(root)) == multiset{} && KidsExpanded(StartAt(root).expanded) == multiset{};
    forall r ensures Outcomes(w)[r] == (References(root.kids) + KidsExpanded(w.expanded))[r] {
      assert Outcomes(w)[r] + KidsExpanded(StartAt(root).expanded)[r]
          == Outcomes(StartAt(root))[r] + KidsExpanded(w.expanded)[r] + References(root.kids)[r];
    }
  }

  // ---- Completeness --------------------------------------------------------

  /** A leaf page with the `/Resources` entries met on the way down to it, root first. */
  datatype Leaf = Leaf(reference: IndirectRef, offset: nat, trail: seq<Replacement>)

  /** Leaf pages in document order, to `levels` levels below; no bounds and no memory of visited nodes. */
  function PreOrder(g: Graph, kids: seq<Kid>, trail: seq<Replacement>, levels: nat): seq<Leaf>
    decreases levels, |kids|
  {
    if kids == [] then []
    else
      (match kids[0].target
       case PageTarget(offset) => [Leaf(kids[0].reference, offset, trail)]
       case PagesTarget(offset) =>
         if levels == 0 || g.expand(offset).None? then []
         else PreOrder(g, g.expand(offset).value.kids, trail + [g.expand(offset).value.own], levels - 1)
       case _ => [])
      + PreOrder(g, kids[1..], trail, levels)
  }

  function Folded(trail: seq<Replacement>): ResourceContext {
    if trail == [] then NO_RESOURCES else Inherit(Folded(trail[..|trail| - 1]), trail[|trail| - 1])
  }

  function PageOf(g: Graph, ordinal: nat, leaf: Leaf): Page {
    Page(ordinal, leaf.reference, leaf.offset, PageContext(g, leaf.offset, Folded(leaf.trail)))
  }

  /** The pages appended from position `from` on are these leaves. */
  ghost predicate PagesAre(g: Graph, pages: seq<Page>, from: nat, leaves: seq<Leaf>) {
    |pages| == from + |leaves| && forall i | 0 <= i < |leaves| :: pages[from + i] == PageOf(g, from + i, leaves[i])
  }

  lemma {:induction false} KidsInPreOrder(g: Graph, w: Walk, kids: seq<Kid>, parentOffset: nat,
                                          trail: seq<Replacement>, depth: nat, levels: nat)
    requires depth <= MAX_PAGE_TREE_DEPTH && levels >= MAX_PAGE_TREE_DEPTH - depth && Sound(w)
    requires ProcessKids(g, w, kids, parentOffset, Folded(trail), depth).truncated.None?
    ensures PagesAre(g, ProcessKids(g, w, kids, parentOffset, Folded(trail), depth).pages, |w.pages|,
                     PreOrder(g, kids, trail, levels))
    decreases MAX_PAGE_TREE_DEPTH - depth, |kids|, 2
  {
    hide ProcessKid, Sound, PageOf, Extends, Folded, PagesAre;
    if kids == [] {
      NoMorePages(g, w.pages);
    } else {
      var next := ProcessKid(g, w, kids[0], parentOffset, Folded(trail), depth);
      var after := ProcessKids(g, next, kids[1..], parentOffset, Folded(trail), depth);
      KidKeepsSound(g, w, kids[0], parentOffset, Folded(trail), depth);
      KidsKeepSound(g, next, kids[1..], parentOffset, Folded(trail), depth);
      StaysUntruncated(next, after);
      KidInPreOrder(g, w, kids[0], parentOffset, trail, depth, levels);
      KidsInPreOrder(g, next, kids[1..], parentOffset, trail, depth, levels);
      PrefixOfPages(next, after);
      FirstKid(g, kids, trail, levels);
      PagesAreThrough(g, next.pages, after.pages, |w.pages|, PreOrder(g, [kids[0]], trail, levels),
                      PreOrder(g, kids[1..], trail, levels));
    }
  }

  lemma NoMorePages(g: Graph, pages: seq<Page>)
    ensures PagesAre(g, pages, |pages|, [])
  {
  }

  lemma FirstKid(g: Graph, kids: seq<Kid>, trail: seq<Replacement>, levels: nat)
    requires kids != []
    ensures PreOrder(g, kids, trail, levels)
      == PreOrder(g, [kids[0]], trail, levels) + PreOrder(g, kids[1..], trail, levels)
  {
    OneKid(g, kids[0], trail, levels);
  }

  lemma PagesAreThrough(g: Graph, mid: seq<Page>, pages: seq<Page>, from: nat, first: seq<Leaf>, rest: seq<Leaf>)
    requires PagesAre(g, mid, from, first) && mid <= pages && PagesAre(g, pages, |mid|, rest)
    ensures PagesAre(g, pages, from, first + rest)
  {
    hide PageOf;
    forall i | 0 <= i < |first + rest| ensures pages[from + i] == PageOf(g, from + i, (first + rest)[i]) {
      if i < |first| {
        assert pages[from + i] == mid[from + i];
      } else {
        assert pages[|mid| + (i - |first|)] == PageOf(g, |mid| + (i - |first|), rest[i - |first|]);
      }
    }
  }

  lemma PrefixOfPages(w: Walk, after: Walk)
    requires Extends(w, after)
    ensures w.pages <= after.pages
  {
  }

  lemma StaysUntruncated(w: Walk, after: Walk)
    requires Sound(w) && Sound(after) && Extends(w, after) && after.truncated.None?
    ensures w.truncated.None?
  {
    assert after.skipped[..|w.skipped|] == w.skipped;
    FirstBoundIsFirst(after.skipped, |w.skipped|);
  }

  lemma {:induction false} FirstBoundIsFirst(skipped: seq<Skip>, n: nat)
    requires n <= |skipped|
    ensures FirstBound(skipped[..n]).Some? ==> FirstBound(skipped) == FirstBound(skipped[..n])
    decreases |skipped|
  {
    if n == |skipped| {
      assert skipped[..n] == skipped;
    } else {
      assert skipped[..|skipped| - 1][..n] == skipped[..n];
      FirstBoundIsFirst(skipped[..|skipped| - 1], n);
    }
  }

  lemma {:induction false} KidInPreOrder(g: Graph, w: Walk, kid: Kid, parentOffset: nat, trail: seq<Replacement>,
                                         depth: nat, levels: nat)
    requires depth <= MAX_PAGE_TREE_DEPTH && levels >= MAX_PAGE_TREE_DEPTH - depth && Sound(w)
    requires ProcessKid(g, w, kid, parentOffset, Folded(trail), depth).truncated.None?
    ensures PagesAre(g, ProcessKid(g, w, kid, parentOffset, Folded(trail), depth).pages, |w.pages|,
                     PreOrder(g, [kid], trail, levels))
    decreases MAX_PAGE_TREE_DEPTH - depth, 0, 1
  {
    hide ProcessKids, Sound;
    OneKid(g, kid, trail, levels);
    match kid.target {
      case PagesTarget(offset) =>
        if g.expand(offset).Some? {
          var node, number := g.expand(offset).value, kid.reference.objectNumber;
          var expansion := Expansion(kid.reference, node, depth + 1);
          assert (trail + [node.own])[..|trail|] == trail;
          ExpandKeeps(w, expansion);
          KidsInPreOrder(g, w.Visit(number).Expand(expansion), node.kids, node.headerOffset, trail + [node.own],
                         depth + 1, levels - 1);
        }
      case _ =>
    }
  }

  lemma OneKid(g: Graph, kid: Kid, trail: seq<Replacement>, levels: nat)
    ensures PreOrder(g, [kid], trail, levels) ==
      match kid.target
      case PageTarget(offset) => [Leaf(kid.reference, offset, trail)]
      case PagesTarget(offset) =>
        if levels == 0 || g.expand(offset).None? then []
        else PreOrder(g, g.expand(offset).value.kids, trail + [g.expand(offset).value.own], levels - 1)
      case _ => []
  {
    assert [kid][1..] == [];
    assert PreOrder(g, [kid][1..], trail, levels) == [];
  }

  /**
   * Completeness: when no bound stopped it, the walk reports precisely the leaf pages of the tree in
   * document order, however deep one looks, with ordinals from zero and with each page's resources
   * folded along its path from the root.
   */
  lemma UntruncatedIsComplete(g: Graph, root: Node, levels: nat)
    requires WalkTree(g, root).truncated.None? && levels >= MAX_PAGE_TREE_DEPTH
    ensures PagesAre(g, WalkTree(g, root).pages, 0, PreOrder(g, root.kids, [root.own], levels))
  {
    hide ProcessKids, PreOrder;
    assert [root.own][..0] == [] && Folded([]) == NO_RESOURCES;
    assert Folded([root.own]) == Inherit(NO_RESOURCES, root.own);
    KidsInPreOrder(g, StartAt(root), root.kids, root.headerOffset, [root.own], 0, levels);
  }

  // ---- What folding means --------------------------------------------------

  function FailuresOf(trail: seq<Replacement>): seq<ResourceSkip> {
    if trail == [] then []
    else
      var last := trail[|trail| - 1];
      FailuresOf(trail[..|trail| - 1]) + if last.Unusable? then [last.reason] else []
  }

  /** The nearest dictionary that has `/Resources` decides them; every unusable one on the way is reported. */
  lemma {:induction false} NearestResourcesWin(trail: seq<Replacement>, k: nat)
    requires forall i | k <= i < |trail| :: trail[i] == Absent
    ensures Folded(trail).skips == FailuresOf(trail)
    ensures 0 < k <= |trail| && trail[k - 1].Present? ==> Folded(trail).resources == Some(trail[k - 1].resources)
    ensures (k == 0 || (k <= |trail| && trail[k - 1].Unusable?)) ==> Folded(trail).resources == None
    decreases |trail|
  {
    if trail != [] {
      NearestResourcesWin(trail[..|trail| - 1], if k < |trail| then k else |trail| - 1);
    }
  }
}
