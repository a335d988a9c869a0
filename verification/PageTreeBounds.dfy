/** When the page-tree walk stops short, and when it does not: on the graph itself. */
module PageTreeBounds {
  import opened Basics
  import opened PageTreeWalk
  import opened PageTreeProperties

  // ---- Every stop is a real one --------------------------------------------

  /** A skip for a bound names a bound that was met. */
  ghost predicate Justified(w: Walk, skip: Skip) {
    match skip.reason
    case Cycle(_) => skip.kid.objectNumber in w.visited
    case MaxDepthExceeded(_, attempted) => attempted == 65
    case MaxVisitedNodesExceeded(_) => w.count == |w.visited| == 65_536
    case _ => true
  }

  ghost predicate AllJustified(w: Walk) {
    forall i | 0 <= i < |w.skipped| :: Justified(w, w.skipped[i])
  }

  lemma SkipJustified(w: Walk, kid: IndirectRef, parentOffset: nat, reason: SkipReason)
    requires AllJustified(w) && Justified(w, Skip(kid, parentOffset, reason))
    ensures AllJustified(w.AddSkip(kid, parentOffset, reason))
    ensures forall truncation :: AllJustified(w.StopDescent(kid, parentOffset, truncation, reason))
  {
    var after := w.AddSkip(kid, parentOffset, reason);
    forall i, truncation | 0 <= i < |after.skipped|
      ensures Justified(after, after.skipped[i])
      ensures Justified(w.StopDescent(kid, parentOffset, truncation, reason), after.skipped[i])
    {
      assert i < |w.skipped| ==> Justified(w, w.skipped[i]) && after.skipped[i] == w.skipped[i];
    }
  }

  lemma {:induction false} KidsJustified(g: Graph, w: Walk, kids: seq<Kid>, parentOffset: nat,
                                         context: ResourceContext, depth: nat)
    requires depth <= MAX_PAGE_TREE_DEPTH && Sound(w) && AllJustified(w)
    ensures AllJustified(ProcessKids(g, w, kids, parentOffset, context, depth))
    decreases MAX_PAGE_TREE_DEPTH - depth, |kids|, 2
  {
    hide Sound, AllJustified, ProcessKid;
    if kids != [] {
      KidKeepsSound(g, w, kids[0], parentOffset, context, depth);
      KidJustified(g, w, kids[0], parentOffset, context, depth);
      KidsJustified(g, ProcessKid(g, w, kids[0], parentOffset, context, depth), kids[1..], parentOffset, context,
                    depth);
    }
  }

  lemma {:induction false} KidJustified(g: Graph, w: Walk, kid: Kid, parentOffset: nat, context: ResourceContext,
                                        depth: nat)
    requires depth <= MAX_PAGE_TREE_DEPTH && Sound(w) && AllJustified(w)
    ensures AllJustified(ProcessKid(g, w, kid, parentOffset, context, depth))
    decreases MAX_PAGE_TREE_DEPTH - depth, 0, 1
  {
    hide ProcessKids, AllJustified;
    match kid.target {
      case PageTarget(offset) => AddPageJustified(w, kid.reference, offset, PageContext(g, offset, context));
      case OtherTarget(offset) => SkipJustified(w, kid.reference, parentOffset, OtherNodeType(offset));
      case Unresolved => SkipJustified(w, kid.reference, parentOffset, UnresolvedTarget);
      case PagesTarget(offset) =>
        var number := kid.reference.objectNumber;
        if number in w.visited {
          SkipJustified(w, kid.reference, parentOffset, Cycle(offset));
        } else if depth + 1 > MAX_PAGE_TREE_DEPTH {
          SkipJustified(w, kid.reference, parentOffset, MaxDepthExceeded(offset, depth + 1));
        } else if w.count >= MAX_VISITED_PAGE_TREE_NODES {
          SkipJustified(w, kid.reference, parentOffset, MaxVisitedNodesExceeded(offset));
        } else {
          match g.expand(offset) {
            case None =>
              var expansion := Expansion(kid.reference, Node(number, 0, Absent, []), depth + 1);
              ExpandJustified(w, expansion);
              SkipJustified(w.Visit(number), kid.reference, parentOffset, NodeExpansionFailed);
            case Some(node) =>
              var expansion := Expansion(kid.reference, node, depth + 1);
              ExpandKeeps(w, expansion);
              ExpandJustified(w, expansion);
              KidsJustified(g, w.Visit(number).Expand(expansion), node.kids, node.headerOffset,
                            Inherit(context, node.own), depth + 1);
          }
        }
    }
  }

  lemma AddPageJustified(w: Walk, reference: IndirectRef, offset: nat, context: ResourceContext)
    requires AllJustified(w)
    ensures AllJustified(w.AddPage(reference, offset, context))
  {
    forall i | 0 <= i < |w.skipped| ensures Justified(w.AddPage(reference, offset, context), w.skipped[i]) {
      assert Justified(w, w.skipped[i]);
    }
  }

  lemma ExpandJustified(w: Walk, expansion: Expansion)
    requires Sound(w) && AllJustified(w) && expansion.reference.objectNumber !in w.visited
    requires w.count < MAX_VISITED_PAGE_TREE_NODES && 0 < expansion.depth <= MAX_PAGE_TREE_DEPTH
    ensures AllJustified(w.Visit(expansion.reference.objectNumber))
    ensures AllJustified(w.Visit(expansion.reference.objectNumber).Expand(expansion))
  {
    var visited := w.Visit(expansion.reference.objectNumber);
    forall i | 0 <= i < |w.skipped|
      ensures Justified(visited, w.skipped[i]) && Justified(visited.Expand(expansion), w.skipped[i])
    {
      assert Justified(w, w.skipped[i]);
    }
  }

  /**
   * On every graph: a node-bound skip is reported only by a walk that visited exactly 65536 nodes, a depth skip
   * only for a kid at level 65, and a cycle skip only for an object the walk visited.
   */
  lemma StopsAreReal(g: Graph, root: Node)
    ensures AllJustified(WalkTree(g, root))
  {
    hide ProcessKids;
    KidsJustified(g, StartAt(root), root.kids, root.headerOffset, Inherit(NO_RESOURCES, root.own), 0);
  }

  // ---- Completeness from the graph alone -----------------------------------

  /** Object numbers of the `/Pages` nodes below, in document order, to `levels` levels. */
  function NodesBelow(g: Graph, kids: seq<Kid>, levels: nat): seq<nat>
    decreases levels, |kids|
  {
    if kids == [] then [] else NodesAt(g, kids[0], levels) + NodesBelow(g, kids[1..], levels)
  }

  function NodesAt(g: Graph, kid: Kid, levels: nat): seq<nat>
    decreases levels, 0
  {
    if !kid.target.PagesTarget? || levels == 0 then []
    else
      [kid.reference.objectNumber]
      + match g.expand(kid.target.offset)
        case None => []
        case Some(node) => NodesBelow(g, node.kids, levels - 1)
  }

  /** No `/Pages` node lies more than `levels` levels below. */
  predicate Within(g: Graph, kids: seq<Kid>, levels: nat)
    decreases levels, |kids|
  {
    kids == [] || (KidWithin(g, kids[0], levels) && Within(g, kids[1..], levels))
  }

  predicate KidWithin(g: Graph, kid: Kid, levels: nat)
    decreases levels, 0
  {
    kid.target.PagesTarget? ==>
      levels > 0
      && match g.expand(kid.target.offset)
         case None => true
         case Some(node) => Within(g, node.kids, levels - 1)
  }

  predicate NoRepeats(numbers: seq<nat>) {
    forall i, j | 0 <= i < j < |numbers| :: numbers[i] != numbers[j]
  }

  /** A tree the walk covers: at most 64 levels of `/Pages` nodes, no object number twice, at most 65536 nodes. */
  predicate Coverable(g: Graph, root: Node) {
    var numbers := [root.objectNumber] + NodesBelow(g, root.kids, 64);
    Within(g, root.kids, 64) && NoRepeats(numbers) && |numbers| <= 65_536
  }

  /** These nodes can be visited next: no number twice, none visited yet, and room for all of them. */
  predicate Fresh(w: Walk, numbers: seq<nat>) {
    NoRepeats(numbers) && (forall i | 0 <= i < |numbers| :: numbers[i] !in w.visited)
    && w.count + |numbers| <= MAX_VISITED_PAGE_TREE_NODES
  }

  /** The walk went on with these nodes and nothing else. */
  ghost predicate Visits(w: Walk, after: Walk, numbers: seq<nat>) {
    after.truncated.None? && after.count == w.count + |numbers| && after.visited == w.visited + set n | n in numbers
  }

  lemma FreshConcat(w: Walk, after: Walk, a: seq<nat>, b: seq<nat>)
    requires Visits(w, after, a) && Fresh(w, a)
    ensures Fresh(w, a + b) <==> Fresh(after, b)
    ensures forall last | Visits(after, last, b) :: Visits(w, last, a + b)
  {
    var both := a + b;
    assert forall i | 0 <= i < |a| :: both[i] == a[i];
    assert forall i | 0 <= i < |b| :: both[|a| + i] == b[i];
    assert forall i | 0 <= i < |a| :: a[i] in after.visited;
    if Fresh(w, both) {
      forall i | 0 <= i < |b| ensures b[i] !in after.visited {
        assert both[|a| + i] !in w.visited;
        forall j | 0 <= j < |a| ensures a[j] != b[i] {
          assert both[j] != both[|a| + i];
        }
      }
      forall i, j | 0 <= i < j < |b| ensures b[i] != b[j] {
        assert both[|a| + i] != both[|a| + j];
      }
    }
    if Fresh(after, b) {
      forall i, j | 0 <= i < j < |both| ensures both[i] != both[j] {
        if i >= |a| {
          assert both[i] == b[i - |a|] && both[j] == b[j - |a|];
        } else if j >= |a| {
          assert both[i] == a[i] && both[j] == b[j - |a|];
        }
      }
      forall i | 0 <= i < |both| ensures both[i] !in w.visited {
        assert i >= |a| ==> both[i] == b[i - |a|];
      }
    }
    assert (set n | n in both) == (set n | n in a) + set n | n in b;
  }

  lemma FreshParts(w: Walk, a: seq<nat>, b: seq<nat>)
    requires Fresh(w, a + b)
    ensures Fresh(w, a)
  {
    var both := a + b;
    assert forall i | 0 <= i < |a| :: both[i] == a[i];
  }

  lemma {:induction false} KidsCovered(g: Graph, w: Walk, kids: seq<Kid>, parentOffset: nat,
                                       context: ResourceContext, depth: nat)
    requires depth <= MAX_PAGE_TREE_DEPTH && Sound(w) && w.truncated.None?
    ensures var after, numbers :=
      ProcessKids(g, w, kids, parentOffset, context, depth), NodesBelow(g, kids, 64 - depth);
      if Within(g, kids, 64 - depth) && Fresh(w, numbers) then Visits(w, after, numbers)
      else after.truncated.Some?
    decreases MAX_PAGE_TREE_DEPTH - depth, |kids|, 2
  {
    hide ProcessKid, Sound, Fresh, Visits, NodesAt, KidWithin, Extends;
    if kids == [] {
      NothingToVisit(w);
    } else {
      var next := ProcessKid(g, w, kids[0], parentOffset, context, depth);
      var after := ProcessKids(g, next, kids[1..], parentOffset, context, depth);
      var first, rest := NodesAt(g, kids[0], 64 - depth), NodesBelow(g, kids[1..], 64 - depth);
      KidKeepsSound(g, w, kids[0], parentOffset, context, depth);
      KidsKeepSound(g, next, kids[1..], parentOffset, context, depth);
      KidCovered(g, w, kids[0], parentOffset, context, depth);
      if next.truncated.None? {
        KidsCovered(g, next, kids[1..], parentOffset, context, depth);
        FreshConcat(w, next, first, rest);
      } else {
        assert after.truncated.Some? by {
          StaysTruncated(next, after);
        }
        assert NodesBelow(g, kids, 64 - depth) == first + rest;
        if Fresh(w, first + rest) {
          FreshParts(w, first, rest);
          assert !KidWithin(g, kids[0], 64 - depth);
          assert !Within(g, kids, 64 - depth);
        }
      }
    }
  }

  lemma StaysTruncated(w: Walk, after: Walk)
    requires Sound(w) && Sound(after) && Extends(w, after) && w.truncated.Some?
    ensures after.truncated.Some?
  {
    if after.truncated.None? {
      StaysUntruncated(w, after);
    }
  }

  lemma NothingToVisit(w: Walk)
    requires Sound(w) && w.truncated.None?
    ensures Fresh(w, []) && Visits(w, w, [])
    ensures forall reference, offset, context :: Visits(w, w.AddPage(reference, offset, context), [])
    ensures forall kid, parentOffset, reason :: Visits(w, w.AddSkip(kid, parentOffset, reason), [])
  {
  }

  lemma {:induction false} KidCovered(g: Graph, w: Walk, kid: Kid, parentOffset: nat, context: ResourceContext,
                                      depth: nat)
    requires depth <= MAX_PAGE_TREE_DEPTH && Sound(w) && w.truncated.None?
    ensures var after, numbers := ProcessKid(g, w, kid, parentOffset, context, depth), NodesAt(g, kid, 64 - depth);
      if KidWithin(g, kid, 64 - depth) && Fresh(w, numbers) then after.truncated.None? && Visits(w, after, numbers)
      else after.truncated.Some?
    decreases MAX_PAGE_TREE_DEPTH - depth, 0, 1
  {
    hide ProcessKids, Sound, NodesBelow, Within, Fresh;
    NothingToVisit(w);
    match kid.target {
      case PagesTarget(offset) =>
        var number := kid.reference.objectNumber;
        if number in w.visited || depth + 1 > MAX_PAGE_TREE_DEPTH || w.count >= MAX_VISITED_PAGE_TREE_NODES {
          StoppedAtOnce(g, w, kid, depth);
        } else {
          OneVisited(w, number);
          match g.expand(offset) {
            case None =>
              assert NodesAt(g, kid, 64 - depth) == [number] && KidWithin(g, kid, 64 - depth);
            case Some(node) =>
              var expansion := Expansion(kid.reference, node, depth + 1);
              var inside := w.Visit(number).Expand(expansion);
              ExpandKeeps(w, expansion);
              KidsCovered(g, inside, node.kids, node.headerOffset, Inherit(context, node.own), depth + 1);
              FreshConcat(w, inside, [number], NodesBelow(g, node.kids, 64 - depth - 1));
          }
        }
      case _ =>
    }
  }

  lemma StoppedAtOnce(g: Graph, w: Walk, kid: Kid, depth: nat)
    requires depth <= MAX_PAGE_TREE_DEPTH && kid.target.PagesTarget?
    requires kid.reference.objectNumber in w.visited || depth + 1 > MAX_PAGE_TREE_DEPTH
      || w.count >= MAX_VISITED_PAGE_TREE_NODES
    ensures !(KidWithin(g, kid, 64 - depth) && Fresh(w, NodesAt(g, kid, 64 - depth)))
  {
    hide NodesBelow, Within;
    var numbers := NodesAt(g, kid, 64 - depth);
    if KidWithin(g, kid, 64 - depth) {
      assert numbers[0] == kid.reference.objectNumber;
    }
  }

  lemma OneVisited(w: Walk, number: nat)
    requires Sound(w) && w.truncated.None? && number !in w.visited && w.count < MAX_VISITED_PAGE_TREE_NODES
    ensures Fresh(w, [number]) && Visits(w, w.Visit(number), [number])
    ensures forall expansion :: Visits(w, w.Visit(number).Expand(expansion), [number])
    ensures forall kid, parentOffset, reason :: Visits(w, w.Visit(number).AddSkip(kid, parentOffset, reason), [number])
  {
  }

  /**
   * When the walk is not stopped, exactly, on every graph: the tree below the root has at most 64 levels of
   * `/Pages` nodes, at most 65536 of them with the root, and no object number twice. It then visits them all.
   */
  lemma UntruncatedExactly(g: Graph, root: Node)
    ensures WalkTree(g, root).truncated.None? <==> Coverable(g, root)
    ensures Coverable(g, root) ==>
      WalkTree(g, root).visited == {root.objectNumber} + set n | n in NodesBelow(g, root.kids, 64)
  {
    hide ProcessKids, NodesBelow, Within;
    var numbers := NodesBelow(g, root.kids, 64);
    KidsCovered(g, StartAt(root), root.kids, root.headerOffset, Inherit(NO_RESOURCES, root.own), 0);
    var all := [root.objectNumber] + numbers;
    assert forall i | 0 <= i < |numbers| :: all[i + 1] == numbers[i];
    if NoRepeats(all) {
      forall i, j | 0 <= i < j < |numbers| ensures numbers[i] != numbers[j] {
        assert all[i + 1] != all[j + 1];
      }
      forall i | 0 <= i < |numbers| ensures numbers[i] != root.objectNumber {
        assert all[0] != all[i + 1];
      }
    }
  }

  /** A tree the walk covers is reported whole: its leaf pages in document order, with their resources. */
  lemma CoverableIsComplete(g: Graph, root: Node)
    requires Coverable(g, root)
    ensures PagesAre(g, WalkTree(g, root).pages, 0, PreOrder(g, root.kids, [root.own], 64))
    ensures WalkTree(g, root).truncated.None?
  {
    hide WalkTree, PreOrder;
    UntruncatedExactly(g, root);
    UntruncatedIsComplete(g, root, 64);
  }

  // ---- What is skipped, and with which resources a page is shown -----------

  /** What a tree no bound stops makes the walk skip, in document order: only what cannot be gone into. */
  function SkipsBelow(g: Graph, kids: seq<Kid>, parentOffset: nat, levels: nat): seq<Skip>
    decreases levels, |kids|
  {
    if kids == [] then []
    else SkipsAt(g, kids[0], parentOffset, levels) + SkipsBelow(g, kids[1..], parentOffset, levels)
  }

  function SkipsAt(g: Graph, kid: Kid, parentOffset: nat, levels: nat): seq<Skip>
    decreases levels, 0
  {
    match kid.target
    case PageTarget(_) => []
    case OtherTarget(offset) => [Skip(kid.reference, parentOffset, OtherNodeType(offset))]
    case Unresolved => [Skip(kid.reference, parentOffset, UnresolvedTarget)]
    case PagesTarget(offset) =>
      if levels == 0 then []
      else match g.expand(offset)
        case None => [Skip(kid.reference, parentOffset, NodeExpansionFailed)]
        case Some(node) => SkipsBelow(g, node.kids, node.headerOffset, levels - 1)
  }

  lemma {:induction false} KidsSkipped(g: Graph, w: Walk, kids: seq<Kid>, parentOffset: nat,
                                       context: ResourceContext, depth: nat)
    requires depth <= MAX_PAGE_TREE_DEPTH && Sound(w)
    requires ProcessKids(g, w, kids, parentOffset, context, depth).truncated.None?
    ensures ProcessKids(g, w, kids, parentOffset, context, depth).skipped
      == w.skipped + SkipsBelow(g, kids, parentOffset, 64 - depth)
    decreases MAX_PAGE_TREE_DEPTH - depth, |kids|, 2
  {
    hide ProcessKid, Sound, Extends, SkipsAt;
    if kids != [] {
      var next := ProcessKid(g, w, kids[0], parentOffset, context, depth);
      var after := ProcessKids(g, next, kids[1..], parentOffset, context, depth);
      KidKeepsSound(g, w, kids[0], parentOffset, context, depth);
      KidsKeepSound(g, next, kids[1..], parentOffset, context, depth);
      StaysUntruncated(next, after);
      KidSkipped(g, w, kids[0], parentOffset, context, depth);
      KidsSkipped(g, next, kids[1..], parentOffset, context, depth);
    }
  }

  lemma {:induction false} KidSkipped(g: Graph, w: Walk, kid: Kid, parentOffset: nat, context: ResourceContext,
                                      depth: nat)
    requires depth <= MAX_PAGE_TREE_DEPTH && Sound(w)
    requires ProcessKid(g, w, kid, parentOffset, context, depth).truncated.None?
    ensures ProcessKid(g, w, kid, parentOffset, context, depth).skipped
      == w.skipped + SkipsAt(g, kid, parentOffset, 64 - depth)
    decreases MAX_PAGE_TREE_DEPTH - depth, 0, 1
  {
    hide ProcessKids, Sound, SkipsBelow;
    match kid.target {
      case PagesTarget(offset) =>
        if g.expand(offset).Some? {
          var node, number := g.expand(offset).value, kid.reference.objectNumber;
          var expansion := Expansion(kid.reference, node, depth + 1);
          ExpandKeeps(w, expansion);
          KidsSkipped(g, w.Visit(number).Expand(expansion), node.kids, node.headerOffset, Inherit(context, node.own),
                      depth + 1);
        }
      case _ =>
    }
  }

  lemma CoverableSkips(g: Graph, root: Node)
    requires Coverable(g, root)
    ensures WalkTree(g, root).skipped == SkipsBelow(g, root.kids, root.headerOffset, 64)
  {
    hide ProcessKids, SkipsBelow, Coverable;
    UntruncatedExactly(g, root);
    KidsSkipped(g, StartAt(root), root.kids, root.headerOffset, Inherit(NO_RESOURCES, root.own), 0);
  }

  /**
   * A page's own `/Resources` count as the last step of its trail; a page dictionary that cannot be read leaves
   * the inherited resources and is reported.
   */
  lemma PageResources(g: Graph, ordinal: nat, leaf: Leaf)
    ensures var page := PageOf(g, ordinal, leaf);
      page.reference == leaf.reference && page.offset == leaf.offset && page.ordinal == ordinal
      && match g.ownOf(leaf.offset)
         case Some(own) => page.context == Folded(leaf.trail + [own])
         case None =>
           page.context.resources == Folded(leaf.trail).resources
           && page.context.skips == FailuresOf(leaf.trail) + [PageDictionaryFailed]
  {
    if g.ownOf(leaf.offset).Some? {
      assert (leaf.trail + [g.ownOf(leaf.offset).value])[..|leaf.trail|] == leaf.trail;
    }
    NearestResourcesWin(leaf.trail, |leaf.trail|);
  }
}
