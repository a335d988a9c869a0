/** The bounded page-tree walk with resource inheritance (default_color_spaces.rs). */
module PageTreeWalk {
  import opened Basics

  const MAX_PAGE_TREE_DEPTH: nat := 64
  const MAX_VISITED_PAGE_TREE_NODES: nat := 65_536

  datatype IndirectRef = IndirectRef(objectNumber: nat, generation: nat)

  // ---- Resource inheritance ------------------------------------------------

  datatype ResourceSkip = ResourcesFailed(code: nat) | PageDictionaryFailed

  /** What a dictionary's own `/Resources` does to the inherited ones. */
  datatype Replacement = Absent | Present(resources: Bytes) | Unusable(reason: ResourceSkip)

  datatype ResourceContext = ResourceContext(resources: Option<Bytes>, skips: seq<ResourceSkip>)

  const NO_RESOURCES := ResourceContext(None, [])

  function Inherit(inherited: ResourceContext, own: Replacement): ResourceContext {
    match own
    case Absent => inherited
    case Present(resources) => inherited.(resources := Some(resources))
    case Unusable(reason) => ResourceContext(None, inherited.skips + [reason])
  }

  // ---- The object graph ----------------------------------------------------

  datatype Target = PageTarget(offset: nat) | PagesTarget(offset: nat) | OtherTarget(offset: nat) | Unresolved

  datatype Kid = Kid(reference: IndirectRef, target: Target)

  /** An expanded `/Pages` node. */
  datatype Node = Node(objectNumber: nat, headerOffset: nat, own: Replacement, kids: seq<Kid>)

  /** `expand` and `ownOf` are absent where the node or the page dictionary cannot be read. */
  datatype Graph = Graph(expand: nat -> Option<Node>, ownOf: nat -> Option<Replacement>)

  function PageContext(g: Graph, offset: nat, inherited: ResourceContext): ResourceContext {
    match g.ownOf(offset)
    case Some(own) => Inherit(inherited, own)
    case None => inherited.(skips := inherited.skips + [PageDictionaryFailed])
  }

  // ---- Reports -------------------------------------------------------------

  datatype Page = Page(ordinal: nat, reference: IndirectRef, offset: nat, context: ResourceContext)

  datatype Truncation = AtCycle(objectNumber: nat) | AtMaxDepth | AtMaxVisitedNodes

  datatype SkipReason =
    | OtherNodeType(offset: nat)
    | UnresolvedTarget
    | NodeExpansionFailed
    | Cycle(offset: nat)
    | MaxDepthExceeded(offset: nat, attempted: nat)
    | MaxVisitedNodesExceeded(offset: nat)

  datatype Skip = Skip(kid: IndirectRef, parentOffset: nat, reason: SkipReason)

  /** A child node the walk went into. */
  datatype Expansion = Expansion(reference: IndirectRef, node: Node, depth: nat)

  /** State of the walk; `expanded` records its history. */
  datatype Walk = Walk(
    pages: seq<Page>, skipped: seq<Skip>, visited: set<nat>, count: nat, truncated: Option<Truncation>,
    expanded: seq<Expansion>)
  {
    function AddPage(reference: IndirectRef, offset: nat, context: ResourceContext): Walk {
      this.(pages := pages + [Page(|pages|, reference, offset, context)])
    }

    function AddSkip(kid: IndirectRef, parentOffset: nat, reason: SkipReason): Walk {
      this.(skipped := skipped + [Skip(kid, parentOffset, reason)])
    }

    /** The first bound to stop a descent is the one reported. */
    function StopDescent(kid: IndirectRef, parentOffset: nat, truncation: Truncation, reason: SkipReason): Walk {
      this.(truncated := if truncated.None? then Some(truncation) else truncated).AddSkip(kid, parentOffset, reason)
    }

    function Visit(number: nat): Walk {
      this.(visited := visited + {number}, count := count + 1)
    }

    function Expand(expansion: Expansion): Walk {
      this.(expanded := expanded + [expansion])
    }
  }

  // ---- The walk as a function ----------------------------------------------

  function ProcessKids(g: Graph, w: Walk, kids: seq<Kid>, parentOffset: nat, context: ResourceContext, depth: nat): Walk
    requires depth <= MAX_PAGE_TREE_DEPTH
    decreases MAX_PAGE_TREE_DEPTH - depth, |kids|, 2
  {
    if kids == [] then w
    else ProcessKids(g, ProcessKid(g, w, kids[0], parentOffset, context, depth), kids[1..], parentOffset, context,
                     depth)
  }

  function ProcessKid(g: Graph, w: Walk, kid: Kid, parentOffset: nat, context: ResourceContext, depth: nat): Walk
    requires depth <= MAX_PAGE_TREE_DEPTH
    decreases MAX_PAGE_TREE_DEPTH - depth, 0, 1
  {
    match kid.target
    case PageTarget(offset) => w.AddPage(kid.reference, offset, PageContext(g, offset, context))
    case PagesTarget(offset) => DescendIntoChild(g, w, kid.reference, offset, parentOffset, context, depth)
    case OtherTarget(offset) => w.AddSkip(kid.reference, parentOffset, OtherNodeType(offset))
    case Unresolved => w.AddSkip(kid.reference, parentOffset, UnresolvedTarget)
  }

  /** Cycle, depth and node bounds, in that order, before anything is expanded. */
  function DescendIntoChild(g: Graph, w: Walk, kid: IndirectRef, offset: nat, parentOffset: nat,
                            inherited: ResourceContext, depth: nat): Walk
    requires depth <= MAX_PAGE_TREE_DEPTH
    decreases MAX_PAGE_TREE_DEPTH - depth, 0, 0
  {
    if kid.objectNumber in w.visited then
      w.StopDescent(kid, parentOffset, AtCycle(kid.objectNumber), Cycle(offset))
    else if depth + 1 > MAX_PAGE_TREE_DEPTH then
      w.StopDescent(kid, parentOffset, AtMaxDepth, MaxDepthExceeded(offset, depth + 1))
    else if w.count >= MAX_VISITED_PAGE_TREE_NODES then
      w.StopDescent(kid, parentOffset, AtMaxVisitedNodes, MaxVisitedNodesExceeded(offset))
    else match g.expand(offset)
      case None => w.Visit(kid.objectNumber).AddSkip(kid, parentOffset, NodeExpansionFailed)
      case Some(node) =>
        ProcessKids(g, w.Visit(kid.objectNumber).Expand(Expansion(kid, node, depth + 1)),
                    node.kids, node.headerOffset, Inherit(inherited, node.own), depth + 1)
  }

  function StartAt(root: Node): Walk {
    Walk([], [], {root.objectNumber}, 1, None, [])
  }

  function WalkTree(g: Graph, root: Node): Walk {
    ProcessKids(g, StartAt(root), root.kids, root.headerOffset, Inherit(NO_RESOURCES, root.own), 0)
  }

  // ---- The walk as it runs -------------------------------------------------

  class DefaultColorSpaceWalk {
    var pages: seq<Page>
    var skipped: seq<Skip>
    var visited: set<nat>
    var visitedNodeCount: nat
    var truncated: Option<Truncation>
    ghost var expanded: seq<Expansion>

    constructor ()
      ensures State() == Walk([], [], {}, 0, None, [])
    {
      pages, skipped, visited, visitedNodeCount, truncated, expanded := [], [], {}, 0, None, [];
    }

    ghost function State(): Walk
      reads this
    {
      Walk(pages, skipped, visited, visitedNodeCount, truncated, expanded)
    }

    method ProcessNode(g: Graph, node: Node, context: ResourceContext, depth: nat)
      requires depth <= MAX_PAGE_TREE_DEPTH
      modifies this
      ensures State() == ProcessKids(g, old(State()), node.kids, node.headerOffset, context, depth)
      decreases MAX_PAGE_TREE_DEPTH - depth, 1
    {
      assert node.kids[0..] == node.kids;
      for i := 0 to |node.kids|
        invariant ProcessKids(g, State(), node.kids[i..], node.headerOffset, context, depth)
               == ProcessKids(g, old(State()), node.kids, node.headerOffset, context, depth)
      {
        var kid := node.kids[i];
        ghost var before := State();
        assert node.kids[i..][0] == kid && node.kids[i..][1..] == node.kids[i + 1..];
        match kid.target {
          case PageTarget(offset) =>
            InspectPage(g, kid.reference, offset, context);
          case PagesTarget(offset) =>
            DescendInto(g, kid.reference, offset, node.headerOffset, context, depth);
          case OtherTarget(offset) =>
            PushPageTreeSkip(kid.reference, node.headerOffset, OtherNodeType(offset));
          case Unresolved =>
            PushPageTreeSkip(kid.reference, node.headerOffset, UnresolvedTarget);
        }
        assert State() == ProcessKid(g, before, kid, node.headerOffset, context, depth);
      }
    }

    method InspectPage(g: Graph, reference: IndirectRef, offset: nat, inherited: ResourceContext)
      modifies this
      ensures State() == old(State()).AddPage(reference, offset, PageContext(g, offset, inherited))
    {
      var context;
      match g.ownOf(offset) {
        case Some(own) => context := Inherit(inherited, own);
        case None => context := ResourceContext(inherited.resources, inherited.skips + [PageDictionaryFailed]);
      }
      pages := pages + [Page(|pages|, reference, offset, context)];
    }

    method DescendInto(g: Graph, kid: IndirectRef, offset: nat, parentOffset: nat, inherited: ResourceContext,
                       depth: nat)
      requires depth <= MAX_PAGE_TREE_DEPTH
      modifies this
      ensures State() == DescendIntoChild(g, old(State()), kid, offset, parentOffset, inherited, depth)
      decreases MAX_PAGE_TREE_DEPTH - depth, 0
    {
      if kid.objectNumber in visited {
        StopDescent(kid, parentOffset, AtCycle(kid.objectNumber), Cycle(offset));
        return;
      }
      var childDepth := depth + 1;
      if childDepth > MAX_PAGE_TREE_DEPTH {
        StopDescent(kid, parentOffset, AtMaxDepth, MaxDepthExceeded(offset, childDepth));
        return;
      }
      if visitedNodeCount >= MAX_VISITED_PAGE_TREE_NODES {
        StopDescent(kid, parentOffset, AtMaxVisitedNodes, MaxVisitedNodesExceeded(offset));
        return;
      }
      visited := visited + {kid.objectNumber};
      visitedNodeCount := visitedNodeCount + 1;
      match g.expand(offset) {
        case Some(node) =>
          expanded := expanded + [Expansion(kid, node, childDepth)];
          ProcessNode(g, node, Inherit(inherited, node.own), childDepth);
        case None =>
          PushPageTreeSkip(kid, parentOffset, NodeExpansionFailed);
      }
    }

    method StopDescent(kid: IndirectRef, parentOffset: nat, truncation: Truncation, reason: SkipReason)
      modifies this
      ensures State() == old(State()).StopDescent(kid, parentOffset, truncation, reason)
    {
      if truncated.None? {
        truncated := Some(truncation);
      }
      PushPageTreeSkip(kid, parentOffset, reason);
    }

    method PushPageTreeSkip(kid: IndirectRef, parentOffset: nat, reason: SkipReason)
      modifies this`skipped
      ensures State() == old(State()).AddSkip(kid, parentOffset, reason)
    {
      skipped := skipped + [Skip(kid, parentOffset, reason)];
    }
  }

  /** Fails only when the root cannot be expanded. */
  method InspectDocument(g: Graph, rootOffset: nat) returns (walk: Option<DefaultColorSpaceWalk>)
    ensures match g.expand(rootOffset)
            case None => walk.None?
            case Some(root) => walk.Some? && fresh(walk.value) && walk.value.State() == WalkTree(g, root)
  {
    match g.expand(rootOffset) {
      case None =>
        return None;
      case Some(root) =>
        var w := new DefaultColorSpaceWalk();
        w.visited := {root.objectNumber};
        w.visitedNodeCount := 1;
        w.ProcessNode(g, root, Inherit(NO_RESOURCES, root.own), 0);
        return Some(w);
    }
  }
}
