/**
 * The shared data model: a document outline is a forest of `HierarchyNode`s,
 * an `ExtractionResult` bundles the outline with its title and summary
 * statistics, and `ProcessingStatus` is what the client shows while it works.
 */
module Hierarchy {
  import opened Wrappers

  /** The six kinds of structural unit a node can be. */
  datatype NodeType = Heading | Subheading | Paragraph | List | Table | Section

  /** Optional per-node annotations; `confidence` is a JSON number in [0, 1] by convention. */
  datatype NodeMetadata = NodeMetadata(pageNumber: Option<int>, confidence: Option<real>, style: Option<string>)

  /**
   * One structural unit with its ordered children. `level` is a nesting hint
   * from the producer and is not tied to the node's actual depth.
   */
  datatype HierarchyNode = HierarchyNode(
    id: string,
    level: int,
    nodeType: NodeType,
    text: string,
    children: seq<HierarchyNode>,
    metadata: Option<NodeMetadata>)

  /** The summary counts a producer reports next to its outline. */
  datatype Statistics = Statistics(totalNodes: int, headings: int, paragraphs: int, maxDepth: int)

  datatype ExtractionResult = ExtractionResult(
    title: string,
    hierarchy: seq<HierarchyNode>,
    statistics: Statistics,
    parseWarning: Option<string>)

  /** The six stages of one processing attempt. */
  datatype Stage = Idle | Uploading | Extracting | Analyzing | Complete | Error

  datatype ProcessingStatus = ProcessingStatus(stage: Stage, progress: int, message: string)

  /** The number of nodes in a forest, counting every node at every depth. */
  function Size(forest: seq<HierarchyNode>): nat {
    if forest == [] then 0 else 1 + Size(forest[0].children) + Size(forest[1..])
  }

  /** The number of nodes on the longest root-to-leaf path of a forest (0 for an empty one). */
  function Depth(forest: seq<HierarchyNode>): nat {
    if forest == [] then 0
    else
      var here := 1 + Depth(forest[0].children);
      var rest := Depth(forest[1..]);
      if here < rest then rest else here
  }

  /** The number of nodes of kind `t` in a forest. */
  function CountOf(forest: seq<HierarchyNode>, t: NodeType): nat {
    if forest == [] then 0
    else (if forest[0].nodeType == t then 1 else 0) + CountOf(forest[0].children, t) + CountOf(forest[1..], t)
  }

  /** A forest is never deeper than it has nodes, and a non-empty one is at least one level deep. */
  lemma {:induction false} DepthAtMostSize(forest: seq<HierarchyNode>)
    ensures Depth(forest) <= Size(forest)
    ensures forest != [] ==> 1 <= Depth(forest)
  {
    if forest != [] {
      DepthAtMostSize(forest[0].children);
      DepthAtMostSize(forest[1..]);
    }
  }

  /** Nodes of one kind are a part of all nodes. */
  lemma {:induction false} CountOfAtMostSize(forest: seq<HierarchyNode>, t: NodeType)
    ensures CountOf(forest, t) <= Size(forest)
  {
    if forest != [] {
      CountOfAtMostSize(forest[0].children, t);
      CountOfAtMostSize(forest[1..], t);
    }
  }

  /** Statistics that describe the forest they come with. */
  predicate Describes(s: Statistics, forest: seq<HierarchyNode>) {
    && s.totalNodes == Size(forest)
    && s.maxDepth == Depth(forest)
    && s.paragraphs == CountOf(forest, Paragraph)
  }

  /** What consistent statistics promise a reader: the depth and paragraph count are bounded by the node count. */
  lemma ConsistentStatisticsBounded(s: Statistics, forest: seq<HierarchyNode>)
    requires Describes(s, forest)
    ensures 0 <= s.maxDepth <= s.totalNodes
    ensures 0 <= s.paragraphs <= s.totalNodes
  {
    DepthAtMostSize(forest);
    CountOfAtMostSize(forest, Paragraph);
  }
}
