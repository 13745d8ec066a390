/**
 The include-cycle detector of the layer checker: an iterative depth-first search
 with white/gray/black colouring and an explicit stack of partly read edge lists.
 */
module CheckLayers {

  // A project file, named by its path below the root.
  datatype Node = Node(path: string)

  type Graph = map<Node, seq<Node>>

  datatype Color = White | Gray | Black

  // A stack entry: the node, and how many of its edges its iterator has yielded.
  datatype Frame = Frame(node: Node, next: nat)

  // An include edge both of whose ends are project files.
  predicate Edge(graph: Graph, from: Node, to: Node) {
    from in graph && to in graph && to in graph[from]
  }

  predicate Linked(graph: Graph, path: seq<Node>, i: nat)
    requires i + 1 < |path|
  {
    Edge(graph, path[i], path[i + 1])
  }

  predicate Walk(graph: Graph, path: seq<Node>) {
    forall i :: 0 <= i < |path| - 1 ==> Linked(graph, path, i)
  }

  // A closed walk along edges; it may repeat nodes.
  predicate ClosedPath(graph: Graph, path: seq<Node>) {
    && |path| >= 2
    && path[0] == path[|path| - 1]
    && Walk(graph, path)
  }

  predicate Distinct(nodes: seq<Node>) {
    forall i, j :: 0 <= i < j < |nodes| ==> nodes[i] != nodes[j]
  }

  ghost predicate Acyclic(graph: Graph) {
    !exists path :: ClosedPath(graph, path)
  }

  // A reported list: a closed path that repeats no node but the one it returns to.
  predicate ElementaryCycle(graph: Graph, cycle: seq<Node>) {
    ClosedPath(graph, cycle) && Distinct(cycle[..|cycle| - 1])
  }

  function ClosingEdge(cycle: seq<Node>): (Node, Node)
    requires |cycle| >= 2
  {
    (cycle[|cycle| - 2], cycle[|cycle| - 1])
  }

  // The edges that close the reported cycles.
  function ClosingEdges(cycles: seq<seq<Node>>): (cut: set<(Node, Node)>)
    ensures cycles == [] ==> cut == {}
  {
    set c | 0 <= c < |cycles| && |cycles[c]| >= 2 :: ClosingEdge(cycles[c])
  }

  // Outside the cut, every edge leads downwards in rank.
  ghost predicate RankedWithout(graph: Graph, cut: set<(Node, Node)>, rank: map<Node, nat>) {
    && rank.Keys == graph.Keys
    && forall u, v :: Edge(graph, u, v) ==> (u, v) in cut || rank[v] < rank[u]
  }

  predicate LinkCut(path: seq<Node>, cut: set<(Node, Node)>, i: nat)
    requires i + 1 < |path|
  {
    (path[i], path[i + 1]) in cut
  }

  // A cut that leaves a ranking behind meets every closed path, however long.
  lemma {:induction false} EveryClosedPathIsCut(
    graph: Graph, cut: set<(Node, Node)>, rank: map<Node, nat>, path: seq<Node>)
    requires RankedWithout(graph, cut, rank)
    requires ClosedPath(graph, path)
    ensures exists i :: 0 <= i < |path| - 1 && LinkCut(path, cut, i)
  {
    if forall i :: 0 <= i < |path| - 1 ==> !LinkCut(path, cut, i) {
      RankFalls(graph, cut, rank, path, |path| - 1);
      assert false;
    }
  }

  lemma {:induction false} RankFalls(
    graph: Graph, cut: set<(Node, Node)>, rank: map<Node, nat>, path: seq<Node>, k: nat)
    requires RankedWithout(graph, cut, rank)
    requires 1 <= k < |path|
    requires Walk(graph, path)
    requires forall i :: 0 <= i < |path| - 1 ==> !LinkCut(path, cut, i)
    ensures path[0] in graph && path[k] in graph && rank[path[k]] < rank[path[0]]
  {
    assert Linked(graph, path, k - 1) && !LinkCut(path, cut, k - 1);
    if k > 1 {
      RankFalls(graph, cut, rank, path, k - 1);
    }
  }

  function IndexOf(nodes: seq<Node>, target: Node): (at: nat)
    requires target in nodes
    ensures at < |nodes| && nodes[at] == target && target !in nodes[..at]
  {
    if nodes[0] == target then 0 else 1 + IndexOf(nodes[1..], target)
  }

  function Whites(color: map<Node, Color>): (whites: set<Node>) {
    set n | n in color && color[n] == White
  }

  // The path from the start to the top of the stack: a walk along the last edges read,
  // through exactly the gray nodes, none twice.
  ghost predicate PathValid(graph: Graph, color: map<Node, Color>, path: seq<Node>) {
    && color.Keys == graph.Keys
    && Distinct(path)
    && (forall n :: n in color ==> (color[n] == Gray <==> n in path))
    && (forall k :: 0 <= k < |path| ==> path[k] in graph)
    && Walk(graph, path)
  }

  // Every edge a stack entry has read leads outside the project or to a finished node,
  // or is in the cut, or is the edge its successor on the stack was entered by.
  ghost predicate FrameValid(
    graph: Graph, color: map<Node, Color>, frame: Frame, above: seq<Node>, cut: set<(Node, Node)>)
  {
    && frame.node in graph
    && frame.next <= |graph[frame.node]|
    && forall e :: 0 <= e < frame.next ==>
         var to := graph[frame.node][e];
         to !in color || color[to] == Black || (frame.node, to) in cut || (above != [] && above[0] == to)
  }

  ghost predicate StackValid(
    graph: Graph, color: map<Node, Color>, stack: seq<Frame>, path: seq<Node>, cut: set<(Node, Node)>)
  {
    && |stack| == |path|
    && forall k :: 0 <= k < |stack| ==>
         stack[k].node == path[k] && FrameValid(graph, color, stack[k], path[k + 1..], cut)
  }

  // Finished nodes are ranked in the order they were finished.
  ghost predicate RankValid(graph: Graph, color: map<Node, Color>, cut: set<(Node, Node)>, rank: map<Node, nat>) {
    && (forall n :: n in rank <==> n in color && color[n] == Black)
    && (forall n :: n in rank ==> rank[n] < |rank|)
    && (forall u, v :: Edge(graph, u, v) && u in rank ==> (u, v) in cut || (v in rank && rank[v] < rank[u]))
  }

  ghost predicate CyclesValid(graph: Graph, cycles: seq<seq<Node>>) {
    forall c :: 0 <= c < |cycles| ==> ElementaryCycle(graph, cycles[c])
  }

  ghost predicate Valid(
    graph: Graph, color: map<Node, Color>, stack: seq<Frame>, path: seq<Node>,
    cut: set<(Node, Node)>, rank: map<Node, nat>)
  {
    && PathValid(graph, color, path)
    && StackValid(graph, color, stack, path, cut)
    && RankValid(graph, color, cut, rank)
  }

  ghost predicate KeepsBlack(before: map<Node, Color>, after: map<Node, Color>) {
    before.Keys == after.Keys && forall n :: n in before && before[n] == Black ==> after[n] == Black
  }

  function Advance(stack: seq<Frame>): seq<Frame>
    requires stack != []
  {
    stack[|stack| - 1 := stack[|stack| - 1].(next := stack[|stack| - 1].next + 1)]
  }

  function NextTarget(graph: Graph, stack: seq<Frame>): Node
    requires stack != []
    requires stack[|stack| - 1].node in graph
    requires stack[|stack| - 1].next < |graph[stack[|stack| - 1].node]|
  {
    graph[stack[|stack| - 1].node][stack[|stack| - 1].next]
  }

  // Reading an edge that leads nowhere new.
  lemma ReadEdge(
    graph: Graph, color: map<Node, Color>, stack: seq<Frame>, path: seq<Node>,
    cut: set<(Node, Node)>, rank: map<Node, nat>, target: Node)
    requires Valid(graph, color, stack, path, cut, rank)
    requires stack != [] && stack[|stack| - 1].next < |graph[path[|path| - 1]]|
    requires target == NextTarget(graph, stack)
    requires target !in color || color[target] == Black || (path[|path| - 1], target) in cut
    ensures Valid(graph, color, Advance(stack), path, cut, rank)
  {
  }

  // The list reported for a gray target: the path from the target on, and the target again.
  function CycleTo(path: seq<Node>, target: Node): (cycle: seq<Node>)
    requires target in path
    ensures |cycle| >= 2
  {
    path[IndexOf(path, target)..] + [target]
  }

  // A gray target closes an elementary cycle with the end of the path.
  lemma GrayCloses(graph: Graph, color: map<Node, Color>, path: seq<Node>, target: Node)
    requires PathValid(graph, color, path)
    requires target in path && Edge(graph, path[|path| - 1], target)
    ensures ElementaryCycle(graph, CycleTo(path, target))
    ensures ClosingEdge(CycleTo(path, target)) == (path[|path| - 1], target)
  {
    var at := IndexOf(path, target);
    var tail := path[at..];
    var cycle := tail + [target];
    assert cycle[..|tail|] == tail;
    forall i | 0 <= i < |cycle| - 1
      ensures Linked(graph, cycle, i)
    {
      assert i + 1 < |tail| ==> Linked(graph, path, at + i);
    }
  }

  lemma CutGrows(cycles: seq<seq<Node>>, cycle: seq<Node>)
    requires |cycle| >= 2
    ensures ClosingEdges(cycles + [cycle]) == ClosingEdges(cycles) + {ClosingEdge(cycle)}
  {
    var more := cycles + [cycle];
    assert more[|cycles|] == cycle;
    forall edge | edge in ClosingEdges(cycles)
      ensures edge in ClosingEdges(more)
    {
      var c :| 0 <= c < |cycles| && |cycles[c]| >= 2 && ClosingEdge(cycles[c]) == edge;
      assert more[c] == cycles[c];
    }
  }

  // Entering a white target through the edge just read.
  lemma EnterPath(graph: Graph, color: map<Node, Color>, path: seq<Node>, target: Node)
    requires PathValid(graph, color, path)
    requires target in color && color[target] == White
    requires path != [] ==> Edge(graph, path[|path| - 1], target)
    ensures PathValid(graph, color[target := Gray], path + [target])
    ensures Whites(color[target := Gray]) < Whites(color)
  {
    var color', path' := color[target := Gray], path + [target];
    assert target in Whites(color) && target !in Whites(color') && Whites(color') <= Whites(color);
    assert target !in path;
    forall i | 0 <= i < |path'| - 1
      ensures Linked(graph, path', i)
    {
      assert i + 1 < |path| ==> Linked(graph, path, i);
    }
  }

  lemma EnterStack(
    graph: Graph, color: map<Node, Color>, stack: seq<Frame>, path: seq<Node>, cut: set<(Node, Node)>, target: Node)
    requires color.Keys == graph.Keys
    requires StackValid(graph, color, stack, path, cut)
    requires stack != [] && stack[|stack| - 1].next < |graph[path[|path| - 1]]|
    requires target == NextTarget(graph, stack) && target in color && color[target] == White
    ensures StackValid(graph, color[target := Gray], Advance(stack) + [Frame(target, 0)], path + [target], cut)
  {
    var color', stack', path' := color[target := Gray], Advance(stack) + [Frame(target, 0)], path + [target];
    forall k | 0 <= k < |stack'|
      ensures stack'[k].node == path'[k] && FrameValid(graph, color', stack'[k], path'[k + 1..], cut)
    {
      if k < |path| {
        assert FrameValid(graph, color, stack[k], path[k + 1..], cut);
        assert path'[k + 1..][0] == (if k + 1 < |path| then path[k + 1..][0] else target);
      }
    }
  }

  // Leaving a node whose edges have all been read.
  lemma FinishPath(graph: Graph, color: map<Node, Color>, path: seq<Node>)
    requires PathValid(graph, color, path) && path != []
    ensures PathValid(graph, color[path[|path| - 1] := Black], path[..|path| - 1])
    ensures Whites(color[path[|path| - 1] := Black]) == Whites(color)
  {
    var top := |path| - 1;
    assert color[path[top]] == Gray && path[top] !in path[..top];
    assert path[..top] + [path[top]] == path;
    forall i | 0 <= i < top - 1
      ensures Linked(graph, path[..top], i)
    {
      assert Linked(graph, path, i);
    }
  }

  lemma FinishStack(graph: Graph, color: map<Node, Color>, stack: seq<Frame>, path: seq<Node>, cut: set<(Node, Node)>)
    requires color.Keys == graph.Keys
    requires StackValid(graph, color, stack, path, cut) && stack != []
    ensures StackValid(graph, color[path[|path| - 1] := Black], stack[..|stack| - 1], path[..|path| - 1], cut)
  {
    var top := |path| - 1;
    forall k | 0 <= k < top
      ensures FrameValid(graph, color[path[top] := Black], stack[k], path[..top][k + 1..], cut)
    {
      assert FrameValid(graph, color, stack[k], path[k + 1..], cut);
      assert path[k + 1..][0] == (if k + 1 < top then path[..top][k + 1..][0] else path[top]);
    }
  }

  lemma FinishRank(
    graph: Graph, color: map<Node, Color>, frame: Frame, cut: set<(Node, Node)>, rank: map<Node, nat>)
    requires color.Keys == graph.Keys
    requires RankValid(graph, color, cut, rank)
    requires FrameValid(graph, color, frame, [], cut) && frame.next == |graph[frame.node]|
    requires color[frame.node] == Gray
    ensures RankValid(graph, color[frame.node := Black], cut, rank[frame.node := |rank|])
  {
    assert rank[frame.node := |rank|].Keys == rank.Keys + {frame.node};
  }

  lemma Enter(
    graph: Graph, color: map<Node, Color>, stack: seq<Frame>, path: seq<Node>,
    cut: set<(Node, Node)>, rank: map<Node, nat>, target: Node)
    requires Valid(graph, color, stack, path, cut, rank)
    requires stack != [] && stack[|stack| - 1].next < |graph[path[|path| - 1]]|
    requires target == NextTarget(graph, stack) && target in color && color[target] == White
    ensures Valid(graph, color[target := Gray], Advance(stack) + [Frame(target, 0)], path + [target], cut, rank)
    ensures Whites(color[target := Gray]) < Whites(color)
  {
    EnterPath(graph, color, path, target);
    EnterStack(graph, color, stack, path, cut, target);
  }

  lemma Leave(
    graph: Graph, color: map<Node, Color>, stack: seq<Frame>, path: seq<Node>,
    cut: set<(Node, Node)>, rank: map<Node, nat>)
    requires Valid(graph, color, stack, path, cut, rank)
    requires stack != [] && stack[|stack| - 1].next == |graph[path[|path| - 1]]|
    ensures Valid(graph, color[path[|path| - 1] := Black], stack[..|stack| - 1], path[..|path| - 1], cut,
                  rank[path[|path| - 1] := |rank|])
    ensures Whites(color[path[|path| - 1] := Black]) == Whites(color)
  {
    FinishPath(graph, color, path);
    FinishStack(graph, color, stack, path, cut);
    FinishRank(graph, color, stack[|stack| - 1], cut, rank);
  }

  // One turn at the top of the stack: read edges until one leads to a white node or
  // none is left. Reports the gray targets met on the way.
  method ReadEdges(
    graph: Graph, color: map<Node, Color>, stack0: seq<Frame>, path: seq<Node>,
    cycles0: seq<seq<Node>>, ghost rank: map<Node, nat>)
    returns (stack: seq<Frame>, cycles: seq<seq<Node>>, white: bool)
    requires Valid(graph, color, stack0, path, ClosingEdges(cycles0), rank) && CyclesValid(graph, cycles0)
    requires stack0 != []
    ensures Valid(graph, color, stack, path, ClosingEdges(cycles), rank) && CyclesValid(graph, cycles)
    ensures |stack| == |stack0|
    ensures if white
            then stack[|stack| - 1].next < |graph[path[|path| - 1]]| && NextTarget(graph, stack) in color &&
                 color[NextTarget(graph, stack)] == White
            else stack[|stack| - 1].next == |graph[path[|path| - 1]]|
  {
    stack, cycles, white := stack0, cycles0, false;
    while stack[|stack| - 1].next < |graph[path[|path| - 1]]|
      invariant Valid(graph, color, stack, path, ClosingEdges(cycles), rank)
      invariant CyclesValid(graph, cycles)
      invariant |stack| == |stack0|
      decreases |graph[path[|path| - 1]]| - stack[|stack| - 1].next
    {
      var target := NextTarget(graph, stack);
      if target in graph {
        if color[target] == Gray {
          GrayCloses(graph, color, path, target);
          CutGrows(cycles, CycleTo(path, target));
          cycles := cycles + [CycleTo(path, target)];
        } else if color[target] == White {
          white := true;
          return;
        }
      }
      ReadEdge(graph, color, stack, path, ClosingEdges(cycles), rank, target);
      stack := Advance(stack);
    }
  }

  // The next step of a search: either it enters the white node it came upon, or it
  // finishes the node at the top.
  method Step(
    graph: Graph, color0: map<Node, Color>, stack0: seq<Frame>, path0: seq<Node>, white: bool,
    ghost cut: set<(Node, Node)>, ghost rank0: map<Node, nat>)
    returns (color: map<Node, Color>, stack: seq<Frame>, path: seq<Node>, ghost rank: map<Node, nat>)
    requires Valid(graph, color0, stack0, path0, cut, rank0) && stack0 != []
    requires if white
             then stack0[|stack0| - 1].next < |graph[path0[|path0| - 1]]| && NextTarget(graph, stack0) in color0 &&
                  color0[NextTarget(graph, stack0)] == White
             else stack0[|stack0| - 1].next == |graph[path0[|path0| - 1]]|
    ensures Valid(graph, color, stack, path, cut, rank) && KeepsBlack(color0, color)
    ensures Whites(color) < Whites(color0) || (Whites(color) == Whites(color0) && |stack| < |stack0|)
    ensures if stack == [] then color[path0[0]] == Black else path[0] == path0[0]
  {
    rank := rank0;
    if white {
      var target := NextTarget(graph, stack0);
      Enter(graph, color0, stack0, path0, cut, rank0, target);
      color := color0[target := Gray];
      stack, path := Advance(stack0) + [Frame(target, 0)], path0 + [target];
    } else {
      var node := path0[|path0| - 1];
      Leave(graph, color0, stack0, path0, cut, rank0);
      color, rank := color0[node := Black], rank0[node := |rank0|];
      stack, path := stack0[..|stack0| - 1], path0[..|path0| - 1];
    }
  }

  // One tree of the search: everything white that the start can reach.
  method Visit(
    graph: Graph, start: Node, color0: map<Node, Color>, cycles0: seq<seq<Node>>, ghost rank0: map<Node, nat>)
    returns (color: map<Node, Color>, cycles: seq<seq<Node>>, ghost rank: map<Node, nat>)
    requires Valid(graph, color0, [], [], ClosingEdges(cycles0), rank0) && CyclesValid(graph, cycles0)
    requires start in graph && color0[start] == White
    ensures Valid(graph, color, [], [], ClosingEdges(cycles), rank) && CyclesValid(graph, cycles)
    ensures color[start] == Black && KeepsBlack(color0, color)
  {
    color, cycles, rank := color0[start := Gray], cycles0, rank0;
    var stack, path := [Frame(start, 0)], [start];
    EnterPath(graph, color0, [], start);
    while stack != []
      invariant Valid(graph, color, stack, path, ClosingEdges(cycles), rank)
      invariant CyclesValid(graph, cycles)
      invariant if stack == [] then color[start] == Black else path[0] == start
      invariant KeepsBlack(color0, color)
      decreases Whites(color), |stack|
    {
      var white;
      stack, cycles, white := ReadEdges(graph, color, stack, path, cycles, rank);
      color, stack, path, rank := Step(graph, color, stack, path, white, ClosingEdges(cycles), rank);
    }
  }

  ghost predicate BlackAll(color: map<Node, Color>, nodes: seq<Node>) {
    forall k :: 0 <= k < |nodes| ==> nodes[k] in color && color[nodes[k]] == Black
  }

  lemma BlackMore(before: map<Node, Color>, after: map<Node, Color>, order: seq<Node>, s: nat)
    requires s < |order| && BlackAll(before, order[..s]) && KeepsBlack(before, after)
    requires order[s] in after && after[order[s]] == Black
    ensures BlackAll(after, order[..s + 1])
  {
    forall k | 0 <= k < s + 1
      ensures order[k] in after && after[order[k]] == Black
    {
      if k < s {
        assert order[..s][k] == order[k];
        assert before[order[k]] == Black;
      }
    }
  }

  // The search over every project file, in the given order. Each reported list counts
  // as one violation.
  method FindCycles(graph: Graph, order: seq<Node>)
    returns (cycles: seq<seq<Node>>, color: map<Node, Color>, ghost rank: map<Node, nat>)
    requires forall k :: 0 <= k < |order| ==> order[k] in graph
    requires forall n :: n in graph ==> n in order
    ensures CyclesValid(graph, cycles)
    ensures RankedWithout(graph, ClosingEdges(cycles), rank)
    ensures cycles == [] <==> Acyclic(graph)
    ensures color.Keys == graph.Keys && forall n :: n in color ==> color[n] == Black
  {
    color := map n | n in graph :: White;
    cycles, rank := [], map[];
    for s := 0 to |order|
      invariant Valid(graph, color, [], [], ClosingEdges(cycles), rank)
      invariant CyclesValid(graph, cycles)
      invariant BlackAll(color, order[..s])
    {
      ghost var before := color;
      if color[order[s]] == White {
        color, cycles, rank := Visit(graph, order[s], color, cycles, rank);
      }
      BlackMore(before, color, order, s);
    }
    assert order[..|order|] == order;
    SilentIffAcyclic(graph, cycles, rank);
  }

  // A search that reports nothing has seen an acyclic graph, and conversely.
  lemma SilentIffAcyclic(graph: Graph, cycles: seq<seq<Node>>, rank: map<Node, nat>)
    requires RankedWithout(graph, ClosingEdges(cycles), rank)
    requires CyclesValid(graph, cycles)
    ensures cycles == [] <==> Acyclic(graph)
  {
    if cycles != [] {
      assert ElementaryCycle(graph, cycles[0]);
    } else if path :| ClosedPath(graph, path) {
      EveryClosedPathIsCut(graph, {}, rank, path);
    }
  }
}
