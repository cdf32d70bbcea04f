/** The lineage graph: nodes inserted after their parents, and the bounded trace from a fact back to the
    observations it was derived from. */
module Lineage {
  import opened Prelude

  datatype Kind = Observation | ArchiveManifest | Fact

  datatype Node = Node(id: string, kind: Kind, parents: seq<string>)

  type Nodes = map<string, Node>

  datatype LineageError =
    | EmptyLineageId
    | DuplicateLineageNode(id: string)
    | ObservationHasParents
    | UnknownLineageNode(id: string)
    | LineageDepthExceeded
    | LineageNodeLimitExceeded
    | LineageMissingObservation

  // ---------------------------------------------------------------- insertion

  /** The characters that trimming removes. */
  predicate IsSpace(c: char) {
    var n := c as int;
    || 9 <= n <= 13 || n == 0x20 || n == 0x85 || n == 0xA0 || n == 0x1680 || 0x2000 <= n <= 0x200A
    || n == 0x2028 || n == 0x2029 || n == 0x202F || n == 0x205F || n == 0x3000
  }

  predicate Blank(s: string) {
    forall i | 0 <= i < |s| :: IsSpace(s[i])
  }

  /** The first parent that is not known. */
  function FirstUnknown(nodes: Nodes, parents: seq<string>): (u: Option<string>)
    ensures u.None? <==> forall p | p in parents :: p in nodes
    ensures u.Some? ==> u.value in parents && u.value !in nodes
  {
    if parents == [] then None
    else
      assert parents == [parents[0]] + parents[1..];
      if parents[0] !in nodes then Some(parents[0]) else FirstUnknown(nodes, parents[1..])
  }

  function InsertError(nodes: Nodes, n: Node): Option<LineageError> {
    if Blank(n.id) then Some(EmptyLineageId)
    else if n.id in nodes then Some(DuplicateLineageNode(n.id))
    else if n.kind == Observation && n.parents != [] then Some(ObservationHasParents)
    else
      match FirstUnknown(nodes, n.parents)
      case Some(p) => Some(UnknownLineageNode(p))
      case None => None
  }

  function Insert(nodes: Nodes, n: Node): (Nodes, Result<(), LineageError>) {
    match InsertError(nodes, n)
    case Some(e) => (nodes, Err(e))
    case None => (nodes[n.id := n], Ok(()))
  }

  /** Parent `i` is the first that is not known. */
  predicate FirstMissing(nodes: Nodes, parents: seq<string>, i: nat) {
    i < |parents| && parents[i] !in nodes && forall j | 0 <= j < i :: parents[j] in nodes
  }

  lemma {:induction false} FirstUnknownIs(nodes: Nodes, parents: seq<string>, i: nat)
    requires FirstMissing(nodes, parents, i)
    ensures FirstUnknown(nodes, parents) == Some(parents[i])
    decreases i
  {
    if i > 0 {
      FirstUnknownIs(nodes, parents[1..], i - 1);
    }
  }

  /** A node is inserted if and only if its name is not blank and new, an observation has no parents, and all parents are
      known; a refusal names the first of these that fails and changes nothing. */
  lemma InsertedIff(nodes: Nodes, n: Node)
    ensures var (nodes', r) := Insert(nodes, n);
            var named, fresh_, plain := exists i | 0 <= i < |n.id| :: !IsSpace(n.id[i]), n.id !in nodes, n.kind == Observation ==> n.parents == [];
            && (r.Ok? <==> named && fresh_ && plain && forall p | p in n.parents :: p in nodes)
            && (r.Ok? ==> nodes' == nodes[n.id := n]) && (r.Err? ==> nodes' == nodes)
            && (r == Err(EmptyLineageId) <==> !named)
            && (r == Err(DuplicateLineageNode(n.id)) <==> named && !fresh_)
            && (r == Err(ObservationHasParents) <==> named && fresh_ && !plain)
            && (forall i: nat | FirstMissing(nodes, n.parents, i) ::
                  r == Err(UnknownLineageNode(n.parents[i])) <==> named && fresh_ && plain)
  {
    forall i: nat | FirstMissing(nodes, n.parents, i)
      ensures FirstUnknown(nodes, n.parents) == Some(n.parents[i])
    {
      FirstUnknownIs(nodes, n.parents, i);
    }
  }

  function Inserted(inserts: seq<Node>): Nodes {
    if inserts == [] then map[] else Insert(Inserted(inserts[..|inserts| - 1]), inserts[|inserts| - 1]).0
  }

  // ---------------------------------------------------------------- acyclicity

  ghost predicate Ranked(nodes: Nodes, rank: map<string, nat>, id: string)
    requires id in nodes && rank.Keys == nodes.Keys
  {
    && nodes[id].id == id && !Blank(id) && (nodes[id].kind == Observation ==> nodes[id].parents == [])
    && forall p | p in nodes[id].parents :: p in nodes && rank[p] < rank[id]
  }

  /** Every parent is known and ranks below its child: the graph has no cycle. */
  ghost predicate Acyclic(nodes: Nodes, rank: map<string, nat>) {
    rank.Keys == nodes.Keys && forall id {:trigger Ranked(nodes, rank, id)} | id in nodes :: Ranked(nodes, rank, id)
  }

  lemma InsertKeepsAcyclic(nodes: Nodes, rank: map<string, nat>, n: Node, r: nat)
    requires Acyclic(nodes, rank) && InsertError(nodes, n).None?
    requires forall p | p in nodes :: rank[p] < r
    ensures Acyclic(nodes[n.id := n], rank[n.id := r])
  {
    var nodes', rank' := nodes[n.id := n], rank[n.id := r];
    forall id | id in nodes'
      ensures Ranked(nodes', rank', id)
    {
      assert id in nodes ==> Ranked(nodes, rank, id);
    }
  }

  /** After any inserts, accepted or refused, ranking nodes by the time of their insertion witnesses that
      there is no cycle. */
  lemma {:induction false} InsertedIsAcyclic(inserts: seq<Node>) returns (rank: map<string, nat>)
    ensures Acyclic(Inserted(inserts), rank) && forall id | id in rank :: rank[id] < |inserts|
    decreases |inserts|
  {
    if inserts == [] {
      rank := map[];
    } else {
      var front, n := inserts[..|inserts| - 1], inserts[|inserts| - 1];
      rank := InsertedIsAcyclic(front);
      if InsertError(Inserted(front), n).None? {
        InsertKeepsAcyclic(Inserted(front), rank, n, |front|);
        rank := rank[n.id := |front|];
      }
    }
  }

  // ---------------------------------------------------------------- reachability

  ghost predicate Link(nodes: Nodes, p: seq<string>, i: nat)
    requires i + 1 < |p|
  {
    p[i] in nodes && p[i + 1] in nodes[p[i]].parents
  }

  /** A path through parents. */
  ghost predicate Path(nodes: Nodes, p: seq<string>, a: string, b: string) {
    && p != [] && p[0] == a && p[|p| - 1] == b
    && forall i {:trigger Link(nodes, p, i)} | 0 <= i < |p| - 1 :: Link(nodes, p, i)
  }

  /** There is a path with at least `d` steps. */
  ghost predicate Deep(nodes: Nodes, a: string, b: string, d: nat) {
    exists p :: Path(nodes, p, a, b) && d < |p|
  }

  /** Some path from `a` has at least `d` steps. */
  ghost predicate Reaches(nodes: Nodes, a: string, d: nat) {
    exists b :: Deep(nodes, a, b, d)
  }

  ghost predicate Reachable(nodes: Nodes, a: string, b: string) {
    Deep(nodes, a, b, 0)
  }

  lemma DeepSelf(nodes: Nodes, a: string)
    ensures Deep(nodes, a, a, 0)
  {
    assert Path(nodes, [a], a, a);
  }

  lemma DeepStep(nodes: Nodes, a: string, b: string, c: string, d: nat)
    requires Deep(nodes, a, b, d) && b in nodes && c in nodes[b].parents
    ensures Deep(nodes, a, c, d + 1)
  {
    var p :| Path(nodes, p, a, b) && d < |p|;
    var q := p + [c];
    forall i | 0 <= i < |q| - 1
      ensures Link(nodes, q, i)
    {
      assert i < |p| - 1 ==> Link(nodes, p, i);
    }
    assert Path(nodes, q, a, c);
  }

  lemma DeepEnough(nodes: Nodes, a: string, b: string, d: nat, e: nat)
    requires Deep(nodes, a, b, d) && e <= d
    ensures Deep(nodes, a, b, e)
  {
  }

  /** A set that holds the root and all parents of its members holds everything reachable. */
  lemma {:induction false} ClosedHolds(nodes: Nodes, visited: set<string>, p: seq<string>, a: string, b: string)
    requires a in visited && Path(nodes, p, a, b)
    requires forall v, q | v in visited && v in nodes && q in nodes[v].parents :: q in visited
    ensures b in visited
    decreases |p|
  {
    if |p| > 1 {
      var front := p[..|p| - 1];
      assert Path(nodes, front, a, front[|front| - 1]) by {
        forall i | 0 <= i < |front| - 1
          ensures Link(nodes, front, i)
        {
          assert Link(nodes, p, i);
        }
      }
      ClosedHolds(nodes, visited, front, a, front[|front| - 1]);
      assert Link(nodes, p, |p| - 2);
    }
  }

  /** A non-empty set of known nodes that is closed under parents contains a node without parents. */
  lemma {:induction false} ClosedHasLeaf(nodes: Nodes, rank: map<string, nat>, visited: set<string>, v: string)
      returns (leaf: string)
    requires Acyclic(nodes, rank) && v in visited && visited <= nodes.Keys
    requires forall x, q | x in visited && q in nodes[x].parents :: q in visited
    ensures leaf in visited && nodes[leaf].parents == []
    decreases rank[v]
  {
    if nodes[v].parents == [] {
      leaf := v;
    } else {
      var q := nodes[v].parents[0];
      assert Ranked(nodes, rank, v);
      leaf := ClosedHasLeaf(nodes, rank, visited, q);
    }
  }

  // ---------------------------------------------------------------- the trace

  /** What a finished trace means. */
  ghost predicate IsTrace(nodes: Nodes, root: string, trace: seq<Node>) {
    && (forall i, j | 0 <= i < j < |trace| :: trace[i].id != trace[j].id)
    && (forall i | 0 <= i < |trace| ::
          && trace[i].id in nodes && nodes[trace[i].id] == trace[i] && Reachable(nodes, root, trace[i].id)
          && (trace[i].kind == Observation || trace[i].parents != []))
    && (forall x | x in nodes && Reachable(nodes, root, x) :: nodes[x] in trace)
    && (exists i | 0 <= i < |trace| :: trace[i].kind == Observation)
  }

  /** What each refusal means. */
  ghost predicate Refused(nodes: Nodes, root: string, maxDepth: nat, maxNodes: nat, e: LineageError) {
    match e
    case UnknownLineageNode(id) => id == root && root !in nodes
    case LineageDepthExceeded => Reaches(nodes, root, maxDepth + 1)
    case LineageNodeLimitExceeded => maxNodes < |ReachableNodes(nodes, root)| || maxNodes == 0
    case LineageMissingObservation => exists x :: Stranded(nodes, root, x)
    case _ => false
  }

  /** A reachable node that is neither an observation nor derived from anything. */
  ghost predicate Stranded(nodes: Nodes, root: string, x: string) {
    x in nodes && Reachable(nodes, root, x) && nodes[x].kind != Observation && nodes[x].parents == []
  }

  ghost function ReachableNodes(nodes: Nodes, root: string): set<string> {
    set x | x in nodes && Reachable(nodes, root, x)
  }

  lemma {:induction false} SubsetIsSmaller(a: set<string>, b: set<string>)
    requires a <= b
    ensures |a| <= |b|
    decreases |a|
  {
    if a != {} {
      var x :| x in a;
      SubsetIsSmaller(a - {x}, b - {x});
    }
  }

  // ---------------------------------------------------------------- the search

  type Stack = seq<(string, nat)>

  ghost predicate OnStack(stack: Stack, id: string) {
    exists i | 0 <= i < |stack| :: stack[i].0 == id
  }

  /** The trace lists the visited nodes, once each. */
  ghost predicate Lists(nodes: Nodes, trace: seq<Node>, visited: set<string>) {
    && visited <= nodes.Keys && |visited| == |trace|
    && (forall i | 0 <= i < |trace| :: trace[i].id in visited && nodes[trace[i].id] == trace[i])
    && (forall v | v in visited :: nodes[v] in trace)
    && (forall i, j | 0 <= i < j < |trace| :: trace[i].id != trace[j].id)
  }

  ghost predicate Sound(nodes: Nodes, root: string, v: string) {
    v in nodes && Reachable(nodes, root, v) && (nodes[v].kind == Observation || nodes[v].parents != [])
  }

  ghost predicate StackOk(nodes: Nodes, root: string, stack: Stack, i: nat)
    requires i < |stack|
  {
    Deep(nodes, root, stack[i].0, stack[i].1) && (stack[i].0 in nodes || stack[i].0 == root)
  }

  ghost predicate StackGood(nodes: Nodes, root: string, stack: Stack) {
    forall i {:trigger StackOk(nodes, root, stack, i)} | 0 <= i < |stack| :: StackOk(nodes, root, stack, i)
  }

  /** Whatever a visited node was derived from is visited or still to be visited. */
  ghost predicate Pending(nodes: Nodes, root: string, visited: set<string>, stack: Stack) {
    && (root in visited || OnStack(stack, root))
    && (forall v {:trigger AllPending(nodes, visited, stack, v)} | v in visited :: AllPending(nodes, visited, stack, v))
  }

  ghost predicate AllPending(nodes: Nodes, visited: set<string>, stack: Stack, v: string) {
    v in nodes ==> forall q | q in nodes[v].parents :: q in visited || OnStack(stack, q)
  }

  /** The state of the search between two steps. */
  ghost predicate Searching(nodes: Nodes, root: string, trace: seq<Node>, visited: set<string>, stack: Stack, found: bool) {
    && Lists(nodes, trace, visited) && StackGood(nodes, root, stack) && Pending(nodes, root, visited, stack)
    && (forall v {:trigger Sound(nodes, root, v)} | v in visited :: Sound(nodes, root, v))
    && (found <==> exists v | v in visited :: nodes[v].kind == Observation)
  }

  /** The entries that a node puts on the stack, so that its first parent is on top. */
  function Entries(parents: seq<string>, depth: nat): Stack {
    if parents == [] then [] else [(parents[|parents| - 1], depth)] + Entries(parents[..|parents| - 1], depth)
  }

  lemma {:induction false} EntriesHold(parents: seq<string>, depth: nat)
    ensures forall i | 0 <= i < |Entries(parents, depth)| ::
              Entries(parents, depth)[i].0 in parents && Entries(parents, depth)[i].1 == depth
    ensures forall q | q in parents :: OnStack(Entries(parents, depth), q)
    decreases |parents|
  {
    if parents != [] {
      var front, last := parents[..|parents| - 1], parents[|parents| - 1];
      EntriesHold(front, depth);
      var es := Entries(parents, depth);
      assert parents == front + [last];
      forall q | q in parents
        ensures OnStack(es, q)
      {
        if q in front {
          var i :| 0 <= i < |Entries(front, depth)| && Entries(front, depth)[i].0 == q;
          assert es[i + 1].0 == q;
        } else {
          assert es[0].0 == q;
        }
      }
    }
  }

  lemma StackSplit(stack: Stack, id: string)
    requires stack != []
    ensures OnStack(stack, id) <==> OnStack(stack[..|stack| - 1], id) || stack[|stack| - 1].0 == id
  {
    var front := stack[..|stack| - 1];
    if OnStack(front, id) {
      var i :| 0 <= i < |front| && front[i].0 == id;
      assert stack[i].0 == id;
    }
    if OnStack(stack, id) {
      var i :| 0 <= i < |stack| && stack[i].0 == id;
      assert i < |front| ==> front[i].0 == id;
    }
  }

  lemma StackConcat(a: Stack, b: Stack, id: string)
    ensures OnStack(a + b, id) <==> OnStack(a, id) || OnStack(b, id)
  {
    if OnStack(a, id) {
      var i :| 0 <= i < |a| && a[i].0 == id;
      assert (a + b)[i].0 == id;
    }
    if OnStack(b, id) {
      var i :| 0 <= i < |b| && b[i].0 == id;
      assert (a + b)[|a| + i].0 == id;
    }
  }

  /** Taking an entry off the stack whose node is visited. */
  lemma PendingPopped(nodes: Nodes, root: string, visited: set<string>, stack: Stack)
    requires stack != [] && stack[|stack| - 1].0 in visited && Pending(nodes, root, visited, stack)
    ensures Pending(nodes, root, visited, stack[..|stack| - 1])
  {
    var front := stack[..|stack| - 1];
    StackSplit(stack, root);
    forall v | v in visited
      ensures AllPending(nodes, visited, front, v)
    {
      assert AllPending(nodes, visited, stack, v);
      if v in nodes {
        forall q | q in nodes[v].parents
          ensures q in visited || OnStack(front, q)
        {
          StackSplit(stack, q);
        }
      }
    }
  }

  lemma StackPopped(nodes: Nodes, root: string, stack: Stack)
    requires stack != [] && StackGood(nodes, root, stack)
    ensures StackGood(nodes, root, stack[..|stack| - 1])
  {
    var front := stack[..|stack| - 1];
    forall i | 0 <= i < |front|
      ensures StackOk(nodes, root, front, i)
    {
      assert StackOk(nodes, root, stack, i);
    }
  }

  /** Visiting the top node: its parents come onto the stack. */
  lemma PendingVisited(nodes: Nodes, root: string, visited: set<string>, stack: Stack, es: Stack, id: string)
    requires stack != [] && stack[|stack| - 1].0 == id && id in nodes && Pending(nodes, root, visited, stack)
    requires forall q | q in nodes[id].parents :: OnStack(es, q)
    ensures Pending(nodes, root, visited + {id}, stack[..|stack| - 1] + es)
  {
    var front, visited' := stack[..|stack| - 1], visited + {id};
    var stack' := front + es;
    StackSplit(stack, root);
    StackConcat(front, es, root);
    forall v | v in visited'
      ensures AllPending(nodes, visited', stack', v)
    {
      assert v in visited ==> AllPending(nodes, visited, stack, v);
      if v in nodes {
        forall q | q in nodes[v].parents
          ensures q in visited' || OnStack(stack', q)
        {
          StackSplit(stack, q);
          StackConcat(front, es, q);
        }
      }
    }
  }

  lemma StackVisited(nodes: Nodes, rank: map<string, nat>, root: string, stack: Stack, id: string, depth: nat, next: nat)
    requires Acyclic(nodes, rank) && id in nodes && Deep(nodes, root, id, depth) && next <= depth + 1
    requires StackGood(nodes, root, stack)
    ensures StackGood(nodes, root, stack + Entries(nodes[id].parents, next))
  {
    var es := Entries(nodes[id].parents, next);
    EntriesHold(nodes[id].parents, next);
    var stack' := stack + es;
    assert Ranked(nodes, rank, id);
    forall i | 0 <= i < |stack'|
      ensures StackOk(nodes, root, stack', i)
    {
      if i < |stack| {
        assert StackOk(nodes, root, stack, i);
      } else {
        DeepStep(nodes, root, id, es[i - |stack|].0, depth);
        DeepEnough(nodes, root, es[i - |stack|].0, depth + 1, next);
      }
    }
  }

  lemma ListsVisited(nodes: Nodes, trace: seq<Node>, visited: set<string>, id: string)
    requires Lists(nodes, trace, visited) && id in nodes && id !in visited && nodes[id].id == id
    ensures Lists(nodes, trace + [nodes[id]], visited + {id})
  {
    assert nodes[id] in trace + [nodes[id]];
  }

  /** When the stack is empty the visited nodes are exactly the reachable ones, and one is an observation. */
  lemma SearchEnds(nodes: Nodes, rank: map<string, nat>, root: string, trace: seq<Node>, visited: set<string>, found: bool)
    requires Acyclic(nodes, rank) && Searching(nodes, root, trace, visited, [], found)
    ensures found && IsTrace(nodes, root, trace)
  {
    forall v, q | v in visited && v in nodes && q in nodes[v].parents
      ensures q in visited
    {
      assert AllPending(nodes, visited, [], v);
    }
    var leaf := ClosedHasLeaf(nodes, rank, visited, root);
    assert Sound(nodes, root, leaf);
    forall x | x in nodes && Reachable(nodes, root, x)
      ensures nodes[x] in trace
    {
      var p :| Path(nodes, p, root, x) && 0 < |p|;
      ClosedHolds(nodes, visited, p, root, x);
    }
    forall i | 0 <= i < |trace|
      ensures Sound(nodes, root, trace[i].id)
    {
      assert trace[i].id in visited;
    }
    var i :| 0 <= i < |trace| && trace[i] == nodes[leaf];
    assert trace[i].kind == Observation;
  }

  // ---------------------------------------------------------------- depth-first order

  /** A list of parents, all at one depth. */
  function At(parents: seq<string>, depth: nat): Stack {
    seq(|parents|, i requires 0 <= i < |parents| => (parents[i], depth))
  }

  function Names(walk: Stack): set<string> {
    set i | 0 <= i < |walk| :: walk[i].0
  }

  ghost predicate Bounded(nodes: Nodes, rank: map<string, nat>, bound: nat, todo: Stack) {
    forall i | 0 <= i < |todo| :: todo[i].0 in nodes && todo[i].0 in rank && rank[todo[i].0] < bound
  }

  lemma ParentsBounded(nodes: Nodes, rank: map<string, nat>, id: string, depth: nat)
    requires Acyclic(nodes, rank) && id in nodes
    ensures id in rank && Bounded(nodes, rank, rank[id], At(nodes[id].parents, depth))
  {
    assert Ranked(nodes, rank, id);
  }

  /** Visiting in turn what is to be done, each node before its parents and each once, with the depth it is met at. */
  ghost function Walk(nodes: Nodes, rank: map<string, nat>, bound: nat, todo: Stack, visited: set<string>): Stack
    requires Acyclic(nodes, rank) && Bounded(nodes, rank, bound, todo)
    decreases bound, |todo|
  {
    if todo == [] then []
    else if todo[0].0 in visited then Walk(nodes, rank, bound, todo[1..], visited)
    else
      var below := Visit(nodes, rank, bound, todo, visited);
      below + Walk(nodes, rank, bound, todo[1..], visited + Names(below))
  }

  ghost function Visit(nodes: Nodes, rank: map<string, nat>, bound: nat, todo: Stack, visited: set<string>): Stack
    requires Acyclic(nodes, rank) && Bounded(nodes, rank, bound, todo) && todo != []
    decreases bound, 0
  {
    var (id, depth) := todo[0];
    ParentsBounded(nodes, rank, id, SaturatingSucc(depth));
    [(id, depth)] + Walk(nodes, rank, rank[id], At(nodes[id].parents, SaturatingSucc(depth)), visited + {id})
  }

  /** The bound only serves termination. */
  lemma {:induction false} WalkBound(nodes: Nodes, rank: map<string, nat>, bound: nat, bound': nat, todo: Stack, visited: set<string>)
    requires Acyclic(nodes, rank) && Bounded(nodes, rank, bound, todo) && Bounded(nodes, rank, bound', todo)
    ensures Walk(nodes, rank, bound, todo, visited) == Walk(nodes, rank, bound', todo, visited)
    decreases |todo|
  {
    if todo != [] {
      if todo[0].0 in visited {
        WalkBound(nodes, rank, bound, bound', todo[1..], visited);
      } else {
        var below := Visit(nodes, rank, bound, todo, visited);
        assert below == Visit(nodes, rank, bound', todo, visited);
        WalkBound(nodes, rank, bound, bound', todo[1..], visited + Names(below));
      }
    }
  }

  lemma NamesConcat(a: Stack, b: Stack)
    ensures Names(a + b) == Names(a) + Names(b)
  {
    forall x | x in Names(a) + Names(b)
      ensures x in Names(a + b)
    {
      if x in Names(a) {
        var i :| 0 <= i < |a| && a[i].0 == x;
        assert (a + b)[i].0 == x;
      } else {
        var i :| 0 <= i < |b| && b[i].0 == x;
        assert (a + b)[|a| + i].0 == x;
      }
    }
  }

  /** Walking one list after the other. */
  lemma {:induction false} WalkConcat(nodes: Nodes, rank: map<string, nat>, bound: nat, a: Stack, b: Stack, visited: set<string>)
    requires Acyclic(nodes, rank) && Bounded(nodes, rank, bound, a) && Bounded(nodes, rank, bound, b)
    ensures Bounded(nodes, rank, bound, a + b)
    ensures var first := Walk(nodes, rank, bound, a, visited);
            Walk(nodes, rank, bound, a + b, visited) == first + Walk(nodes, rank, bound, b, visited + Names(first))
    decreases |a|
  {
    if a == [] {
      assert a + b == b;
      assert visited + Names([]) == visited;
    } else {
      assert (a + b)[0] == a[0] && (a + b)[1..] == a[1..] + b;
      if a[0].0 in visited {
        WalkConcat(nodes, rank, bound, a[1..], b, visited);
      } else {
        var below := Visit(nodes, rank, bound, a, visited);
        var rest := Walk(nodes, rank, bound, a[1..], visited + Names(below));
        WalkConcat(nodes, rank, bound, a[1..], b, visited + Names(below));
        NamesConcat(below, rest);
        assert visited + Names(below) + Names(rest) == visited + Names(below + rest);
        Reassociate(below, rest, Walk(nodes, rank, bound, b, visited + Names(below + rest)));
      }
    }
  }

  /** One visit of the loop: the node, then its parents, then what was to be done. */
  lemma WalkVisits(nodes: Nodes, rank: map<string, nat>, bound: nat, id: string, depth: nat, rest: Stack, visited: set<string>)
    requires Acyclic(nodes, rank) && Bounded(nodes, rank, bound, [(id, depth)] + rest) && id !in visited
    ensures id in nodes && Bounded(nodes, rank, bound, At(nodes[id].parents, SaturatingSucc(depth)) + rest)
    ensures Walk(nodes, rank, bound, [(id, depth)] + rest, visited)
         == [(id, depth)] + Walk(nodes, rank, bound, At(nodes[id].parents, SaturatingSucc(depth)) + rest, visited + {id})
  {
    var todo := [(id, depth)] + rest;
    assert todo[0] == (id, depth) && todo[1..] == rest;
    ParentsBounded(nodes, rank, id, SaturatingSucc(depth));
    var parents := At(nodes[id].parents, SaturatingSucc(depth));
    var up := Walk(nodes, rank, rank[id], parents, visited + {id});
    WalkBound(nodes, rank, rank[id], bound, parents, visited + {id});
    WalkConcat(nodes, rank, bound, parents, rest, visited + {id});
    NamesConcat([(id, depth)], up);
    assert Names([(id, depth)]) == {id} by {
      assert [(id, depth)][0].0 == id;
    }
    assert visited + {id} + Names(up) == visited + Names([(id, depth)] + up);
    Reassociate([(id, depth)], up, Walk(nodes, rank, bound, rest, visited + {id} + Names(up)));
  }

  /** Position `i` of the walk breaks no limit: its depth, its place, and, if it has no parents, its kind. */
  predicate Fine(nodes: Nodes, walk: Stack, i: nat, maxDepth: nat, maxNodes: nat)
    requires i < |walk|
  {
    && walk[i].1 <= maxDepth && i < maxNodes
    && walk[i].0 in nodes && (nodes[walk[i].0].kind == Observation || nodes[walk[i].0].parents != [])
  }

  /** Position `i` is the first that breaks a limit, and `e` says which. */
  ghost predicate BreaksAt(nodes: Nodes, walk: Stack, i: nat, maxDepth: nat, maxNodes: nat, e: LineageError) {
    && i < |walk| && (forall j | 0 <= j < i :: Fine(nodes, walk, j, maxDepth, maxNodes)) && !Fine(nodes, walk, i, maxDepth, maxNodes)
    && e == if walk[i].1 > maxDepth then LineageDepthExceeded
            else if i >= maxNodes then LineageNodeLimitExceeded
            else LineageMissingObservation
  }

  /** A trace is the depth-first walk when no limit is broken, and otherwise the first broken limit. */
  ghost predicate Outcome(nodes: Nodes, walk: Stack, maxDepth: nat, maxNodes: nat, r: Result<seq<Node>, LineageError>) {
    match r
    case Ok(trace) =>
      && |trace| == |walk|
      && forall i | 0 <= i < |walk| ::
           Fine(nodes, walk, i, maxDepth, maxNodes) && walk[i].0 in nodes && trace[i] == nodes[walk[i].0]
    case Err(e) => exists i: nat :: BreaksAt(nodes, walk, i, maxDepth, maxNodes, e)
  }

  /** The walk and the limits leave one answer. */
  lemma OutcomeIsUnique(nodes: Nodes, walk: Stack, maxDepth: nat, maxNodes: nat,
                        r: Result<seq<Node>, LineageError>, r': Result<seq<Node>, LineageError>)
    requires Outcome(nodes, walk, maxDepth, maxNodes, r) && Outcome(nodes, walk, maxDepth, maxNodes, r')
    ensures r == r'
  {
    if r.Ok? && r'.Ok? {
      assert r.value == r'.value;
    } else if r.Err? && r'.Err? {
      var i: nat :| BreaksAt(nodes, walk, i, maxDepth, maxNodes, r.error);
      var j: nat :| BreaksAt(nodes, walk, j, maxDepth, maxNodes, r'.error);
      assert i == j;
    }
  }

  /** What to do next comes first. */
  function Reversed(stack: Stack): Stack {
    if stack == [] then [] else [stack[|stack| - 1]] + Reversed(stack[..|stack| - 1])
  }

  lemma {:induction false} ReversedPushed(stack: Stack, parents: seq<string>, depth: nat)
    ensures Reversed(stack + Entries(parents, depth)) == At(parents, depth) + Reversed(stack)
    decreases |parents|
  {
    var es := Entries(parents, depth);
    if parents == [] {
      assert stack + es == stack && At(parents, depth) + Reversed(stack) == Reversed(stack);
    } else {
      var front, last := parents[..|parents| - 1], (parents[|parents| - 1], depth);
      assert stack + es == (stack + [last]) + Entries(front, depth);
      ReversedPushed(stack + [last], front, depth);
      assert (stack + [last])[..|stack|] == stack;
      assert Reversed(stack + [last]) == [last] + Reversed(stack);
      assert At(parents, depth) == At(front, depth) + [last];
      Reassociate(At(front, depth), [last], Reversed(stack));
    }
  }

  /** Where the search is on the walk: what is done, and what the stack still leads to. */
  ghost predicate Walking(nodes: Nodes, rank: map<string, nat>, bound: nat, walk: Stack, done: Stack, trace: seq<Node>,
                          visited: set<string>, stack: Stack, maxDepth: nat, maxNodes: nat) {
    && Acyclic(nodes, rank) && Bounded(nodes, rank, bound, Reversed(stack))
    && walk == done + Walk(nodes, rank, bound, Reversed(stack), visited)
    && |done| == |trace|
    && forall i | 0 <= i < |done| ::
         Fine(nodes, walk, i, maxDepth, maxNodes) && walk[i].0 in nodes && trace[i] == nodes[walk[i].0]
  }

  lemma WalkStarts(nodes: Nodes, rank: map<string, nat>, bound: nat, root: string)
    requires Acyclic(nodes, rank) && root in nodes && rank[root] < bound
    ensures Bounded(nodes, rank, bound, [(root, 0)])
    ensures var walk := Walk(nodes, rank, bound, [(root, 0)], {}); walk != [] && walk[0] == (root, 0)
  {
    assert [(root, 0)] + [] == [(root, 0)];
    WalkVisits(nodes, rank, bound, root, 0, [], {});
  }

  lemma WalkingStarts(nodes: Nodes, rank: map<string, nat>, bound: nat, root: string, maxDepth: nat, maxNodes: nat)
    requires Acyclic(nodes, rank) && root in nodes && rank[root] < bound
    ensures Bounded(nodes, rank, bound, [(root, 0)])
    ensures Walking(nodes, rank, bound, Walk(nodes, rank, bound, [(root, 0)], {}), [], [], {}, [(root, 0)], maxDepth, maxNodes)
  {
    assert [(root, 0)][..0] == [] && Reversed([(root, 0)]) == [(root, 0)];
  }

  lemma ReversedTop(stack: Stack)
    requires stack != []
    ensures var rev := Reversed(stack); rev != [] && rev[0] == stack[|stack| - 1] && rev[1..] == Reversed(stack[..|stack| - 1])
  {
  }

  /** A node met again is passed over. */
  lemma WalkingOn(nodes: Nodes, rank: map<string, nat>, bound: nat, walk: Stack, done: Stack, trace: seq<Node>,
                  visited: set<string>, stack: Stack, maxDepth: nat, maxNodes: nat)
    requires Walking(nodes, rank, bound, walk, done, trace, visited, stack, maxDepth, maxNodes)
    requires stack != [] && stack[|stack| - 1].0 in visited
    ensures Walking(nodes, rank, bound, walk, done, trace, visited, stack[..|stack| - 1], maxDepth, maxNodes)
  {
    ReversedTop(stack);
  }

  /** A node met first is next on the walk. */
  lemma WalkingMeets(nodes: Nodes, rank: map<string, nat>, bound: nat, walk: Stack, done: Stack, trace: seq<Node>,
                     visited: set<string>, stack: Stack, maxDepth: nat, maxNodes: nat)
    requires Walking(nodes, rank, bound, walk, done, trace, visited, stack, maxDepth, maxNodes)
    requires stack != [] && stack[|stack| - 1].0 !in visited
    ensures |done| < |walk| && walk[|done|] == stack[|stack| - 1] && walk[|done|].0 in nodes
    ensures !Fine(nodes, walk, |done|, maxDepth, maxNodes) ==>
              var (id, depth) := walk[|done|];
              BreaksAt(nodes, walk, |done|, maxDepth, maxNodes,
                       if depth > maxDepth then LineageDepthExceeded else if |done| >= maxNodes then LineageNodeLimitExceeded
                       else LineageMissingObservation)
  {
    var (id, depth) := stack[|stack| - 1];
    var rest := Reversed(stack[..|stack| - 1]);
    ReversedTop(stack);
    assert Reversed(stack) == [(id, depth)] + rest;
    WalkVisits(nodes, rank, bound, id, depth, rest, visited);
  }

  /** When it is fine, the walk goes on from it. */
  lemma WalkingVisits(nodes: Nodes, rank: map<string, nat>, bound: nat, walk: Stack, done: Stack, trace: seq<Node>,
                      visited: set<string>, stack: Stack, maxDepth: nat, maxNodes: nat, id: string, depth: nat)
    requires Walking(nodes, rank, bound, walk, done, trace, visited, stack, maxDepth, maxNodes)
    requires stack != [] && stack[|stack| - 1] == (id, depth) && id !in visited && id in nodes
    requires |done| < |walk| && walk[|done|] == (id, depth) && Fine(nodes, walk, |done|, maxDepth, maxNodes)
    ensures Walking(nodes, rank, bound, walk, done + [(id, depth)], trace + [nodes[id]], visited + {id},
                    stack[..|stack| - 1] + Entries(nodes[id].parents, SaturatingSucc(depth)), maxDepth, maxNodes)
  {
    var front := stack[..|stack| - 1];
    var rest := Reversed(front);
    ReversedTop(stack);
    assert Reversed(stack) == [(id, depth)] + rest;
    WalkVisits(nodes, rank, bound, id, depth, rest, visited);
    ReversedPushed(front, nodes[id].parents, SaturatingSucc(depth));
    var more := Walk(nodes, rank, bound, At(nodes[id].parents, SaturatingSucc(depth)) + rest, visited + {id});
    Reassociate(done, [(id, depth)], more);
  }

  lemma WalkingEnds(nodes: Nodes, rank: map<string, nat>, bound: nat, walk: Stack, done: Stack, trace: seq<Node>,
                    visited: set<string>, maxDepth: nat, maxNodes: nat)
    requires Walking(nodes, rank, bound, walk, done, trace, visited, [], maxDepth, maxNodes)
    ensures Outcome(nodes, walk, maxDepth, maxNodes, Ok(trace))
  {
    assert Reversed([]) == [] && done + [] == done;
  }

  // ---------------------------------------------------------------- the search, step by step

  /** A question to the graph. */
  datatype Query = Query(nodes: Nodes, rank: map<string, nat>, bound: nat, root: string, maxDepth: nat, maxNodes: nat)

  ghost predicate Asked(q: Query) {
    && Acyclic(q.nodes, q.rank) && q.maxNodes > 0 && (forall id | id in q.nodes :: q.rank[id] < q.bound)
  }

  /** The walk from the root, or nothing when it is not known. */
  ghost function WalkFrom(q: Query): Stack
    requires Acyclic(q.nodes, q.rank) && forall id | id in q.nodes :: q.rank[id] < q.bound
  {
    if q.root in q.nodes then Walk(q.nodes, q.rank, q.bound, [(q.root, 0)], {}) else []
  }

  /** What a trace may answer: exactly the reachable nodes or a witness for the refusal, and both as the depth-first walk
      has it. */
  ghost predicate Answers(q: Query, r: Result<seq<Node>, LineageError>)
    requires Acyclic(q.nodes, q.rank) && forall id | id in q.nodes :: q.rank[id] < q.bound
  {
    && (match r
        case Ok(trace) => IsTrace(q.nodes, q.root, trace) && |trace| <= q.maxNodes
        case Err(e) => Refused(q.nodes, q.root, q.maxDepth, q.maxNodes, e))
    && (if q.root in q.nodes then Outcome(q.nodes, WalkFrom(q), q.maxDepth, q.maxNodes, r)
        else r == Err(if q.maxNodes == 0 then LineageNodeLimitExceeded else UnknownLineageNode(q.root)))
  }

  datatype Search = Search(trace: seq<Node>, visited: set<string>, stack: Stack, found: bool)

  ghost predicate Going(q: Query, done: Stack, s: Search)
    requires Asked(q)
  {
    && Searching(q.nodes, q.root, s.trace, s.visited, s.stack, s.found) && |s.trace| <= q.maxNodes
    && if q.root in q.nodes then
         Walking(q.nodes, q.rank, q.bound, WalkFrom(q), done, s.trace, s.visited, s.stack, q.maxDepth, q.maxNodes)
       else s == Search([], {}, [(q.root, 0)], false)
  }

  lemma Begins(q: Query)
    requires Asked(q)
    ensures Going(q, [], Search([], {}, [(q.root, 0)], false))
  {
    DeepSelf(q.nodes, q.root);
    var stack: Stack := [(q.root, 0)];
    assert StackOk(q.nodes, q.root, stack, 0);
    assert stack[0].0 == q.root;
    if q.root in q.nodes {
      WalkingStarts(q.nodes, q.rank, q.bound, q.root, q.maxDepth, q.maxNodes);
    }
  }

  lemma PassesOver(q: Query, done: Stack, s: Search)
    requires Asked(q) && Going(q, done, s) && s.stack != [] && s.stack[|s.stack| - 1].0 in s.visited
    ensures Going(q, done, s.(stack := s.stack[..|s.stack| - 1]))
  {
    StackPopped(q.nodes, q.root, s.stack);
    PendingPopped(q.nodes, q.root, s.visited, s.stack);
    WalkingOn(q.nodes, q.rank, q.bound, WalkFrom(q), done, s.trace, s.visited, s.stack, q.maxDepth, q.maxNodes);
  }

  /** What is wrong with the node on top, in the order of the checks. */
  function Wrong(q: Query, s: Search): Option<LineageError>
    requires s.stack != []
  {
    var (id, depth) := s.stack[|s.stack| - 1];
    if depth > q.maxDepth then Some(LineageDepthExceeded)
    else if id !in q.nodes then Some(UnknownLineageNode(id))
    else if |s.trace| >= q.maxNodes then Some(LineageNodeLimitExceeded)
    else if q.nodes[id].kind != Observation && q.nodes[id].parents == [] then Some(LineageMissingObservation)
    else None
  }

  lemma Refuses(q: Query, done: Stack, s: Search)
    requires Asked(q) && Going(q, done, s) && s.stack != [] && s.stack[|s.stack| - 1].0 !in s.visited && Wrong(q, s).Some?
    ensures Answers(q, Err(Wrong(q, s).value))
  {
    RefusesWith(q, done, s);
    if q.root in q.nodes {
      WalkingMeets(q.nodes, q.rank, q.bound, WalkFrom(q), done, s.trace, s.visited, s.stack, q.maxDepth, q.maxNodes);
    }
  }

  lemma RefusesWith(q: Query, done: Stack, s: Search)
    requires Asked(q) && Going(q, done, s) && s.stack != [] && s.stack[|s.stack| - 1].0 !in s.visited && Wrong(q, s).Some?
    ensures Refused(q.nodes, q.root, q.maxDepth, q.maxNodes, Wrong(q, s).value)
  {
    var (id, depth) := s.stack[|s.stack| - 1];
    assert StackOk(q.nodes, q.root, s.stack, |s.stack| - 1);
    DeepEnough(q.nodes, q.root, id, depth, 0);
    if depth > q.maxDepth {
      DeepEnough(q.nodes, q.root, id, depth, q.maxDepth + 1);
    } else if id in q.nodes {
      if |s.trace| >= q.maxNodes {
        TooMany(q.nodes, q.root, s.trace, s.visited, s.stack, s.found, id, q.maxNodes);
      } else {
        assert Stranded(q.nodes, q.root, id);
      }
    }
  }

  lemma TooMany(nodes: Nodes, root: string, trace: seq<Node>, visited: set<string>, stack: Stack, found: bool,
                id: string, maxNodes: nat)
    requires Searching(nodes, root, trace, visited, stack, found) && |trace| >= maxNodes
    requires id in nodes && id !in visited && Reachable(nodes, root, id)
    ensures maxNodes < |ReachableNodes(nodes, root)|
  {
    var s := visited + {id};
    forall x | x in s
      ensures x in nodes && Reachable(nodes, root, x)
    {
      assert x in visited ==> Sound(nodes, root, x);
    }
    assert |s| == |visited| + 1;
    SubsetIsSmaller(s, ReachableNodes(nodes, root));
  }

  /** The search after visiting the node on top. */
  function After(q: Query, s: Search): Search
    requires s.stack != [] && s.stack[|s.stack| - 1].0 in q.nodes
  {
    var (id, depth) := s.stack[|s.stack| - 1];
    var node := q.nodes[id];
    Search(s.trace + [node], s.visited + {id}, s.stack[..|s.stack| - 1] + Entries(node.parents, SaturatingSucc(depth)),
           s.found || node.kind == Observation)
  }

  lemma GoesOn(q: Query, done: Stack, s: Search)
    requires Asked(q) && Going(q, done, s) && s.stack != [] && s.stack[|s.stack| - 1].0 !in s.visited && Wrong(q, s).None?
    ensures Going(q, done + [s.stack[|s.stack| - 1]], After(q, s))
  {
    var (id, depth) := s.stack[|s.stack| - 1];
    SearchGoesOn(q, done, s);
    WalkingMeets(q.nodes, q.rank, q.bound, WalkFrom(q), done, s.trace, s.visited, s.stack, q.maxDepth, q.maxNodes);
    WalkingVisits(q.nodes, q.rank, q.bound, WalkFrom(q), done, s.trace, s.visited, s.stack, q.maxDepth, q.maxNodes, id, depth);
  }

  lemma SearchGoesOn(q: Query, done: Stack, s: Search)
    requires Asked(q) && Going(q, done, s) && s.stack != [] && s.stack[|s.stack| - 1].0 !in s.visited && Wrong(q, s).None?
    ensures q.root in q.nodes
    ensures var s' := After(q, s);
            Searching(q.nodes, q.root, s'.trace, s'.visited, s'.stack, s'.found) && |s'.trace| <= q.maxNodes
  {
    var (id, depth) := s.stack[|s.stack| - 1];
    var parents := q.nodes[id].parents;
    assert StackOk(q.nodes, q.root, s.stack, |s.stack| - 1);
    assert Ranked(q.nodes, q.rank, id);
    DeepEnough(q.nodes, q.root, id, depth, 0);
    StackPopped(q.nodes, q.root, s.stack);
    ListsVisited(q.nodes, s.trace, s.visited, id);
    EntriesHold(parents, SaturatingSucc(depth));
    PendingVisited(q.nodes, q.root, s.visited, s.stack, Entries(parents, SaturatingSucc(depth)), id);
    StackVisited(q.nodes, q.rank, q.root, s.stack[..|s.stack| - 1], id, depth, SaturatingSucc(depth));
  }

  lemma Ends(q: Query, done: Stack, s: Search)
    requires Asked(q) && Going(q, done, s) && s.stack == []
    ensures s.found && Answers(q, Ok(s.trace))
  {
    SearchEnds(q.nodes, q.rank, q.root, s.trace, s.visited, s.found);
    WalkingEnds(q.nodes, q.rank, q.bound, WalkFrom(q), done, s.trace, s.visited, q.maxDepth, q.maxNodes);
  }

  lemma NothingAllowed(q: Query)
    requires Acyclic(q.nodes, q.rank) && (forall id | id in q.nodes :: q.rank[id] < q.bound) && q.maxNodes == 0
    ensures Answers(q, Err(LineageNodeLimitExceeded))
  {
    if q.root in q.nodes {
      WalkStarts(q.nodes, q.rank, q.bound, q.root);
      assert BreaksAt(q.nodes, WalkFrom(q), 0, q.maxDepth, q.maxNodes, LineageNodeLimitExceeded);
    }
  }

  class LineageGraph {
    var nodes: Nodes
    ghost var rank: map<string, nat>
    ghost var next: nat

    ghost predicate Valid()
      reads this
    {
      Acyclic(nodes, rank) && forall id | id in nodes :: rank[id] < next
    }

    constructor ()
      ensures Valid() && nodes == Inserted([])
    {
      nodes, rank, next := map[], map[], 0;
    }

    method InsertNode(n: Node) returns (r: Result<(), LineageError>)
      requires Valid()
      modifies this
      ensures Valid() && (nodes, r) == Insert(old(nodes), n)
    {
      if Blank(n.id) {
        return Err(EmptyLineageId);
      }
      if n.id in nodes {
        return Err(DuplicateLineageNode(n.id));
      }
      if n.kind == Observation && n.parents != [] {
        return Err(ObservationHasParents);
      }
      assert n.parents[0..] == n.parents;
      for i := 0 to |n.parents|
        invariant Valid() && nodes == old(nodes)
        invariant FirstUnknown(nodes, n.parents) == FirstUnknown(nodes, n.parents[i..])
      {
        assert n.parents[i..][1..] == n.parents[i + 1..];
        if n.parents[i] !in nodes {
          return Err(UnknownLineageNode(n.parents[i]));
        }
      }
      InsertKeepsAcyclic(nodes, rank, n, next);
      nodes := nodes[n.id := n];
      rank := rank[n.id := next];
      next := next + 1;
      r := Ok(());
    }

    method TraceToObservations(root: string, maxDepth: nat, maxNodes: nat) returns (r: Result<seq<Node>, LineageError>)
      requires Valid()
      ensures Answers(Query(nodes, rank, next, root, maxDepth, maxNodes), r)
    {
      ghost var q := Query(nodes, rank, next, root, maxDepth, maxNodes);
      if maxNodes == 0 {
        NothingAllowed(q);
        return Err(LineageNodeLimitExceeded);
      }
      var search := Search([], {}, [(root, 0)], false);
      ghost var done: Stack := [];
      Begins(q);
      while search.stack != []
        invariant Going(q, done, search)
        decreases nodes.Keys - search.visited, |search.stack|
      {
        var step := Advance(nodes, maxDepth, maxNodes, search, q, done);
        match step {
          case Err(e) => return Err(e);
          case Ok(next') =>
            done := if next'.visited == search.visited then done else done + [search.stack[|search.stack| - 1]];
            search := next';
        }
      }
      Ends(q, done, search);
      if !search.found {
        return Err(LineageMissingObservation);
      }
      r := Ok(search.trace);
    }

    /** One round of the loop: a node met again is passed over, and one met first is checked and visited. */
    static method Advance(nodes: Nodes, maxDepth: nat, maxNodes: nat, s: Search, ghost q: Query, ghost done: Stack)
      returns (r: Result<Search, LineageError>)
      requires Asked(q) && Going(q, done, s) && s.stack != []
      requires q.nodes == nodes && q.maxDepth == maxDepth && q.maxNodes == maxNodes
      ensures r.Err? ==> Answers(q, Err(r.error))
      ensures r.Ok? ==>
                var (id, depth) := s.stack[|s.stack| - 1];
                if id in s.visited then
                  Going(q, done, r.value) && r.value.visited == s.visited && |r.value.stack| < |s.stack|
                else
                  Going(q, done + [(id, depth)], r.value) && r.value.visited == s.visited + {id} && id in nodes
    {
      var (id, depth) := s.stack[|s.stack| - 1];
      var stack := s.stack[..|s.stack| - 1];
      if id in s.visited {
        PassesOver(q, done, s);
        return Ok(s.(stack := stack));
      }
      if Wrong(q, s).Some? {
        Refuses(q, done, s);
      } else {
        GoesOn(q, done, s);
      }
      if depth > maxDepth {
        return Err(LineageDepthExceeded);
      }
      if id !in nodes {
        return Err(UnknownLineageNode(id));
      }
      if |s.trace| >= maxNodes {
        return Err(LineageNodeLimitExceeded);
      }
      var node := nodes[id];
      var found := s.found;
      if node.kind == Observation {
        found := true;
      } else if node.parents == [] {
        return Err(LineageMissingObservation);
      }
      stack := PushParents(stack, node.parents, SaturatingSucc(depth));
      r := Ok(Search(s.trace + [node], s.visited + {id}, stack, found));
    }

    static method PushParents(stack: Stack, parents: seq<string>, depth: nat) returns (stack': Stack)
      ensures stack' == stack + Entries(parents, depth)
    {
      stack' := stack;
      var i := |parents|;
      assert parents[..i] == parents;
      while i > 0
        invariant 0 <= i <= |parents|
        invariant stack + Entries(parents, depth) == stack' + Entries(parents[..i], depth)
      {
        assert parents[..i][..i - 1] == parents[..i - 1];
        i := i - 1;
        stack' := stack' + [(parents[i], depth)];
      }
    }
  }
}
