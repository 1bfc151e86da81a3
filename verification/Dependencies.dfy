/** orderDependencies: rank MultiDecoders by how much they depend on, or find that
  * they depend on themselves.  Ranks are mathematical integers. */
module Dependencies {
  import opened Bytes
  import opened Sorting

  datatype Node = Node(name: string, subs: seq<string>, count: int)

  /** The listed decoders and their sub-decoders, the last of a name counting. */
  type Graph = map<string, seq<string>>

  predicate Edge(g: Graph, a: string, b: string) {
    a in g && b in g && b in g[a]
  }

  predicate Walk(g: Graph, w: seq<string>) {
    forall i :: 0 <= i < |w| - 1 ==> Edge(g, w[i], w[i + 1])
  }

  /** Some listed decoder reaches itself through listed ones. */
  ghost predicate HasCycle(g: Graph) {
    exists w: seq<string> :: Cycle(g, w)
  }

  predicate Cycle(g: Graph, w: seq<string>) {
    |w| >= 2 && Walk(g, w) && w[0] == w[|w| - 1]
  }

  // ------------------------------------------------------------------- ranks

  function RankOf(nodes: map<string, Node>, name: string): int {
    if name in nodes then nodes[name].count else 0
  }

  function SumRanks(nodes: map<string, Node>, subs: seq<string>): int {
    if subs == [] then 0 else SumRanks(nodes, subs[..|subs| - 1]) + RankOf(nodes, subs[|subs| - 1])
  }

  predicate RanksDone(nodes: map<string, Node>, subs: seq<string>) {
    forall sub :: sub in subs ==> RankOf(nodes, sub) >= 0
  }

  /** Every rank computed so far is the number of subs plus the ranks of the subs,
    * all of which are computed. */
  ghost predicate Memo(g: Graph, nodes: map<string, Node>) {
    && nodes.Keys == g.Keys
    && (forall n :: n in nodes ==> nodes[n].name == n && nodes[n].subs == g[n] && nodes[n].count >= -1)
    && (forall n :: n in nodes && nodes[n].count >= 0 ==>
          RanksDone(nodes, g[n]) && nodes[n].count == |g[n]| + SumRanks(nodes, g[n]))
  }

  /** Later in the computation: no rank taken back or changed. */
  predicate Later(nodes: map<string, Node>, nodes': map<string, Node>) {
    && nodes'.Keys == nodes.Keys
    && forall n :: n in nodes && nodes[n].count >= 0 ==> nodes'[n] == nodes[n]
  }

  lemma {:induction false} SumLater(nodes: map<string, Node>, nodes': map<string, Node>, subs: seq<string>)
    requires Later(nodes, nodes') && RanksDone(nodes, subs)
    ensures RanksDone(nodes', subs) && SumRanks(nodes', subs) == SumRanks(nodes, subs)
  {
    forall sub | sub in subs ensures RankOf(nodes', sub) == RankOf(nodes, sub) >= 0 {
      assert RankOf(nodes, sub) >= 0;
    }
    if subs != [] {
      var front := subs[..|subs| - 1];
      assert RanksDone(nodes, front);
      SumLater(nodes, nodes', front);
    }
  }

  lemma {:induction false} SumAtLeast(nodes: map<string, Node>, subs: seq<string>, sub: string)
    requires RanksDone(nodes, subs) && sub in subs
    ensures SumRanks(nodes, subs) >= RankOf(nodes, sub)
  {
    var front := subs[..|subs| - 1];
    assert RanksDone(nodes, front);
    SumNonNegative(nodes, front);
    if sub in front {
      SumAtLeast(nodes, front, sub);
    } else {
      assert sub == subs[|subs| - 1];
    }
    assert RankOf(nodes, subs[|subs| - 1]) >= 0;
  }

  lemma {:induction false} SumNonNegative(nodes: map<string, Node>, subs: seq<string>)
    requires RanksDone(nodes, subs)
    ensures SumRanks(nodes, subs) >= 0
  {
    if subs != [] {
      var front := subs[..|subs| - 1];
      assert RanksDone(nodes, front);
      SumNonNegative(nodes, front);
      assert RankOf(nodes, subs[|subs| - 1]) >= 0;
    }
  }

  /** A ranked decoder ranks above each of its listed subs. */
  lemma EdgeDescends(g: Graph, nodes: map<string, Node>, a: string, b: string)
    requires Memo(g, nodes) && Edge(g, a, b) && nodes[a].count >= 0
    ensures 0 <= nodes[b].count < nodes[a].count
  {
    SumAtLeast(nodes, g[a], b);
    assert RankOf(nodes, b) >= 0;
  }

  ghost predicate AllRanked(nodes: map<string, Node>) {
    forall n :: n in nodes ==> nodes[n].count >= 0
  }

  lemma {:induction false} WalkDescends(g: Graph, nodes: map<string, Node>, w: seq<string>, n: nat)
    requires Memo(g, nodes) && AllRanked(nodes) && Walk(g, w) && 0 < n < |w|
    ensures w[0] in nodes && w[n] in nodes && nodes[w[n]].count < nodes[w[0]].count
  {
    assert Edge(g, w[n - 1], w[n - 1 + 1]);
    EdgeDescends(g, nodes, w[n - 1], w[n]);
    if n > 1 {
      WalkDescends(g, nodes, w, n - 1);
    }
  }

  /** Once everything has a rank, there is no cycle. */
  lemma RankedIsAcyclic(g: Graph, nodes: map<string, Node>)
    requires Memo(g, nodes) && AllRanked(nodes)
    ensures !HasCycle(g)
  {
    forall w: seq<string> ensures !Cycle(g, w) {
      if |w| >= 2 && Walk(g, w) {
        WalkDescends(g, nodes, w, |w| - 1);
      }
    }
  }

  /** Coming back to a name on the path closes a cycle. */
  lemma PathCloses(g: Graph, path: seq<string>, i: nat, name: string)
    requires i < |path| && path[i] == name && Walk(g, path) && Edge(g, path[|path| - 1], name)
    ensures HasCycle(g)
  {
    var w := path[i..] + [name];
    forall k | 0 <= k < |w| - 1 ensures Edge(g, w[k], w[k + 1]) {
      if k < |w| - 2 {
        assert Edge(g, path[i + k], path[i + k + 1]);
      }
    }
    assert Cycle(g, w);
  }

  // ---------------------------------------------------------------- the ranker

  class Ranker {
    var nodeMap: map<string, Node>
    ghost const g: Graph

    constructor (ghost g: Graph, nodeMap: map<string, Node>)
      ensures this.g == g && this.nodeMap == nodeMap
    {
      this.g := g;
      this.nodeMap := nodeMap;
    }

    /** The path walked so far: listed names, leading to `name`. */
    ghost predicate On(path: seq<string>, seen: set<string>, name: string) {
      && Walk(g, path)
      && (forall n :: n in seen <==> n in path)
      && (forall n :: n in seen ==> n in g)
      && (path != [] && name in g ==> Edge(g, path[|path| - 1], name))
    }

    /** rankFunc: the rank of a decoder, 0 for one not listed, or an error when the
      * path has come back on itself. */
    method Rank(name: string, seen: set<string>, ghost path: seq<string>) returns (count: int, err: bool)
      requires Memo(g, nodeMap) && On(path, seen, name)
      requires forall n :: n in seen ==> nodeMap[n].count == -1
      modifies this
      ensures Memo(g, nodeMap) && Later(old(nodeMap), nodeMap)
      ensures err ==> HasCycle(g)
      ensures !err ==> count == RankOf(nodeMap, name) >= 0
      ensures forall n :: n in seen ==> nodeMap[n] == old(nodeMap)[n]
      decreases |g.Keys - seen|, 0
    {
      hide HasCycle, SumRanks, RanksDone;
      if name in seen {
        ghost var i :| 0 <= i < |path| && path[i] == name;
        PathCloses(g, path, i, name);
        return -1, true;
      }
      if name !in nodeMap {
        return 0, false;
      }
      var node := nodeMap[name];
      if node.count >= 0 {
        return node.count, false;
      }
      SeenGrows(g.Keys, seen, name);
      PathGrows(g, path, name);
      count, err := SumSubs(name, node.subs, seen + {name}, path + [name]);
      if err {
        return -1, true;
      }
      Record(name, node, count);
    }

    /** The loop of rankFunc over the subs of one decoder. */
    method SumSubs(name: string, subs: seq<string>, seen: set<string>, ghost path: seq<string>)
      returns (count: int, err: bool)
      requires Memo(g, nodeMap) && name in g && subs == g[name]
      requires path != [] && path[|path| - 1] == name && Walk(g, path)
      requires (forall n :: n in seen <==> n in path) && (forall n :: n in seen ==> n in g)
      requires forall n :: n in seen ==> nodeMap[n].count == -1
      modifies this
      ensures Memo(g, nodeMap) && Later(old(nodeMap), nodeMap)
      ensures err ==> HasCycle(g)
      ensures !err ==> RanksDone(nodeMap, subs) && count == |subs| + SumRanks(nodeMap, subs)
      ensures forall n :: n in seen ==> nodeMap[n] == old(nodeMap)[n]
      decreases |g.Keys - seen|, 1
    {
      hide HasCycle;
      count, err := |subs|, false;
      for i := 0 to |subs|
        invariant Memo(g, nodeMap) && Later(old(nodeMap), nodeMap)
        invariant RanksDone(nodeMap, subs[..i]) && count == |subs| + SumRanks(nodeMap, subs[..i])
        invariant forall n :: n in seen ==> nodeMap[n] == old(nodeMap)[n]
      {
        ghost var before := nodeMap;
        var c;
        c, err := Rank(subs[i], seen, path);
        if err {
          return -1, true;
        }
        SumLater(before, nodeMap, subs[..i]);
        assert subs[..i + 1] == subs[..i] + [subs[i]];
        assert subs[..i + 1][..i] == subs[..i];
        count := count + c;
      }
      assert subs[..|subs|] == subs;
      err := false;
    }

    /** Store the rank of a decoder whose subs are all ranked. */
    method Record(name: string, node: Node, count: int)
      requires Memo(g, nodeMap) && name in nodeMap && nodeMap[name].count == -1 && nodeMap[name] == node
      requires RanksDone(nodeMap, node.subs) && count == |node.subs| + SumRanks(nodeMap, node.subs)
      modifies this
      ensures nodeMap == old(nodeMap)[name := node.(count := count)]
      ensures Memo(g, nodeMap) && Later(old(nodeMap), nodeMap) && count >= 0
    {
      ghost var before := nodeMap;
      SumNonNegative(nodeMap, node.subs);
      nodeMap := nodeMap[name := node.(count := count)];
      forall n | n in nodeMap && nodeMap[n].count >= 0
        ensures RanksDone(nodeMap, g[n]) && nodeMap[n].count == |g[n]| + SumRanks(nodeMap, g[n])
      {
        SumLater(before, nodeMap, g[n]);
      }
    }
  }

  lemma PathGrows(g: Graph, path: seq<string>, name: string)
    requires Walk(g, path) && (path != [] ==> Edge(g, path[|path| - 1], name))
    ensures Walk(g, path + [name])
  {
  }

  lemma SeenGrows(keys: set<string>, seen: set<string>, name: string)
    requires name in keys && name !in seen
    ensures |keys - (seen + {name})| < |keys - seen|
  {
    assert keys - seen == (keys - (seen + {name})) + {name};
  }

  // ---------------------------------------------------------- orderDependencies

  function GraphOf(decoders: seq<Node>): Graph {
    if decoders == [] then map[]
    else
      var last := decoders[|decoders| - 1];
      GraphOf(decoders[..|decoders| - 1])[last.name := last.subs]
  }

  /** Under a name stand the subs of the last decoder of that name; with distinct names,
    * every decoder's own. */
  lemma {:induction false} GraphHolds(decoders: seq<Node>, i: nat)
    requires i < |decoders| && forall j :: i < j < |decoders| ==> decoders[j].name != decoders[i].name
    ensures decoders[i].name in GraphOf(decoders) && GraphOf(decoders)[decoders[i].name] == decoders[i].subs
  {
    if i < |decoders| - 1 {
      GraphHolds(decoders[..|decoders| - 1], i);
    }
  }

  /** A listing of the decoders of a graph, each once. */
  predicate Lists(out: seq<Node>, g: Graph) {
    && (forall i :: 0 <= i < |out| ==> out[i].name in g && out[i].subs == g[out[i].name])
    && (forall i, j :: 0 <= i < j < |out| ==> out[i].name != out[j].name)
    && (forall n :: n in g ==> exists i :: 0 <= i < |out| && out[i].name == n)
  }

  /** Every listed sub-decoder stands before its users. */
  predicate SubsFirst(out: seq<Node>) {
    forall i, j :: 0 <= i < |out| && 0 <= j < |out| && out[j].name in out[i].subs ==> j < i
  }

  predicate Less(a: Node, b: Node) { a.count < b.count }

  lemma LessIsOrder()
    ensures StrictWeak(Less)
  {
  }

  /** An error exactly when the listed decoders depend on each other in a circle
    * (a shared sub-decoder is not one), and otherwise every one of them, subs first. */
  method OrderDependencies(decoders: seq<Node>) returns (out: Option<seq<Node>>)
    requires forall i :: 0 <= i < |decoders| ==> decoders[i].count == -1
    ensures out.None? <==> HasCycle(GraphOf(decoders))
    ensures out.Some? ==> Lists(out.value, GraphOf(decoders)) && SubsFirst(out.value)
  {
    hide HasCycle;
    var nodeMap := BuildMap(decoders);
    ghost var g := GraphOf(decoders);
    var ranker := new Ranker(g, nodeMap);
    for i := 0 to |decoders|
      invariant fresh(ranker) && ranker.g == g && Memo(g, ranker.nodeMap)
      invariant forall k :: 0 <= k < i ==> RankOf(ranker.nodeMap, decoders[k].name) >= 0
    {
      ghost var before := ranker.nodeMap;
      var _, err := ranker.Rank(decoders[i].name, {}, []);
      if err {
        return None;
      }
      assert forall k :: 0 <= k < i ==> RankOf(ranker.nodeMap, decoders[k].name) == RankOf(before, decoders[k].name);
    }
    NamesListed(decoders);
    assert AllRanked(ranker.nodeMap);
    RankedIsAcyclic(g, ranker.nodeMap);
    var finished := Collect(ranker.nodeMap);
    LessIsOrder();
    var sorted := Sort(finished, Less);
    SortedLists(finished, sorted, ranker.nodeMap, g);
    return Some(sorted);
  }

  lemma {:induction false} NamesListed(decoders: seq<Node>)
    ensures forall n :: n in GraphOf(decoders) ==> exists k :: 0 <= k < |decoders| && decoders[k].name == n
  {
    if decoders != [] {
      var front := decoders[..|decoders| - 1];
      NamesListed(front);
      forall n | n in GraphOf(decoders) ensures exists k :: 0 <= k < |decoders| && decoders[k].name == n {
        if n == decoders[|decoders| - 1].name {
          assert decoders[|decoders| - 1].name == n;
        } else {
          assert n in GraphOf(front);
          var k :| 0 <= k < |front| && front[k].name == n;
          assert decoders[k].name == n;
        }
      }
    }
  }

  method BuildMap(decoders: seq<Node>) returns (nodeMap: map<string, Node>)
    requires forall i :: 0 <= i < |decoders| ==> decoders[i].count == -1
    ensures Memo(GraphOf(decoders), nodeMap)
  {
    nodeMap := map[];
    for i := 0 to |decoders|
      invariant Memo(GraphOf(decoders[..i]), nodeMap)
      invariant forall n :: n in nodeMap ==> nodeMap[n].count == -1
    {
      assert decoders[..i + 1][..i] == decoders[..i];
      nodeMap := nodeMap[decoders[i].name := decoders[i]];
    }
    assert decoders[..|decoders|] == decoders;
  }

  /** The nodes of the map, in whatever order it yields them. */
  method Collect(nodeMap: map<string, Node>) returns (finished: seq<Node>)
    requires forall n :: n in nodeMap ==> nodeMap[n].name == n
    ensures forall i :: 0 <= i < |finished| ==> finished[i].name in nodeMap && finished[i] == nodeMap[finished[i].name]
    ensures forall i, j :: 0 <= i < j < |finished| ==> finished[i].name != finished[j].name
    ensures forall n :: n in nodeMap ==> nodeMap[n] in finished
  {
    finished := [];
    var names := nodeMap.Keys;
    while names != {}
      invariant names <= nodeMap.Keys
      invariant forall i :: 0 <= i < |finished| ==>
                  && finished[i].name in nodeMap && finished[i] == nodeMap[finished[i].name]
                  && finished[i].name !in names
      invariant forall i, j :: 0 <= i < j < |finished| ==> finished[i].name != finished[j].name
      invariant forall n :: n in nodeMap && n !in names ==> nodeMap[n] in finished
      decreases names
    {
      var n :| n in names;
      names := names - {n};
      finished := finished + [nodeMap[n]];
    }
  }

  lemma SortedLists(finished: seq<Node>, out: seq<Node>, nodeMap: map<string, Node>, g: Graph)
    requires Memo(g, nodeMap) && AllRanked(nodeMap)
    requires forall i :: 0 <= i < |finished| ==> finished[i].name in nodeMap && finished[i] == nodeMap[finished[i].name]
    requires forall i, j :: 0 <= i < j < |finished| ==> finished[i].name != finished[j].name
    requires forall n :: n in nodeMap ==> nodeMap[n] in finished
    requires multiset(out) == multiset(finished) && Sorted(out, Less)
    ensures Lists(out, g) && SubsFirst(out)
  {
    DistinctAgain(finished, out);
    forall i | 0 <= i < |out| ensures out[i].name in nodeMap && out[i] == nodeMap[out[i].name] {
      assert out[i] in multiset(out);
      assert out[i] in finished;
    }
    forall n | n in g ensures exists i :: 0 <= i < |out| && out[i].name == n {
      assert nodeMap[n] in multiset(finished);
      assert nodeMap[n] in out;
    }
    forall i, j | 0 <= i < |out| && 0 <= j < |out| && out[j].name in out[i].subs ensures j < i {
      EdgeDescends(g, nodeMap, out[i].name, out[j].name);
      assert Less(out[j], out[i]);
    }
  }
}
