/**
 * `calculatePageRank` (routes/classement.js:7-39): builds the in- and
 * out-lists of a link graph, starts every node at 1/N and repeats the
 * damped PageRank update until the total change drops below `epsilon` or
 * `maxIterations` updates have been made. Ranks are exact reals here.
 */
module PageRank {
  import opened Wrappers
  import opened MapSum

  /** One `[from, to]` pair of the link list. */
  datatype Link = Link(from: int, to: int)

  /** The `{ out: [], in: [] }` record kept per node. */
  datatype Adjacency = Adjacency(outLinks: seq<int>, inLinks: seq<int>)

  /** Every node mentioned by a link. */
  function Endpoints(links: seq<Link>): set<int>
  {
    if links == [] then {}
    else Endpoints(links[..|links| - 1]) + {links[|links| - 1].from, links[|links| - 1].to}
  }

  /** The targets of the links leaving `n`, in link order. */
  function OutOf(links: seq<Link>, n: int): seq<int>
  {
    if links == [] then []
    else OutOf(links[..|links| - 1], n) + (if links[|links| - 1].from == n then [links[|links| - 1].to] else [])
  }

  /** The sources of the links entering `n`, in link order. */
  function InOf(links: seq<Link>, n: int): seq<int>
  {
    if links == [] then []
    else InOf(links[..|links| - 1], n) + (if links[|links| - 1].to == n then [links[|links| - 1].from] else [])
  }

  /** The graph the link list describes: each node with its out- and in-lists. */
  function Adjacencies(links: seq<Link>): map<int, Adjacency>
  {
    map n | n in Endpoints(links) :: Adjacency(OutOf(links, n), InOf(links, n))
  }

  lemma {:induction false} OutOfMeans(links: seq<Link>, n: int, m: int)
    ensures m in OutOf(links, n) <==> Link(n, m) in links
  {
    if links != [] {
      var prefix := links[..|links| - 1];
      OutOfMeans(prefix, n, m);
      assert links == prefix + [links[|links| - 1]];
    }
  }

  lemma {:induction false} InOfMeans(links: seq<Link>, n: int, m: int)
    ensures m in InOf(links, n) <==> Link(m, n) in links
  {
    if links != [] {
      var prefix := links[..|links| - 1];
      InOfMeans(prefix, n, m);
      assert links == prefix + [links[|links| - 1]];
    }
  }

  /** Every node on an in-list is a node with a nonempty out-list, so the division in the update is defined. */
  ghost predicate WellLinked(nodes: map<int, Adjacency>)
  {
    forall n, m :: n in nodes && m in nodes[n].inLinks ==> m in nodes && |nodes[m].outLinks| > 0
  }

  lemma {:induction false} LinkEndpoints(links: seq<Link>, link: Link)
    requires link in links
    ensures link.from in Endpoints(links) && link.to in Endpoints(links)
  {
    var prefix := links[..|links| - 1];
    assert links == prefix + [links[|links| - 1]];
    if link != links[|links| - 1] {
      LinkEndpoints(prefix, link);
    }
  }

  lemma AdjacenciesWellLinked(links: seq<Link>)
    ensures WellLinked(Adjacencies(links))
  {
    var nodes := Adjacencies(links);
    forall n, m | n in nodes && m in nodes[n].inLinks ensures m in nodes && |nodes[m].outLinks| > 0 {
      InOfMeans(links, n, m);
      LinkEndpoints(links, Link(m, n));
      OutOfMeans(links, m, n);
    }
  }

  /** The record of `n`, or a fresh empty one when `n` is not a node yet. */
  function Entry(nodes: map<int, Adjacency>, n: int): Adjacency
  {
    if n in nodes then nodes[n] else Adjacency([], [])
  }

  /** What one link adds: its endpoints become nodes, `to` joins the out-list of `from` and `from` the in-list of `to`. */
  function AddLink(nodes: map<int, Adjacency>, link: Link): map<int, Adjacency>
  {
    map n | n in nodes.Keys + {link.from, link.to} ::
      Adjacency(Entry(nodes, n).outLinks + (if n == link.from then [link.to] else []),
                Entry(nodes, n).inLinks + (if n == link.to then [link.from] else []))
  }

  lemma AddLinkStep(links: seq<Link>, link: Link)
    ensures Adjacencies(links + [link]) == AddLink(Adjacencies(links), link)
  {
    var links' := links + [link];
    assert links'[..|links'| - 1] == links;
    var a := Adjacencies(links');
    var b := AddLink(Adjacencies(links), link);
    assert a.Keys == b.Keys;
    forall n | n in a.Keys ensures a[n] == b[n] {
      assert OutOf(links', n) == OutOf(links, n) + (if n == link.from then [link.to] else []);
      assert InOf(links', n) == InOf(links, n) + (if n == link.to then [link.from] else []);
      if n !in Endpoints(links) {
        OutOfOutside(links, n);
      }
    }
  }

  /** A node no link mentions has empty lists. */
  lemma {:induction false} OutOfOutside(links: seq<Link>, n: int)
    requires n !in Endpoints(links)
    ensures OutOf(links, n) == [] && InOf(links, n) == []
  {
    if links != [] {
      OutOfOutside(links[..|links| - 1], n);
    }
  }

  /** The pushes of routes/classement.js:10-13, in the order they are made, amount to `AddLink`. */
  lemma PushesAddLink(nodes: map<int, Adjacency>, link: Link)
    ensures var withFrom := if link.from in nodes then nodes else nodes[link.from := Adjacency([], [])];
      var withBoth := if link.to in withFrom then withFrom else withFrom[link.to := Adjacency([], [])];
      var afterOut := withBoth[link.from := withBoth[link.from].(outLinks := withBoth[link.from].outLinks + [link.to])];
      afterOut[link.to := afterOut[link.to].(inLinks := afterOut[link.to].inLinks + [link.from])]
      == AddLink(nodes, link)
  {
    var withFrom := if link.from in nodes then nodes else nodes[link.from := Adjacency([], [])];
    var withBoth := if link.to in withFrom then withFrom else withFrom[link.to := Adjacency([], [])];
    var afterOut := withBoth[link.from := withBoth[link.from].(outLinks := withBoth[link.from].outLinks + [link.to])];
    var pushed := afterOut[link.to := afterOut[link.to].(inLinks := afterOut[link.to].inLinks + [link.from])];
    var added := AddLink(nodes, link);
    assert pushed.Keys == added.Keys;
    forall n | n in pushed ensures pushed[n] == added[n] {
      assert withBoth[n] == Entry(nodes, n);
    }
  }

  /** The body of the `forEach` of routes/classement.js:9-14 for one link. */
  method PushLink(nodes: map<int, Adjacency>, link: Link) returns (nodes': map<int, Adjacency>)
    ensures nodes' == AddLink(nodes, link)
  {
    PushesAddLink(nodes, link);
    nodes' := nodes;
    if link.from !in nodes' {
      nodes' := nodes'[link.from := Adjacency([], [])];
    }
    if link.to !in nodes' {
      nodes' := nodes'[link.to := Adjacency([], [])];
    }
    nodes' := nodes'[link.from := nodes'[link.from].(outLinks := nodes'[link.from].outLinks + [link.to])];
    nodes' := nodes'[link.to := nodes'[link.to].(inLinks := nodes'[link.to].inLinks + [link.from])];
  }

  /** Builds the node table of routes/classement.js:8-14, one link at a time. */
  method BuildAdjacency(links: seq<Link>) returns (nodes: map<int, Adjacency>)
    ensures nodes == Adjacencies(links)
    ensures nodes.Keys == Endpoints(links)
    ensures forall n, m :: n in nodes ==> (m in nodes[n].outLinks <==> Link(n, m) in links)
    ensures forall n, m :: n in nodes ==> (m in nodes[n].inLinks <==> Link(m, n) in links)
    ensures WellLinked(nodes)
  {
    nodes := map[];
    for i := 0 to |links|
      invariant nodes == Adjacencies(links[..i])
    {
      nodes := PushLink(nodes, links[i]);
      AddLinkStep(links[..i], links[i]);
      assert links[..i + 1] == links[..i] + [links[i]];
    }
    assert links[..|links|] == links;
    forall n, m | n in nodes ensures m in nodes[n].outLinks <==> Link(n, m) in links {
      OutOfMeans(links, n, m);
    }
    forall n, m | n in nodes ensures m in nodes[n].inLinks <==> Link(m, n) in links {
      InOfMeans(links, n, m);
    }
    AdjacenciesWellLinked(links);
  }

  /** The out-degree of every node. */
  function OutDegrees(links: seq<Link>): map<int, nat>
  {
    map n | n in Endpoints(links) :: |OutOf(links, n)|
  }

  /** The in-degree of every node. */
  function InDegrees(links: seq<Link>): map<int, nat>
  {
    map n | n in Endpoints(links) :: |InOf(links, n)|
  }

  lemma OutDegreesStep(links: seq<Link>)
    requires links != []
    ensures var link := links[|links| - 1];
      OutDegrees(links) == Bump(Pad(OutDegrees(links[..|links| - 1]), link.to), link.from)
  {
    var prefix := links[..|links| - 1];
    var link := links[|links| - 1];
    var a := OutDegrees(links);
    var b := Bump(Pad(OutDegrees(prefix), link.to), link.from);
    assert a.Keys == b.Keys;
    forall n | n in a ensures a[n] == b[n] {
      if n !in Endpoints(prefix) {
        OutOfOutside(prefix, n);
      }
    }
  }

  lemma InDegreesStep(links: seq<Link>)
    requires links != []
    ensures var link := links[|links| - 1];
      InDegrees(links) == Bump(Pad(InDegrees(links[..|links| - 1]), link.from), link.to)
  {
    var prefix := links[..|links| - 1];
    var link := links[|links| - 1];
    var a := InDegrees(links);
    var b := Bump(Pad(InDegrees(prefix), link.from), link.to);
    assert a.Keys == b.Keys;
    forall n | n in a ensures a[n] == b[n] {
      if n !in Endpoints(prefix) {
        OutOfOutside(prefix, n);
      }
    }
  }

  /** Each link is pushed once onto an out-list and once onto an in-list. */
  lemma {:induction false} DegreeSums(links: seq<Link>)
    ensures Sum(OutDegrees(links)) == |links|
    ensures Sum(InDegrees(links)) == |links|
  {
    if links == [] {
      assert OutDegrees(links) == map[];
      assert InDegrees(links) == map[];
    } else {
      var prefix := links[..|links| - 1];
      var link := links[|links| - 1];
      DegreeSums(prefix);
      OutDegreesStep(links);
      InDegreesStep(links);
      SumPad(OutDegrees(prefix), link.to);
      SumBump(Pad(OutDegrees(prefix), link.to), link.from);
      SumPad(InDegrees(prefix), link.from);
      SumBump(Pad(InDegrees(prefix), link.from), link.to);
    }
  }

  /** `ids` lists each key of the set exactly once. */
  ghost predicate Enumerates(ids: seq<int>, keys: set<int>)
  {
    (forall i, j :: 0 <= i < j < |ids| ==> ids[i] != ids[j]) && (forall n :: n in ids <==> n in keys)
  }

  /**
   * `Object.keys(nodes)`, taken as the order in which the nodes were first
   * created by routes/classement.js:10-11: every node once.
   */
  method NodeIds(links: seq<Link>) returns (ids: seq<int>)
    ensures Enumerates(ids, Endpoints(links))
  {
    ids := [];
    for i := 0 to |links|
      invariant Enumerates(ids, Endpoints(links[..i]))
    {
      var link := links[i];
      if link.from !in ids {
        ids := ids + [link.from];
      }
      if link.to !in ids {
        ids := ids + [link.to];
      }
      assert links[..i + 1][..i] == links[..i];
    }
    assert links[..|links|] == links;
  }

  /** The sum taken by the inner `forEach` (routes/classement.js:28-30): each in-neighbour's rank split over its out-links. */
  function Inflow(nodes: map<int, Adjacency>, ranks: map<int, real>, ins: seq<int>): real
    requires forall m :: m in ins ==> m in nodes && m in ranks && |nodes[m].outLinks| > 0
  {
    if ins == [] then 0.0
    else
      var m := ins[|ins| - 1];
      Inflow(nodes, ranks, ins[..|ins| - 1]) + ranks[m] / (|nodes[m].outLinks| as real)
  }

  /** The node tables the update works on. */
  ghost predicate Table(nodes: map<int, Adjacency>, ids: seq<int>, ranks: map<int, real>)
  {
    WellLinked(nodes) && Enumerates(ids, nodes.Keys) && ranks.Keys == nodes.Keys
  }

  /** `newRanks[id]` (routes/classement.js:31). */
  function NewRank(nodes: map<int, Adjacency>, ids: seq<int>, ranks: map<int, real>, d: real, id: int): real
    requires Table(nodes, ids, ranks) && id in nodes
  {
    (1.0 - d) / (|ids| as real) + d * Inflow(nodes, ranks, nodes[id].inLinks)
  }

  /** All the new ranks of one pass. */
  function Step(nodes: map<int, Adjacency>, ids: seq<int>, ranks: map<int, real>, d: real): (r: map<int, real>)
    requires Table(nodes, ids, ranks)
    ensures r.Keys == ranks.Keys
  {
    map id | id in nodes :: NewRank(nodes, ids, ranks, d, id)
  }

  function Abs(x: real): real { if x < 0.0 then -x else x }

  /** `diff` after the first `|prefix|` nodes of a pass: the summed absolute rank changes. */
  function Change(nodes: map<int, Adjacency>, ids: seq<int>, ranks: map<int, real>, d: real, prefix: seq<int>): (r: real)
    requires Table(nodes, ids, ranks) && forall n :: n in prefix ==> n in nodes
    ensures r >= 0.0
  {
    if prefix == [] then 0.0
    else
      var id := prefix[|prefix| - 1];
      Change(nodes, ids, ranks, d, prefix[..|prefix| - 1]) + Abs(NewRank(nodes, ids, ranks, d, id) - ranks[id])
  }

  /** The inner `forEach` of routes/classement.js:28-30. */
  method SumInflow(nodes: map<int, Adjacency>, ranks: map<int, real>, ins: seq<int>) returns (rankSum: real)
    requires forall m :: m in ins ==> m in nodes && m in ranks && |nodes[m].outLinks| > 0
    ensures rankSum == Inflow(nodes, ranks, ins)
  {
    rankSum := 0.0;
    for k := 0 to |ins|
      invariant rankSum == Inflow(nodes, ranks, ins[..k])
    {
      var inId := ins[k];
      rankSum := rankSum + ranks[inId] / (|nodes[inId].outLinks| as real);
      assert ins[..k + 1][..k] == ins[..k];
    }
    assert ins[..|ins|] == ins;
  }

  /** The new ranks of the nodes in `prefix`. */
  function PartialStep(nodes: map<int, Adjacency>, ids: seq<int>, ranks: map<int, real>, d: real, prefix: seq<int>): map<int, real>
    requires Table(nodes, ids, ranks) && forall n :: n in prefix ==> n in nodes
  {
    map id | id in prefix :: NewRank(nodes, ids, ranks, d, id)
  }

  lemma PartialStepSnoc(nodes: map<int, Adjacency>, ids: seq<int>, ranks: map<int, real>, d: real, j: nat)
    requires Table(nodes, ids, ranks) && j < |ids|
    ensures PartialStep(nodes, ids, ranks, d, ids[..j + 1])
         == PartialStep(nodes, ids, ranks, d, ids[..j])[ids[j] := NewRank(nodes, ids, ranks, d, ids[j])]
  {
    assert ids[..j + 1] == ids[..j] + [ids[j]];
  }

  lemma PartialStepAll(nodes: map<int, Adjacency>, ids: seq<int>, ranks: map<int, real>, d: real)
    requires Table(nodes, ids, ranks)
    ensures PartialStep(nodes, ids, ranks, d, ids[..|ids|]) == Step(nodes, ids, ranks, d)
  {
    assert ids[..|ids|] == ids;
  }

  lemma ChangeSnoc(nodes: map<int, Adjacency>, ids: seq<int>, ranks: map<int, real>, d: real, j: nat)
    requires Table(nodes, ids, ranks) && j < |ids|
    ensures Change(nodes, ids, ranks, d, ids[..j + 1])
         == Change(nodes, ids, ranks, d, ids[..j]) + Abs(NewRank(nodes, ids, ranks, d, ids[j]) - ranks[ids[j]])
  {
    assert ids[..j + 1][..j] == ids[..j];
  }

  /** `newRanks[id]` as computed at routes/classement.js:27-31. */
  method RankOf(nodes: map<int, Adjacency>, ids: seq<int>, ranks: map<int, real>, d: real, id: int) returns (r: real)
    requires Table(nodes, ids, ranks) && id in nodes
    ensures r == NewRank(nodes, ids, ranks, d, id)
  {
    var rankSum := SumInflow(nodes, ranks, nodes[id].inLinks);
    r := (1.0 - d) / (|ids| as real) + d * rankSum;
  }

  /** One pass of the `for` loop body before the convergence test (routes/classement.js:24-33). */
  method UpdateRanks(nodes: map<int, Adjacency>, ids: seq<int>, ranks: map<int, real>, d: real)
    returns (newRanks: map<int, real>, diff: real)
    requires Table(nodes, ids, ranks)
    ensures newRanks == Step(nodes, ids, ranks, d)
    ensures diff == Change(nodes, ids, ranks, d, ids)
  {
    newRanks := map[];
    diff := 0.0;
    for j := 0 to |ids|
      invariant newRanks == PartialStep(nodes, ids, ranks, d, ids[..j])
      invariant diff == Change(nodes, ids, ranks, d, ids[..j])
    {
      var id := ids[j];
      var r := RankOf(nodes, ids, ranks, d, id);
      PartialStepSnoc(nodes, ids, ranks, d, j);
      ChangeSnoc(nodes, ids, ranks, d, j);
      newRanks := newRanks[id := r];
      diff := diff + Abs(newRanks[id] - ranks[id]);
    }
    PartialStepAll(nodes, ids, ranks, d);
    assert ids[..|ids|] == ids;
  }

  /** The starting ranks: 1/N for every node. */
  function Initial(nodes: map<int, Adjacency>, ids: seq<int>): (r: map<int, real>)
    requires Enumerates(ids, nodes.Keys)
    ensures r.Keys == nodes.Keys
  {
    map id | id in nodes :: 1.0 / (|ids| as real)
  }

  /** The ranks of the graph of `links` after `k` updates. */
  function Iterate(links: seq<Link>, ids: seq<int>, d: real, k: nat): (r: map<int, real>)
    requires Enumerates(ids, Endpoints(links))
    ensures Table(Adjacencies(links), ids, r)
  {
    AdjacenciesWellLinked(links);
    if k == 0 then Initial(Adjacencies(links), ids)
    else Step(Adjacencies(links), ids, Iterate(links, ids, d, k - 1), d)
  }

  /** The total change measured by the pass that starts from `Iterate(links, ids, d, k)`. */
  function ChangeAt(links: seq<Link>, ids: seq<int>, d: real, k: nat): real
    requires Enumerates(ids, Endpoints(links))
  {
    Change(Adjacencies(links), ids, Iterate(links, ids, d, k), d, ids)
  }

  /** The default arguments of `calculatePageRank`. */
  const DefaultDampingFactor: real := 0.85
  const DefaultEpsilon: real := 0.0001
  const DefaultMaxIterations: int := 100

  /**
   * `calculatePageRank`: the ranks after `iterations` updates, where every
   * update made measured a change of at least `epsilon`, and the loop
   * stopped either because the next pass measured less than `epsilon` or
   * because `maxIterations` updates were made. `nodeIds` is the node order
   * the passes visit.
   */
  method CalculatePageRank(links: seq<Link>, dampingFactor: real, epsilon: real, maxIterations: int)
    returns (ranks: map<int, real>, ghost nodeIds: seq<int>, ghost iterations: nat)
    ensures ranks.Keys == Endpoints(links)
    ensures links == [] ==> ranks == map[]
    ensures Enumerates(nodeIds, Endpoints(links))
    ensures iterations <= Max(0, maxIterations)
    ensures ranks == Iterate(links, nodeIds, dampingFactor, iterations)
    ensures forall k :: 0 <= k < iterations ==> ChangeAt(links, nodeIds, dampingFactor, k) >= epsilon
    ensures iterations < maxIterations ==> ChangeAt(links, nodeIds, dampingFactor, iterations) < epsilon
  {
    var nodes := BuildAdjacency(links);
    var ids := NodeIds(links);
    nodeIds := ids;
    var numNodes := |ids|;
    ranks := map id | id in ids :: 1.0 / (numNodes as real);
    InitialRanks(links, ids, dampingFactor);
    ranks, iterations := RunPasses(links, nodes, ids, dampingFactor, epsilon, maxIterations, ranks);
    forall k | 0 <= k < iterations ensures ChangeAt(links, ids, dampingFactor, k) >= epsilon {
      AllBeforeAt(Changed(links, ids, dampingFactor, epsilon), iterations, k);
    }
  }

  /** Pass `i` of the loop computes the ranks after `i + 1` updates and the change `ChangeAt` measures. */
  method Pass(links: seq<Link>, nodes: map<int, Adjacency>, ids: seq<int>, d: real, i: nat, ranks: map<int, real>)
    returns (newRanks: map<int, real>, diff: real)
    requires nodes == Adjacencies(links)
    requires Enumerates(ids, Endpoints(links))
    requires ranks == Iterate(links, ids, d, i)
    ensures newRanks == Iterate(links, ids, d, i + 1)
    ensures diff == ChangeAt(links, ids, d, i)
  {
    newRanks, diff := UpdateRanks(nodes, ids, ranks, d);
  }

  /** The starting table built by `nodeIds.forEach` is the ranks after no update. */
  lemma InitialRanks(links: seq<Link>, ids: seq<int>, d: real)
    requires Enumerates(ids, Endpoints(links))
    ensures (map id | id in ids :: 1.0 / (|ids| as real)) == Iterate(links, ids, d, 0)
  {
    AdjacenciesWellLinked(links);
  }

  /**
   * The `for` loop of `calculatePageRank` (routes/classement.js:23-36),
   * started from the initial ranks: it stops at the first pass whose change
   * is below `epsilon`, without applying it, or after `maxIterations` updates.
   */
  method RunPasses(links: seq<Link>, nodes: map<int, Adjacency>, ids: seq<int>, dampingFactor: real,
                   epsilon: real, maxIterations: int, initial: map<int, real>)
    returns (ranks: map<int, real>, ghost iterations: nat)
    requires nodes == Adjacencies(links)
    requires Enumerates(ids, Endpoints(links))
    requires initial == Iterate(links, ids, dampingFactor, 0)
    ensures iterations <= Max(0, maxIterations)
    ensures ranks == Iterate(links, ids, dampingFactor, iterations)
    ensures AllBefore(Changed(links, ids, dampingFactor, epsilon), iterations)
    ensures iterations < maxIterations ==> ChangeAt(links, ids, dampingFactor, iterations) < epsilon
  {
    ranks := initial;
    var i := 0;
    while i < maxIterations
      invariant 0 <= i <= Max(0, maxIterations)
      invariant ranks == Iterate(links, ids, dampingFactor, i)
      invariant AllBefore(Changed(links, ids, dampingFactor, epsilon), i)
    {
      var newRanks, diff := Pass(links, nodes, ids, dampingFactor, i, ranks);
      if diff < epsilon {
        break;
      }
      AssignAll(ranks, newRanks);
      ranks := ranks + newRanks;
      i := i + 1;
    }
    iterations := i;
  }

  /**
   * `calculatePageRank(links)` with its default arguments: damping 0.85,
   * threshold 0.0001 and at most 100 updates.
   */
  method CalculatePageRankWithDefaults(links: seq<Link>)
    returns (ranks: map<int, real>, ghost nodeIds: seq<int>, ghost iterations: nat)
    ensures ranks.Keys == Endpoints(links)
    ensures Enumerates(nodeIds, Endpoints(links))
    ensures iterations <= 100
    ensures ranks == Iterate(links, nodeIds, 0.85, iterations)
    ensures forall k :: 0 <= k < iterations ==> ChangeAt(links, nodeIds, 0.85, k) >= 0.0001
    ensures iterations < 100 ==> ChangeAt(links, nodeIds, 0.85, iterations) < 0.0001
  {
    ranks, nodeIds, iterations := CalculatePageRank(links, DefaultDampingFactor, DefaultEpsilon, DefaultMaxIterations);
  }

  /** The passes `k` whose change `ChangeAt(links, ids, d, k)` reached `epsilon`, which keep the loop going. */
  ghost function Changed(links: seq<Link>, ids: seq<int>, d: real, epsilon: real): nat -> bool
  {
    (k: nat) => Enumerates(ids, Endpoints(links)) && ChangeAt(links, ids, d, k) >= epsilon
  }

  /** `p` holds of every pass before the `n`-th, stated pass by pass. */
  ghost predicate AllBefore(p: nat -> bool, n: nat)
  {
    n == 0 || (AllBefore(p, n - 1) && p(n - 1))
  }

  /** The pass-by-pass statement covers each pass `k` before the `n`-th. */
  lemma {:induction false} AllBeforeAt(p: nat -> bool, n: nat, k: nat)
    requires AllBefore(p, n) && k < n
    ensures p(k)
    decreases n
  {
    if k < n - 1 {
      AllBeforeAt(p, n - 1, k);
    }
  }

  /** `Object.assign(ranks, newRanks)` overwrites every rank when both tables have the same nodes. */
  lemma AssignAll(ranks: map<int, real>, newRanks: map<int, real>)
    requires ranks.Keys == newRanks.Keys
    ensures ranks + newRanks == newRanks
  {
  }

  /** With no links there are no nodes and no ranks. */
  lemma NoLinksNoRanks(dampingFactor: real, k: nat)
    ensures Iterate([], [], dampingFactor, k) == map[]
  {
  }
}
