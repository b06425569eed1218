/** Building the pipeline graph from its configuration (crates/core/src/dag.rs). */
module Dag {
  import opened Wrappers
  import opened Graph
  import opened DepthFirst
  import Sequences

  const SOURCE_ID := "source"

  /** A route's labels are those it declares, its default label included
      (crates/core/src/route.rs:110-120). */
  datatype Kind = Sink | Route(labels: seq<string>) | Stage

  datatype NodeConfig = NodeConfig(id: string, kind: Kind, from: seq<string>)

  /** Errors name the node at fault by its position in the file. */
  datatype ConfigError =
    | NoSink
    | UnknownFrom(node: nat, entry: string)
    | UnknownRouteLabel(node: nat, output: string)
    | RouteNeedsLabel(node: nat)
    | NotARoute(node: nat, output: string)
    | UnconsumedRouteLabel(node: nat, output: string)
    | Unreachable(node: nat)
    | Cycle(node: nat)

  /** Nodes upstream before downstream, each one's out-edges, and the nodes that read from the
      source. */
  datatype Dag = Dag(nodes: seq<NodeConfig>, edges: Adjacency, sourceSuccessors: seq<nat>)

  // ----- resolving `from` -----

  /** A `from` entry of the node at `consumer`. */
  datatype Entry = Entry(consumer: nat, text: string)

  /** What an entry reads: the implicit source, or a node's output. */
  datatype Feed = FromSource | FromNode(node: nat, output: Option<string>)

  function FirstDot(s: string): (i: nat)
    ensures i <= |s| && (i < |s| ==> s[i] == '.')
  {
    if s == "" || s[0] == '.' then 0 else 1 + FirstDot(s[1..])
  }

  /** A node id, or `<route>.<label>`. */
  function ParseFrom(entry: string): (string, Option<string>) {
    var dot := FirstDot(entry);
    if dot < |entry| && dot + 1 < |entry| then (entry[..dot], Some(entry[dot + 1..])) else (entry, None)
  }

  /** The last node called `id`. */
  function Position(nodes: seq<NodeConfig>, id: string): (p: Option<nat>)
    ensures p.Some? ==> p.value < |nodes| && nodes[p.value].id == id
  {
    if nodes == [] then None
    else if nodes[|nodes| - 1].id == id then Some(|nodes| - 1)
    else Position(nodes[..|nodes| - 1], id)
  }

  function Resolve(nodes: seq<NodeConfig>, e: Entry): (r: Result<Feed, ConfigError>)
    ensures r.Ok? && r.value.FromNode? ==> r.value.node < |nodes|
    ensures r.Ok? && r.value.FromNode? && r.value.output.Some? ==>
              nodes[r.value.node].kind.Route? && r.value.output.value in nodes[r.value.node].kind.labels
  {
    var (target, output) := ParseFrom(e.text);
    if target == SOURCE_ID then
      if output.Some? then Err(NotARoute(e.consumer, output.value)) else Ok(FromSource)
    else
      match Position(nodes, target)
      case None => Err(UnknownFrom(e.consumer, e.text))
      case Some(t) => ResolveOutput(nodes, e, t, output)
  }

  function ResolveOutput(nodes: seq<NodeConfig>, e: Entry, t: nat, output: Option<string>)
    : (r: Result<Feed, ConfigError>)
    requires t < |nodes|
    ensures r.Ok? ==> r.value == FromNode(t, output)
    ensures r.Ok? && output.Some? ==> nodes[t].kind.Route? && output.value in nodes[t].kind.labels
  {
    if nodes[t].kind.Route? then
      if output.None? then Err(RouteNeedsLabel(e.consumer))
      else if output.value !in nodes[t].kind.labels then Err(UnknownRouteLabel(e.consumer, output.value))
      else Ok(FromNode(t, output))
    else if output.Some? then Err(NotARoute(e.consumer, output.value))
    else Ok(FromNode(t, None))
  }

  /** An entry's text names `id`, or the output `output` of `id`: up to the first dot, if something
      follows it. */
  predicate Names(text: string, id: string, output: Option<string>) {
    match output
    case Some(name) => '.' !in id && name != "" && text == id + "." + name
    case None => text == id && forall k :: 0 <= k < |id| - 1 ==> id[k] != '.'
  }

  /** Of several nodes of one name the last has it. */
  predicate IsCalled(nodes: seq<NodeConfig>, id: string, t: nat) {
    t < |nodes| && nodes[t].id == id && forall u :: t < u < |nodes| ==> nodes[u].id != id
  }

  lemma ParseFromNames(text: string)
    ensures var (id, output) := ParseFrom(text);
            Names(text, id, output)
    ensures forall id, output :: Names(text, id, output) ==> ParseFrom(text) == (id, output)
  {
    FirstDotIsFirst(text);
    forall id, output | Names(text, id, output)
      ensures ParseFrom(text) == (id, output)
    {
      if output.Some? {
        assert text[|id|] == '.' && forall k :: 0 <= k < |id| ==> text[k] == id[k];
        assert text[..|id|] == id && text[|id| + 1..] == output.value;
      }
    }
    var dot := FirstDot(text);
    if dot < |text| && dot + 1 < |text| {
      assert text == text[..dot] + "." + text[dot + 1..];
    }
  }

  lemma {:induction false} FirstDotIsFirst(s: string)
    ensures forall k :: 0 <= k < FirstDot(s) ==> s[k] != '.'
  {
    if s != "" && s[0] != '.' {
      FirstDotIsFirst(s[1..]);
      assert forall k :: 0 < k < |s| ==> s[k] == s[1..][k - 1];
    }
  }

  lemma {:induction false} PositionIsLast(nodes: seq<NodeConfig>, id: string)
    ensures forall t: nat :: Position(nodes, id) == Some(t) <==> IsCalled(nodes, id, t)
    ensures Position(nodes, id).None? <==> forall u :: 0 <= u < |nodes| ==> nodes[u].id != id
  {
    if nodes != [] {
      PositionIsLast(nodes[..|nodes| - 1], id);
      assert forall t: nat :: t < |nodes| - 1 && nodes[|nodes| - 1].id != id ==>
        (IsCalled(nodes, id, t) <==> IsCalled(nodes[..|nodes| - 1], id, t));
    }
  }

  /** What every entry reads, or the error it is refused with. The source has no outputs to name, a
      route's consumer names one of those it declares, and no other node's consumer names any. */
  lemma EntryMeans(nodes: seq<NodeConfig>, e: Entry, id: string, output: Option<string>)
    requires Names(e.text, id, output)
    ensures id == "source" ==>
              Resolve(nodes, e) == if output.Some? then Err(NotARoute(e.consumer, output.value)) else Ok(FromSource)
    ensures id != "source" && (forall u :: 0 <= u < |nodes| ==> nodes[u].id != id) ==>
              Resolve(nodes, e) == Err(UnknownFrom(e.consumer, e.text))
    ensures forall t: nat :: id != "source" && IsCalled(nodes, id, t) && nodes[t].kind.Route? ==>
              Resolve(nodes, e) == if output.None? then Err(RouteNeedsLabel(e.consumer))
                                   else if output.value in nodes[t].kind.labels then Ok(FromNode(t, output))
                                   else Err(UnknownRouteLabel(e.consumer, output.value))
    ensures forall t: nat :: id != "source" && IsCalled(nodes, id, t) && !nodes[t].kind.Route? ==>
              Resolve(nodes, e) == if output.Some? then Err(NotARoute(e.consumer, output.value))
                                   else Ok(FromNode(t, None))
  {
    hide ParseFrom;
    ParseFromNames(e.text);
    PositionIsLast(nodes, id);
  }

  /** The entries of one node, in file order. */
  function Row(nodes: seq<NodeConfig>, i: nat): seq<Entry>
    requires i < |nodes|
  {
    seq(|nodes[i].from|, j requires 0 <= j < |nodes[i].from| => Entry(i, nodes[i].from[j]))
  }

  /** The entries of the first `n` nodes. */
  function Entries(nodes: seq<NodeConfig>, n: nat): (es: seq<Entry>)
    requires n <= |nodes|
    ensures forall k :: 0 <= k < |es| ==> es[k].consumer < n
  {
    if n == 0 then [] else Entries(nodes, n - 1) + Row(nodes, n - 1)
  }

  function AllEntries(nodes: seq<NodeConfig>): seq<Entry> {
    Entries(nodes, |nodes|)
  }

  /** The out-edges of `t` that `es` make, in order; sinks emit nothing. */
  function OutEdges(nodes: seq<NodeConfig>, es: seq<Entry>, t: nat): (edges: seq<Edge>)
    requires t < |nodes|
    ensures (forall k :: 0 <= k < |es| ==> es[k].consumer < |nodes|) ==>
              forall k :: 0 <= k < |edges| ==> edges[k].target < |nodes|
  {
    if es == [] then []
    else
      var e := es[|es| - 1];
      OutEdges(nodes, es[..|es| - 1], t) +
      match Resolve(nodes, e)
      case Ok(FromNode(node, output)) => if node == t && !nodes[t].kind.Sink? then [Edge(e.consumer, output)] else []
      case _ => []
  }

  /** The consumers of the source, in order. */
  function SourceFeeds(nodes: seq<NodeConfig>, es: seq<Entry>): (sources: seq<nat>)
    ensures (forall k :: 0 <= k < |es| ==> es[k].consumer < |nodes|) ==>
              forall k :: 0 <= k < |sources| ==> sources[k] < |nodes|
  {
    if es == [] then []
    else
      var e := es[|es| - 1];
      SourceFeeds(nodes, es[..|es| - 1]) + if Resolve(nodes, e) == Ok(FromSource) then [e.consumer] else []
  }

  /** The graph a configuration describes, over file positions. */
  function SuccessorsOf(nodes: seq<NodeConfig>): (succ: Adjacency)
    ensures |succ| == |nodes| && InRange(succ)
  {
    seq(|nodes|, t requires 0 <= t < |nodes| => OutEdges(nodes, AllEntries(nodes), t))
  }

  function SourcesOf(nodes: seq<NodeConfig>): (sources: seq<nat>)
    ensures forall k :: 0 <= k < |sources| ==> sources[k] < |nodes|
  {
    SourceFeeds(nodes, AllEntries(nodes))
  }

  // ----- what makes a configuration valid -----

  ghost predicate HasSink(nodes: seq<NodeConfig>) {
    exists i :: 0 <= i < |nodes| && nodes[i].kind.Sink?
  }

  predicate AllResolve(nodes: seq<NodeConfig>, es: seq<Entry>) {
    forall k :: 0 <= k < |es| ==> Resolve(nodes, es[k]).Ok?
  }

  predicate Consumes(nodes: seq<NodeConfig>, es: seq<Entry>, r: nat, output: string) {
    exists k :: 0 <= k < |es| && Resolve(nodes, es[k]) == Ok(FromNode(r, Some(output)))
  }

  /** Every label the first `n` nodes declare has a consumer. */
  predicate LabelsConsumed(nodes: seq<NodeConfig>, n: nat)
    requires n <= |nodes|
  {
    forall r :: 0 <= r < n && nodes[r].kind.Route? ==>
                  forall output :: output in nodes[r].kind.labels ==> Consumes(nodes, AllEntries(nodes), r, output)
  }

  ghost predicate AllReachable(nodes: seq<NodeConfig>) {
    forall i :: 0 <= i < |nodes| ==> Reachable(SuccessorsOf(nodes), SourcesOf(nodes), i)
  }

  /** `dag` is the configured graph renumbered along `order`: a permutation of the nodes along
      which every edge climbs, outputs and their order kept. */
  ghost predicate Renumbers(nodes: seq<NodeConfig>, dag: Dag, order: seq<nat>) {
    var succ, sources := SuccessorsOf(nodes), SourcesOf(nodes);
    && |order| == |nodes| == |dag.nodes| == |dag.edges|
    && Distinct(order)
    && (forall k :: 0 <= k < |order| ==> order[k] < |nodes| && dag.nodes[k] == nodes[order[k]])
    && (forall k :: 0 <= k < |order| ==> |dag.edges[k]| == |succ[order[k]]|)
    && (forall k, e :: 0 <= k < |order| && 0 <= e < |dag.edges[k]| ==>
          && k < dag.edges[k][e].target < |order|
          && order[dag.edges[k][e].target] == succ[order[k]][e].target
          && dag.edges[k][e].output == succ[order[k]][e].output)
    && |dag.sourceSuccessors| == |sources|
    && (forall k :: 0 <= k < |sources| ==>
      dag.sourceSuccessors[k] < |order| && order[dag.sourceSuccessors[k]] == sources[k])
  }

  // ----- the builder -----

  method IndexNodes(nodes: seq<NodeConfig>) returns (position: map<string, nat>)
    ensures Indexes(nodes, position)
  {
    position := map[];
    for i := 0 to |nodes|
      invariant Indexes(nodes[..i], position)
    {
      position := position[nodes[i].id := i];
      assert nodes[..i + 1][..i] == nodes[..i];
    }
    assert nodes[..|nodes|] == nodes;
  }

  method FindSink(nodes: seq<NodeConfig>) returns (found: bool)
    ensures found <==> HasSink(nodes)
  {
    for i := 0 to |nodes|
      invariant forall k :: 0 <= k < i ==> !nodes[k].kind.Sink?
    {
      if nodes[i].kind.Sink? {
        return true;
      }
    }
    return false;
  }

  /** What the wiring pass collects. */
  datatype Wiring = Wiring(succ: Adjacency, sources: seq<nat>, consumed: set<(nat, string)>)

  ghost predicate Wired(nodes: seq<NodeConfig>, es: seq<Entry>, w: Wiring) {
    && AllResolve(nodes, es)
    && |w.succ| == |nodes|
    && (forall t :: 0 <= t < |nodes| ==> w.succ[t] == OutEdges(nodes, es, t))
    && w.sources == SourceFeeds(nodes, es)
    && (forall r: nat, output :: (r, output) in w.consumed <==> Consumes(nodes, es, r, output))
  }

  /** The wiring after one more entry. */
  function WireOne(nodes: seq<NodeConfig>, w: Wiring, e: Entry, feed: Feed): Wiring
    requires feed.FromNode? ==> feed.node < |w.succ| && feed.node < |nodes|
  {
    match feed
    case FromSource => w.(sources := w.sources + [e.consumer])
    case FromNode(t, output) =>
      w.(succ := if nodes[t].kind.Sink? then w.succ else w.succ[t := w.succ[t] + [Edge(e.consumer, output)]],
         consumed := if output.Some? then w.consumed + {(t, output.value)} else w.consumed)
  }

  lemma ConsumesOneMore(nodes: seq<NodeConfig>, es: seq<Entry>, e: Entry, r: nat, output: string)
    ensures Consumes(nodes, es + [e], r, output) <==>
      Consumes(nodes, es, r, output) || Resolve(nodes, e) == Ok(FromNode(r, Some(output)))
  {
    var all := es + [e];
    if Consumes(nodes, es, r, output) {
      var k :| 0 <= k < |es| && Resolve(nodes, es[k]) == Ok(FromNode(r, Some(output)));
      assert all[k] == es[k];
    }
    if Resolve(nodes, e) == Ok(FromNode(r, Some(output))) {
      assert all[|es|] == e;
    }
  }

  lemma ResolvesOneMore(nodes: seq<NodeConfig>, es: seq<Entry>, e: Entry)
    requires AllResolve(nodes, es) && Resolve(nodes, e).Ok?
    ensures AllResolve(nodes, es + [e])
  {
  }

  lemma WireOneIsWired(nodes: seq<NodeConfig>, es: seq<Entry>, w: Wiring, e: Entry)
    requires Wired(nodes, es, w) && Resolve(nodes, e).Ok?
    ensures Wired(nodes, es + [e], WireOne(nodes, w, e, Resolve(nodes, e).value))
  {
    hide Resolve, Consumes, AllResolve;
    var all := es + [e];
    assert all[..|all| - 1] == es && all[|all| - 1] == e;
    ResolvesOneMore(nodes, es, e);
    var next := WireOne(nodes, w, e, Resolve(nodes, e).value);
    forall t | 0 <= t < |nodes|
      ensures next.succ[t] == OutEdges(nodes, all, t)
    {
      assert w.succ[t] == OutEdges(nodes, es, t);
    }
    forall r: nat, output
      ensures (r, output) in next.consumed <==> Consumes(nodes, all, r, output)
    {
      ConsumesOneMore(nodes, es, e, r, output);
    }
  }

  /** Resolve one entry by the index of node ids. */
  method ResolveEntry(nodes: seq<NodeConfig>, position: map<string, nat>, e: Entry)
      returns (r: Result<Feed, ConfigError>)
    requires Indexes(nodes, position)
    ensures r == Resolve(nodes, e)
  {
    var (target, output) := ParseFrom(e.text);
    if target == SOURCE_ID {
      return if output.Some? then Err(NotARoute(e.consumer, output.value)) else Ok(FromSource);
    }
    if target !in position {
      return Err(UnknownFrom(e.consumer, e.text));
    }
    return ResolveOutput(nodes, e, position[target], output);
  }

  ghost predicate Indexes(nodes: seq<NodeConfig>, position: map<string, nat>) {
    && (forall id :: id in position <==> Position(nodes, id).Some?)
    && (forall id :: id in position ==> Position(nodes, id) == Some(position[id]))
  }

  /** The entries of node `i`, stopping at the first that does not resolve. */
  method WireNode(nodes: seq<NodeConfig>, position: map<string, nat>, i: nat, w: Wiring)
      returns (r: Result<Wiring, ConfigError>)
    requires Indexes(nodes, position) && i < |nodes|
    requires Wired(nodes, Entries(nodes, i), w)
    ensures r.Ok? ==> Wired(nodes, Entries(nodes, i + 1), r.value)
    ensures r.Err? ==> exists k: nat :: FirstUnresolved(nodes, k, r.error)
  {
    ghost var row, before := Row(nodes, i), Entries(nodes, i);
    ghost var done := before;
    var wiring := w;
    for j := 0 to |nodes[i].from|
      invariant done == before + row[..j]
      invariant Wired(nodes, done, wiring)
    {
      var e := Entry(i, nodes[i].from[j]);
      var feed := ResolveEntry(nodes, position, e);
      match feed
      case Err(error) =>
        Sequences.SplitAt(row, j);
        Sequences.Associative(row[..j], [e], row[j + 1..]);
        Sequences.Associative(before, row[..j], [e] + row[j + 1..]);
        FirstUnresolvedHere(nodes, done, e, row[j + 1..], i + 1, error);
        return Err(error);
      case Ok(f) =>
        WireOneIsWired(nodes, done, wiring, e);
        wiring := WireOne(nodes, wiring, e, f);
        done := done + [e];
        Sequences.TakeNext(row, j);
        Sequences.Associative(before, row[..j], [e]);
    }
    assert row[..|row|] == row;
    return Ok(wiring);
  }

  lemma FirstUnresolvedHere(nodes: seq<NodeConfig>, done: seq<Entry>, e: Entry, rest: seq<Entry>, n: nat,
      error: ConfigError)
    requires n <= |nodes| && Entries(nodes, n) == done + ([e] + rest)
    requires AllResolve(nodes, done) && Resolve(nodes, e) == Err(error)
    ensures FirstUnresolved(nodes, |done|, error)
  {
    EntriesPrefix(nodes, n);
    var es := AllEntries(nodes);
    assert es[..|done|] == done && es[|done|] == e;
  }

  /** All entries in file order, stopping at the first that does not resolve. */
  method Wire(nodes: seq<NodeConfig>) returns (r: Result<Wiring, ConfigError>)
    ensures r.Ok? ==> Wired(nodes, AllEntries(nodes), r.value)
    ensures r.Err? ==> exists k: nat :: FirstUnresolved(nodes, k, r.error)
  {
    var position := IndexNodes(nodes);
    r := Ok(Wiring(seq(|nodes|, i => []), [], {}));
    for i := 0 to |nodes|
      invariant r.Ok? && Wired(nodes, Entries(nodes, i), r.value)
    {
      r := WireNode(nodes, position, i, r.value);
      if r.Err? {
        return;
      }
    }
  }

  /** Entry `k` is the first that does not resolve, and `error` says why. */
  ghost predicate FirstUnresolved(nodes: seq<NodeConfig>, k: nat, error: ConfigError) {
    var es := AllEntries(nodes);
    k < |es| && AllResolve(nodes, es[..k]) && Resolve(nodes, es[k]) == Err(error)
  }

  lemma {:induction false} EntriesPrefix(nodes: seq<NodeConfig>, n: nat)
    requires n <= |nodes|
    ensures Entries(nodes, n) <= AllEntries(nodes)
    decreases |nodes| - n
  {
    if n < |nodes| {
      EntriesPrefix(nodes, n + 1);
    }
  }

  /** The first label, in file order, that no entry reads. */
  method FindUnconsumed(nodes: seq<NodeConfig>, w: Wiring) returns (missing: Option<(nat, string)>)
    requires Wired(nodes, AllEntries(nodes), w)
    ensures missing.None? ==> LabelsConsumed(nodes, |nodes|)
    ensures missing.Some? ==> var (r, output) := missing.value;
                              && r < |nodes| && LabelsConsumed(nodes, r)
                              && nodes[r].kind.Route? && output in nodes[r].kind.labels
                              && !Consumes(nodes, AllEntries(nodes), r, output)
  {
    for r := 0 to |nodes|
      invariant LabelsConsumed(nodes, r)
    {
      if nodes[r].kind.Route? {
        var labels := nodes[r].kind.labels;
        for l := 0 to |labels|
          invariant forall k :: 0 <= k < l ==> Consumes(nodes, AllEntries(nodes), r, labels[k])
        {
          if (r, labels[l]) !in w.consumed {
            return Some((r, labels[l]));
          }
        }
      }
    }
    return None;
  }

  /** All that is marked or waiting is reachable, and all a marked node leads to is marked or
      waiting. */
  ghost predicate Worklist(succ: Adjacency, sources: seq<nat>, reachable: seq<bool>, stack: seq<nat>) {
    && InRange(succ) && |reachable| == |succ|
    && (forall k :: 0 <= k < |stack| ==> stack[k] < |succ| && Reachable(succ, sources, stack[k]))
    && (forall v :: 0 <= v < |succ| && reachable[v] ==> Reachable(succ, sources, v))
    && (forall v: nat :: v in sources ==> v < |succ| && (reachable[v] || v in stack))
    && (forall v, e :: 0 <= v < |succ| && reachable[v] && 0 <= e < |succ[v]| ==>
          reachable[succ[v][e].target] || succ[v][e].target in stack)
  }

  function Targets(edges: seq<Edge>): (targets: seq<nat>)
    ensures |targets| == |edges|
    ensures forall e :: 0 <= e < |edges| ==> targets[e] == edges[e].target
  {
    seq(|edges|, e requires 0 <= e < |edges| => edges[e].target)
  }

  lemma WorklistStart(succ: Adjacency, sources: seq<nat>, reachable: seq<bool>)
    requires InRange(succ) && (forall v: nat :: v in sources ==> v < |succ|)
    requires |reachable| == |succ| && forall v :: 0 <= v < |succ| ==> !reachable[v]
    ensures Worklist(succ, sources, reachable, sources)
  {
    forall v: nat | v in sources
      ensures Reachable(succ, sources, v)
    {
      var p: seq<nat> := [v];
      assert IsPath(succ, p) && p[0] in sources && p[|p| - 1] == v;
    }
    assert forall k :: 0 <= k < |sources| ==> sources[k] in sources;
  }

  lemma WorklistStep(succ: Adjacency, sources: seq<nat>, reachable: seq<bool>, stack: seq<nat>)
    requires InRange(succ) && Worklist(succ, sources, reachable, stack) && stack != []
    ensures var v, rest := stack[|stack| - 1], stack[..|stack| - 1];
            if reachable[v] then Worklist(succ, sources, reachable, rest)
            else Worklist(succ, sources, reachable[v := true], rest + Targets(succ[v]))
  {
    var v, rest := stack[|stack| - 1], stack[..|stack| - 1];
    assert stack == rest + [v];
    assert forall u :: u in stack <==> u == v || u in rest;
    if !reachable[v] {
      var targets := Targets(succ[v]);
      forall u: nat | u in targets
        ensures u < |succ| && Reachable(succ, sources, u)
      {
        assert HasEdge(succ, v, u);
        ExtendReach(succ, sources, v, u);
      }
      assert forall u :: u in rest + targets <==> u in rest || u in targets;
      assert forall e :: 0 <= e < |succ[v]| ==> targets[e] in targets;
    }
  }

  /** With nothing waiting, exactly the reachable nodes are marked. */
  lemma WorklistDone(succ: Adjacency, sources: seq<nat>, reachable: seq<bool>, v: nat)
    requires Worklist(succ, sources, reachable, []) && v < |succ|
    ensures reachable[v] <==> Reachable(succ, sources, v)
  {
    if Reachable(succ, sources, v) {
      var closed: set<nat> := set u | 0 <= u < |reachable| && reachable[u];
      var p :| IsPath(succ, p) && p[0] in sources && p[|p| - 1] == v;
      ClosedHoldsPath(succ, closed, p);
    }
  }

  function Unmarked(marks: seq<bool>): set<nat> {
    set v | 0 <= v < |marks| && !marks[v]
  }

  method MarkReachable(succ: Adjacency, sources: seq<nat>) returns (reachable: seq<bool>)
    requires InRange(succ) && forall v: nat :: v in sources ==> v < |succ|
    ensures Worklist(succ, sources, reachable, [])
  {
    reachable := seq(|succ|, i => false);
    var stack := sources;
    WorklistStart(succ, sources, reachable);
    while stack != []
      invariant Worklist(succ, sources, reachable, stack)
      decreases Unmarked(reachable), |stack|
    {
      WorklistStep(succ, sources, reachable, stack);
      var v := stack[|stack| - 1];
      stack := stack[..|stack| - 1];
      if !reachable[v] {
        assert v in Unmarked(reachable);
        reachable := reachable[v := true];
        stack := stack + Targets(succ[v]);
      }
    }
  }

  /** The first node that data from the sources cannot reach, by a worklist. */
  method FindUnreachable(succ: Adjacency, sources: seq<nat>) returns (node: Option<nat>)
    requires InRange(succ) && forall v: nat :: v in sources ==> v < |succ|
    ensures node.None? ==> forall i :: 0 <= i < |succ| ==> Reachable(succ, sources, i)
    ensures node.Some? ==> && node.value < |succ| && !Reachable(succ, sources, node.value)
                           && forall i :: 0 <= i < node.value ==> Reachable(succ, sources, i)
  {
    var reachable := MarkReachable(succ, sources);
    for i := 0 to |succ|
      invariant forall k :: 0 <= k < i ==> Reachable(succ, sources, k)
    {
      WorklistDone(succ, sources, reachable, i);
      if !reachable[i] {
        return Some(i);
      }
    }
    return None;
  }

  function Reversed(s: seq<nat>): (r: seq<nat>)
    ensures |r| == |s|
    ensures forall k :: 0 <= k < |s| ==> r[k] == s[|s| - 1 - k]
  {
    if s == [] then [] else Reversed(s[1..]) + [s[0]]
  }

  /** `order` lists every node once, along every edge. */
  ghost predicate Topological(succ: Adjacency, order: seq<nat>) {
    && |order| == |succ|
    && Distinct(order)
    && (forall k :: 0 <= k < |order| ==> order[k] < |succ|)
    && (forall v :: 0 <= v < |succ| ==> v in order)
    && forall j, k, e ::
      0 <= j < |order| && 0 <= k < |order| && 0 <= e < |succ[order[k]]| && succ[order[k]][e].target == order[j] ==>
        k < j
  }

  /** A post-order of all nodes, read backwards, is topological. */
  lemma ReversedPostOrder(succ: Adjacency, post: seq<nat>)
    requires InRange(succ) && PostOrdered(succ, post) && forall v :: 0 <= v < |succ| ==> v in post
    ensures Topological(succ, Reversed(post))
  {
    var order := Reversed(post);
    var n := |post|;
    CountDistinct(post, |succ|);
    forall v | 0 <= v < |succ|
      ensures v in order
    {
      assert v in post;
      var k :| 0 <= k < n && post[k] == v;
      assert order[n - 1 - k] == v;
    }
    forall j, k, e | 0 <= j < n && 0 <= k < n && 0 <= e < |succ[order[k]]| && succ[order[k]][e].target == order[j]
      ensures k < j
    {
      assert order[k] == post[n - 1 - k];
      assert succ[post[n - 1 - k]][e].target in post[..n - 1 - k];
    }
  }

  /** A list of each number below `n`, once, has length `n`. */
  lemma {:induction false} CountDistinct(s: seq<nat>, n: nat)
    requires Distinct(s) && (forall k :: 0 <= k < |s| ==> s[k] < n) && forall v :: 0 <= v < n ==> v in s
    ensures |s| == n
  {
    if n > 0 {
      assert n - 1 in s;
      var k :| 0 <= k < |s| && s[k] == n - 1;
      var t := s[..k] + s[k + 1..];
      forall v | 0 <= v < n - 1
        ensures v in t
      {
        assert v in s;
        var j :| 0 <= j < |s| && s[j] == v;
        assert t[if j < k then j else j - 1] == v;
      }
      CountDistinct(t, n - 1);
    }
  }

  /** Search from every source successor in turn. */
  method Sort(succ: Adjacency, sources: seq<nat>) returns (r: Result<seq<nat>, nat>)
    requires InRange(succ) && forall v: nat :: v in sources ==> v < |succ|
    requires forall i :: 0 <= i < |succ| ==> Reachable(succ, sources, i)
    ensures r.Ok? ==> Topological(succ, r.value)
    ensures r.Err? ==> r.error < |succ| && OnCycle(succ, r.error)
  {
    var search := new Search(succ);
    for s := 0 to |sources|
      invariant search.succ == succ && search.Valid()
      invariant forall k :: 0 <= k < s ==> sources[k] in search.postOrder
    {
      assert sources[s] in sources;
      var cycle := search.Visit(sources[s]);
      if cycle.Some? {
        return Err(cycle.value);
      }
    }
    ghost var done: set<nat> := set v | v in search.postOrder;
    PostOrderIsClosed(succ, search.postOrder);
    forall v | 0 <= v < |succ|
      ensures v in search.postOrder
    {
      assert Reachable(succ, sources, v);
      var p :| IsPath(succ, p) && p[0] in sources && p[|p| - 1] == v;
      ClosedHoldsPath(succ, done, p);
    }
    ReversedPostOrder(succ, search.postOrder);
    return Ok(Reversed(search.postOrder));
  }

  lemma PostOrderIsClosed(succ: Adjacency, post: seq<nat>)
    requires PostOrdered(succ, post)
    ensures forall u, v :: u in post && HasEdge(succ, u, v) ==> v in post
  {
    forall u, v | u in post && HasEdge(succ, u, v)
      ensures v in post
    {
      var k :| 0 <= k < |post| && post[k] == u;
      var e :| 0 <= e < |succ[u]| && succ[u][e].target == v;
      assert succ[post[k]][e].target in post[..k];
    }
  }

  /** `newIndex` gives each node its place in `order`. */
  ghost predicate Inverts(succ: Adjacency, order: seq<nat>, newIndex: seq<nat>) {
    |newIndex| == |succ| && forall v :: 0 <= v < |succ| ==> newIndex[v] < |order| && order[newIndex[v]] == v
  }

  method Invert(succ: Adjacency, order: seq<nat>) returns (newIndex: seq<nat>)
    requires Topological(succ, order)
    ensures Inverts(succ, order, newIndex)
  {
    newIndex := seq(|succ|, i => 0);
    for k := 0 to |order|
      invariant |newIndex| == |succ|
      invariant forall j :: 0 <= j < k ==> newIndex[order[j]] == j
    {
      newIndex := newIndex[order[k] := k];
    }
    forall v | 0 <= v < |succ|
      ensures newIndex[v] < |order| && order[newIndex[v]] == v
    {
      assert v in order;
      var k :| 0 <= k < |order| && order[k] == v;
    }
  }

  lemma RemappedClimbs(succ: Adjacency, order: seq<nat>, newIndex: seq<nat>, k: nat, e: nat)
    requires InRange(succ) && Topological(succ, order) && Inverts(succ, order, newIndex)
    requires k < |order| && e < |succ[order[k]]|
    ensures var edge := Remapped(succ[order[k]], newIndex)[e];
            && k < edge.target < |order|
            && order[edge.target] == succ[order[k]][e].target
            && edge.output == succ[order[k]][e].output
  {
    var j := newIndex[succ[order[k]][e].target];
    assert succ[order[k]][e].target == order[j];
  }

  /** The graph with nodes numbered by their place in `order`. */
  method Renumber(nodes: seq<NodeConfig>, succ: Adjacency, sources: seq<nat>, order: seq<nat>) returns (dag: Dag)
    requires succ == SuccessorsOf(nodes) && sources == SourcesOf(nodes) && Topological(succ, order)
    ensures Renumbers(nodes, dag, order)
  {
    hide SuccessorsOf, SourcesOf, OutEdges, SourceFeeds, Resolve;
    var newIndex := Invert(succ, order);
    var edges: Adjacency := [];
    var renamed: seq<NodeConfig> := [];
    for k := 0 to |order|
      invariant |edges| == |renamed| == k
      invariant forall j :: 0 <= j < k ==> renamed[j] == nodes[order[j]]
      invariant forall j :: 0 <= j < k ==> edges[j] == Remapped(succ[order[j]], newIndex)
    {
      renamed := renamed + [nodes[order[k]]];
      edges := edges + [Remapped(succ[order[k]], newIndex)];
    }
    forall k, e | 0 <= k < |order| && 0 <= e < |edges[k]|
      ensures k < edges[k][e].target < |order|
      ensures order[edges[k][e].target] == succ[order[k]][e].target
      ensures edges[k][e].output == succ[order[k]][e].output
    {
      assert edges[k] == Remapped(succ[order[k]], newIndex);
      RemappedClimbs(succ, order, newIndex, k, e);
    }
    dag := Dag(renamed, edges, seq(|sources|, i requires 0 <= i < |sources| => newIndex[sources[i]]));
  }

  function Remapped(edges: seq<Edge>, newIndex: seq<nat>): seq<Edge>
    requires forall e :: 0 <= e < |edges| ==> edges[e].target < |newIndex|
  {
    seq(|edges|, e requires 0 <= e < |edges| => Edge(newIndex[edges[e].target], edges[e].output))
  }

  /** A topological order leaves no room for a cycle. */
  lemma TopologicalIsAcyclic(succ: Adjacency, order: seq<nat>)
    requires InRange(succ) && Topological(succ, order)
    ensures Acyclic(succ)
  {
    var rank := seq(|succ|, v requires 0 <= v < |succ| => PlaceOf(succ, order, v));
    assert Climbs(succ, rank);
    ClimbingIsAcyclic(succ, rank);
  }

  ghost function PlaceOf(succ: Adjacency, order: seq<nat>, v: nat): (k: nat)
    requires Topological(succ, order) && v < |succ|
    ensures k < |order| && order[k] == v
  {
    assert v in order;
    var k :| 0 <= k < |order| && order[k] == v;
    k
  }

  ghost predicate Sound(nodes: seq<NodeConfig>) {
    HasSink(nodes) && AllResolve(nodes, AllEntries(nodes)) && LabelsConsumed(nodes, |nodes|)
  }

  ghost predicate ValidConfig(nodes: seq<NodeConfig>) {
    Sound(nodes) && AllReachable(nodes) && Acyclic(SuccessorsOf(nodes))
  }

  /** What an error says of the configuration: the fault is there, no fault of an earlier kind
      is, and it is the first of its kind in file order (a cycle: some cycle). */
  ghost predicate Blames(nodes: seq<NodeConfig>, error: ConfigError) {
    match error
    case NoSink => !HasSink(nodes)
    case UnconsumedRouteLabel(r, output) =>
      && HasSink(nodes) && AllResolve(nodes, AllEntries(nodes))
      && r < |nodes| && LabelsConsumed(nodes, r)
      && nodes[r].kind.Route? && output in nodes[r].kind.labels
      && !Consumes(nodes, AllEntries(nodes), r, output)
    case Unreachable(v) =>
      && Sound(nodes)
      && v < |nodes| && !Reachable(SuccessorsOf(nodes), SourcesOf(nodes), v)
      && forall i :: 0 <= i < v ==> Reachable(SuccessorsOf(nodes), SourcesOf(nodes), i)
    case Cycle(v) => Sound(nodes) && AllReachable(nodes) && v < |nodes| && OnCycle(SuccessorsOf(nodes), v)
    case _ => HasSink(nodes) && exists k: nat :: FirstUnresolved(nodes, k, error)
  }

  lemma BlameIsFair(nodes: seq<NodeConfig>, error: ConfigError)
    requires Blames(nodes, error)
    ensures !ValidConfig(nodes)
  {
    match error
    case NoSink =>
    case UnconsumedRouteLabel(_, _) =>
    case Unreachable(_) =>
    case Cycle(_) =>
    case _ =>
      var k: nat :| FirstUnresolved(nodes, k, error);
      assert Resolve(nodes, AllEntries(nodes)[k]) == Err(error);
  }

  /** The checks and the sort once the wiring is known. */
  method Arrange(nodes: seq<NodeConfig>, w: Wiring) returns (r: Result<Dag, ConfigError>)
    requires HasSink(nodes) && Wired(nodes, AllEntries(nodes), w)
    ensures r.Ok? ==> ValidConfig(nodes) && exists order :: Renumbers(nodes, r.value, order)
    ensures r.Err? ==> Blames(nodes, r.error)
  {
    assert w.succ == SuccessorsOf(nodes) && w.sources == SourcesOf(nodes);
    var missing := FindUnconsumed(nodes, w);
    if missing.Some? {
      return Err(UnconsumedRouteLabel(missing.value.0, missing.value.1));
    }
    assert Sound(nodes);
    var unreachable := FindUnreachable(w.succ, w.sources);
    if unreachable.Some? {
      return Err(Unreachable(unreachable.value));
    }
    assert AllReachable(nodes);
    var sorted := Sort(w.succ, w.sources);
    if sorted.Err? {
      return Err(Cycle(sorted.error));
    }
    TopologicalIsAcyclic(w.succ, sorted.value);
    var dag := Renumber(nodes, w.succ, w.sources, sorted.value);
    return Ok(dag);
  }

  /** `Dag::from_config`. It succeeds exactly on configurations that have a sink, resolve,
      leave no label unread, reach every node and have no cycle; the graph is then the
      configured one renumbered so that every edge climbs. Otherwise the error is fair. */
  method FromConfig(nodes: seq<NodeConfig>) returns (r: Result<Dag, ConfigError>)
    ensures r.Ok? <==> ValidConfig(nodes)
    ensures r.Ok? ==> exists order :: Renumbers(nodes, r.value, order)
    ensures r.Err? ==> Blames(nodes, r.error)
  {
    var hasSink := FindSink(nodes);
    if !hasSink {
      return Err(NoSink);
    }
    var wired := Wire(nodes);
    if wired.Err? {
      ghost var k: nat :| FirstUnresolved(nodes, k, wired.error);
      BlameIsFair(nodes, wired.error);
      return Err(wired.error);
    }
    r := Arrange(nodes, wired.value);
    if r.Err? {
      BlameIsFair(nodes, r.error);
    }
  }

  // ----- what the built graph means -----

  predicate MakesEdge(nodes: seq<NodeConfig>, e: Entry, t: nat, edge: Edge) {
    e.consumer == edge.target && Resolve(nodes, e) == Ok(FromNode(t, edge.output))
  }

  predicate SomeMakesEdge(nodes: seq<NodeConfig>, es: seq<Entry>, t: nat, edge: Edge) {
    exists k :: 0 <= k < |es| && MakesEdge(nodes, es[k], t, edge)
  }

  lemma LastEntryEdge(nodes: seq<NodeConfig>, es: seq<Entry>, t: nat, edge: Edge)
    requires t < |nodes| && es != []
    ensures edge in OutEdges(nodes, es, t) <==>
            edge in OutEdges(nodes, es[..|es| - 1], t)
              || (!nodes[t].kind.Sink? && MakesEdge(nodes, es[|es| - 1], t, edge))
  {
  }

  lemma LastEntryMakes(nodes: seq<NodeConfig>, es: seq<Entry>, t: nat, edge: Edge)
    requires es != []
    ensures SomeMakesEdge(nodes, es, t, edge) <==>
            SomeMakesEdge(nodes, es[..|es| - 1], t, edge) || MakesEdge(nodes, es[|es| - 1], t, edge)
  {
    var init := es[..|es| - 1];
    if SomeMakesEdge(nodes, init, t, edge) {
      var k :| 0 <= k < |init| && MakesEdge(nodes, init[k], t, edge);
      assert es[k] == init[k];
    }
    if SomeMakesEdge(nodes, es, t, edge) && !MakesEdge(nodes, es[|es| - 1], t, edge) {
      var k :| 0 <= k < |es| && MakesEdge(nodes, es[k], t, edge);
      assert es[k] == init[k];
    }
  }

  /** An edge is a `from` entry and a `from` entry is an edge, but out of a sink. */
  lemma {:induction false} EdgesAreEntries(nodes: seq<NodeConfig>, es: seq<Entry>, t: nat, edge: Edge)
    requires t < |nodes|
    ensures edge in OutEdges(nodes, es, t) <==> !nodes[t].kind.Sink? && SomeMakesEdge(nodes, es, t, edge)
  {
    if es != [] {
      EdgesAreEntries(nodes, es[..|es| - 1], t, edge);
      LastEntryEdge(nodes, es, t, edge);
      LastEntryMakes(nodes, es, t, edge);
    }
  }

  /** In a built graph every label a route declares is on one of its edges, so whatever it sends
      under a declared label has somewhere to go. */
  lemma DeclaredLabelsAreRead(nodes: seq<NodeConfig>, dag: Dag, order: seq<nat>, k: nat, output: string)
    requires ValidConfig(nodes) && Renumbers(nodes, dag, order)
    requires k < |dag.nodes| && dag.nodes[k].kind.Route? && output in dag.nodes[k].kind.labels
    ensures exists e :: 0 <= e < |dag.edges[k]| && dag.edges[k][e].output == Some(output)
  {
    var es, t := AllEntries(nodes), order[k];
    assert LabelsConsumed(nodes, |nodes|);
    assert Consumes(nodes, es, t, output);
    var i :| 0 <= i < |es| && Resolve(nodes, es[i]) == Ok(FromNode(t, Some(output)));
    var edge := Edge(es[i].consumer, Some(output));
    assert MakesEdge(nodes, es[i], t, edge);
    EdgesAreEntries(nodes, es, t, edge);
    var edges := SuccessorsOf(nodes)[t];
    var e :| 0 <= e < |edges| && edges[e] == edge;
    assert dag.edges[k][e].output == edges[e].output;
  }
}
