/** The orchestrator of utils/fusion_graph_builder/__init__.py: one expansion
    round `_expand_once` and the bounded round loop `build_fusion_graph`. A
    round reaches the relevance filter and the three adapters through an
    `Adapters` record of function values; `Wire` plugs in the adapter models
    of this project over a `Services` record of oracles for the language
    model and the knowledge sources. The module constants become a `Config`. */
module Fusion {
  import opened Wrappers
  import opened Text
  import opened Seqs
  import opened Edges
  import opened Terms
  import opened Seeds
  import Json
  import opened RelevanceFilter
  import Concept
  import Entity
  import TermDefinition

  /** Which adapters run, and whether definition edges are kept. */
  datatype Flags = Flags(
    includeTdgEdges: bool,
    useConceptGraph: bool,
    useEntityGraph: bool,
    useTermDefinitionGraph: bool)

  /** The keyword arguments of `build_fusion_graph` that shape the graph. */
  datatype Config = Config(
    rounds: int,
    conceptMinWeight: real,
    conceptMax: Option<int>,
    entityMax: Option<int>,
    flags: Flags)

  /** The module-level defaults. */
  const Defaults: Config := Config(2, 4.0, Some(3), Some(3), Flags(false, true, true, true))

  /** The outside world. `filter` is the relevance model's reply for a
      candidate list; `conceptnet` answers the ConceptNet request for a lookup
      term; `define` is the definition model's reply for a keyword. */
  datatype Services = Services(
    filter: seq<string> -> FilterReply,
    conceptnet: string -> Fetched<seq<Concept.ConceptEdge>>,
    dbpedia: Entity.DBpedia,
    define: string -> TermDefinition.Reply)

  /** The calls one round makes, as function values: the relevance filter
      and the three adapters. */
  datatype Adapters = Adapters(
    pick: seq<string> -> seq<string>,
    concept: string -> seq<Triple>,
    entity: string -> seq<Triple>,
    define: string -> seq<Triple>)

  /** The calls `_expand_once` makes, with their arguments: the ConceptNet
      adapter with the minimum weight and `concept_max`, the DBpedia adapter
      with `entity_max` and Wikipedia links excluded, and the definition
      adapter. */
  function Wire(s: Services, cfg: Config): Adapters {
    Adapters(
      agents => PickHardAgents(s.filter(agents), agents),
      agent => Concept.ConceptTriples(s.conceptnet(Concept.NormTerm(agent)), {}, cfg.conceptMinWeight, cfg.conceptMax),
      agent => Entity.EntityTriples(s.dbpedia, agent, {}, cfg.entityMax, true),
      agent => TermDefinition.BuildTermDefinitionTriples(s.define(agent), agent))
  }

  function TargetOf(t: Triple): string {
    t.target
  }

  /** The edges one agent adds to the round, in the order the adapters run. */
  function AgentEdges(ad: Adapters, fl: Flags): string -> seq<Edge> {
    agent =>
      (if fl.useConceptGraph then Tag(ad.concept(agent), Concept) else [])
      + (if fl.useEntityGraph then Tag(ad.entity(agent), Entity) else [])
      + (if fl.useTermDefinitionGraph && fl.includeTdgEdges then Tag(ad.define(agent), TermDefinition) else [])
  }

  /** The targets one agent enqueues: those of its concept and entity triples. */
  function AgentTargets(ad: Adapters, fl: Flags): string -> seq<string> {
    agent =>
      (if fl.useConceptGraph then Map(TargetOf, ad.concept(agent)) else [])
      + (if fl.useEntityGraph then Map(TargetOf, ad.entity(agent)) else [])
  }

  /** `if not hard_agents: hard_agents = list(agent_list)`. */
  function Fallback(picked: seq<string>, agents: seq<string>): seq<string> {
    if |picked| == 0 then agents else picked
  }

  /** The agents a round expands: the filter's selection, or every agent when
      the filter selects nothing. */
  function HardAgents(ad: Adapters, agents: seq<string>): (r: seq<string>)
    ensures |r| == 0 ==> |agents| == 0
    ensures ad.pick(agents) == [] ==> r == agents
    ensures ad.pick(agents) != [] ==> r == ad.pick(agents)
  {
    Fallback(ad.pick(agents), agents)
  }

  /** With the relevance filter wired in, a round expands a non-empty,
      case-insensitively distinct selection of its agents, or all of them. */
  lemma WiredHardAgents(s: Services, cfg: Config, agents: seq<string>)
    ensures forall i :: 0 <= i < |HardAgents(Wire(s, cfg), agents)| ==> HardAgents(Wire(s, cfg), agents)[i] in agents
    ensures |HardAgents(Wire(s, cfg), agents)| == 0 <==> |agents| == 0
    ensures HardAgents(Wire(s, cfg), agents) == agents || KeysDistinct(HardAgents(Wire(s, cfg), agents), Lower)
    ensures PickHardAgents(s.filter(agents), agents) == [] ==> HardAgents(Wire(s, cfg), agents) == agents
  {
    assert Wire(s, cfg).pick(agents) == PickHardAgents(s.filter(agents), agents);
  }

  /** What one round returns: its deduplicated edges and the next frontier. */
  datatype Round = Round(edges: seq<Edge>, next: seq<string>)

  /** The next frontier from the enqueued targets: normalised, non-empty,
      distinct ignoring case, and none of the agents just expanded. */
  function Frontier(queue: seq<string>, agents: seq<string>): (r: seq<string>)
    ensures forall i :: 0 <= i < |r| ==> r[i] != "" && Normalized(r[i]) && Lower(r[i]) !in LowerSet(agents)
    ensures KeysDistinct(r, Lower)
    ensures LowerSet(r) == OkKeys(Map(Norm, queue), Lower, Admits(LowerSet(agents)))
  {
    var next := DistinctCI(Map(Norm, queue), LowerSet(agents));
    forall i | 0 <= i < |next| ensures Normalized(next[i]) {
      var j :| 0 <= j < |queue| && Map(Norm, queue)[j] == next[i];
      NormNormalized(queue[j]);
    }
    next
  }

  /** The body of `_expand_once` after the selection: every adapter on every
      selected agent, the edges deduplicated and the targets made a frontier. */
  function Explore(ad: Adapters, fl: Flags, agents: seq<string>, hard: seq<string>): Round {
    Round(Dedup(FlatMap(AgentEdges(ad, fl), hard)), Frontier(FlatMap(AgentTargets(ad, fl), hard), agents))
  }

  /** `_expand_once`: the round's edges cover the complete keys of everything
      the selected agents' adapters returned, and the next frontier covers
      every new target they enqueued. */
  function Expand(ad: Adapters, fl: Flags, agents: seq<string>): (r: Round)
    ensures forall i :: 0 <= i < |r.edges| ==> Complete(r.edges[i]) && NormalizedEdge(r.edges[i])
    ensures KeysDistinct(r.edges, KeyOf)
    ensures KeysOf(r.edges, KeyOf)
         == OkKeys(Map(NormEdge, FlatMap(AgentEdges(ad, fl), HardAgents(ad, agents))), KeyOf, Complete)
    ensures forall i :: 0 <= i < |r.next| ==>
              r.next[i] != "" && Normalized(r.next[i]) && Lower(r.next[i]) !in LowerSet(agents)
    ensures KeysDistinct(r.next, Lower)
    ensures LowerSet(r.next)
         == OkKeys(Map(Norm, FlatMap(AgentTargets(ad, fl), HardAgents(ad, agents))), Lower, Admits(LowerSet(agents)))
  {
    Explore(ad, fl, agents, HardAgents(ad, agents))
  }

  /** A round keeps exactly the first complete occurrence of every edge key,
      and the first admitted spelling of every target, in adapter order. */
  lemma ExpandIsFirsts(ad: Adapters, fl: Flags, agents: seq<string>)
    ensures Expand(ad, fl, agents).edges
         == Firsts(Map(NormEdge, FlatMap(AgentEdges(ad, fl), HardAgents(ad, agents))), KeyOf, Complete)
    ensures Expand(ad, fl, agents).next
         == Firsts(Map(Norm, FlatMap(AgentTargets(ad, fl), HardAgents(ad, agents))), Lower, Admits(LowerSet(agents)))
  {
    var hard := HardAgents(ad, agents);
    DedupIsFirstOccurrences(FlatMap(AgentEdges(ad, fl), hard));
    DistinctCIIsFirsts(Map(Norm, FlatMap(AgentTargets(ad, fl), hard)), LowerSet(agents));
  }

  /** Nothing an expanded agent's adapters return is lost: a complete edge
      reaches the round's edges, up to its key. */
  lemma ExpandCoversEdge(ad: Adapters, fl: Flags, agents: seq<string>, k: nat, j: nat)
    requires k < |HardAgents(ad, agents)|
    ensures j < |AgentEdges(ad, fl)(HardAgents(ad, agents)[k])|
            && Complete(NormEdge(AgentEdges(ad, fl)(HardAgents(ad, agents)[k])[j]))
            ==> KeyOf(NormEdge(AgentEdges(ad, fl)(HardAgents(ad, agents)[k])[j])) in KeysOf(Expand(ad, fl, agents).edges, KeyOf)
  {
    var hard := HardAgents(ad, agents);
    var es := FlatMap(AgentEdges(ad, fl), hard);
    if j < |AgentEdges(ad, fl)(hard[k])| {
      var e := AgentEdges(ad, fl)(hard[k])[j];
      FlatMapMember(AgentEdges(ad, fl), hard, k, j);
      var m :| 0 <= m < |es| && es[m] == e;
      assert Map(NormEdge, es)[m] == NormEdge(e);
    }
  }

  /** Likewise a new non-blank target of an expanded agent reaches the next
      frontier, up to case. */
  lemma ExpandCoversTarget(ad: Adapters, fl: Flags, agents: seq<string>, k: nat, j: nat)
    requires k < |HardAgents(ad, agents)|
    ensures j < |AgentTargets(ad, fl)(HardAgents(ad, agents)[k])|
            && Admits(LowerSet(agents))(Norm(AgentTargets(ad, fl)(HardAgents(ad, agents)[k])[j]))
            ==> Lower(Norm(AgentTargets(ad, fl)(HardAgents(ad, agents)[k])[j])) in LowerSet(Expand(ad, fl, agents).next)
  {
    var hard := HardAgents(ad, agents);
    var ts := FlatMap(AgentTargets(ad, fl), hard);
    if j < |AgentTargets(ad, fl)(hard[k])| {
      var t := AgentTargets(ad, fl)(hard[k])[j];
      FlatMapMember(AgentTargets(ad, fl), hard, k, j);
      var m :| 0 <= m < |ts| && ts[m] == t;
      assert Map(Norm, ts)[m] == Norm(t);
    }
  }

  /** The tags an expansion round may produce under a configuration. */
  predicate Enabled(fl: Flags, g: GraphTag) {
    match g
    case Eventic => false
    case Concept => fl.useConceptGraph
    case Entity => fl.useEntityGraph
    case TermDefinition => fl.useTermDefinitionGraph && fl.includeTdgEdges
  }

  lemma AgentEdgesTags(ad: Adapters, fl: Flags, agent: string, j: nat)
    requires j < |AgentEdges(ad, fl)(agent)|
    ensures Enabled(fl, AgentEdges(ad, fl)(agent)[j].graph)
  {
    var c := if fl.useConceptGraph then Tag(ad.concept(agent), Concept) else [];
    var e := if fl.useEntityGraph then Tag(ad.entity(agent), Entity) else [];
    var d := if fl.useTermDefinitionGraph && fl.includeTdgEdges then Tag(ad.define(agent), TermDefinition) else [];
    assert AgentEdges(ad, fl)(agent) == c + e + d;
    if j < |c| {
      assert (c + e + d)[j] == c[j];
    } else if j < |c| + |e| {
      assert (c + e + d)[j] == e[j - |c|];
    } else {
      assert (c + e + d)[j] == d[j - |c| - |e|];
    }
  }

  /** A round's edges carry only the tags of the enabled adapters: never
      `eventic`, and `term_definition` only when those edges are included. */
  lemma ExpandTags(ad: Adapters, fl: Flags, agents: seq<string>)
    ensures forall i :: 0 <= i < |Expand(ad, fl, agents).edges| ==> Enabled(fl, Expand(ad, fl, agents).edges[i].graph)
  {
    var hard := HardAgents(ad, agents);
    var f := AgentEdges(ad, fl);
    forall i, j | 0 <= i < |hard| && 0 <= j < |f(hard[i])| ensures Enabled(fl, f(hard[i])[j].graph) {
      AgentEdgesTags(ad, fl, hard[i], j);
    }
    FlatMapAll(f, hard, (e: Edge) => Enabled(fl, e.graph));
    DedupTags(FlatMap(f, hard), (g: GraphTag) => Enabled(fl, g));
  }

  /** The next frontier is fed by concept and entity targets only: switching
      the definition adapter off, or answering it differently, leaves it
      unchanged. */
  lemma FrontierIgnoresDefinitions(ad: Adapters, fl: Flags, agents: seq<string>, define: string -> seq<Triple>)
    ensures Expand(ad, fl, agents).next
         == Expand(ad.(define := define), fl.(useTermDefinitionGraph := false, includeTdgEdges := false), agents).next
  {
    var ad' := ad.(define := define);
    var fl' := fl.(useTermDefinitionGraph := false, includeTdgEdges := false);
    var hard := HardAgents(ad, agents);
    assert hard == HardAgents(ad', agents);
    FlatMapAgree(AgentTargets(ad, fl), AgentTargets(ad', fl'), hard);
  }

  function NoTargets(agent: string): seq<string> {
    []
  }

  /** With both the concept and the entity adapter off, nothing is enqueued
      and the loop stops after one round. */
  lemma NoLookupsNoFrontier(ad: Adapters, fl: Flags, agents: seq<string>)
    requires !fl.useConceptGraph && !fl.useEntityGraph
    ensures Expand(ad, fl, agents).next == []
  {
    var hard := HardAgents(ad, agents);
    FlatMapAgree(AgentTargets(ad, fl), NoTargets, hard);
    FlatMapNone(NoTargets, hard);
  }

  /** One round as a function value, so the loop below can be reasoned about
      without unfolding a round. */
  function Step(ad: Adapters, fl: Flags): seq<string> -> Round {
    q => Expand(ad, fl, q)
  }

  /** The frontiers the loop expands, one per round actually run: at most
      `n`, none of them empty, the first being the initial queue. */
  function Frontiers(step: seq<string> -> Round, queue: seq<string>, n: nat): (r: seq<seq<string>>)
    ensures |r| <= n
    ensures forall i :: 0 <= i < |r| ==> |r[i]| > 0
    ensures |r| > 0 ==> r[0] == queue
    ensures |r| == 0 <==> n == 0 || |queue| == 0
    decreases n
  {
    if n == 0 || |queue| == 0 then []
    else [queue] + Frontiers(step, step(queue).next, n - 1)
  }

  /** Each frontier after the first is the one its predecessor's round
      produced, and the loop stops early only on an empty frontier. */
  lemma {:induction false} FrontiersChain(step: seq<string> -> Round, queue: seq<string>, n: nat)
    ensures forall i :: 0 <= i < |Frontiers(step, queue, n)| - 1 ==>
              Frontiers(step, queue, n)[i + 1] == step(Frontiers(step, queue, n)[i]).next
    ensures 0 < |Frontiers(step, queue, n)| < n ==>
              step(Frontiers(step, queue, n)[|Frontiers(step, queue, n)| - 1]).next == []
    decreases n
  {
    if n > 0 && |queue| > 0 {
      var next := step(queue).next;
      FrontiersChain(step, next, n - 1);
      var fs := Frontiers(step, next, n - 1);
      var r := Frontiers(step, queue, n);
      assert r == [queue] + fs;
      forall i | 0 <= i < |r| - 1 ensures r[i + 1] == step(r[i]).next {
        if i > 0 {
          assert r[i] == fs[i - 1] && r[i + 1] == fs[i];
        }
      }
      if 0 < |r| < n && |fs| > 0 {
        assert r[|r| - 1] == fs[|fs| - 1];
      }
    }
  }

  /** Every frontier after the first is made of non-empty, normalised terms,
      distinct ignoring case, none of which was in the frontier before it. */
  lemma FrontiersWellFormed(ad: Adapters, fl: Flags, queue: seq<string>, n: nat, i: nat)
    requires 0 < i < |Frontiers(Step(ad, fl), queue, n)|
    ensures forall j :: 0 <= j < |Frontiers(Step(ad, fl), queue, n)[i]| ==>
              Frontiers(Step(ad, fl), queue, n)[i][j] != "" && Normalized(Frontiers(Step(ad, fl), queue, n)[i][j])
    ensures KeysDistinct(Frontiers(Step(ad, fl), queue, n)[i], Lower)
    ensures KeysOf(Frontiers(Step(ad, fl), queue, n)[i], Lower) !! LowerSet(Frontiers(Step(ad, fl), queue, n)[i - 1])
  {
    var fs := Frontiers(Step(ad, fl), queue, n);
    FrontiersChain(Step(ad, fl), queue, n);
    var prev := fs[i - 1];
    assert fs[i] == Expand(ad, fl, prev).next;
  }

  /** The edges of the loop, round after round, before the final dedup. */
  function Rounds(step: seq<string> -> Round, queue: seq<string>, n: nat): seq<Edge>
    decreases n
  {
    if n == 0 || |queue| == 0 then []
    else step(queue).edges + Rounds(step, step(queue).next, n - 1)
  }

  function EdgesOf(step: seq<string> -> Round): seq<string> -> seq<Edge> {
    q => step(q).edges
  }

  /** The edges of the loop are exactly the edges of expanding each frontier
      in turn. */
  lemma {:induction false} RoundsAreExpansions(step: seq<string> -> Round, queue: seq<string>, n: nat)
    ensures Rounds(step, queue, n) == FlatMap(EdgesOf(step), Frontiers(step, queue, n))
    decreases n
  {
    if n > 0 && |queue| > 0 {
      var next := step(queue).next;
      RoundsAreExpansions(step, next, n - 1);
      var fs := Frontiers(step, next, n - 1);
      assert Frontiers(step, queue, n) == [queue] + fs;
      FlatMapCons(EdgesOf(step), queue, fs);
    }
  }

  /** One more round only appends edges. */
  lemma {:induction false} RoundsGrow(step: seq<string> -> Round, queue: seq<string>, n: nat)
    ensures |Rounds(step, queue, n)| <= |Rounds(step, queue, n + 1)|
    ensures Rounds(step, queue, n + 1)[..|Rounds(step, queue, n)|] == Rounds(step, queue, n)
    decreases n
  {
    if n > 0 && |queue| > 0 {
      var edges := step(queue).edges;
      RoundsGrow(step, step(queue).next, n - 1);
      var a := Rounds(step, step(queue).next, n - 1);
      var b := Rounds(step, step(queue).next, n);
      assert (edges + b)[..|edges + a|] == edges + b[..|a|];
    }
  }

  /** A tag property every round keeps holds of every edge of the loop. */
  lemma {:induction false} RoundsTags(step: seq<string> -> Round, queue: seq<string>, n: nat, P: GraphTag -> bool)
    requires forall q, i :: 0 <= i < |step(q).edges| ==> P(step(q).edges[i].graph)
    ensures forall i :: 0 <= i < |Rounds(step, queue, n)| ==> P(Rounds(step, queue, n)[i].graph)
    decreases n
  {
    if n > 0 && |queue| > 0 {
      var edges: seq<Edge> := step(queue).edges;
      RoundsTags(step, step(queue).next, n - 1, P);
      var rest: seq<Edge> := Rounds(step, step(queue).next, n - 1);
      forall i | 0 <= i < |edges + rest| ensures P((edges + rest)[i].graph) {
        if i >= |edges| {
          assert (edges + rest)[i] == rest[i - |edges|];
        }
      }
    }
  }

  /** The number of rounds the loop is allowed: `max(0, int(rounds))`. */
  function Budget(rounds: int): (r: nat)
    ensures r == 0 <==> rounds <= 0
    ensures rounds >= 0 ==> r == rounds
  {
    if rounds < 0 then 0 else rounds
  }

  /** The seed edges followed by the edges of `n` rounds from `agents`,
      deduplicated once at the end: every complete key of the seeds and of
      the rounds is represented once, and the seeds' own dedup is a prefix. */
  function Grow(step: seq<string> -> Round, seeds: seq<Edge>, agents: seq<string>, n: nat): (r: seq<Edge>)
    ensures forall i :: 0 <= i < |r| ==> Complete(r[i]) && NormalizedEdge(r[i])
    ensures KeysDistinct(r, KeyOf)
    ensures KeysOf(r, KeyOf) == OkKeys(Map(NormEdge, seeds + Rounds(step, agents, n)), KeyOf, Complete)
    ensures |Dedup(seeds)| <= |r|
    ensures r[..|Dedup(seeds)|] == Dedup(seeds)
  {
    DedupPrefix(seeds, Rounds(step, agents, n));
    Dedup(seeds + Rounds(step, agents, n))
  }

  /** `build_fusion_graph` over a given round function: the seed edges, then
      every round's edges, through one final dedup. */
  function Build(step: seq<string> -> Round, rounds: int, rows: seq<Row>): (r: seq<Edge>)
    ensures forall i :: 0 <= i < |r| ==> Complete(r[i]) && NormalizedEdge(r[i])
    ensures KeysDistinct(r, KeyOf)
    ensures KeysOf(r, KeyOf)
         == OkKeys(Map(NormEdge, EventicToTriples(rows) + Rounds(step, ExtractAgents(rows), Budget(rounds))), KeyOf, Complete)
  {
    Grow(step, EventicToTriples(rows), ExtractAgents(rows), Budget(rounds))
  }

  /** The graph is the first complete occurrence of every edge key among the
      seed edges followed by each frontier's round edges in turn. */
  lemma BuildIsFirsts(step: seq<string> -> Round, rounds: int, rows: seq<Row>)
    ensures Build(step, rounds, rows)
         == Firsts(Map(NormEdge, EventicToTriples(rows)
                                 + FlatMap(EdgesOf(step), Frontiers(step, ExtractAgents(rows), Budget(rounds)))),
                   KeyOf, Complete)
  {
    var seeds, agents := EventicToTriples(rows), ExtractAgents(rows);
    RoundsAreExpansions(step, agents, Budget(rounds));
    DedupIsFirstOccurrences(seeds + Rounds(step, agents, Budget(rounds)));
  }

  /** Every complete edge of every round run reaches the graph, up to its key:
      the rounds' edges are a subset of the output. */
  lemma RoundEdgesReachGraph(step: seq<string> -> Round, rounds: int, rows: seq<Row>, i: nat, j: nat)
    requires i < |Frontiers(step, ExtractAgents(rows), Budget(rounds))|
    requires j < |step(Frontiers(step, ExtractAgents(rows), Budget(rounds))[i]).edges|
    requires Complete(NormEdge(step(Frontiers(step, ExtractAgents(rows), Budget(rounds))[i]).edges[j]))
    ensures KeyOf(NormEdge(step(Frontiers(step, ExtractAgents(rows), Budget(rounds))[i]).edges[j]))
            in KeysOf(Build(step, rounds, rows), KeyOf)
  {
    var seeds, agents, n := EventicToTriples(rows), ExtractAgents(rows), Budget(rounds);
    RoundEdgeInRounds(step, agents, n, i, j);
    GrowCoversRounds(step, seeds, agents, n, step(Frontiers(step, agents, n)[i]).edges[j]);
    BuildIsGrow(step, rounds, rows);
  }

  lemma RoundEdgeInRounds(step: seq<string> -> Round, agents: seq<string>, n: nat, i: nat, j: nat)
    requires i < |Frontiers(step, agents, n)|
    requires j < |step(Frontiers(step, agents, n)[i]).edges|
    ensures step(Frontiers(step, agents, n)[i]).edges[j] in Rounds(step, agents, n)
  {
    var fs := Frontiers(step, agents, n);
    RoundsAreExpansions(step, agents, n);
    assert EdgesOf(step)(fs[i]) == step(fs[i]).edges;
    FlatMapMember(EdgesOf(step), fs, i, j);
  }

  lemma GrowCoversRounds(step: seq<string> -> Round, seeds: seq<Edge>, agents: seq<string>, n: nat, e: Edge)
    requires e in Rounds(step, agents, n) && Complete(NormEdge(e))
    ensures KeyOf(NormEdge(e)) in KeysOf(Grow(step, seeds, agents, n), KeyOf)
  {
    var all := seeds + Rounds(step, agents, n);
    assert e in all;
    CompleteKeyKept(all, e);
    assert Grow(step, seeds, agents, n) == Dedup(all);
  }

  lemma CompleteKeyKept(all: seq<Edge>, e: Edge)
    requires e in all && Complete(NormEdge(e))
    ensures KeyOf(NormEdge(e)) in KeysOf(Dedup(all), KeyOf)
  {
    var m :| 0 <= m < |all| && all[m] == e;
    assert Map(NormEdge, all)[m] == NormEdge(e);
  }

  /** Every complete seed edge reaches the graph, up to its key. */
  lemma SeedEdgesReachGraph(step: seq<string> -> Round, rounds: int, rows: seq<Row>, k: nat)
    requires k < |EventicToTriples(rows)| && Complete(EventicToTriples(rows)[k])
    ensures KeyOf(EventicToTriples(rows)[k]) in KeysOf(Build(step, rounds, rows), KeyOf)
  {
    var seeds := EventicToTriples(rows);
    var all := seeds + Rounds(step, ExtractAgents(rows), Budget(rounds));
    assert all[k] == seeds[k];
    NormEdgeFixpoint(seeds[k]);
    assert Map(NormEdge, all)[k] == seeds[k];
  }

  /** The graph starts with the deduplicated seed edges, in row order. */
  lemma SeedsFirst(step: seq<string> -> Round, rounds: int, rows: seq<Row>)
    ensures |Dedup(EventicToTriples(rows))| <= |Build(step, rounds, rows)|
    ensures Build(step, rounds, rows)[..|Dedup(EventicToTriples(rows))|] == Dedup(EventicToTriples(rows))
  {
  }

  /** `build_fusion_graph` with the adapter models of this project. */
  function BuildFusionGraph(s: Services, cfg: Config, rows: seq<Row>): (r: seq<Edge>)
    ensures forall i :: 0 <= i < |r| ==> Complete(r[i]) && NormalizedEdge(r[i])
    ensures KeysDistinct(r, KeyOf)
    ensures KeysOf(r, KeyOf)
         == OkKeys(Map(NormEdge, EventicToTriples(rows)
                                 + Rounds(Step(Wire(s, cfg), cfg.flags), ExtractAgents(rows), Budget(cfg.rounds))),
                   KeyOf, Complete)
  {
    Build(Step(Wire(s, cfg), cfg.flags), cfg.rounds, rows)
  }

  /** Every edge a round of the pipeline returns is in the graph, up to its key. */
  lemma RoundEdgesInGraph(s: Services, cfg: Config, rows: seq<Row>, i: nat)
    requires i < |Frontiers(Step(Wire(s, cfg), cfg.flags), ExtractAgents(rows), Budget(cfg.rounds))|
    ensures forall j :: 0 <= j < |Expand(Wire(s, cfg), cfg.flags, Frontiers(Step(Wire(s, cfg), cfg.flags), ExtractAgents(rows), Budget(cfg.rounds))[i]).edges| ==>
              KeyOf(Expand(Wire(s, cfg), cfg.flags, Frontiers(Step(Wire(s, cfg), cfg.flags), ExtractAgents(rows), Budget(cfg.rounds))[i]).edges[j])
              in KeysOf(BuildFusionGraph(s, cfg, rows), KeyOf)
  {
    var step := Step(Wire(s, cfg), cfg.flags);
    var q := Frontiers(step, ExtractAgents(rows), Budget(cfg.rounds))[i];
    var es := Expand(Wire(s, cfg), cfg.flags, q).edges;
    assert step(q).edges == es;
    forall j | 0 <= j < |es| ensures KeyOf(es[j]) in KeysOf(BuildFusionGraph(s, cfg, rows), KeyOf) {
      NormEdgeFixpoint(es[j]);
      RoundEdgesReachGraph(step, cfg.rounds, rows, i, j);
    }
  }

  /** Under the module defaults two rounds are allowed and, whatever the
      services answer, no definition edge reaches the graph. */
  lemma DefaultsOmitDefinitions(s: Services, rows: seq<Row>)
    ensures Budget(Defaults.rounds) == 2
    ensures forall i :: 0 <= i < |BuildFusionGraph(s, Defaults, rows)| ==>
              BuildFusionGraph(s, Defaults, rows)[i].graph != TermDefinition
  {
    BuildTags(Wire(s, Defaults), Defaults.flags, Defaults.rounds, rows);
  }

  // ---------------------------------------------------------------------------
  // the pipeline as written, with the filter that can raise
  // ---------------------------------------------------------------------------

  /** The filter as written raises on the round that expands `agents`. */
  predicate FilterRaises(s: Services, agents: seq<string>) {
    PickHardAgentsAsWritten(s.filter(agents), agents).Raised?
  }

  /** `_expand_once` as written: the filter runs first, and when it raises the
      round raises before any adapter is called. When it returns, the round
      is the one the corrected filter gives. */
  function ExpandAsWritten(s: Services, cfg: Config, agents: seq<string>): (r: Outcome<Round>)
    ensures r.Raised? <==> FilterRaises(s, agents)
    ensures r.Done? ==> r.value == Expand(Wire(s, cfg), cfg.flags, agents)
  {
    match PickHardAgentsAsWritten(s.filter(agents), agents)
    case Raised(e) => Raised(e)
    case Done(picked) =>
      PickHardAgentsAgrees(s.filter(agents), agents);
      Done(Explore(Wire(s, cfg), cfg.flags, agents, Fallback(picked, agents)))
  }

  /** `_expand_once` as written, as a function value. */
  function TryStep(s: Services, cfg: Config): seq<string> -> Outcome<Round> {
    q => ExpandAsWritten(s, cfg, q)
  }

  /** The round loop over rounds that may raise: an exception from a round
      leaves `build_fusion_graph` at once. */
  function RoundsOrRaise(tryStep: seq<string> -> Outcome<Round>, queue: seq<string>, n: nat): Outcome<seq<Edge>>
    decreases n
  {
    if n == 0 || |queue| == 0 then Done([])
    else
      match tryStep(queue)
      case Raised(e) => Raised(e)
      case Done(round) =>
        match RoundsOrRaise(tryStep, round.next, n - 1)
        case Raised(e) => Raised(e)
        case Done(rest) => Done(round.edges + rest)
  }

  /** A round that may raise agrees with `step` whenever it returns. */
  ghost predicate AgreesWhenDone(tryStep: seq<string> -> Outcome<Round>, step: seq<string> -> Round) {
    forall q :: tryStep(q).Done? ==> tryStep(q).value == step(q)
  }

  /** Some frontier's round raises. */
  ghost predicate SomeRoundRaises(tryStep: seq<string> -> Outcome<Round>, fs: seq<seq<string>>) {
    exists i :: 0 <= i < |fs| && tryStep(fs[i]).Raised?
  }

  lemma SomeRoundRaisesCons(tryStep: seq<string> -> Outcome<Round>, q: seq<string>, fs: seq<seq<string>>)
    ensures SomeRoundRaises(tryStep, [q] + fs) <==> tryStep(q).Raised? || SomeRoundRaises(tryStep, fs)
  {
    if SomeRoundRaises(tryStep, fs) {
      var i :| 0 <= i < |fs| && tryStep(fs[i]).Raised?;
      assert ([q] + fs)[i + 1] == fs[i];
    }
    if tryStep(q).Raised? {
      assert ([q] + fs)[0] == q;
    }
    if SomeRoundRaises(tryStep, [q] + fs) {
      var i :| 0 <= i < |[q] + fs| && tryStep(([q] + fs)[i]).Raised?;
      if i > 0 {
        assert ([q] + fs)[i] == fs[i - 1];
      }
    }
  }

  /** The loop over rounds that may raise raises exactly when one of the
      frontiers the non-raising loop expands raises. */
  lemma {:induction false} RoundsOrRaiseRaises(tryStep: seq<string> -> Outcome<Round>, step: seq<string> -> Round,
                                               queue: seq<string>, n: nat)
    requires AgreesWhenDone(tryStep, step)
    ensures RoundsOrRaise(tryStep, queue, n).Raised? <==> SomeRoundRaises(tryStep, Frontiers(step, queue, n))
    decreases n
  {
    if n > 0 && |queue| > 0 {
      var fs := Frontiers(step, step(queue).next, n - 1);
      assert Frontiers(step, queue, n) == [queue] + fs;
      SomeRoundRaisesCons(tryStep, queue, fs);
      if tryStep(queue).Done? {
        RoundsOrRaiseRaises(tryStep, step, step(queue).next, n - 1);
      }
    }
  }

  /** When it completes, the loop over rounds that may raise collects the
      edges of the non-raising loop. */
  lemma {:induction false} RoundsOrRaiseEdges(tryStep: seq<string> -> Outcome<Round>, step: seq<string> -> Round,
                                              queue: seq<string>, n: nat)
    requires AgreesWhenDone(tryStep, step)
    ensures RoundsOrRaise(tryStep, queue, n).Done? ==> RoundsOrRaise(tryStep, queue, n).value == Rounds(step, queue, n)
    decreases n
  {
    if n > 0 && |queue| > 0 && tryStep(queue).Done? {
      RoundsOrRaiseEdges(tryStep, step, step(queue).next, n - 1);
    }
  }

  /** `_expand_once` as written agrees with the corrected round whenever it
      returns. */
  lemma TryStepAgrees(s: Services, cfg: Config)
    ensures AgreesWhenDone(TryStep(s, cfg), Step(Wire(s, cfg), cfg.flags))
  {
    forall q | TryStep(s, cfg)(q).Done?
      ensures TryStep(s, cfg)(q).value == Step(Wire(s, cfg), cfg.flags)(q)
    {
      assert TryStep(s, cfg)(q) == ExpandAsWritten(s, cfg, q);
    }
  }

  /** Some frontier reached by the loop makes the filter raise. */
  ghost predicate FilterRaisesOnSome(s: Services, fs: seq<seq<string>>) {
    exists i :: 0 <= i < |fs| && FilterRaises(s, fs[i])
  }

  lemma TryStepRaises(s: Services, cfg: Config, fs: seq<seq<string>>)
    ensures SomeRoundRaises(TryStep(s, cfg), fs) <==> FilterRaisesOnSome(s, fs)
  {
    forall i | 0 <= i < |fs|
      ensures TryStep(s, cfg)(fs[i]).Raised? <==> FilterRaises(s, fs[i])
    {
      assert TryStep(s, cfg)(fs[i]) == ExpandAsWritten(s, cfg, fs[i]);
    }
  }

  /** `build_fusion_graph` as written: it raises exactly when the filter
      raises on a frontier the loop reaches, and otherwise returns the graph
      of the corrected pipeline. */
  function BuildFusionGraphAsWritten(s: Services, cfg: Config, rows: seq<Row>): (r: Outcome<seq<Edge>>)
    ensures r.Raised? <==> FilterRaisesOnSome(s, Frontiers(Step(Wire(s, cfg), cfg.flags), ExtractAgents(rows), Budget(cfg.rounds)))
    ensures r.Done? ==> r.value == BuildFusionGraph(s, cfg, rows)
  {
    var step, tryStep := Step(Wire(s, cfg), cfg.flags), TryStep(s, cfg);
    var agents, n := ExtractAgents(rows), Budget(cfg.rounds);
    TryStepAgrees(s, cfg);
    RoundsOrRaiseRaises(tryStep, step, agents, n);
    RoundsOrRaiseEdges(tryStep, step, agents, n);
    TryStepRaises(s, cfg, Frontiers(step, agents, n));
    match RoundsOrRaise(tryStep, agents, n)
    case Raised(e) => Raised(e)
    case Done(edges) =>
      BuildIsGrow(step, cfg.rounds, rows);
      Done(Dedup(EventicToTriples(rows) + edges))
  }

  /** The discrepancy reaches the pipeline: when the filter answers the first
      round with the bare list `["Tesla"]`, the code as written aborts the
      build, where the corrected filter falls back to expanding `Tesla`. */
  lemma BareListAbortsBuild(s: Services, cfg: Config, rows: seq<Row>)
    requires ExtractAgents(rows) == ["Tesla"] && cfg.rounds >= 1
    requires s.filter(["Tesla"]) == FilterReply(Some(Json.JArr([Json.JStr("Tesla")])), NoFence)
    ensures BuildFusionGraphAsWritten(s, cfg, rows).Raised?
    ensures HardAgents(Wire(s, cfg), ["Tesla"]) == ["Tesla"]
  {
    BareListRaises();
    var fs := Frontiers(Step(Wire(s, cfg), cfg.flags), ["Tesla"], Budget(cfg.rounds));
    assert fs[0] == ["Tesla"];
    assert FilterRaises(s, fs[0]);
  }

  /** With no rounds allowed, or no agent to start from, the graph is exactly
      the deduplicated seed edges. */
  lemma NoRoundsSeedsOnly(step: seq<string> -> Round, rounds: int, rows: seq<Row>)
    requires rounds <= 0 || ExtractAgents(rows) == []
    ensures Build(step, rounds, rows) == Dedup(EventicToTriples(rows))
  {
    assert EventicToTriples(rows) + [] == EventicToTriples(rows);
  }

  /** One more round keeps the graph built so far as a prefix. */
  lemma GrowExtends(step: seq<string> -> Round, seeds: seq<Edge>, agents: seq<string>, n: nat)
    ensures |Grow(step, seeds, agents, n)| <= |Grow(step, seeds, agents, n + 1)|
    ensures Grow(step, seeds, agents, n + 1)[..|Grow(step, seeds, agents, n)|] == Grow(step, seeds, agents, n)
  {
    var a := Rounds(step, agents, n);
    var b := Rounds(step, agents, n + 1);
    RoundsGrow(step, agents, n);
    var extra := b[|a|..];
    assert b == a + extra;
    assert seeds + b == (seeds + a) + extra;
    DedupPrefix(seeds + a, extra);
  }

  lemma BuildIsGrow(step: seq<string> -> Round, rounds: int, rows: seq<Row>)
    ensures Build(step, rounds, rows) == Grow(step, EventicToTriples(rows), ExtractAgents(rows), Budget(rounds))
  {
  }

  predicate Provenance(fl: Flags, g: GraphTag) {
    g == Eventic || Enabled(fl, g)
  }

  /** Allowing one more round never removes or reorders an edge. */
  lemma MoreRoundsExtend(step: seq<string> -> Round, rounds: int, rows: seq<Row>)
    requires rounds >= 0
    ensures |Build(step, rounds, rows)| <= |Build(step, rounds + 1, rows)|
    ensures Build(step, rounds + 1, rows)[..|Build(step, rounds, rows)|] == Build(step, rounds, rows)
  {
    assert Budget(rounds + 1) == Budget(rounds) + 1;
    var seeds, agents := EventicToTriples(rows), ExtractAgents(rows);
    assert Build(step, rounds, rows) == Grow(step, seeds, agents, Budget(rounds)) by { BuildIsGrow(step, rounds, rows); }
    assert Build(step, rounds + 1, rows) == Grow(step, seeds, agents, Budget(rounds) + 1) by { BuildIsGrow(step, rounds + 1, rows); }
    GrowExtends(step, seeds, agents, Budget(rounds));
  }

  /** A tag property of every seed edge and of every round's edges holds of
      every edge of the graph. */
  lemma GrowTags(step: seq<string> -> Round, seeds: seq<Edge>, agents: seq<string>, n: nat, P: GraphTag -> bool)
    requires forall i :: 0 <= i < |seeds| ==> P(seeds[i].graph)
    requires forall q, i :: 0 <= i < |step(q).edges| ==> P(step(q).edges[i].graph)
    ensures forall i :: 0 <= i < |Grow(step, seeds, agents, n)| ==> P(Grow(step, seeds, agents, n)[i].graph)
  {
    var rs := Rounds(step, agents, n);
    RoundsTags(step, agents, n, P);
    var all := seeds + rs;
    forall i | 0 <= i < |all| ensures P(all[i].graph) {
      if i >= |seeds| {
        assert all[i] == rs[i - |seeds|];
      }
    }
    DedupTags(all, P);
  }

  /** Provenance of the final graph: seed edges are `eventic`, and a
      `term_definition` edge appears only when definitions are both produced
      and included. */
  lemma BuildTags(ad: Adapters, fl: Flags, rounds: int, rows: seq<Row>)
    ensures forall i :: 0 <= i < |Build(Step(ad, fl), rounds, rows)| ==>
              Build(Step(ad, fl), rounds, rows)[i].graph == Eventic || Enabled(fl, Build(Step(ad, fl), rounds, rows)[i].graph)
    ensures !(fl.useTermDefinitionGraph && fl.includeTdgEdges) ==>
              forall i :: 0 <= i < |Build(Step(ad, fl), rounds, rows)| ==> Build(Step(ad, fl), rounds, rows)[i].graph != TermDefinition
  {
    var step := Step(ad, fl);
    var seeds, agents := EventicToTriples(rows), ExtractAgents(rows);
    forall q, i | 0 <= i < |step(q).edges| ensures Provenance(fl, step(q).edges[i].graph) {
      ExpandTags(ad, fl, q);
    }
    GrowTags(step, seeds, agents, Budget(rounds), g => Provenance(fl, g));
    assert Build(step, rounds, rows) == Grow(step, seeds, agents, Budget(rounds)) by { BuildIsGrow(step, rounds, rows); }
  }
}
