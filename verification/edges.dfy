/** Triples, tagged edges and the edge deduplicator `_dedup_edges`
    (utils/fusion_graph_builder/__init__.py). */
module Edges {
  import opened Text
  import opened Seqs

  /** What every adapter returns: `{source, relation, target}`. */
  datatype Triple = Triple(source: string, relation: string, target: string)

  /** The provenance tag `source_graph`. */
  datatype GraphTag = Eventic | Concept | Entity | TermDefinition

  /** One edge of the fusion graph. */
  datatype Edge = Edge(source: string, relation: string, target: string, graph: GraphTag)

  /** Identity inside one adapter call: lower-cased ends, exact relation. */
  datatype TripleKey = TripleKey(source: string, relation: string, target: string)

  /** Identity of an edge: the triple identity scoped by the provenance tag. */
  datatype EdgeKey = EdgeKey(source: string, relation: string, target: string, graph: GraphTag)

  function KeyOfTriple(t: Triple): TripleKey {
    TripleKey(Lower(t.source), t.relation, Lower(t.target))
  }

  function KeyOf(e: Edge): EdgeKey {
    EdgeKey(Lower(e.source), e.relation, Lower(e.target), e.graph)
  }

  /** `{**t, "source_graph": g}` for every triple. */
  function Tag(ts: seq<Triple>, g: GraphTag): (r: seq<Edge>)
    ensures |r| == |ts|
    ensures forall i :: 0 <= i < |ts| ==>
              r[i] == Edge(ts[i].source, ts[i].relation, ts[i].target, g)
  {
    seq(|ts|, i requires 0 <= i < |ts| => Edge(ts[i].source, ts[i].relation, ts[i].target, g))
  }

  /** The three text fields passed through `_norm`. */
  function NormEdge(e: Edge): Edge {
    Edge(Norm(e.source), Norm(e.relation), Norm(e.target), e.graph)
  }

  /** All three text fields are non-empty. */
  predicate Complete(e: Edge) {
    e.source != "" && e.relation != "" && e.target != ""
  }

  /** All three text fields have the shape `_norm` produces. */
  predicate NormalizedEdge(e: Edge) {
    Normalized(e.source) && Normalized(e.relation) && Normalized(e.target)
  }

  /** `_dedup_edges`: normalise each edge, drop incomplete ones, and keep the
      first edge of every key. */
  function Dedup(edges: seq<Edge>): (r: seq<Edge>)
    ensures |r| <= |edges|
    ensures forall i :: 0 <= i < |r| ==> Complete(r[i]) && NormalizedEdge(r[i])
    ensures KeysDistinct(r, KeyOf)
    ensures KeysOf(r, KeyOf) == OkKeys(Map(NormEdge, edges), KeyOf, Complete)
  {
    var ns := Map(NormEdge, edges);
    NormEdgesNormalized(edges);
    DedupBy(ns, KeyOf, Complete)
  }

  lemma NormEdgesNormalized(edges: seq<Edge>)
    ensures forall e :: e in Map(NormEdge, edges) ==>
              NormalizedEdge(e) && exists j :: 0 <= j < |edges| && e == NormEdge(edges[j])
  {
    var ns := Map(NormEdge, edges);
    forall j | 0 <= j < |edges| ensures NormalizedEdge(ns[j]) {
      NormNormalized(edges[j].source);
      NormNormalized(edges[j].relation);
      NormNormalized(edges[j].target);
    }
  }

  /** The deduplicator keeps exactly the first complete occurrence of every key,
      in input order. */
  lemma DedupIsFirstOccurrences(edges: seq<Edge>)
    ensures Dedup(edges) == Firsts(Map(NormEdge, edges), KeyOf, Complete)
  {
    DedupByIsFirsts(Map(NormEdge, edges), KeyOf, Complete);
  }

  lemma NormEdgeFixpoint(e: Edge)
    requires NormalizedEdge(e)
    ensures NormEdge(e) == e
  {
    NormFixpoint(e.source);
    NormFixpoint(e.relation);
    NormFixpoint(e.target);
  }

  /** Deduplicating twice is the same as deduplicating once. */
  lemma DedupIdempotent(edges: seq<Edge>)
    ensures Dedup(Dedup(edges)) == Dedup(edges)
  {
    var d := Dedup(edges);
    forall i | 0 <= i < |d| ensures NormEdge(d[i]) == d[i] {
      NormEdgeFixpoint(d[i]);
    }
    assert Map(NormEdge, d) == d;
    DedupByFixpoint(d, KeyOf, Complete);
  }

  /** Whatever is deduplicated first is never disturbed by edges appended later:
      the output for `xs + ys` begins with the output for `xs`. */
  lemma DedupPrefix(xs: seq<Edge>, ys: seq<Edge>)
    ensures |Dedup(xs)| <= |Dedup(xs + ys)|
    ensures Dedup(xs + ys)[..|Dedup(xs)|] == Dedup(xs)
  {
    MapAppend(NormEdge, xs, ys);
    DedupByPrefix(Map(NormEdge, xs), Map(NormEdge, ys), KeyOf, Complete);
  }

  /** Two complete edges collapse into one exactly when their keys agree: the
      ends compare case-insensitively, the relation exactly, and edges from
      different source graphs are both kept. */
  lemma DedupPair(a: Edge, b: Edge)
    requires Complete(NormEdge(a)) && Complete(NormEdge(b))
    ensures |Dedup([a, b])| == 1 <==> KeyOf(NormEdge(a)) == KeyOf(NormEdge(b))
    ensures |Dedup([a, b])| == 1 ==> Dedup([a, b]) == [NormEdge(a)]
    ensures |Dedup([a, b])| == 2 <==> KeyOf(NormEdge(a)) != KeyOf(NormEdge(b))
  {
    MapPair(NormEdge, a, b);
    DedupByPair(NormEdge(a), NormEdge(b), KeyOf, Complete);
  }

  /** Deduplication keeps every edge's provenance tag: a property of the tags
      of all inputs holds of the tags of all outputs. */
  lemma DedupTags(edges: seq<Edge>, P: GraphTag -> bool)
    requires forall i :: 0 <= i < |edges| ==> P(edges[i].graph)
    ensures forall k :: 0 <= k < |Dedup(edges)| ==> P(Dedup(edges)[k].graph)
  {
    var r := Dedup(edges);
    var ns := Map(NormEdge, edges);
    forall k | 0 <= k < |r| ensures P(r[k].graph) {
      assert KeyOf(r[k]) in KeysOf(r, KeyOf);
      var i :| 0 <= i < |ns| && Complete(ns[i]) && KeyOf(ns[i]) == KeyOf(r[k]);
      assert ns[i] == NormEdge(edges[i]);
      NormEdgeGraph(edges[i]);
    }
  }

  lemma NormEdgeGraph(e: Edge)
    ensures NormEdge(e).graph == e.graph
  {
  }

  /** `_dedup_edges` written as the source's loop, with its `seen` set. */
  method DedupEdges(edges: seq<Edge>) returns (out: seq<Edge>)
    ensures out == Dedup(edges)
  {
    out := DedupLoop(Map(NormEdge, edges), KeyOf, Complete);
  }
}
