/** Result shaping of the ConceptNet adapter (utils/concept_graph_search.py):
    the lookup term, node labels and relation names, and the body of
    `fetch_conceptnet_triples` that filters, deduplicates, ranks by weight and
    truncates the edges of an already-decoded response. */
module Concept {
  import opened Wrappers
  import opened Text
  import opened Seqs
  import opened Edges

  /** A node or relation object of a ConceptNet edge; missing members are `None`. */
  datatype Node = Node(labelText: Option<string>, id: Option<string>)

  /** One element of the response's `edges` array. A missing `rel`, `start` or
      `end` object is `Node(None, None)`. */
  datatype ConceptEdge = ConceptEdge(weight: Option<real>, rel: Node, start: Node, end: Node)

  /** A kept triple together with the weight it is ranked by. */
  datatype Weighted = Weighted(triple: Triple, weight: real)

  /** `_norm_term` without the final percent-encoding: stripped, lower-cased,
      spaces turned into underscores. */
  function NormTerm(term: string): (r: string)
    ensures ' ' !in r
    ensures Lower(r) == r
    ensures NoEdgeSpace(r)
    ensures |r| == |Strip(term)|
    ensures forall i :: 0 <= i < |r| ==>
              r[i] == if Strip(term)[i] == ' ' then '_' else LowerChar(Strip(term)[i])
  {
    var s := Strip(term);
    var r := ReplaceChar(Lower(s), ' ', '_');
    NormTermChars(s, r);
    r
  }

  lemma NormTermChars(s: string, r: string)
    requires NoEdgeSpace(s) && r == ReplaceChar(Lower(s), ' ', '_')
    ensures ' ' !in r && Lower(r) == r && NoEdgeSpace(r) && |r| == |s|
  {
    assert forall i :: 0 <= i < |r| ==> LowerChar(r[i]) == r[i];
    assert Lower(r) == r;
    if |r| > 0 {
      assert !IsSpace(s[0]) && !IsSpace(s[|s| - 1]);
      assert !IsSpace(LowerChar(s[0])) && !IsSpace(LowerChar(s[|s| - 1]));
    }
  }

  /** The lookup term is already in normal form. */
  lemma NormTermIdempotent(term: string)
    ensures NormTerm(NormTerm(term)) == NormTerm(term)
  {
    NormTermFixpoint(NormTerm(term));
  }

  lemma NormTermFixpoint(r: string)
    requires ' ' !in r && Lower(r) == r && NoEdgeSpace(r)
    ensures ReplaceChar(Lower(Strip(r)), ' ', '_') == r
  {
    StripFixpoint(r);
  }

  /** `_label_of`: the `label` when it is a non-empty string, else the last
      `/`-segment of `@id` (empty when `@id` is missing). */
  function LabelOf(n: Node): (r: string)
    ensures n.labelText.Some? && n.labelText.value != "" ==> r == n.labelText.value
    ensures !(n.labelText.Some? && n.labelText.value != "") ==>
              '/' !in r && |r| <= |n.id.GetOr("")| && r == n.id.GetOr("")[|n.id.GetOr("")| - |r|..]
    ensures !(n.labelText.Some? && n.labelText.value != "") ==>
              |r| == |n.id.GetOr("")| || n.id.GetOr("")[|n.id.GetOr("")| - |r| - 1] == '/'
  {
    if n.labelText.Some? && n.labelText.value != "" then n.labelText.value
    else LastSegment(n.id.GetOr(""), '/')
  }

  /** `_rel_of`: the last `/`-segment of `@id`, or empty when `@id` is missing. */
  function RelOf(n: Node): (r: string)
    ensures n.id.None? ==> r == ""
    ensures '/' !in r
    ensures |r| <= |n.id.GetOr("")| && r == n.id.GetOr("")[|n.id.GetOr("")| - |r|..]
    ensures |r| == |n.id.GetOr("")| || n.id.GetOr("")[|n.id.GetOr("")| - |r| - 1] == '/'
  {
    var rid := n.id.GetOr("");
    if rid != "" then LastSegment(rid, '/') else ""
  }

  /** An identifier yields the text after its last `/`, whatever precedes
      it: `/r/RelatedTo` gives `RelatedTo`, `/r/dbpedia/genre` gives `genre`,
      and a node without a label falls back to the same segment. */
  lemma RelOfIdentifier(prefix: string, name: string, labelText: Option<string>)
    requires '/' !in name
    ensures RelOf(Node(labelText, Some(prefix + "/" + name))) == name
    ensures LabelOf(Node(None, Some(prefix + "/" + name))) == name
    ensures LabelOf(Node(Some(""), Some(prefix + "/" + name))) == name
  {
    assert prefix + "/" + name == prefix + ['/'] + name;
    LastSegmentAfter(prefix, '/', name);
  }

  /** An identifier without any `/` is its own last segment. */
  lemma RelOfPlain(id: string, labelText: Option<string>)
    requires '/' !in id
    ensures RelOf(Node(labelText, Some(id))) == id
    ensures LabelOf(Node(None, Some(id))) == id
  {
    LastSegmentWhole(id, '/');
  }

  /** The record built for one edge; a missing weight counts as 0. */
  function Candidate(e: ConceptEdge): Weighted {
    Weighted(Triple(LabelOf(e.start), RelOf(e.rel), LabelOf(e.end)), e.weight.GetOr(0.0))
  }

  /** The weight threshold and the optional relation filter (an empty set is
      no filter, as an empty or missing `relations` is falsy). */
  predicate Pass(minWeight: real, relations: set<string>, w: Weighted) {
    w.weight >= minWeight && (relations == {} || w.triple.relation in relations)
  }

  function Passes(minWeight: real, relations: set<string>): Weighted -> bool {
    w => Pass(minWeight, relations, w)
  }

  function WKey(w: Weighted): TripleKey {
    KeyOfTriple(w.triple)
  }

  function TripleOf(w: Weighted): Triple {
    w.triple
  }

  // ---------------------------------------------------------------------------
  // Stable sort by descending weight: `list.sort(key=weight, reverse=True)`
  // ---------------------------------------------------------------------------

  predicate SortedDesc(ws: seq<Weighted>) {
    forall i, j :: 0 <= i < j < |ws| ==> ws[i].weight >= ws[j].weight
  }

  /** Place `x` after every element of weight at least its own. */
  function Insert(s: seq<Weighted>, x: Weighted): (r: seq<Weighted>)
    ensures |r| == |s| + 1
    ensures multiset(r) == multiset(s) + multiset{x}
    decreases |s|
  {
    if |s| == 0 then [x]
    else if s[0].weight < x.weight then [x] + s
    else
      assert s == [s[0]] + s[1..];
      [s[0]] + Insert(s[1..], x)
  }

  /** Whatever holds of `x` and of every element of `s` holds of every element
      of the insertion. */
  lemma {:induction false} InsertAll(s: seq<Weighted>, x: Weighted, P: Weighted -> bool)
    requires P(x) && forall i :: 0 <= i < |s| ==> P(s[i])
    ensures forall i :: 0 <= i < |Insert(s, x)| ==> P(Insert(s, x)[i])
    decreases |s|
  {
    if |s| > 0 && s[0].weight >= x.weight {
      InsertAll(s[1..], x, P);
      var rest := Insert(s[1..], x);
      assert Insert(s, x) == [s[0]] + rest;
      assert forall i :: 1 <= i < |rest| + 1 ==> ([s[0]] + rest)[i] == rest[i - 1];
    }
  }

  /** A record at least as heavy as every record of a sorted sequence can
      go in front of it. */
  lemma SortedCons(h: Weighted, t: seq<Weighted>)
    requires SortedDesc(t)
    requires forall k :: 0 <= k < |t| ==> t[k].weight <= h.weight
    ensures SortedDesc([h] + t)
  {
    var r := [h] + t;
    forall i, j | 0 <= i < j < |r| ensures r[i].weight >= r[j].weight {
      assert r[j] == t[j - 1];
      if i > 0 {
        assert r[i] == t[i - 1];
      }
    }
  }

  lemma {:induction false} InsertSorted(s: seq<Weighted>, x: Weighted)
    requires SortedDesc(s)
    ensures SortedDesc(Insert(s, x))
    decreases |s|
  {
    if |s| > 0 && s[0].weight >= x.weight {
      var rest := Insert(s[1..], x);
      InsertSorted(s[1..], x);
      InsertAll(s[1..], x, (w: Weighted) => w.weight <= s[0].weight);
      assert Insert(s, x) == [s[0]] + rest;
      SortedCons(s[0], rest);
    } else if |s| > 0 {
      SortedCons(x, s);
    }
  }

  /** Insertion of the elements one by one, in input order. */
  function SortByWeight(xs: seq<Weighted>): (r: seq<Weighted>)
    ensures |r| == |xs|
    ensures multiset(r) == multiset(xs)
    ensures SortedDesc(r)
    decreases |xs|
  {
    if |xs| == 0 then []
    else
      var s := SortByWeight(xs[..|xs| - 1]);
      InsertSorted(s, xs[|xs| - 1]);
      assert xs == xs[..|xs| - 1] + [xs[|xs| - 1]];
      Insert(s, xs[|xs| - 1])
  }

  function HasWeight(c: real): Weighted -> bool {
    (w: Weighted) => w.weight == c
  }

  lemma {:induction false} FilterNone<T>(p: T -> bool, xs: seq<T>)
    requires forall i :: 0 <= i < |xs| ==> !p(xs[i])
    ensures Filter(p, xs) == []
    decreases |xs|
  {
    if |xs| > 0 {
      FilterNone(p, xs[1..]);
    }
  }

  /** A record heavier than the head of a sorted sequence is the only one of
      its weight once placed in front. */
  lemma InsertFront(s: seq<Weighted>, x: Weighted, c: real)
    requires SortedDesc(s) && |s| > 0 && s[0].weight < x.weight
    ensures Filter(HasWeight(c), [x] + s) == Filter(HasWeight(c), s) + (if x.weight == c then [x] else [])
  {
    assert ([x] + s)[1..] == s;
    if x.weight == c {
      assert forall i :: 0 <= i < |s| ==> s[i].weight <= s[0].weight;
      FilterNone(HasWeight(c), s);
    }
  }

  lemma {:induction false} InsertStable(s: seq<Weighted>, x: Weighted, c: real)
    requires SortedDesc(s)
    ensures Filter(HasWeight(c), Insert(s, x)) == Filter(HasWeight(c), s) + (if x.weight == c then [x] else [])
    decreases |s|
  {
    var p := HasWeight(c);
    if |s| == 0 {
      assert Insert(s, x) == [x];
      assert [x][1..] == [];
    } else if s[0].weight < x.weight {
      assert Insert(s, x) == [x] + s;
      InsertFront(s, x, c);
    } else {
      InsertStable(s[1..], x, c);
      var rest := Insert(s[1..], x);
      var h := if p(s[0]) then [s[0]] else [];
      var t := if x.weight == c then [x] else [];
      assert Insert(s, x) == [s[0]] + rest;
      assert ([s[0]] + rest)[1..] == rest;
      assert Filter(p, Insert(s, x)) == h + Filter(p, rest);
      assert Filter(p, s) == h + Filter(p, s[1..]);
      assert h + (Filter(p, s[1..]) + t) == (h + Filter(p, s[1..])) + t;
    }
  }

  /** Records of equal weight keep their relative order. */
  lemma {:induction false} SortStable(xs: seq<Weighted>, c: real)
    ensures Filter(HasWeight(c), SortByWeight(xs)) == Filter(HasWeight(c), xs)
    decreases |xs|
  {
    if |xs| > 0 {
      var init := xs[..|xs| - 1];
      var x := xs[|xs| - 1];
      var p := HasWeight(c);
      assert init + [x] == xs;
      assert SortByWeight(xs) == Insert(SortByWeight(init), x);
      SortStable(init, c);
      InsertStable(SortByWeight(init), x, c);
      FilterAppend(p, init, [x]);
      assert Filter(p, [x]) == if x.weight == c then [x] else [] by {
        assert [x][1..] == [];
      }
    }
  }

  /** Elements with distinct keys stay distinct after the sort. */
  lemma {:induction false} InsertKeys(s: seq<Weighted>, x: Weighted)
    requires KeysDistinct(s, WKey)
    requires forall i :: 0 <= i < |s| ==> WKey(s[i]) != WKey(x)
    ensures KeysDistinct(Insert(s, x), WKey)
    decreases |s|
  {
    if |s| > 0 && s[0].weight >= x.weight {
      var rest := Insert(s[1..], x);
      InsertKeys(s[1..], x);
      InsertAll(s[1..], x, (w: Weighted) => WKey(w) != WKey(s[0]));
      KeysDistinctCons(s[0], rest, WKey);
      assert Insert(s, x) == [s[0]] + rest;
    }
  }

  lemma {:induction false} SortKeys(xs: seq<Weighted>)
    requires KeysDistinct(xs, WKey)
    ensures KeysDistinct(SortByWeight(xs), WKey)
    decreases |xs|
  {
    if |xs| > 0 {
      var init := xs[..|xs| - 1];
      var x := xs[|xs| - 1];
      SortKeys(init);
      var s := SortByWeight(init);
      forall i | 0 <= i < |s| ensures WKey(s[i]) != WKey(x) {
        assert s[i] in multiset(init);
        var j :| 0 <= j < |init| && init[j] == s[i];
        assert init[j] == xs[j];
      }
      InsertKeys(s, x);
    }
  }

  // ---------------------------------------------------------------------------
  // fetch_conceptnet_triples, after the request
  // ---------------------------------------------------------------------------

  /** The first passing record of every (lower source, relation, lower target). */
  function Kept(edges: seq<ConceptEdge>, relations: set<string>, minWeight: real): (r: seq<Weighted>)
    ensures forall i :: 0 <= i < |r| ==> Pass(minWeight, relations, r[i]) && r[i] in Map(Candidate, edges)
    ensures KeysDistinct(r, WKey)
    ensures KeysOf(r, WKey) == OkKeys(Map(Candidate, edges), WKey, Passes(minWeight, relations))
  {
    DedupBy(Map(Candidate, edges), WKey, Passes(minWeight, relations))
  }

  /** The first occurrence wins: the kept records are exactly the first
      passing record of every key, in response order. */
  lemma KeptIsFirsts(edges: seq<ConceptEdge>, relations: set<string>, minWeight: real)
    ensures Kept(edges, relations, minWeight) == Firsts(Map(Candidate, edges), WKey, Passes(minWeight, relations))
  {
    DedupByIsFirsts(Map(Candidate, edges), WKey, Passes(minWeight, relations));
  }

  /** The kept records, heaviest first, ties in response order. */
  function Ranked(edges: seq<ConceptEdge>, relations: set<string>, minWeight: real): (r: seq<Weighted>)
    ensures SortedDesc(r)
    ensures multiset(r) == multiset(Kept(edges, relations, minWeight))
    ensures forall i :: 0 <= i < |r| ==> Pass(minWeight, relations, r[i])
    ensures KeysDistinct(r, WKey)
  {
    var k := Kept(edges, relations, minWeight);
    var r := SortByWeight(k);
    SortKeys(k);
    forall i | 0 <= i < |r| ensures Pass(minWeight, relations, r[i]) {
      assert r[i] in multiset(r);
      var j :| 0 <= j < |k| && k[j] == r[i];
    }
    r
  }

  /** Ranking does not reorder records of equal weight. */
  lemma RankedStable(edges: seq<ConceptEdge>, relations: set<string>, minWeight: real, c: real)
    ensures Filter(HasWeight(c), Ranked(edges, relations, minWeight))
         == Filter(HasWeight(c), Kept(edges, relations, minWeight))
  {
    SortStable(Kept(edges, relations, minWeight), c);
  }

  /** The relation and ends of a record decide its key, so stripping the weight
      keeps the keys apart. */
  lemma StripKeepsKeys(ws: seq<Weighted>)
    requires KeysDistinct(ws, WKey)
    ensures KeysDistinct(Map(TripleOf, ws), KeyOfTriple)
  {
  }

  /** `triples[:max_num]` when a limit is given. */
  function Limit<T>(xs: seq<T>, maxNum: Option<int>): (r: seq<T>)
    ensures |r| <= |xs| && r == xs[..|r|]
    ensures maxNum.None? ==> r == xs
    ensures maxNum.Some? && maxNum.value >= 0 ==> |r| == if maxNum.value < |xs| then maxNum.value else |xs|
    ensures maxNum.Some? && maxNum.value < 0 ==> |r| == if |xs| + maxNum.value > 0 then |xs| + maxNum.value else 0
  {
    if maxNum.Some? then SliceTo(xs, maxNum.value) else xs
  }

  /** A prefix of a list with distinct keys has distinct keys. */
  lemma PrefixKeys(ws: seq<Weighted>, n: nat)
    requires n <= |ws| && KeysDistinct(ws, WKey)
    ensures KeysDistinct(ws[..n], WKey)
  {
    assert forall i :: 0 <= i < n ==> ws[..n][i] == ws[i];
  }

  /** `r` is the weight-stripped prefix of `ranked` that `max_num` lets through. */
  predicate IsTopOf(r: seq<Triple>, ranked: seq<Weighted>, maxNum: Option<int>) {
    && |r| == |Limit(ranked, maxNum)|
    && forall i :: 0 <= i < |r| ==> r[i] == ranked[i].triple
  }

  /** The weight-stripped triples of the records `max_num` lets through. */
  function Top(ranked: seq<Weighted>, maxNum: Option<int>): (r: seq<Triple>)
    requires KeysDistinct(ranked, WKey)
    ensures IsTopOf(r, ranked, maxNum)
    ensures KeysDistinct(r, KeyOfTriple)
  {
    var top := Limit(ranked, maxNum);
    PrefixKeys(ranked, |top|);
    StripKeepsKeys(top);
    Map(TripleOf, top)
  }

  /** `fetch_conceptnet_triples` once the response is in hand: a failed request
      gives nothing; otherwise the weight-stripped prefix of the ranked records,
      as long as `max_num` allows (`None` is no limit; a negative limit drops
      that many records from the end, as a Python slice does). */
  function ConceptTriples(fetched: Fetched<seq<ConceptEdge>>, relations: set<string>, minWeight: real,
                          maxNum: Option<int>): (r: seq<Triple>)
    ensures fetched.Failed? ==> r == []
    ensures fetched.Ok? ==> IsTopOf(r, Ranked(fetched.payload, relations, minWeight), maxNum)
    ensures maxNum.Some? && maxNum.value >= 0 ==> |r| <= maxNum.value
    ensures KeysDistinct(r, KeyOfTriple)
  {
    match fetched
    case Failed => []
    case Ok(edges) => Top(Ranked(edges, relations, minWeight), maxNum)
  }

  /** With a relation filter given, only the asked relations come back. */
  lemma ConceptTriplesRelations(fetched: Fetched<seq<ConceptEdge>>, relations: set<string>, minWeight: real,
                                maxNum: Option<int>)
    requires relations != {}
    ensures forall i :: 0 <= i < |ConceptTriples(fetched, relations, minWeight, maxNum)| ==>
              ConceptTriples(fetched, relations, minWeight, maxNum)[i].relation in relations
  {
    if fetched.Ok? {
      var r := ConceptTriples(fetched, relations, minWeight, maxNum);
      var ranked := Ranked(fetched.payload, relations, minWeight);
      forall i | 0 <= i < |r| ensures r[i].relation in relations {
        assert r[i] == ranked[i].triple;
        assert Pass(minWeight, relations, ranked[i]);
      }
    }
  }

  /** The response edge the `i`-th returned triple was built from. */
  lemma ConceptTripleOrigin(fetched: Fetched<seq<ConceptEdge>>, relations: set<string>, minWeight: real,
                            maxNum: Option<int>, i: nat) returns (j: nat)
    requires fetched.Ok? && i < |ConceptTriples(fetched, relations, minWeight, maxNum)|
    ensures j < |fetched.payload|
    ensures Candidate(fetched.payload[j]).triple == ConceptTriples(fetched, relations, minWeight, maxNum)[i]
    ensures Candidate(fetched.payload[j]).weight >= minWeight
  {
    assert ConceptTriples(fetched, relations, minWeight, maxNum)[i]
        == Ranked(fetched.payload, relations, minWeight)[i].triple;
    j := RankedOrigin(fetched.payload, relations, minWeight, i);
  }

  /** `t` is the triple of a response edge weighing at least `minWeight`. */
  predicate FromEdge(edges: seq<ConceptEdge>, minWeight: real, t: Triple) {
    exists j :: 0 <= j < |edges| && Candidate(edges[j]).triple == t && Candidate(edges[j]).weight >= minWeight
  }

  /** Every returned triple comes from a response edge of sufficient weight. */
  lemma ConceptTriplesWeighted(fetched: Fetched<seq<ConceptEdge>>, relations: set<string>, minWeight: real,
                               maxNum: Option<int>)
    requires fetched.Ok?
    ensures forall i :: 0 <= i < |ConceptTriples(fetched, relations, minWeight, maxNum)| ==>
              FromEdge(fetched.payload, minWeight, ConceptTriples(fetched, relations, minWeight, maxNum)[i])
  {
    var r := ConceptTriples(fetched, relations, minWeight, maxNum);
    forall i | 0 <= i < |r| ensures FromEdge(fetched.payload, minWeight, r[i]) {
      var j := ConceptTripleOrigin(fetched, relations, minWeight, maxNum, i);
      assert Candidate(fetched.payload[j]).triple == r[i];
    }
  }

  /** The response edge a ranked record was built from. */
  lemma RankedOrigin(edges: seq<ConceptEdge>, relations: set<string>, minWeight: real, i: nat) returns (j: nat)
    requires i < |Ranked(edges, relations, minWeight)|
    ensures j < |edges| && Candidate(edges[j]) == Ranked(edges, relations, minWeight)[i]
    ensures Candidate(edges[j]).weight >= minWeight
  {
    var ranked := Ranked(edges, relations, minWeight);
    var k := Kept(edges, relations, minWeight);
    assert ranked[i] in multiset(ranked);
    var m :| 0 <= m < |k| && k[m] == ranked[i];
    var cands := Map(Candidate, edges);
    assert k[m] in cands;
    var j0 :| 0 <= j0 < |cands| && cands[j0] == k[m];
    j := j0;
  }
}
