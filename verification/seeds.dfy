/** The seeding step of `build_fusion_graph`: eventic rows become seed edges
    (`_eventic_to_triples`) and the initial agent frontier
    (`_extract_agents_from_eventic`), utils/fusion_graph_builder/__init__.py. */
module Seeds {
  import opened Wrappers
  import opened Text
  import opened Seqs
  import opened Json
  import opened Edges
  import opened Terms
  import opened Events

  /** An input row: a dict, as its (key, value) entries in insertion order. */
  type Row = seq<(string, Json)>

  /** `_is_agent_key`: the lower-cased key is `agent` or starts with it. */
  predicate IsAgentKey(k: string) {
    var kl := Lower(k);
    kl == "agent" || StartsWith(kl, "agent")
  }

  /** `row.get(k1) or row.get(k2) or ...`: the first present, truthy value. */
  function FirstTruthy(row: Row, keys: seq<string>): (r: Option<Json>)
    ensures r.Some? ==> Truthy(r.value) && exists i :: 0 <= i < |keys| && Get(row, keys[i]) == r && NoneTruthy(row, keys[..i])
    ensures r.None? ==> NoneTruthy(row, keys)
    decreases |keys|
  {
    if |keys| == 0 then None
    else
      var rest := FirstTruthy(row, keys[1..]);
      assert forall i :: 1 <= i < |keys| ==> keys[i] == keys[1..][i - 1];
      match Get(row, keys[0])
      case Some(v) =>
        if Truthy(v) then
          assert keys[..0] == [];
          Some(v)
        else
          NoneTruthyCons(row, keys, rest);
          rest
      case None =>
        NoneTruthyCons(row, keys, rest);
        rest
  }

  /** No key of `keys` is present with a truthy value. */
  predicate NoneTruthy(row: Row, keys: seq<string>) {
    forall i :: 0 <= i < |keys| && Get(row, keys[i]).Some? ==> !Truthy(Get(row, keys[i]).value)
  }

  /** When the first key is absent or falsy, the answer for the rest of the
      keys is the answer for all of them. */
  lemma NoneTruthyCons(row: Row, keys: seq<string>, rest: Option<Json>)
    requires |keys| > 0
    requires Get(row, keys[0]).Some? ==> !Truthy(Get(row, keys[0]).value)
    requires rest.Some? ==> exists i :: 0 <= i < |keys[1..]| && Get(row, keys[1..][i]) == rest && NoneTruthy(row, keys[1..][..i])
    requires rest.None? ==> NoneTruthy(row, keys[1..])
    ensures rest.Some? ==> exists i :: 0 <= i < |keys| && Get(row, keys[i]) == rest && NoneTruthy(row, keys[..i])
    ensures rest.None? ==> NoneTruthy(row, keys)
  {
    assert forall i :: 1 <= i < |keys| ==> keys[i] == keys[1..][i - 1];
    if rest.Some? {
      var i :| 0 <= i < |keys[1..]| && Get(row, keys[1..][i]) == rest && NoneTruthy(row, keys[1..][..i]);
      assert keys[..i + 1] == [keys[0]] + keys[1..][..i];
      assert Get(row, keys[i + 1]) == rest;
    }
  }

  /** The keys `_eventic_to_triples` tries for each field, in order. */
  const AgentKeys: seq<string> := ["Agent", "agent", "Agent1", "agent1"]
  const DeonticKeys: seq<string> := ["Deontic", "deontic"]
  const ActionKeys: seq<string> := ["Action", "action"]

  /** One row of `_eventic_to_triples`: kept when all three lookups are truthy,
      then each value is rendered with `str()` and normalised. */
  function SeedEdge(row: Row): (r: Option<Edge>)
    ensures r.Some? ==> r.value.graph == Eventic && NormalizedEdge(r.value)
    ensures r.Some? <==> (&& FirstTruthy(row, AgentKeys).Some?
                          && FirstTruthy(row, DeonticKeys).Some?
                          && FirstTruthy(row, ActionKeys).Some?)
    ensures r.Some? ==> && r.value.source == Norm(Show(FirstTruthy(row, AgentKeys).value))
                        && r.value.relation == Norm(Show(FirstTruthy(row, DeonticKeys).value))
                        && r.value.target == Norm(Show(FirstTruthy(row, ActionKeys).value))
  {
    match (FirstTruthy(row, AgentKeys), FirstTruthy(row, DeonticKeys), FirstTruthy(row, ActionKeys))
    case (Some(a), Some(d), Some(c)) =>
      NormNormalized(Show(a));
      NormNormalized(Show(d));
      NormNormalized(Show(c));
      Some(Edge(Norm(Show(a)), Norm(Show(d)), Norm(Show(c)), Eventic))
    case _ => None
  }

  predicate SeedShaped(e: Edge) {
    e.graph == Eventic && NormalizedEdge(e)
  }

  /** `_eventic_to_triples`: one eventic edge per row that has all three
      fields, in row order; other rows are dropped. */
  function EventicToTriples(rows: seq<Row>): (r: seq<Edge>)
    ensures |r| <= |rows|
    ensures forall i :: 0 <= i < |r| ==> SeedShaped(r[i])
    ensures IsSubseq(Map(Wrap, r), Map(SeedEdge, rows))
    ensures forall i :: 0 <= i < |rows| && SeedEdge(rows[i]).Some? ==> SeedEdge(rows[i]).value in r
    ensures forall e :: e in r ==> exists i :: 0 <= i < |rows| && SeedEdge(rows[i]) == Some(e)
    ensures Map(Wrap, r) == Filter(IsSome, Map(SeedEdge, rows))
  {
    ChooseIsFilter(SeedEdge, rows);
    ChooseSubseq(SeedEdge, rows);
    ChooseMembers(SeedEdge, rows);
    ChoosePreserves(SeedEdge, rows, SeedShaped);
    Choose(SeedEdge, rows)
  }

  /** The truthiness test runs on the raw value and normalisation comes after,
      so a seed edge is complete exactly when none of the three chosen values
      renders as blank text. */
  lemma SeedEdgeComplete(row: Row)
    requires SeedEdge(row).Some?
    ensures Complete(SeedEdge(row).value)
        <==> (&& !AllSpace(Show(FirstTruthy(row, AgentKeys).value))
              && !AllSpace(Show(FirstTruthy(row, DeonticKeys).value))
              && !AllSpace(Show(FirstTruthy(row, ActionKeys).value)))
  {
    NormEmptyIff(Show(FirstTruthy(row, AgentKeys).value));
    NormEmptyIff(Show(FirstTruthy(row, DeonticKeys).value));
    NormEmptyIff(Show(FirstTruthy(row, ActionKeys).value));
  }

  /** The value of the first entry whose key is an agent key, truthy or not. */
  function AgentField(row: Row): (r: Option<Json>)
    ensures r.Some? <==> exists i :: 0 <= i < |row| && IsAgentKey(row[i].0)
    ensures r.Some? ==> exists i :: 0 <= i < |row| && IsAgentKey(row[i].0) && row[i].1 == r.value
                           && forall j :: 0 <= j < i ==> !IsAgentKey(row[j].0)
    decreases |row|
  {
    if |row| == 0 then None
    else if IsAgentKey(row[0].0) then Some(row[0].1)
    else
      var rest := AgentField(row[1..]);
      assert forall i :: 1 <= i < |row| ==> row[i] == row[1..][i - 1];
      if rest.Some? then
        var i :| 0 <= i < |row[1..]| && IsAgentKey(row[1..][i].0) && row[1..][i].1 == rest.value
                 && forall j :: 0 <= j < i ==> !IsAgentKey(row[1..][j].0);
        assert row[i + 1] == row[1..][i];
        rest
      else
        rest
  }

  /** The agent a row contributes: the normalised text of its agent field,
      when that field is truthy. */
  function AgentOf(row: Row): (r: Option<string>)
    ensures r.Some? ==> Normalized(r.value)
    ensures r.Some? <==> AgentField(row).Some? && Truthy(AgentField(row).value)
    ensures r.Some? ==> r.value == Norm(Show(AgentField(row).value))
  {
    match AgentField(row)
    case Some(v) =>
      if Truthy(v) then
        NormNormalized(Show(v));
        Some(Norm(Show(v)))
      else None
    case None => None
  }

  /** The agent list before duplicates are removed. */
  function RawAgents(rows: seq<Row>): (r: seq<string>)
    ensures forall i :: 0 <= i < |r| ==> Normalized(r[i])
    ensures forall i :: 0 <= i < |rows| && AgentOf(rows[i]).Some? ==> AgentOf(rows[i]).value in r
    ensures IsSubseq(Map(Wrap, r), Map(AgentOf, rows))
  {
    var r := Choose(AgentOf, rows);
    ChooseSubseq(AgentOf, rows);
    ChooseMembers(AgentOf, rows);
    forall k | 0 <= k < |r| ensures Normalized(r[k]) {
      var i :| 0 <= i < |rows| && AgentOf(rows[i]) == Some(r[k]);
    }
    r
  }

  /** `_extract_agents_from_eventic`: non-empty, normalised agents, distinct
      ignoring case, each kept in its first spelling and in order of first
      appearance; every non-empty agent of the rows is represented. */
  function ExtractAgents(rows: seq<Row>): (r: seq<string>)
    ensures forall i :: 0 <= i < |r| ==> r[i] != "" && Normalized(r[i]) && r[i] in RawAgents(rows)
    ensures KeysDistinct(r, Lower)
    ensures IsSubseq(r, RawAgents(rows))
    ensures LowerSet(r) == OkKeys(RawAgents(rows), Lower, Admits({}))
  {
    DistinctCI(RawAgents(rows), {})
  }

  /** The agents are the first spellings, in order of first appearance. */
  lemma ExtractAgentsIsFirsts(rows: seq<Row>)
    ensures ExtractAgents(rows) == Firsts(RawAgents(rows), Lower, Admits({}))
  {
    DistinctCIIsFirsts(RawAgents(rows), {});
  }

  // ---------------------------------------------------------------------------
  // Rows produced by the eventic builder
  // ---------------------------------------------------------------------------

  /** The dict the eventic builder emits for one event. */
  function EventRow(e: Event): Row {
    [("Agent", JStr(e.agent)), ("Deontic", JStr(e.deontic)), ("Action", JStr(e.action))]
  }

  /** The seed edge of a well-formed event. */
  function EventEdge(e: Event): Edge {
    Edge(Norm(e.agent), Norm(e.deontic), Norm(e.action), Eventic)
  }

  lemma EventRowLookups(e: Event)
    ensures Get(EventRow(e), "Agent") == Some(JStr(e.agent))
    ensures Get(EventRow(e), "Deontic") == Some(JStr(e.deontic))
    ensures Get(EventRow(e), "Action") == Some(JStr(e.action))
  {
    var row := EventRow(e);
    assert row[..2] == [("Agent", JStr(e.agent)), ("Deontic", JStr(e.deontic))];
    assert row[..2][..1] == [("Agent", JStr(e.agent))];
    assert Get(row, "Agent") == Get(row[..2], "Agent") == Get(row[..2][..1], "Agent");
    assert Get(row, "Deontic") == Get(row[..2], "Deontic");
  }

  /** A non-empty string without edge whitespace normalises to a non-empty one. */
  lemma NormOfTrimmed(s: string)
    requires s != "" && NoEdgeSpace(s)
    ensures Norm(s) != ""
  {
    NormEmptyIff(s);
    assert !IsSpace(s[0]);
  }

  lemma EventRowFields(e: Event)
    requires WellFormedEvent(e)
    ensures FirstTruthy(EventRow(e), AgentKeys) == Some(JStr(e.agent))
    ensures FirstTruthy(EventRow(e), DeonticKeys) == Some(JStr(e.deontic))
    ensures FirstTruthy(EventRow(e), ActionKeys) == Some(JStr(e.action))
  {
    EventRowLookups(e);
  }

  lemma EventRowAgent(e: Event)
    requires WellFormedEvent(e)
    ensures AgentOf(EventRow(e)) == Some(Norm(e.agent))
  {
    var row := EventRow(e);
    assert Lower("Agent") == "agent" by {
      assert |Lower("Agent")| == 5;
      assert LowerChar('A') == 'a';
    }
    assert IsAgentKey(row[0].0);
    assert AgentField(row) == Some(JStr(e.agent));
    assert Truthy(JStr(e.agent));
    assert Show(JStr(e.agent)) == e.agent;
  }

  /** The row of a well-formed event yields exactly its seed edge. */
  lemma EventRowSeed(e: Event)
    requires WellFormedEvent(e)
    ensures SeedEdge(EventRow(e)) == Some(EventEdge(e))
  {
    var row := EventRow(e);
    EventRowFields(e);
    assert SeedEdge(row) == Some(Edge(Norm(Show(JStr(e.agent))), Norm(Show(JStr(e.deontic))),
                                      Norm(Show(JStr(e.action))), Eventic));
    assert Show(JStr(e.agent)) == e.agent;
    assert Show(JStr(e.deontic)) == e.deontic;
    assert Show(JStr(e.action)) == e.action;
  }

  /** The seed edge of a well-formed event survives the final completeness test. */
  lemma EventEdgeComplete(e: Event)
    requires WellFormedEvent(e)
    ensures Complete(EventEdge(e))
  {
    NormOfTrimmed(e.agent);
    NormOfTrimmed(e.deontic);
    NormOfTrimmed(e.action);
  }

  /** Every event the eventic builder keeps becomes a complete seed edge and
      contributes its agent: no event is lost between the two stages. */
  lemma EventSeeds(evs: seq<Event>)
    requires forall i :: 0 <= i < |evs| ==> WellFormedEvent(evs[i])
    ensures |EventicToTriples(Map(EventRow, evs))| == |evs|
    ensures forall i :: 0 <= i < |evs| ==>
              EventicToTriples(Map(EventRow, evs))[i] == EventEdge(evs[i]) && Complete(EventEdge(evs[i]))
    ensures forall i :: 0 <= i < |evs| ==> Norm(evs[i].agent) in RawAgents(Map(EventRow, evs))
  {
    var rows := Map(EventRow, evs);
    forall i | 0 <= i < |evs|
      ensures SeedEdge(rows[i]) == Some(EventEdge(evs[i])) && Complete(EventEdge(evs[i]))
      ensures AgentOf(rows[i]) == Some(Norm(evs[i].agent))
    {
      EventRowSeed(evs[i]);
      EventEdgeComplete(evs[i]);
      EventRowAgent(evs[i]);
    }
    ChooseTotal(SeedEdge, rows);
  }
}
