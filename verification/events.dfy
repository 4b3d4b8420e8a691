/** The parsing side of the eventic graph builder (utils/eventic_graph_builder.py):
    picking the JSON text out of a model reply and keeping only the complete
    Agent / Deontic / Action records of the parsed value. The regular-expression
    searches and `json.loads` are outside the model: their results arrive as
    arguments. */
module Events {
  import opened Wrappers
  import opened Text
  import opened Seqs
  import opened Json

  /** One regulatory event: exactly the keys Agent, Deontic and Action. */
  datatype Event = Event(agent: string, deontic: string, action: string)

  /** `_extract_json_text`. `raw` is `None` when the reply is not a string;
      `fenced` is the body of the first fenced JSON block, if there is one. */
  function ExtractJsonText(raw: Option<string>, fenced: Option<string>): (r: string)
    ensures raw.None? ==> r == ""
    ensures raw.Some? && fenced.None? ==> r == Strip(raw.value)
    ensures raw.Some? && fenced.Some? ==> r == Strip(fenced.value)
    ensures NoEdgeSpace(r)
  {
    match raw
    case None => ""
    case Some(text) =>
      match fenced
      case Some(body) => Strip(body)
      case None => Strip(text)
  }

  /** The list the records are read from: a top-level array, or the `events`
      array of a top-level object. Anything else yields no records. */
  function EventItems(data: Json): (r: seq<Json>)
    ensures data.JArr? ==> r == data.items
    ensures data.JObj? && Get(data.fields, "events").Some? && Get(data.fields, "events").value.JArr?
            ==> r == Get(data.fields, "events").value.items
    ensures data.JObj? && r != [] ==> Get(data.fields, "events") == Some(JArr(r))
    ensures !data.JArr? && !data.JObj? ==> r == []
  {
    match data
    case JArr(items) => items
    case JObj(fields) =>
      (match Get(fields, "events")
       case Some(JArr(items)) => items
       case _ => [])
    case _ => []
  }

  /** `str(ev.get(key, "")).strip()`. */
  function FieldText(fields: seq<(string, Json)>, key: string): string {
    Strip(Show(GetOr(fields, key, JStr(""))))
  }

  /** One record: kept when it is an object whose three fields are non-blank. */
  function EventOf(ev: Json): (r: Option<Event>)
    ensures r.Some? ==> ev.JObj?
    ensures r.Some? ==> r.value == Event(FieldText(ev.fields, "Agent"), FieldText(ev.fields, "Deontic"),
                                         FieldText(ev.fields, "Action"))
  {
    match ev
    case JObj(fields) =>
      var agent := FieldText(fields, "Agent");
      var deon := FieldText(fields, "Deontic");
      var act := FieldText(fields, "Action");
      if agent != "" && deon != "" && act != "" then Some(Event(agent, deon, act)) else None
    case _ => None
  }

  lemma EventOfWellFormed(ev: Json)
    requires EventOf(ev).Some?
    ensures WellFormedEvent(EventOf(ev).value)
  {
  }

  /** Every field is non-empty and has no whitespace at either end. */
  predicate WellFormedEvent(e: Event) {
    && e.agent != "" && NoEdgeSpace(e.agent)
    && e.deontic != "" && NoEdgeSpace(e.deontic)
    && e.action != "" && NoEdgeSpace(e.action)
  }

  /** `_coerce_event_list` after parsing; `None` is a reply that did not parse. */
  function CoerceEventList(data: Option<Json>): (r: seq<Event>)
    ensures data.None? ==> r == []
    ensures data.Some? ==> |r| <= |EventItems(data.value)|
    ensures forall i :: 0 <= i < |r| ==> WellFormedEvent(r[i])
    ensures data.Some? ==> IsSubseq(Map(Wrap, r), Map(EventOf, EventItems(data.value)))
    ensures data.Some? ==> forall ev :: ev in EventItems(data.value) && EventOf(ev).Some? ==> EventOf(ev).value in r
    ensures data.Some? ==> Map(Wrap, r) == Filter(IsSome, Map(EventOf, EventItems(data.value)))
  {
    match data
    case None => []
    case Some(d) =>
      var items := EventItems(d);
      var r := Choose(EventOf, items);
      ChooseIsFilter(EventOf, items);
      ChooseSubseq(EventOf, items);
      ChooseMembers(EventOf, items);
      forall e | e in r ensures WellFormedEvent(e) {
        var i :| 0 <= i < |items| && EventOf(items[i]) == Some(e);
        EventOfWellFormed(items[i]);
      }
      r
  }

  /** A record lacking any of the three fields, or with one of them blank, is
      dropped; a complete record is kept with its fields stripped. */
  lemma EventOfComplete(fields: seq<(string, Json)>)
    ensures EventOf(JObj(fields)).Some?
        <==> (&& !AllSpace(Show(GetOr(fields, "Agent", JStr(""))))
              && !AllSpace(Show(GetOr(fields, "Deontic", JStr(""))))
              && !AllSpace(Show(GetOr(fields, "Action", JStr("")))))
  {
    StripEmptyIff(Show(GetOr(fields, "Agent", JStr(""))));
    StripEmptyIff(Show(GetOr(fields, "Deontic", JStr(""))));
    StripEmptyIff(Show(GetOr(fields, "Action", JStr(""))));
  }

  /** A present field that is not a string is never blank: `str(None)` is
      `"None"`, so a record `{"Agent": null, ...}` counts as complete. */
  lemma NullFieldIsKept(agent: Json, deon: string, act: string)
    requires !agent.JStr?
    requires !AllSpace(deon) && !AllSpace(act)
    ensures EventOf(JObj([("Agent", agent), ("Deontic", JStr(deon)), ("Action", JStr(act))])).Some?
  {
    var fields := [("Agent", agent), ("Deontic", JStr(deon)), ("Action", JStr(act))];
    assert fields[..2] == [("Agent", agent), ("Deontic", JStr(deon))];
    assert fields[..2][..1] == [("Agent", agent)];
    assert Get(fields, "Agent") == Some(agent) by {
      assert Get(fields, "Agent") == Get(fields[..2], "Agent");
      assert Get(fields[..2], "Agent") == Get(fields[..2][..1], "Agent");
    }
    assert Get(fields, "Deontic") == Some(JStr(deon)) by {
      assert Get(fields, "Deontic") == Get(fields[..2], "Deontic");
    }
    ShowNonString(agent);
    NonBlankShow(agent);
    EventOfComplete(fields);
  }
}
