/** The term-definition adapter (utils/fusion_graph_builder/term_definition_graph.py):
    one `IsA` triple defining a keyword, read out of a language-model reply.
    The model call and `json.loads` are outside the model; what they yield
    arrives as a `Reply`. */
module TermDefinition {
  import opened Wrappers
  import opened Text
  import opened Json
  import opened Edges

  /** The two parses `_coerce_single_triple` attempts: the whole reply, and the
      body of the first fenced JSON block. `None` is a parse that failed or a
      block that is not there. */
  datatype Reply = Reply(direct: Option<Json>, fenced: Option<Json>)

  /** `_norm(str(d.get(key, "")))`. */
  function FieldOf(fields: seq<(string, Json)>, key: string): (r: string)
    ensures Normalized(r)
  {
    NormNormalized(Show(GetOr(fields, key, JStr(""))));
    Norm(Show(GetOr(fields, key, JStr(""))))
  }

  /** `_from_dict`: a triple when source, relation and target are all non-blank;
      the relation is replaced by `IsA`. */
  function FromDict(fields: seq<(string, Json)>): (r: Option<Triple>)
    ensures r.Some? ==> && r.value.relation == "IsA"
                        && r.value.source != "" && Normalized(r.value.source)
                        && r.value.target != "" && Normalized(r.value.target)
    ensures r.Some? ==> r.value.target == FieldOf(fields, "target")
  {
    var src := FieldOf(fields, "source");
    var rel := FieldOf(fields, "relation");
    var tgt := FieldOf(fields, "target");
    if src != "" && tgt != "" && rel != "" then Some(Triple(src, "IsA", tgt)) else None
  }

  /** A dict yields a triple exactly when none of its three fields renders as
      blank text; a missing field counts as blank. */
  lemma FromDictComplete(fields: seq<(string, Json)>)
    ensures FromDict(fields).Some?
        <==> (&& !AllSpace(Show(GetOr(fields, "source", JStr(""))))
              && !AllSpace(Show(GetOr(fields, "relation", JStr(""))))
              && !AllSpace(Show(GetOr(fields, "target", JStr("")))))
  {
    NormEmptyIff(Show(GetOr(fields, "source", JStr(""))));
    NormEmptyIff(Show(GetOr(fields, "relation", JStr(""))));
    NormEmptyIff(Show(GetOr(fields, "target", JStr(""))));
  }

  /** One parsed value: an object is read directly, an array through its first
      element when that is an object; anything else yields nothing. */
  function FromParsed(data: Json): (r: Option<Triple>)
    ensures r.Some? ==> data.JObj? || (data.JArr? && |data.items| > 0 && data.items[0].JObj?)
    ensures data.JObj? ==> r == FromDict(data.fields)
    ensures data.JArr? && |data.items| > 0 && data.items[0].JObj? ==> r == FromDict(data.items[0].fields)
  {
    match data
    case JObj(fields) => FromDict(fields)
    case JArr(items) => if |items| > 0 && items[0].JObj? then FromDict(items[0].fields) else None
    case _ => None
  }

  /** The triple a parse attempt contributes, if it succeeded. */
  function Attempt(parsed: Option<Json>): Option<Triple> {
    match parsed
    case Some(data) => FromParsed(data)
    case None => None
  }

  /** `_coerce_single_triple`: the whole reply first, then the fenced block,
      then a default triple with the normalised keyword and an empty target. */
  function CoerceSingleTriple(reply: Reply, keyword: string): (r: Triple)
    ensures r.relation == "IsA"
    ensures Attempt(reply.direct).Some? ==> r == Attempt(reply.direct).value
    ensures Attempt(reply.direct).None? && Attempt(reply.fenced).Some? ==> r == Attempt(reply.fenced).value
    ensures r.target == "" <==> Attempt(reply.direct).None? && Attempt(reply.fenced).None?
    ensures r.target == "" ==> r.source == Norm(keyword)
    ensures r.target != "" ==> Normalized(r.target) && r.source != ""
  {
    match Attempt(reply.direct)
    case Some(t) => t
    case None =>
      match Attempt(reply.fenced)
      case Some(t) => t
      case None => Triple(Norm(keyword), "IsA", "")
  }

  /** `build_term_definition_triples`: exactly one triple, whose source is the
      keyword verbatim and whose relation is `IsA`, whatever the reply says. */
  function BuildTermDefinitionTriples(reply: Reply, keyword: string): (r: seq<Triple>)
    ensures |r| == 1
    ensures r[0].source == keyword && r[0].relation == "IsA"
    ensures r[0].target == CoerceSingleTriple(reply, keyword).target
    ensures r[0].target == "" || Normalized(r[0].target)
  {
    var t := CoerceSingleTriple(reply, keyword);
    [Triple(keyword, "IsA", t.target)]
  }

  /** An object with the three members the prompt asks for, in that order. */
  function Object3(source: Json, relation: Json, target: Json): Json {
    JObj([("source", source), ("relation", relation), ("target", target)])
  }

  /** The object the prompt asks the model for. */
  function Answer(source: string, relation: string, target: string): Json {
    Object3(JStr(source), JStr(relation), JStr(target))
  }

  lemma Object3Lookups(source: Json, relation: Json, target: Json)
    ensures Get(Object3(source, relation, target).fields, "source") == Some(source)
    ensures Get(Object3(source, relation, target).fields, "relation") == Some(relation)
    ensures Get(Object3(source, relation, target).fields, "target") == Some(target)
  {
    var fields := Object3(source, relation, target).fields;
    assert fields[..2] == [("source", source), ("relation", relation)];
    assert fields[..2][..1] == [("source", source)];
    assert Get(fields, "source") == Get(fields[..2], "source") == Get(fields[..2][..1], "source");
    assert Get(fields, "relation") == Get(fields[..2], "relation");
  }

  lemma FieldNonBlank(fields: seq<(string, Json)>, key: string, v: Json)
    requires Get(fields, key) == Some(v) && !AllSpace(Show(v))
    ensures FieldOf(fields, key) != ""
  {
    NormEmptyIff(Show(v));
  }

  lemma FieldExact(fields: seq<(string, Json)>, key: string, v: Json)
    requires Get(fields, key) == Some(v) && Normalized(Show(v))
    ensures FieldOf(fields, key) == Show(v)
  {
    NormFixpoint(Show(v));
  }

  /** An object whose source and relation are non-blank and whose target
      already renders as normalised, non-empty text gives that text as the
      definition, whatever the fenced block holds. */
  lemma ObjectKept(keyword: string, source: Json, relation: Json, target: Json, fenced: Option<Json>)
    requires !AllSpace(Show(source)) && !AllSpace(Show(relation))
    requires Show(target) != "" && Normalized(Show(target))
    ensures BuildTermDefinitionTriples(Reply(Some(Object3(source, relation, target)), fenced), keyword)
         == [Triple(keyword, "IsA", Show(target))]
  {
    var fields := Object3(source, relation, target).fields;
    Object3Lookups(source, relation, target);
    FieldNonBlank(fields, "source", source);
    FieldNonBlank(fields, "relation", relation);
    FieldExact(fields, "target", target);
    assert FromDict(fields) == Some(Triple(FieldOf(fields, "source"), "IsA", Show(target)));
    assert Attempt(Some(Object3(source, relation, target))) == FromDict(fields);
  }

  /** A reply that is exactly the requested object, with an already normalised
      definition, passes the definition through unchanged; the model's own
      source and relation only have to be non-blank. */
  lemma AnswerKept(keyword: string, source: string, relation: string, target: string, fenced: Option<Json>)
    requires !AllSpace(source) && !AllSpace(relation)
    requires target != "" && Normalized(target)
    ensures BuildTermDefinitionTriples(Reply(Some(Answer(source, relation, target)), fenced), keyword)
         == [Triple(keyword, "IsA", target)]
  {
    ObjectKept(keyword, JStr(source), JStr(relation), JStr(target), fenced);
  }

  /** The same object wrapped in a one-element list is read the same way. */
  lemma ListAnswerKept(keyword: string, source: string, relation: string, target: string)
    requires !AllSpace(source) && !AllSpace(relation)
    requires target != "" && Normalized(target)
    ensures BuildTermDefinitionTriples(Reply(Some(JArr([Answer(source, relation, target)])), None), keyword)
         == [Triple(keyword, "IsA", target)]
  {
    AnswerKept(keyword, source, relation, target, None);
  }

  /** A reply with nothing usable in it still yields one triple, with an empty
      definition, so the adapter never returns an empty list. */
  lemma UnusableReply(keyword: string, direct: Option<Json>)
    requires Attempt(direct).None?
    ensures BuildTermDefinitionTriples(Reply(direct, None), keyword) == [Triple(keyword, "IsA", "")]
  {
  }

  /** A null definition is not blank: `str(None)` is `"None"`, which becomes
      the definition. */
  lemma NullTargetIsNone(keyword: string, source: string, relation: string)
    requires !AllSpace(source) && !AllSpace(relation)
    ensures BuildTermDefinitionTriples(Reply(Some(Object3(JStr(source), JStr(relation), JNull)), None), keyword)
         == [Triple(keyword, "IsA", "None")]
  {
    assert Show(JNull) == "None";
    assert Normalized("None");
    ObjectKept(keyword, JStr(source), JStr(relation), JNull, None);
  }
}
