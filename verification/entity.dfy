/** The DBpedia adapter (utils/entity_graph_search.py) once its HTTP calls have
    answered: resolving a keyword to a resource, and turning the SPARQL result
    bindings of that resource into triples. The Lookup and SPARQL endpoints,
    the existence check and URL percent-encoding are services passed in. */
module Entity {
  import opened Wrappers
  import opened Text
  import opened Seqs
  import opened Json
  import opened Edges

  // ---------------------------------------------------------------------------
  // keyword -> resource name
  // ---------------------------------------------------------------------------

  /** The words the fallback resource name is built from: the alphanumeric runs
      of the stripped, lower-cased keyword. */
  function Words(keyword: string): seq<string> {
    Tokens(Lower(Strip(keyword)))
  }

  /** `_normalize_keyword_for_dbr`: the words, each capitalised, joined by `_`;
      the stripped keyword itself when it has no word. */
  function NormalizeKeywordForDbr(keyword: string): (r: string)
    ensures Words(keyword) == [] ==> r == Strip(keyword)
    ensures Words(keyword) != [] ==> r != "" && forall i :: 0 <= i < |r| ==> IsAlnum(r[i]) || r[i] == '_'
  {
    var words := Words(keyword);
    if words == [] then Strip(keyword)
    else
      var caps := Map(Capitalize, words);
      CapitalizedWords(keyword);
      JoinWithin(caps, "_", c => IsAlnum(c) || c == '_');
      assert |caps[0]| > 0;
      Join(caps, "_")
  }

  /** Each capitalised word is alphanumeric and lower-cases back to the word. */
  lemma CapitalizedWords(keyword: string)
    ensures forall i :: 0 <= i < |Words(keyword)| ==>
              && Words(keyword)[i] != ""
              && AllAlnum(Capitalize(Words(keyword)[i]))
              && Lower(Capitalize(Words(keyword)[i])) == Words(keyword)[i]
  {
    var words := Words(keyword);
    TokensCover(Lower(Strip(keyword)));
    TokensLowered(Strip(keyword));
    forall i | 0 <= i < |words|
      ensures AllAlnum(Capitalize(words[i])) && Lower(Capitalize(words[i])) == words[i]
    {
      CapitalizeLower(words[i]);
    }
  }

  /** The resource name can be read back: split at `_` and lower-cased piece by
      piece, it gives the keyword's words again. */
  lemma NormalizeKeywordWords(keyword: string)
    requires Words(keyword) != []
    ensures Map(Lower, Split(NormalizeKeywordForDbr(keyword), '_')) == Words(keyword)
  {
    var words := Words(keyword);
    var caps := Map(Capitalize, words);
    CapitalizedWords(keyword);
    forall i | 0 <= i < |caps| ensures '_' !in caps[i] {
      assert AllAlnum(caps[i]);
    }
    SplitJoin(caps, '_');
    assert NormalizeKeywordForDbr(keyword) == Join(caps, ['_']);
  }

  // ---------------------------------------------------------------------------
  // local names
  // ---------------------------------------------------------------------------

  /** `_localname`: the text after the last `/` once trailing slashes are gone. */
  function LocalName(uri: string): (r: string)
    ensures uri == "" ==> r == ""
    ensures '/' !in r
    ensures |r| <= |uri|
  {
    if uri == "" then "" else LastSegment(RStripChar(uri, '/'), '/')
  }

  /** The name after the last `/` is the local name. */
  lemma LocalNameAfter(prefix: string, name: string)
    requires name != "" && '/' !in name
    ensures LocalName(prefix + "/" + name) == name
  {
    var s := prefix + "/" + name;
    assert s[|s| - 1] == name[|name| - 1];
    assert RStripChar(s, '/') == s;
    LastSegmentAfter(prefix, '/', name);
  }

  /** Trailing slashes do not change the local name. */
  lemma LocalNameOf(prefix: string, name: string, slashes: nat)
    requires name != "" && '/' !in name
    ensures LocalName(prefix + "/" + name + Repeat('/', slashes)) == name
  {
    var s := prefix + "/" + name;
    RStripCharTrailing(s, '/', slashes);
    LocalNameAfter(prefix, name);
  }

  /** The label a resource gives as a triple end: its local name, `_` read as space. */
  function SourceLabel(uri: string): (r: string)
    ensures '_' !in r && '/' !in r
    ensures |r| == |LocalName(uri)|
    ensures forall i :: 0 <= i < |r| ==> r[i] == if LocalName(uri)[i] == '_' then ' ' else LocalName(uri)[i]
  {
    ReplaceChar(LocalName(uri), '_', ' ')
  }

  // ---------------------------------------------------------------------------
  // wiki-meta relations
  // ---------------------------------------------------------------------------

  const WikiPrefix: string := "wikiPage"

  const WikiOntology: string := "dbpedia.org/ontology/wikiPage"

  /** Local names of navigation and bookkeeping relations. */
  const Blocklist: set<string> := {
    "wikiPageWikiLink", "wikiPageExternalLink", "wikiPageRedirects", "wikiPageDisambiguates",
    "wikiPageInterLanguageLink", "wikiPageUsesTemplate", "wikiPageEditLink", "wikiPageHistoryLink",
    "wikiPageRevisionLink", "wikiPageWikiLinkText", "wikiPageID", "wikiPageRevisionID",
    "wikidataSplitIri", "22-rdf-syntax-ns#type", "rdf-schema#seeAlso"
  }

  /** `_is_wiki_relation`. */
  function IsWikiRelation(pUri: string, relLocal: string): (r: bool)
    ensures relLocal == "" ==> !r
    ensures relLocal != "" && relLocal in Blocklist ==> r
    ensures relLocal != "" && StartsWith(relLocal, WikiPrefix) ==> r
    ensures relLocal != "" && Contains(pUri, WikiOntology) ==> r
    ensures r ==> relLocal in Blocklist || StartsWith(relLocal, WikiPrefix) || Contains(pUri, WikiOntology)
  {
    if relLocal == "" then false
    else if relLocal in Blocklist then true
    else if StartsWith(relLocal, WikiPrefix) then true
    else Contains(pUri, WikiOntology)
  }

  /** `rdf:type` and `rdfs:seeAlso`, split at their last `/`. */
  const RdfType: string := "http://www.w3.org/1999/02" + "/" + "22-rdf-syntax-ns#type"

  const RdfsSeeAlso: string := "http://www.w3.org/2000/01" + "/" + "rdf-schema#seeAlso"

  /** `rdf:type` and `rdfs:seeAlso` count as wiki-meta relations, so with the
      default exclusion no type or see-also edge is ever emitted. */
  lemma StandardVocabularyExcluded()
    ensures IsWikiRelation(RdfType, LocalName(RdfType))
    ensures IsWikiRelation(RdfsSeeAlso, LocalName(RdfsSeeAlso))
  {
    LocalNameAfter("http://www.w3.org/1999/02", "22-rdf-syntax-ns#type");
    LocalNameAfter("http://www.w3.org/2000/01", "rdf-schema#seeAlso");
  }

  /** Any predicate under the DBpedia ontology's `wikiPage` names is excluded,
      whatever its local name turns out to be. */
  lemma OntologyWikiPageExcluded(scheme: string, rest: string)
    requires LocalName(scheme + WikiOntology + rest) != ""
    ensures IsWikiRelation(scheme + WikiOntology + rest, LocalName(scheme + WikiOntology + rest))
  {
    ContainsInfix(scheme, WikiOntology, rest);
  }

  /** The local-name test is on the whole `wikiPage` prefix: outside the
      ontology's `wikiPage` names, `wikiFoo` is kept and `wikiPageFoo` is not. */
  lemma WikiPrefixIsWikiPage(pUri: string)
    requires !Contains(pUri, WikiOntology)
    ensures !IsWikiRelation(pUri, "wikiFoo")
    ensures IsWikiRelation(pUri, "wikiPageFoo")
  {
    assert "wikiPageFoo"[..|WikiPrefix|] == WikiPrefix;
  }

  // ---------------------------------------------------------------------------
  // resolving a keyword
  // ---------------------------------------------------------------------------

  /** The value of one candidate key: the first element of a non-empty list, or
      a string; anything else lets the next key be tried. */
  function KeyUri(v: Option<Json>): (r: Option<Json>)
    ensures r.Some? <==> v.Some? && ((v.value.JArr? && |v.value.items| > 0) || v.value.JStr?)
    ensures v.Some? && v.value.JArr? && |v.value.items| > 0 ==> r == Some(v.value.items[0])
    ensures v.Some? && v.value.JStr? ==> r == v
  {
    match v
    case Some(JArr(items)) => if |items| > 0 then Some(items[0]) else None
    case Some(JStr(s)) => Some(JStr(s))
    case _ => None
  }

  /** The URI a Lookup document offers: `resource` first, then `uri`. */
  function CandidateUri(doc: seq<(string, Json)>): (r: Option<Json>)
    ensures KeyUri(Get(doc, "resource")).Some? ==> r == KeyUri(Get(doc, "resource"))
    ensures KeyUri(Get(doc, "resource")).None? ==> r == KeyUri(Get(doc, "uri"))
  {
    match KeyUri(Get(doc, "resource"))
    case Some(u) => Some(u)
    case None => KeyUri(Get(doc, "uri"))
  }

  /** A candidate that is accepted: a string starting with `http`. */
  predicate IsHttp(u: Option<Json>) {
    u.Some? && u.value.JStr? && StartsWith(u.value.s, "http")
  }

  /** Document `i` is examined: every earlier one is an object without an
      acceptable candidate. */
  predicate Reached(docs: seq<Json>, i: int)
    requires 0 <= i <= |docs|
  {
    forall k :: 0 <= k < i ==> docs[k].JObj? && !IsHttp(CandidateUri(docs[k].fields))
  }

  /** The candidate loop: the first document with an acceptable candidate wins;
      a document that is not an object raises, which abandons the lookup. */
  function PickLookup(docs: seq<Json>): (r: Option<string>)
    ensures r.Some? ==> StartsWith(r.value, "http")
    ensures r.Some? ==> exists i :: 0 <= i < |docs| && Reached(docs, i) && docs[i].JObj?
                                    && CandidateUri(docs[i].fields) == Some(JStr(r.value))
    ensures r.None? ==> forall i :: 0 <= i < |docs| && Reached(docs, i) && docs[i].JObj? ==>
                                      !IsHttp(CandidateUri(docs[i].fields))
    decreases |docs|
  {
    if |docs| == 0 then None
    else
      match docs[0]
      case JObj(fields) =>
        var u := CandidateUri(fields);
        if IsHttp(u) then
          assert Reached(docs, 0);
          Some(u.value.s)
        else
          var r := PickLookup(docs[1..]);
          PickLookupShift(docs);
          r
      case _ =>
        assert forall i :: 0 < i <= |docs| ==> !Reached(docs, i);
        None
  }

  /** After an object without an acceptable candidate, the documents reached
      are those reached in the rest, one position on. */
  lemma PickLookupShift(docs: seq<Json>)
    requires |docs| > 0 && docs[0].JObj? && !IsHttp(CandidateUri(docs[0].fields))
    ensures forall i :: 0 <= i < |docs| - 1 ==> (Reached(docs[1..], i) <==> Reached(docs, i + 1))
  {
    forall i | 0 <= i < |docs| - 1 ensures Reached(docs[1..], i) <==> Reached(docs, i + 1) {
      assert forall k :: 0 <= k < i ==> docs[1..][k] == docs[k + 1];
      if Reached(docs[1..], i) {
        forall k | 0 <= k < i + 1 ensures docs[k].JObj? && !IsHttp(CandidateUri(docs[k].fields)) {
          if k > 0 {
            assert docs[k] == docs[1..][k - 1];
          }
        }
      }
    }
  }

  /** `resolve_dbpedia_entity`'s Lookup half: a failed request, a document that
      is not an object, or `docs` that is not a list yields no URI. */
  function Lookup(resp: Fetched<Json>): (r: Option<string>)
    ensures r.Some? ==> StartsWith(r.value, "http")
    ensures r.Some? ==> && resp.Ok? && resp.payload.JObj? && Get(resp.payload.fields, "docs").Some?
                        && Get(resp.payload.fields, "docs").value.JArr?
    ensures resp.Ok? && resp.payload.JObj? && Get(resp.payload.fields, "docs").Some?
            && Get(resp.payload.fields, "docs").value.JArr? ==>
              r == PickLookup(Get(resp.payload.fields, "docs").value.items)
  {
    match resp
    case Failed => None
    case Ok(data) =>
      match data
      case JObj(fields) =>
        (match Get(fields, "docs")
         case Some(JArr(items)) => PickLookup(items)
         case _ => None)
      case _ => None
  }

  /** The DBpedia services: the Lookup search, the ASK existence check,
      `urllib.parse.quote`, and the SELECT of a resource's outgoing edges. */
  datatype DBpedia = DBpedia(
    lookup: string -> Fetched<Json>,
    resourceExists: string -> bool,
    quote: string -> string,
    select: string -> Fetched<seq<Binding>>)

  const DbrPrefix: string := "http://dbpedia.org/resource" + "/"

  /** The resource tried when the Lookup offers nothing. */
  function FallbackUri(db: DBpedia, keyword: string): string {
    DbrPrefix + db.quote(NormalizeKeywordForDbr(keyword))
  }

  /** `resolve_dbpedia_entity`: the Lookup's choice, else the fallback resource
      when it exists, else nothing. */
  function Resolve(db: DBpedia, keyword: string): (r: Option<string>)
    ensures r.Some? ==> StartsWith(r.value, "http")
    ensures Lookup(db.lookup(keyword)).Some? ==> r == Lookup(db.lookup(keyword))
    ensures Lookup(db.lookup(keyword)).None? ==>
              (r.Some? <==> db.resourceExists(FallbackUri(db, keyword)))
              && (r.Some? ==> r.value == FallbackUri(db, keyword))
  {
    match Lookup(db.lookup(keyword))
    case Some(u) => Some(u)
    case None =>
      var c := FallbackUri(db, keyword);
      assert c[..4] == "http";
      if db.resourceExists(c) then Some(c) else None
  }

  /** The local name of a fallback resource is the name it was built from
      (when `quote` leaves the name alone). */
  lemma FallbackLocalName(db: DBpedia, keyword: string)
    requires Words(keyword) != []
    requires db.quote(NormalizeKeywordForDbr(keyword)) == NormalizeKeywordForDbr(keyword)
    ensures LocalName(FallbackUri(db, keyword)) == NormalizeKeywordForDbr(keyword)
  {
    var name := NormalizeKeywordForDbr(keyword);
    assert '/' !in name by {
      forall i | 0 <= i < |name| ensures name[i] != '/' {
        assert IsAlnum(name[i]) || name[i] == '_';
      }
    }
    LocalNameAfter("http://dbpedia.org/resource", name);
    assert FallbackUri(db, keyword) == "http://dbpedia.org/resource" + "/" + name;
  }

  /** A fallback resource names its triples after the keyword's words: the
      source label is the capitalised words separated by spaces (when `quote`
      leaves the name alone, as it does for letters, digits and `_`). */
  lemma FallbackLabel(db: DBpedia, keyword: string)
    requires Words(keyword) != []
    requires db.quote(NormalizeKeywordForDbr(keyword)) == NormalizeKeywordForDbr(keyword)
    ensures SourceLabel(FallbackUri(db, keyword)) == Join(Map(Capitalize, Words(keyword)), " ")
  {
    var caps := Map(Capitalize, Words(keyword));
    FallbackLocalName(db, keyword);
    assert LocalName(FallbackUri(db, keyword)) == Join(caps, ['_']);
    CapitalizedWords(keyword);
    forall i | 0 <= i < |caps| ensures '_' !in caps[i] {
      assert AllAlnum(caps[i]);
    }
    ReplaceJoin(caps, '_', ' ');
  }

  // ---------------------------------------------------------------------------
  // bindings -> triples
  // ---------------------------------------------------------------------------

  /** One RDF term of a result binding, in the encoding of section 3.2.2 of the
      SPARQL 1.1 Query Results JSON Format: `type` is "uri", "literal" or
      "bnode". */
  datatype RdfTerm = RdfTerm(termType: string, value: string)

  /** One row of the SELECT: `?p ?pLabel ?o ?oLabel`, the labels optional. */
  datatype Binding = Binding(p: Option<RdfTerm>, pLabel: Option<RdfTerm>, o: Option<RdfTerm>, oLabel: Option<RdfTerm>)

  /** `b.get(k, {}).get("value", "")`. */
  function ValueOf(t: Option<RdfTerm>): string {
    if t.Some? then t.value.value else ""
  }

  /** `b.get(k, {}).get("type", "")`. */
  function TypeOf(t: Option<RdfTerm>): string {
    if t.Some? then t.value.termType else ""
  }

  /** `label or other`: a present, non-empty label wins. */
  function LabelOr(given: Option<RdfTerm>, other: string): (r: string)
    ensures given.Some? && given.value.value != "" ==> r == given.value.value
    ensures (given.None? || given.value.value == "") ==> r == other
  {
    if given.Some? && given.value.value != "" then given.value.value else other
  }

  /** The triple end an object becomes: a resource by its label or local name
      with `_` read as space, anything else by its label or raw value. */
  function TargetText(b: Binding): (r: string)
    ensures TypeOf(b.o) == "uri" ==> '_' !in r
    ensures TypeOf(b.o) == "uri" ==> |r| == |LabelOr(b.oLabel, LocalName(ValueOf(b.o)))|
    ensures TypeOf(b.o) == "uri" ==> forall i :: 0 <= i < |r| ==>
              r[i] == if LabelOr(b.oLabel, LocalName(ValueOf(b.o)))[i] == '_' then ' '
                      else LabelOr(b.oLabel, LocalName(ValueOf(b.o)))[i]
    ensures TypeOf(b.o) != "uri" ==> r == LabelOr(b.oLabel, ValueOf(b.o))
  {
    if TypeOf(b.o) == "uri" then ReplaceChar(LabelOr(b.oLabel, LocalName(ValueOf(b.o))), '_', ' ')
    else LabelOr(b.oLabel, ValueOf(b.o))
  }

  /** One binding of the loop in `fetch_dbpedia_triples`: dropped when its
      predicate is a wiki-meta relation (and those are excluded) or its local
      name is outside a non-empty `relations`; otherwise a triple from the
      resolved resource. */
  function Convert(b: Binding, source: string, relations: set<string>, excludeWiki: bool): (r: Option<Triple>)
    ensures r.Some? <==> && !(excludeWiki && IsWikiRelation(ValueOf(b.p), LocalName(ValueOf(b.p))))
                         && (relations == {} || LocalName(ValueOf(b.p)) in relations)
    ensures r.Some? ==> r.value.source == source
    ensures r.Some? ==> r.value.relation == LabelOr(b.pLabel, LocalName(ValueOf(b.p)))
    ensures r.Some? ==> r.value.target == TargetText(b)
  {
    var pUri := ValueOf(b.p);
    var relLocal := LocalName(pUri);
    if excludeWiki && IsWikiRelation(pUri, relLocal) then None
    else if relations != {} && relLocal !in relations then None
    else Some(Triple(source, LabelOr(b.pLabel, relLocal), TargetText(b)))
  }

  /** A resource object without a label becomes its local name with `_` read as
      space: no slash and no underscore survives. */
  lemma UnlabelledResourceTarget(b: Binding)
    requires TypeOf(b.o) == "uri" && (b.oLabel.None? || b.oLabel.value.value == "")
    ensures TargetText(b) == ReplaceChar(LocalName(ValueOf(b.o)), '_', ' ')
    ensures '/' !in TargetText(b) && '_' !in TargetText(b)
  {
    var l := LocalName(ValueOf(b.o));
    assert forall i :: 0 <= i < |l| ==> l[i] != '/';
  }

  function Converter(source: string, relations: set<string>, excludeWiki: bool): Binding -> Option<Triple> {
    b => Convert(b, source, relations, excludeWiki)
  }

  /** The triples of a binding list before the cap: converted, first
      occurrence of every signature kept. */
  function Converted(bindings: seq<Binding>, source: string, relations: set<string>, excludeWiki: bool): seq<Triple> {
    ChooseDistinct(Converter(source, relations, excludeWiki), KeyOfTriple, bindings)
  }

  /** Before the cap, the triples are the first triple of every signature,
      in binding order. */
  lemma ConvertedIsFirsts(bindings: seq<Binding>, source: string, relations: set<string>, excludeWiki: bool)
    ensures Converted(bindings, source, relations, excludeWiki)
         == Firsts(Choose(Converter(source, relations, excludeWiki), bindings), KeyOfTriple, Always)
  {
    DedupByIsFirsts(Choose(Converter(source, relations, excludeWiki), bindings), KeyOfTriple, Always);
  }

  /** `t` is the triple of some binding. */
  predicate Produced(bindings: seq<Binding>, source: string, relations: set<string>, excludeWiki: bool, t: Triple) {
    exists j :: 0 <= j < |bindings| && Convert(bindings[j], source, relations, excludeWiki) == Some(t)
  }

  /** The triples of the loop over the result bindings. */
  function EntityTriplesOf(bindings: seq<Binding>, source: string, relations: set<string>,
                           maxNum: Option<int>, excludeWiki: bool): (r: seq<Triple>)
    ensures KeysDistinct(r, KeyOfTriple)
    ensures forall i :: 0 <= i < |r| ==> r[i].source == source && Produced(bindings, source, relations, excludeWiki, r[i])
    ensures maxNum.Some? ==> |r| <= Max(1, maxNum.value)
    ensures maxNum.Some? && Choose(Converter(source, relations, excludeWiki), bindings) != [] ==> |r| >= 1
    ensures maxNum.None? ==>
              KeysOf(r, KeyOfTriple) == KeysOf(Choose(Converter(source, relations, excludeWiki), bindings), KeyOfTriple)
    ensures |r| <= |Converted(bindings, source, relations, excludeWiki)|
            && r == Converted(bindings, source, relations, excludeWiki)[..|r|]
    ensures maxNum.Some? ==> |r| == Min(|Converted(bindings, source, relations, excludeWiki)|, Max(1, maxNum.value))
  {
    var conv := Converter(source, relations, excludeWiki);
    var all := Converted(bindings, source, relations, excludeWiki);
    var r := Cap(all, maxNum);
    ChooseDistinctEmpty(conv, KeyOfTriple, bindings);
    forall i | 0 <= i < |r| ensures r[i].source == source && Produced(bindings, source, relations, excludeWiki, r[i]) {
      assert r[i] == all[i];
      var j :| 0 <= j < |bindings| && conv(bindings[j]) == Some(all[i]);
    }
    r
  }

  /** The loop as the source writes it: convert, skip a seen signature,
      append, and stop once the cap is reached. */
  method EmitTriples(bindings: seq<Binding>, source: string, relations: set<string>,
                     maxNum: Option<int>, excludeWiki: bool) returns (triples: seq<Triple>)
    ensures triples == EntityTriplesOf(bindings, source, relations, maxNum, excludeWiki)
  {
    triples := ChooseDistinctLoop(Converter(source, relations, excludeWiki), KeyOfTriple, bindings, maxNum);
  }

  /** `fetch_dbpedia_triples` with the default query: nothing for an unresolved
      keyword or a failed SELECT; otherwise the bindings' triples, every one
      named after the resolved resource. */
  function EntityTriples(db: DBpedia, keyword: string, relations: set<string>, maxNum: Option<int>,
                         excludeWiki: bool): (r: seq<Triple>)
    ensures Resolve(db, keyword).None? ==> r == []
    ensures Resolve(db, keyword).Some? && db.select(Resolve(db, keyword).value).Failed? ==> r == []
    ensures Resolve(db, keyword).Some? && db.select(Resolve(db, keyword).value).Ok? ==>
              r == EntityTriplesOf(db.select(Resolve(db, keyword).value).payload,
                                   SourceLabel(Resolve(db, keyword).value), relations, maxNum, excludeWiki)
    ensures KeysDistinct(r, KeyOfTriple)
    ensures maxNum.Some? ==> |r| <= Max(1, maxNum.value)
  {
    match Resolve(db, keyword)
    case None => []
    case Some(uri) =>
      match db.select(uri)
      case Failed => []
      case Ok(bindings) => EntityTriplesOf(bindings, SourceLabel(uri), relations, maxNum, excludeWiki)
  }
}
