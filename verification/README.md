# Fusion graph builder — a Dafny model

This project models the fusion-graph builder.

- **Input.** A list of eventic rows: dicts with Agent/Deontic/Action fields, produced by a language model from a document.
- **Seeding.** The rows are turned into seed edges tagged `eventic`. An initial queue of agents is extracted from them.
- **Rounds.** For a bounded number of rounds, each round:
  1. Passes the current agents through a model-based relevance filter.
  2. Expands each selected agent through up to three adapters:
     - ConceptNet one-hop triples, ranked by weight (tag `concept`);
     - DBpedia one-hop triples, with wiki/navigation relations excluded (tag `entity`);
     - one `IsA` definition written by a language model (tag `term_definition`).
  3. Builds the next queue from the concept and entity targets only.
- **Result.** Every edge, seed and expanded, goes through one final deduplication.

Each external call is a parameter of the model, never a computation:

- the relevance-filter reply;
- the ConceptNet response;
- the DBpedia lookup and SPARQL responses and the existence check;
- the definition reply;
- URL quoting.

The `Fusion.Services` datatype collects these calls as total functions. A parse by `json.loads` arrives already decoded as a `Json.Json` value, or as `None` when it failed.

## Modules

| file | module | contents |
|---|---|---|
| `wrappers.dfy` | `Wrappers` | `Option`, `Fetched` (a response or a failed request), `Outcome` (a value or a raised exception) |
| `text.dfy` | `Text` | Python whitespace, `strip`, the `" ".join(s.split())` normalisation, ASCII case, splitting and joining |
| `seqs.dfy` | `Seqs` | generic first-occurrence deduplication with an independent reference definition (`Firsts`); choose/filter/flat-map over sequences; the two loops written as methods |
| `json.dfy` | `Json` | decoded JSON values, `dict.get`, Python truthiness, `str()` of a value |
| `edges.dfy` | `Edges` | triples, tagged edges, `_dedup_edges` |
| `terms.dfy` | `Terms` | case-insensitive first-spelling deduplication of terms |
| `events.dfy` | `Events` | the eventic builder's reply reading (`_extract_json_text`, `_coerce_event_list`) |
| `seeds.dfy` | `Seeds` | `_eventic_to_triples`, `_extract_agents_from_eventic` |
| `concept.dfy` | `Concept` | the ConceptNet adapter after the HTTP request |
| `entity.dfy` | `Entity` | the DBpedia adapter: keyword normalisation, entity resolution, binding conversion |
| `termdef.dfy` | `TermDefinition` | the term-definition adapter after the model call |
| `filter.dfy` | `RelevanceFilter` | `_pick_hard_agents_via_gpt` after the model call |
| `fusion.dfy` | `Fusion` | configuration, one round (`_expand_once`), the round loop and `build_fusion_graph` |

## Model

| member | source | states |
|---|---|---|
| Text.NormNormalized | utils/fusion_graph_builder/__init__.py:39-40 | `_norm` yields text without leading, trailing or repeated whitespace |
| Text.NormIdempotent | utils/fusion_graph_builder/__init__.py:39-40 | normalising twice is normalising once |
| Text.NormEmptyIff | utils/fusion_graph_builder/__init__.py:39-40 | `_norm(s)` is empty exactly when `s` is all whitespace |
| Text.NormKeepsContent | utils/fusion_graph_builder/__init__.py:39-40 | normalisation keeps the non-space characters, in order |
| Seqs.DedupByIsFirsts | utils/fusion_graph_builder/__init__.py:80-91 | the seen-set loop keeps exactly the first occurrence of each admitted key, in input order, equal to the independent definition `Seqs.Firsts` |
| Seqs.DedupByIdempotent | utils/fusion_graph_builder/__init__.py:80-91 | running the seen-set loop on its own output changes nothing |
| Seqs.DedupLoop | utils/fusion_graph_builder/__init__.py:80-91 | the imperative loop with a `seen` set computes the functional deduplication |
| Edges.Dedup | utils/fusion_graph_builder/__init__.py:80-91 | `_dedup_edges` keeps only complete edges with normalised fields, one per `(source, relation, target, source_graph)` signature with the ends compared ignoring case, and every signature of a complete input edge is represented |
| Edges.DedupIsFirstOccurrences | utils/fusion_graph_builder/__init__.py:80-91 | the kept edge for a key is the normalised form of its first complete occurrence, and the order is that of first occurrence |
| Edges.DedupIdempotent | utils/fusion_graph_builder/__init__.py:80-91 | deduplicating a deduplicated list returns it unchanged |
| Edges.DedupPrefix | utils/fusion_graph_builder/__init__.py:80-91 | appending edges never removes or reorders those already kept |
| Edges.DedupPair | utils/fusion_graph_builder/__init__.py:84-89 | of two complete edges with the same signature only the first survives, normalised; edges with different signatures both survive |
| Edges.DedupTags | utils/fusion_graph_builder/__init__.py:85-89 | every surviving edge keeps the `source_graph` tag of an input edge |
| Edges.DedupEdges | utils/fusion_graph_builder/__init__.py:80-91 | the loop as a method returns the same list as `Edges.Dedup` |
| Terms.DistinctCI | utils/fusion_graph_builder/__init__.py:56-60 | agents/targets are non-empty, distinct ignoring case, a subsequence of the input, and cover every admitted input key |
| Terms.DistinctCIIsFirsts | utils/fusion_graph_builder/__init__.py:243-250 | the kept spelling of each term is its first one, in order of first appearance |
| Terms.DistinctCIExcludes | utils/fusion_graph_builder/__init__.py:243-250 | no kept term matches an excluded term ignoring case |
| Seeds.FirstTruthy | utils/fusion_graph_builder/__init__.py:68-70 | the `or`-chain yields a truthy value found under some key with no truthy value under an earlier key, and nothing exactly when no present value is truthy |
| Seeds.SeedEdge | utils/fusion_graph_builder/__init__.py:67-77 | a row yields an `eventic` edge exactly when all three `or`-chains are truthy, and its fields are the normalised `str()` of the values the chains select |
| Seeds.SeedEdgeComplete | utils/fusion_graph_builder/__init__.py:68-75 | the truthiness test is on the raw values, so a seed edge has no empty field exactly when no chosen value renders as blank |
| Seeds.EventicToTriples | utils/fusion_graph_builder/__init__.py:62-78 | the seed edges are the edges of the qualifying rows, one per such row, in row order: wrapping them gives the row-wise `Seeds.SeedEdge` results with the non-qualifying rows filtered out |
| Seeds.AgentField | utils/fusion_graph_builder/__init__.py:49-53 | the value of the first key whose lower-case form starts with `agent`, present exactly when such a key exists |
| Seeds.AgentOf | utils/fusion_graph_builder/__init__.py:49-55 | a row contributes an agent exactly when its first agent field is truthy, and the agent is the normalised `str()` of that field |
| Seeds.ExtractAgents | utils/fusion_graph_builder/__init__.py:46-60 | the initial queue is non-empty normalised agents, distinct ignoring case, covering every row's agent |
| Seeds.ExtractAgentsIsFirsts | utils/fusion_graph_builder/__init__.py:56-60 | each agent keeps the spelling of its first row |
| Seeds.EventSeeds | utils/eventic_graph_builder.py:115-123 | every event the eventic builder keeps becomes a complete seed edge and contributes its agent |
| Events.ExtractJsonText | utils/eventic_graph_builder.py:65-82 | the fenced block's body, else the raw reply, stripped; a non-string reply gives `""` |
| Events.EventItems | utils/eventic_graph_builder.py:104-112 | a list is taken as is; an object whose `events` is a list yields exactly that list; anything else, an object without such a list included, yields no items |
| Events.EventOf | utils/eventic_graph_builder.py:115-123 | a dict item becomes an event whose fields are the stripped `str()` of its three values; other items are skipped |
| Events.CoerceEventList | utils/eventic_graph_builder.py:84-124 | a failed parse yields no events; otherwise there is one event per dict item, in item order: wrapping them gives the item-wise `Events.EventOf` results with the non-dict items filtered out |
| Events.EventOfComplete | utils/eventic_graph_builder.py:118-122 | a dict item is kept exactly when its three stripped fields are non-empty |
| Events.NullFieldIsKept | utils/eventic_graph_builder.py:118-122 | a null Agent is not skipped: `str(None)` is `"None"` |
| Concept.NormTerm | utils/concept_graph_search.py:7-9 | the query term has the stripped keyword's length, and at every position a space becomes `_` and any other character is lower-cased |
| Concept.NormTermIdempotent | utils/concept_graph_search.py:7-9 | normalising a query term twice is normalising it once |
| Concept.LabelOf | utils/concept_graph_search.py:11-13 | the node's non-empty label, else a slash-free suffix of its id that is the whole id or follows a `/`, i.e. the id's last segment |
| Concept.RelOf | utils/concept_graph_search.py:15-18 | the relation is a slash-free suffix of the relation id that is the whole id or follows a `/`, i.e. its last segment; empty when there is no id |
| Concept.RelOfIdentifier | utils/concept_graph_search.py:15-18 | a `prefix/Name` id yields `Name` as the relation, and as the label of a node whose label is missing or empty |
| Concept.RelOfPlain | utils/concept_graph_search.py:11-18 | an id without a slash is its own relation and its own fallback label |
| Concept.Kept | utils/concept_graph_search.py:64-87 | kept candidates pass the weight and relation tests, come from the response, are distinct by `(source.lower(), relation, target.lower())`, and every signature of a passing candidate is kept |
| Concept.KeptIsFirsts | utils/concept_graph_search.py:64-87 | the seen-set loop keeps exactly the first passing candidate of each signature, in response order, equal to the independent definition `Seqs.Firsts` |
| Concept.SortByWeight | utils/concept_graph_search.py:89-90 | the sort is a permutation in non-increasing weight order |
| Concept.SortStable | utils/concept_graph_search.py:89-90 | the sort is stable: the candidates of any given weight keep their relative order |
| Concept.Ranked | utils/concept_graph_search.py:64-90 | the ranked candidates are a weight-ordered permutation of the kept ones |
| Concept.RankedStable | utils/concept_graph_search.py:89-90 | ranking keeps the response order among equal weights |
| Concept.Limit | utils/concept_graph_search.py:92-94 | `triples[:max_num]`, including Python's meaning of a negative bound |
| Concept.ConceptTriples | utils/concept_graph_search.py:53-100 | a failed request yields nothing; otherwise the weight-stripped prefix of the ranked kept records, as long as `max_num` allows, with distinct signatures |
| Concept.ConceptTriplesRelations | utils/concept_graph_search.py:72-73 | with a relation filter given, every returned triple has one of the asked relations |
| Concept.ConceptTriplesWeighted | utils/concept_graph_search.py:67-90 | every returned triple comes from a response edge whose weight is at least the minimum |
| Entity.NormalizeKeywordForDbr | utils/entity_graph_search.py:16-22 | with alphanumeric tokens, a non-empty name made of alphanumerics and underscores; without any, the stripped keyword |
| Entity.NormalizeKeywordWords | utils/entity_graph_search.py:16-22 | splitting the name at underscores and lower-casing gives back the keyword's tokens |
| Entity.LocalName | utils/entity_graph_search.py:24-28 | the local name contains no slash and is no longer than the URI |
| Entity.LocalNameOf | utils/entity_graph_search.py:24-28 | the local name of `prefix/name` followed by any trailing slashes is `name` |
| Entity.SourceLabel | utils/entity_graph_search.py:224 | the source label has the local name's length, and at every position an underscore becomes a space and any other character is kept |
| Entity.IsWikiRelation | utils/entity_graph_search.py:66-75 | a relation is excluded exactly when it is blocklisted, has a local name starting with `wikiPage`, or has a predicate URI containing the ontology's `wikiPage` path; an empty local name never is |
| Entity.StandardVocabularyExcluded | utils/entity_graph_search.py:62-63 | `rdf:type` and `rdfs:seeAlso` are excluded |
| Entity.OntologyWikiPageExcluded | utils/entity_graph_search.py:75 | any predicate URI under the ontology `wikiPage` prefix is excluded |
| Entity.WikiPrefixIsWikiPage | utils/entity_graph_search.py:46-75 | the prefix test is on `wikiPage`, not `wiki`: away from the ontology path, `wikiFoo` is kept and `wikiPageFoo` is excluded |
| Entity.KeyUri | utils/entity_graph_search.py:97-104 | a non-empty list yields its first element; a string yields itself; anything else yields nothing |
| Entity.CandidateUri | utils/entity_graph_search.py:97-104 | `resource` is preferred to `uri` |
| Entity.PickLookup | utils/entity_graph_search.py:95-108 | the first document whose candidate starts with `http` wins, and no earlier document had one |
| Entity.Lookup | utils/entity_graph_search.py:86-114 | a failed request, a reply without a `docs` list, or a list without a usable candidate yields no entity; a found entity starts with `http` |
| Entity.Resolve | utils/entity_graph_search.py:80-122 | the lookup's entity, else the synthesised resource URI if it exists, else nothing |
| Entity.FallbackLocalName | utils/entity_graph_search.py:116-117 | the synthesised resource's local name is the normalised keyword |
| Entity.FallbackLabel | utils/entity_graph_search.py:116-122 | the synthesised entity's source label is the capitalised tokens of the keyword, space-separated |
| Entity.LabelOr | utils/entity_graph_search.py:249-253 | a non-empty label wins over the fallback text |
| Entity.TargetText | utils/entity_graph_search.py:250-253 | a resource target is its label or local name with every underscore turned into a space, position by position; a literal target is its label or value |
| Entity.Convert | utils/entity_graph_search.py:229-259 | a binding yields a triple exactly when its relation is not an excluded wiki relation and is among the requested ones (when any are); the triple has the given source, the relation's label or local name, and the target text |
| Entity.UnlabelledResourceTarget | utils/entity_graph_search.py:250-251 | an unlabelled resource target is its local name with underscores turned into spaces |
| Entity.EntityTriplesOf | utils/entity_graph_search.py:223-267 | the converted triples cut at `max(1, max_num)`: a prefix of the deduplicated conversions, in binding order, exactly as long as the bound and the conversions allow; at least one when anything converts |
| Entity.ConvertedIsFirsts | utils/entity_graph_search.py:223-259 | the deduplicated conversions are the first occurrence of each triple among the converted bindings, equal to the independent definition `Seqs.Firsts` |
| Entity.EmitTriples | utils/entity_graph_search.py:229-267 | the loop with its early `break` computes `Entity.EntityTriplesOf` |
| Entity.EntityTriples | utils/entity_graph_search.py:154-276 | no entity or a failed query yields nothing; otherwise the converted triples, distinct and bounded |
| TermDefinition.FromDict | utils/fusion_graph_builder/term_definition_graph.py:24-30 | a dict yields an `IsA` triple with non-empty normalised fields |
| TermDefinition.FromDictComplete | utils/fusion_graph_builder/term_definition_graph.py:24-30 | a dict yields a triple exactly when none of its three fields renders as blank |
| TermDefinition.FromParsed | utils/fusion_graph_builder/term_definition_graph.py:32-43 | an object is read directly, a list through its first element when that is an object |
| TermDefinition.CoerceSingleTriple | utils/fusion_graph_builder/term_definition_graph.py:18-60 | the direct parse first, then the fenced block; the target is empty exactly when both fail |
| TermDefinition.BuildTermDefinitionTriples | utils/fusion_graph_builder/term_definition_graph.py:98-123 | exactly one triple, with the keyword verbatim as its source and `IsA` as its relation |
| TermDefinition.AnswerKept | utils/fusion_graph_builder/term_definition_graph.py:32-37 | a reply that is the requested object passes its normalised definition through |
| TermDefinition.ListAnswerKept | utils/fusion_graph_builder/term_definition_graph.py:39-41 | the same object inside a one-element list is read the same way |
| TermDefinition.UnusableReply | utils/fusion_graph_builder/term_definition_graph.py:59-60 | a reply with nothing usable still yields one triple with an empty definition |
| TermDefinition.NullTargetIsNone | utils/fusion_graph_builder/term_definition_graph.py:25-29 | a null definition becomes the text `None` |
| RelevanceFilter.CandMap | utils/fusion_graph_builder/__init__.py:163 | the map's keys are the lower-case candidates, each mapped to a candidate of that form |
| RelevanceFilter.CandMapLast | utils/fusion_graph_builder/__init__.py:163 | a lower-case form maps to its last spelling among the candidates |
| RelevanceFilter.Picks | utils/fusion_graph_builder/__init__.py:164-168 | picks are candidates, distinct ignoring case, no more than the keep list |
| RelevanceFilter.PicksNamed | utils/fusion_graph_builder/__init__.py:164-168 | the picked forms are exactly the keep list's forms that name a candidate |
| RelevanceFilter.PicksOrder | utils/fusion_graph_builder/__init__.py:164-168 | picks follow the keep list's order of first mention |
| RelevanceFilter.KeepItems | utils/fusion_graph_builder/__init__.py:159-165 | iterating `keep` raises exactly for a number, a boolean or null |
| RelevanceFilter.ReplyData | utils/fusion_graph_builder/__init__.py:154-158 | a direct parse is used as is; a fenced block that is not JSON raises |
| RelevanceFilter.PickHardAgentsAsWritten | utils/fusion_graph_builder/__init__.py:138-169 | no candidates yields no picks; any result consists of candidates, distinct ignoring case |
| RelevanceFilter.PickHardAgents | utils/fusion_graph_builder/__init__.py:138-169 | the corrected filter never raises; it returns candidates, distinct ignoring case |
| RelevanceFilter.PickHardAgentsAgrees | utils/fusion_graph_builder/__init__.py:138-169 | where the code as written returns, the corrected filter returns the same; where it raises, the corrected one selects nothing |
| RelevanceFilter.BareListRaises | utils/fusion_graph_builder/__init__.py:154-159 | a reply that parses to a list raises in the code as written |
| RelevanceFilter.MalformedKeepRaises | utils/fusion_graph_builder/__init__.py:155-165 | a numeric `keep` raises, and so does a fenced block that is not JSON |
| RelevanceFilter.WellShapedReply | utils/fusion_graph_builder/__init__.py:153-169 | for a well-formed reply the two filters agree, and the picks are the named candidates |
| Fusion.HardAgents | utils/fusion_graph_builder/__init__.py:201-206 | an empty selection falls back to every agent |
| Fusion.WiredHardAgents | utils/fusion_graph_builder/__init__.py:201-206 | a round expands a non-empty selection of its own agents exactly when it has agents |
| Fusion.Frontier | utils/fusion_graph_builder/__init__.py:242-250 | the next queue is non-empty normalised targets, distinct ignoring case, none of them an agent of this round, covering every such target |
| Fusion.Expand | utils/fusion_graph_builder/__init__.py:175-255 | a round's edges are deduplicated and complete and their keys are exactly the complete keys of what the selected agents' adapters return; the next queue is well formed and its keys are exactly those of the new non-blank concept and entity targets |
| Fusion.ExpandIsFirsts | utils/fusion_graph_builder/__init__.py:208-255 | a round's edges and next queue are the first occurrence of each admitted key among the adapters' output, equal to the independent definition `Seqs.Firsts` |
| Fusion.ExpandCoversEdge | utils/fusion_graph_builder/__init__.py:208-240 | any complete edge an adapter returns for a selected agent reaches the round's edges, up to its key |
| Fusion.ExpandCoversTarget | utils/fusion_graph_builder/__init__.py:233-250 | any new non-blank concept or entity target of a selected agent reaches the next queue, up to case |
| Fusion.ExpandAsWritten | utils/fusion_graph_builder/__init__.py:175-255 | the round as written raises exactly when its filter call raises, and otherwise returns the corrected round |
| Fusion.ExpandTags | utils/fusion_graph_builder/__init__.py:212-240 | a round's edges carry only the tags of enabled adapters; definitions only when they are included |
| Fusion.FrontierIgnoresDefinitions | utils/fusion_graph_builder/__init__.py:233-250 | the definition adapter has no influence on the next queue |
| Fusion.NoLookupsNoFrontier | utils/fusion_graph_builder/__init__.py:212-250 | with both the concept and the entity adapter off, nothing is enqueued |
| Fusion.Frontiers | utils/fusion_graph_builder/__init__.py:295-316 | at most `n` rounds run, each on a non-empty queue, the first on the initial agents; none run exactly when `n` is 0 or the queue is empty |
| Fusion.FrontiersChain | utils/fusion_graph_builder/__init__.py:295-316 | each round's queue is the one the previous round produced, and the loop stops early only on an empty queue |
| Fusion.FrontiersWellFormed | utils/fusion_graph_builder/__init__.py:243-250 | every later queue is normalised, distinct ignoring case and disjoint from the queue before it |
| Fusion.RoundsAreExpansions | utils/fusion_graph_builder/__init__.py:295-316 | the loop's edges are the edges of expanding each queue in turn |
| Fusion.RoundsGrow | utils/fusion_graph_builder/__init__.py:314-315 | one more round only appends edges |
| Fusion.Budget | utils/fusion_graph_builder/__init__.py:295 | `max(0, rounds)` rounds are allowed |
| Fusion.Grow | utils/fusion_graph_builder/__init__.py:288-319 | the graph is complete and distinct, starts with the deduplicated seeds, and its keys are exactly the complete keys of the seeds followed by every round's edges |
| Fusion.Build | utils/fusion_graph_builder/__init__.py:261-322 | the final edges are complete, normalised and distinct, and their keys are exactly the complete keys of the seed edges followed by every round's edges |
| Fusion.BuildIsFirsts | utils/fusion_graph_builder/__init__.py:288-319 | the graph is the first complete occurrence of every key among the seed and round edges, equal to the independent definition `Seqs.Firsts` |
| Fusion.RoundEdgesReachGraph | utils/fusion_graph_builder/__init__.py:301-319 | every complete edge of every round that runs reaches the graph, up to its key |
| Fusion.SeedEdgesReachGraph | utils/fusion_graph_builder/__init__.py:288-319 | every complete seed edge reaches the graph, up to its key |
| Fusion.SeedsFirst | utils/fusion_graph_builder/__init__.py:288-319 | the graph starts with the deduplicated seed edges, in row order |
| Fusion.BuildFusionGraph | utils/fusion_graph_builder/__init__.py:261-322 | the wired pipeline's final edges are complete, normalised and distinct, and their keys are exactly the complete keys of the seeds followed by the edges of every round that runs |
| Fusion.RoundEdgesInGraph | utils/fusion_graph_builder/__init__.py:301-319 | every edge of a round the wired pipeline runs is in the graph, up to its key |
| Fusion.DefaultsOmitDefinitions | utils/fusion_graph_builder/__init__.py:19-30 | under the module defaults two rounds are allowed and no `term_definition` edge reaches the graph |
| Fusion.RoundsOrRaiseRaises | utils/fusion_graph_builder/__init__.py:295-316 | a loop whose rounds may raise raises exactly when one of the queues the loop reaches makes its round raise |
| Fusion.RoundsOrRaiseEdges | utils/fusion_graph_builder/__init__.py:295-316 | when no round raises, the loop collects the same edges as the loop over the round that never raises |
| Fusion.BuildFusionGraphAsWritten | utils/fusion_graph_builder/__init__.py:261-322 | `build_fusion_graph` as written raises exactly when the filter raises on a queue the loop reaches, and otherwise returns the graph of `Fusion.BuildFusionGraph` |
| Fusion.BareListAbortsBuild | utils/fusion_graph_builder/__init__.py:154-159 | a filter reply that parses to a bare list in the first round aborts the whole build, where the corrected filter falls back to all agents |
| Fusion.NoRoundsSeedsOnly | utils/fusion_graph_builder/__init__.py:295-299 | with no rounds or no agents, the graph is exactly the deduplicated seeds |
| Fusion.GrowExtends | utils/fusion_graph_builder/__init__.py:295-319 | one more round keeps the graph built so far as a prefix |
| Fusion.MoreRoundsExtend | utils/fusion_graph_builder/__init__.py:295-319 | allowing one more round never removes or reorders an edge |
| Fusion.BuildTags | utils/fusion_graph_builder/__init__.py:212-240 | every edge is `eventic` or comes from an enabled adapter; definitions appear only when included |

## Left out

- The HTTP requests to ConceptNet and DBpedia and the calls to the OpenAI model are parameters. The model names and prompts passed to them are out of scope. The adapters catch a failed ConceptNet or DBpedia request, and `Fetched.Failed` stands for such a failure.
- Fusion.Services: the relevance-filter and definition oracles always answer. The source does not wrap the OpenAI calls in a `try`: `_pick_hard_agents_via_gpt` (utils/fusion_graph_builder/__init__.py:141-153) and `build_term_definition_triples` (utils/fusion_graph_builder/term_definition_graph.py:102-112) call the client directly. A timeout, an API error or a reply without choices therefore raises out of `_expand_once` and aborts `build_fusion_graph`. That holds even under the defaults, where the definition adapter still runs although its edges are discarded. The model does not represent such a failure; `Fusion.BuildFusionGraphAsWritten` covers only the abort caused by an unreadable filter reply.
- The ConceptNet query's `limit` clamping and the URL that is built are not modelled. Both only shape the request, which is a parameter.
- `requests.utils.quote` is a parameter of `Entity.DBpedia`. URL quoting is a library routine.
- The SPARQL `ASK` existence check (`_check_resource_exists`) is a boolean parameter. Its work is an HTTP call.
- A ConceptNet response whose JSON is not an object, or whose edges are not objects or carry a non-numeric weight, raises out of the adapter. The model receives the response already decoded into edges, so those crashes are not represented.
- The same holds for a SPARQL reply whose `results` is not an object. Such a reply raises out of `fetch_dbpedia_triples`; the model takes the bindings already decoded. A binding that raises during conversion (caught and skipped) is likewise not represented.
- A model reply whose content is `None` makes `re.search` raise in the relevance filter and in the definition adapter. The model takes the reply as text or a parse result and does not represent that crash.
- Verbose printing, `_print_edges` and `dbg` are left out. They are console output only.
- The command-line entry point and file I/O around `build_fusion_graph` are left out, as is the wrapping of the result in `{"edges": ...}`. `Fusion.BuildFusionGraph` returns the edge list itself.
- `build_eventic_graph`'s own model call is a parameter. `Events` models how its reply is read.
- The regular expressions that locate a fenced block are parameters: `Events.ExtractJsonText` receives the body of the first `json`-fenced block, else the first plain-fenced one, if any. `Events.CoerceEventList` receives the result of `json.loads`, including its retry on the first bracketed region, as an optional value.
- JSON numbers are integers. A float ConceptNet weight is a `real` in `Concept.ConceptEdge`, while a float elsewhere in a reply only matters through `str()`, which is not modelled for fractions.
- `str.lower()`, `str.capitalize()` and `isalnum` are modelled on ASCII letters and digits. Unicode case mapping is out of scope.
- `repr` escaping of strings inside lists and dicts rendered by `str()` is simplified to quoting without escapes.
- A Python dict cannot hold a key twice. A row (`Seeds.Row`) that repeats a key is read by `Json.Get` with the last value winning, as a `dict` built from JSON would be. `Seeds.AgentField` reads such a row at the first matching entry.
- `rounds` is an `int`. Python's `int(rounds)` of a float or string is not modelled.
- Fusion.Build, Fusion.Grow and the loop lemmas are stated over an arbitrary round function `step`. `Fusion.BuildFusionGraph` instantiates it with `Fusion.Step(Fusion.Wire(s, cfg), cfg.flags)`. The properties therefore hold for any adapters, not only the ones modelled here.
- Fusion.BuildFusionGraph: it never raises, because it uses the corrected filter. The abort of the code as written is stated by `Fusion.BuildFusionGraphAsWritten`.
- RelevanceFilter.PickHardAgents: its length bound is stated as "no more than the candidates or no more than the keep list" rather than both. A picked candidate is distinct ignoring case, so the tighter bound holds, but it is not stated.

## Where the documentation and the code differ

The model follows the code in each of these cases:

- The relevance filter returns its picks in the order of the model's `keep` list, not the candidates' order. A candidate whose lower-case form occurs twice is returned in its last spelling, because the dict comprehension overwrites earlier ones.
- `_eventic_to_triples` tests the raw values for truthiness and normalises afterwards. A whitespace-only field therefore produces a seed edge with an empty field, which only the final deduplication removes (`Seeds.SeedEdgeComplete`).
- The relevance filter as written raises on a reply it cannot read (see "## Findings"). `Fusion.BuildFusionGraph` wires the corrected filter, which reads such a reply as an empty selection, so the round falls back to all agents. `Fusion.BuildFusionGraphAsWritten` models the code as written: it raises exactly where the code aborts, and otherwise returns the same graph.
- `fetch_dbpedia_triples` checks `max_num` after appending. A `max_num` of 0 or less still returns one triple when any binding converts (`Entity.EntityTriplesOf`).

## Findings

| source | as written | input that shows it | evidently intended | confidence | as-written member | corrected member |
|---|---|---|---|---|---|---|
| utils/fusion_graph_builder/__init__.py:154-159 | the reply is parsed and `data.get("keep") or []` is evaluated without checking that `data` is a dict; a truthy `keep` is iterated without checking it is a list; a fenced block that is not JSON is parsed outside the `try` | the model replies `["Tesla"]` for candidates `["Tesla"]`: `list.get` raises `AttributeError`, which escapes `_expand_once` and aborts `build_fusion_graph` | any unusable reply is treated as an empty selection, so the round falls back to all agents | not executed | RelevanceFilter.BareListRaises, Fusion.BuildFusionGraphAsWritten, Fusion.BareListAbortsBuild | RelevanceFilter.PickHardAgentsAgrees, Fusion.BuildFusionGraph |
