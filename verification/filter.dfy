/** The relevance filter `_pick_hard_agents_via_gpt`
    (utils/fusion_graph_builder/__init__.py): a language model names the
    candidates worth expanding, and its answer is intersected with the
    candidate list, case-insensitively. The model call and `json.loads` are
    outside the model; what they yield arrives as a `FilterReply`. */
module RelevanceFilter {
  import opened Wrappers
  import opened Text
  import opened Seqs
  import opened Json
  import opened Terms

  /** The fenced-block fallback: no block, a block whose body parses, or a
      block whose body does not. */
  datatype Fence = NoFence | FenceJson(body: Json) | FenceBroken

  /** `direct` is the parse of the whole reply, `None` when it did not parse;
      `fence` is consulted only then. */
  datatype FilterReply = FilterReply(direct: Option<Json>, fence: Fence)

  /** `{c.lower(): c for c in cands}`: later candidates overwrite earlier ones
      with the same lower-case form. */
  function CandMap(cands: seq<string>): (m: map<string, string>)
    ensures m.Keys == LowerSet(cands)
    ensures forall k :: k in m ==> Lower(m[k]) == k && m[k] in cands
    decreases |cands|
  {
    if |cands| == 0 then map[]
    else
      var init := cands[..|cands| - 1];
      var c := cands[|cands| - 1];
      assert LowerSet(cands) == LowerSet(init) + {Lower(c)} by {
        assert forall i :: 0 <= i < |init| ==> cands[i] == init[i];
      }
      CandMap(init)[Lower(c) := c]
  }

  /** The spelling kept for a lower-case form is the last candidate that has it. */
  lemma {:induction false} CandMapLast(cands: seq<string>, i: nat)
    requires i < |cands|
    requires forall j :: i < j < |cands| ==> Lower(cands[j]) != Lower(cands[i])
    ensures Lower(cands[i]) in CandMap(cands) && CandMap(cands)[Lower(cands[i])] == cands[i]
    decreases |cands|
  {
    if i < |cands| - 1 {
      var init := cands[..|cands| - 1];
      assert init[i] == cands[i];
      CandMapLast(init, i);
    }
  }

  /** `_norm(str(t)).lower()`: the form a kept item is matched by. */
  function KeyText(t: Json): string {
    Lower(Norm(Show(t)))
  }

  /** The test `k in cand_map` on an item's form. */
  function NamesBy<T>(form: T -> string, cands: seq<string>): T -> bool {
    t => form(t) in CandMap(cands)
  }

  /** The items that get a candidate emitted: the first item naming each
      candidate, in the reply's order. The selection is stated for any
      matching form and used with `KeyText`. */
  function MentionsBy<T(==)>(keep: seq<T>, form: T -> string, cands: seq<string>): (r: seq<T>)
    ensures |r| <= |keep|
    ensures forall i :: 0 <= i < |r| ==> form(r[i]) in CandMap(cands)
    ensures KeysDistinct(r, form)
    ensures KeysOf(r, form) == OkKeys(keep, form, NamesBy(form, cands))
  {
    DedupBy(keep, form, NamesBy(form, cands))
  }

  /** The loop over `keep`: the candidate each item names, in the reply's
      order, skipping items that name no candidate or one already emitted. */
  function PicksBy<T(==)>(keep: seq<T>, form: T -> string, cands: seq<string>): (r: seq<string>)
    ensures |r| == |MentionsBy(keep, form, cands)| <= |keep|
    ensures forall i :: 0 <= i < |r| ==> r[i] in cands && Lower(r[i]) == form(MentionsBy(keep, form, cands)[i])
    ensures KeysDistinct(r, Lower)
  {
    var ms := MentionsBy(keep, form, cands);
    var m := CandMap(cands);
    var r := seq(|ms|, i requires 0 <= i < |ms| => m[form(ms[i])]);
    assert KeysDistinct(r, Lower) by {
      forall i, j | 0 <= i < j < |r| ensures Lower(r[i]) != Lower(r[j]) {
        assert form(ms[i]) != form(ms[j]);
      }
    }
    r
  }

  /** A candidate is picked exactly when some item names it. */
  lemma PicksByNamed<T>(keep: seq<T>, form: T -> string, cands: seq<string>)
    ensures LowerSet(PicksBy(keep, form, cands)) == KeysOf(keep, form) * LowerSet(cands)
  {
    var r := PicksBy(keep, form, cands);
    var ms := MentionsBy(keep, form, cands);
    assert LowerSet(r) == KeysOf(ms, form) by {
      forall k | k in LowerSet(r) ensures k in KeysOf(ms, form) {
        var i :| 0 <= i < |r| && Lower(r[i]) == k;
      }
      forall k | k in KeysOf(ms, form) ensures k in LowerSet(r) {
        var i :| 0 <= i < |ms| && form(ms[i]) == k;
        assert Lower(r[i]) == k;
      }
    }
    assert OkKeys(keep, form, NamesBy(form, cands)) == KeysOf(keep, form) * LowerSet(cands) by {
      forall k | k in KeysOf(keep, form) * LowerSet(cands) ensures k in OkKeys(keep, form, NamesBy(form, cands)) {
        var i :| 0 <= i < |keep| && form(keep[i]) == k;
        assert NamesBy(form, cands)(keep[i]);
      }
    }
  }

  /** The loop over the reply's items, matched by `_norm(str(t)).lower()`. */
  function Picks(keep: seq<Json>, cands: seq<string>): (r: seq<string>)
    ensures |r| <= |keep|
    ensures forall i :: 0 <= i < |r| ==> r[i] in cands
    ensures KeysDistinct(r, Lower)
  {
    PicksBy(keep, KeyText, cands)
  }

  /** A candidate is picked exactly when some item of the reply names it,
      ignoring case and surrounding whitespace. */
  lemma PicksNamed(keep: seq<Json>, cands: seq<string>)
    ensures LowerSet(Picks(keep, cands)) == KeysOf(keep, KeyText) * LowerSet(cands)
  {
    PicksByNamed(keep, KeyText, cands);
  }

  /** Output order follows the reply: the candidates picked are those named by
      the first mentions of candidates, in the reply's order. */
  lemma PicksOrder(keep: seq<Json>, cands: seq<string>)
    ensures Map(Lower, Picks(keep, cands)) == Map(KeyText, Firsts(keep, KeyText, NamesBy(KeyText, cands)))
    ensures forall t :: NamesBy(KeyText, cands)(t) <==> KeyText(t) in LowerSet(cands)
  {
    DedupByIsFirsts(keep, KeyText, NamesBy(KeyText, cands));
    var ms := MentionsBy(keep, KeyText, cands);
    assert Map(Lower, Picks(keep, cands)) == Map(KeyText, ms);
  }

  /** What `for t in keep` iterates over, for a truthy `keep`: the items of a
      list, the characters of a string, the member names of an object. A
      non-zero number or `true` cannot be iterated and raises. Repeated member
      names of an object appear once in Python and more than once here, which
      the `seen` test makes indistinguishable. */
  function KeepItems(keep: Json): (r: Outcome<seq<Json>>)
    ensures r.Raised? <==> keep.JNum? || keep.JBool? || keep.JNull?
  {
    match keep
    case JArr(items) => Done(items)
    case JStr(s) => Done(Map((c: char) => JStr([c]), s))
    case JObj(fields) => Done(Map((f: (string, Json)) => JStr(f.0), fields))
    case _ => Raised("TypeError")
  }

  /** The parsed reply as the code reads it: the direct parse, else the fenced
      block, else `{"keep": []}`. A fenced block that does not parse raises. */
  function ReplyData(reply: FilterReply): (r: Outcome<Json>)
    ensures reply.direct.Some? ==> r == Done(reply.direct.value)
    ensures r.Raised? <==> reply.direct.None? && reply.fence.FenceBroken?
  {
    match reply.direct
    case Some(data) => Done(data)
    case None =>
      match reply.fence
      case FenceJson(body) => Done(body)
      case FenceBroken => Raised("JSONDecodeError")
      case NoFence => Done(JObj([("keep", JArr([]))]))
  }

  /** `_pick_hard_agents_via_gpt` as written: `data.get("keep")` raises on a
      parsed value that is not an object, and iterating a truthy number or
      `true` raises. */
  function PickHardAgentsAsWritten(reply: FilterReply, cands: seq<string>): (r: Outcome<seq<string>>)
    ensures |cands| == 0 ==> r == Done([])
    ensures r.Done? ==> forall i :: 0 <= i < |r.value| ==> r.value[i] in cands
    ensures r.Done? ==> KeysDistinct(r.value, Lower)
  {
    if |cands| == 0 then Done([])
    else
      match ReplyData(reply)
      case Raised(e) => Raised(e)
      case Done(data) =>
        if !data.JObj? then Raised("AttributeError")
        else
          match Get(data.fields, "keep")
          case None => Done([])
          case Some(keep) =>
            if !Truthy(keep) then Done([])
            else
              match KeepItems(keep)
              case Raised(e) => Raised(e)
              case Done(items) => Done(Picks(items, cands))
  }

  /** The items the reply names, with every malformed reply read as naming
      nothing. */
  function KeepList(reply: FilterReply): (r: seq<Json>)
    ensures reply.direct.Some? && !reply.direct.value.JObj? ==> r == []
    ensures reply.direct.None? && !reply.fence.FenceJson? ==> r == []
  {
    match ReplyData(reply)
    case Raised(_) => []
    case Done(data) =>
      if !data.JObj? then []
      else
        match Get(data.fields, "keep")
        case None => []
        case Some(keep) =>
          if !Truthy(keep) then []
          else
            match KeepItems(keep)
            case Raised(_) => []
            case Done(items) => items
  }

  /** The filter with malformed replies treated as an empty selection, so that
      the round falls back to every agent instead of aborting the build. */
  function PickHardAgents(reply: FilterReply, cands: seq<string>): (r: seq<string>)
    ensures |r| <= |cands| || |r| <= |KeepList(reply)|
    ensures forall i :: 0 <= i < |r| ==> r[i] in cands
    ensures KeysDistinct(r, Lower)
    ensures |cands| == 0 ==> r == []
  {
    if |cands| == 0 then [] else Picks(KeepList(reply), cands)
  }

  /** Whenever the code as written completes, the corrected filter returns the
      same selection; it differs only where the code raises, and there it
      selects nothing. */
  lemma PickHardAgentsAgrees(reply: FilterReply, cands: seq<string>)
    ensures PickHardAgentsAsWritten(reply, cands).Done?
            ==> PickHardAgents(reply, cands) == PickHardAgentsAsWritten(reply, cands).value
    ensures PickHardAgentsAsWritten(reply, cands).Raised? ==> PickHardAgents(reply, cands) == []
  {
  }

  /** The discrepancy: a reply that parses as a bare list of names, such as
      `["Tesla"]`, makes `data.get` raise, and the exception leaves the whole
      build. */
  lemma BareListRaises()
    ensures PickHardAgentsAsWritten(FilterReply(Some(JArr([JStr("Tesla")])), NoFence), ["Tesla"]).Raised?
    ensures PickHardAgents(FilterReply(Some(JArr([JStr("Tesla")])), NoFence), ["Tesla"]) == []
  {
  }

  /** The same holds for `{"keep": 3}` and for a fenced block whose body is not
      JSON. */
  lemma MalformedKeepRaises(cands: seq<string>)
    requires |cands| > 0
    ensures PickHardAgentsAsWritten(FilterReply(Some(JObj([("keep", JNum(3))])), NoFence), cands).Raised?
    ensures PickHardAgentsAsWritten(FilterReply(None, FenceBroken), cands).Raised?
  {
  }

  function Named(n: string): Json {
    JStr(n)
  }

  /** The form a name written as a JSON string is matched by. */
  function NameForm(n: string): string {
    Lower(Norm(n))
  }

  /** The reply `{"keep": [names...]}`. */
  function KeepReply(names: seq<string>): FilterReply {
    FilterReply(Some(JObj([("keep", JArr(Map(Named, names)))])), NoFence)
  }

  /** The forms by which a list of names matches candidates. */
  function NameKeys(names: seq<string>): set<string> {
    KeysOf(names, NameForm)
  }

  lemma KeepReplyItems(names: seq<string>)
    requires |names| > 0
    ensures KeepList(KeepReply(names)) == Map(Named, names)
    ensures KeysOf(Map(Named, names), KeyText) == NameKeys(names)
  {
    var items := Map(Named, names);
    assert Get([("keep", JArr(items))], "keep") == Some(JArr(items));
    assert ReplyData(KeepReply(names)) == Done(JObj([("keep", JArr(items))]));
    assert Truthy(JArr(items));
    forall i | 0 <= i < |names| ensures KeyText(Named(names[i])) == NameForm(names[i]) {
      assert Show(JStr(names[i])) == names[i];
    }
    KeysOfMap(Named, names, KeyText, NameForm);
  }

  /** A reply in the requested shape is handled without error and selects
      exactly the named candidates, ignoring case and surrounding whitespace. */
  lemma WellShapedReply(names: seq<string>, cands: seq<string>)
    requires |names| > 0
    ensures PickHardAgentsAsWritten(KeepReply(names), cands) == Done(PickHardAgents(KeepReply(names), cands))
    ensures LowerSet(PickHardAgents(KeepReply(names), cands)) == NameKeys(names) * LowerSet(cands)
  {
    var items := Map(Named, names);
    KeepReplyItems(names);
    assert Get([("keep", JArr(items))], "keep") == Some(JArr(items));
    PickHardAgentsAgrees(KeepReply(names), cands);
    if |cands| > 0 {
      PicksNamed(items, cands);
    } else {
      assert LowerSet(cands) == {};
    }
  }
}
