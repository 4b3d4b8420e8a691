/** Case-insensitive term lists: the `uniq, seen` loop that
    `_extract_agents_from_eventic` and the next-frontier construction of
    `_expand_once` both write (utils/fusion_graph_builder/__init__.py). */
module Terms {
  import opened Text
  import opened Seqs

  /** `{a.lower() for a in xs}`. */
  function LowerSet(xs: seq<string>): set<string> {
    KeysOf(xs, Lower)
  }

  /** The test a term passes to be emitted: non-empty and not excluded. */
  function Admits(exclude: set<string>): string -> bool {
    s => s != "" && Lower(s) !in exclude
  }

  /** Keep every non-empty term whose lower-case form is neither excluded nor
      already emitted; the first spelling of a term wins. */
  function DistinctCI(xs: seq<string>, exclude: set<string>): (r: seq<string>)
    ensures |r| <= |xs|
    ensures forall i :: 0 <= i < |r| ==> r[i] != "" && Lower(r[i]) !in exclude && r[i] in xs
    ensures KeysDistinct(r, Lower)
    ensures IsSubseq(r, xs)
    ensures LowerSet(r) == OkKeys(xs, Lower, Admits(exclude))
  {
    DedupBySubseq(xs, Lower, Admits(exclude));
    DedupBy(xs, Lower, Admits(exclude))
  }

  /** Every admissible term of the input is represented, case-insensitively,
      in the output, and nothing else is. */
  lemma DistinctCIComplete(xs: seq<string>, exclude: set<string>, x: string)
    ensures Lower(x) in LowerSet(DistinctCI(xs, exclude))
        <==> exists j :: 0 <= j < |xs| && xs[j] != "" && Lower(xs[j]) !in exclude && Lower(xs[j]) == Lower(x)
  {
    var r := DistinctCI(xs, exclude);
    if Lower(x) in OkKeys(xs, Lower, Admits(exclude)) {
      var j :| 0 <= j < |xs| && Admits(exclude)(xs[j]) && Lower(xs[j]) == Lower(x);
    }
  }

  /** The output is exactly the first admissible spelling of every term. */
  lemma DistinctCIIsFirsts(xs: seq<string>, exclude: set<string>)
    ensures DistinctCI(xs, exclude) == Firsts(xs, Lower, Admits(exclude))
  {
    DedupByIsFirsts(xs, Lower, Admits(exclude));
  }

  /** Nothing of the output matches an excluded list, whatever the letter case. */
  lemma DistinctCIExcludes(xs: seq<string>, others: seq<string>)
    ensures forall i, j :: 0 <= i < |DistinctCI(xs, LowerSet(others))| && 0 <= j < |others| ==>
              Lower(DistinctCI(xs, LowerSet(others))[i]) != Lower(others[j])
  {
    var r := DistinctCI(xs, LowerSet(others));
    forall i, j | 0 <= i < |r| && 0 <= j < |others| ensures Lower(r[i]) != Lower(others[j]) {
      assert Lower(others[j]) in LowerSet(others);
    }
  }
}
