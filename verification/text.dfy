/** Character classes and the string helpers the pipeline uses: whitespace
    stripping and collapsing (`_norm`), ASCII case mapping, slash-separated
    segments, character replacement and `_`-joined tokens. */
module Text {

  /** Python's `str.isspace`, which is also the class `\s` matches in a `str` pattern. */
  predicate IsSpace(c: char) {
    || c == ' '
    || ('\t' <= c <= '\r')
    || ('\U{1c}' <= c <= '\U{1f}')
    || c == '\U{85}' || c == '\U{a0}' || c == '\U{1680}'
    || ('\U{2000}' <= c <= '\U{200a}')
    || c == '\U{2028}' || c == '\U{2029}' || c == '\U{202f}' || c == '\U{205f}' || c == '\U{3000}'
  }

  /** The class `[A-Za-z0-9]`. */
  predicate IsAlnum(c: char) {
    ('a' <= c <= 'z') || ('A' <= c <= 'Z') || ('0' <= c <= '9')
  }

  predicate AllSpace(s: string) {
    forall i :: 0 <= i < |s| ==> IsSpace(s[i])
  }

  /** Neither the first nor the last character is whitespace. */
  predicate NoEdgeSpace(s: string) {
    |s| == 0 || (!IsSpace(s[0]) && !IsSpace(s[|s| - 1]))
  }

  /** Every whitespace character is a plain space and is not followed by another one. */
  predicate SingleSpaced(s: string) {
    && (forall i :: 0 <= i < |s| && IsSpace(s[i]) ==> s[i] == ' ')
    && (forall i, j :: 0 <= i < |s| && j == i + 1 && j < |s| ==> !(IsSpace(s[i]) && IsSpace(s[j])))
  }

  /** The shape `_norm` produces. */
  predicate Normalized(s: string) {
    NoEdgeSpace(s) && SingleSpaced(s)
  }

  /** The non-whitespace characters of `s`, in order. */
  function NonSpace(s: string): string {
    if |s| == 0 then ""
    else (if IsSpace(s[0]) then "" else [s[0]]) + NonSpace(s[1..])
  }

  // ---------------------------------------------------------------------------
  // strip
  // ---------------------------------------------------------------------------

  /** `s.lstrip()`: the longest whitespace prefix removed. */
  function LStrip(s: string): (r: string)
    ensures |r| <= |s| && r == s[|s| - |r|..]
    ensures AllSpace(s[..|s| - |r|])
    ensures |r| > 0 ==> !IsSpace(r[0])
  {
    if |s| > 0 && IsSpace(s[0]) then LStrip(s[1..]) else s
  }

  /** `s.rstrip()`: the longest whitespace suffix removed. */
  function RStrip(s: string): (r: string)
    ensures |r| <= |s| && r == s[..|r|]
    ensures AllSpace(s[|r|..])
    ensures |r| > 0 ==> !IsSpace(r[|r| - 1])
  {
    if |s| > 0 && IsSpace(s[|s| - 1]) then
      var r := RStrip(s[..|s| - 1]);
      assert s[|r|..] == s[..|s| - 1][|r|..] + [s[|s| - 1]];
      r
    else s
  }

  /** `s.strip()`. */
  function Strip(s: string): (r: string)
    ensures NoEdgeSpace(r)
  {
    RStrip(LStrip(s))
  }

  // ---------------------------------------------------------------------------
  // whitespace collapsing: re.sub(r"\s+", " ", ...)
  // ---------------------------------------------------------------------------

  /** Every maximal run of whitespace replaced by one plain space. */
  function Collapse(s: string): string
    decreases |s|
  {
    if |s| == 0 then ""
    else if IsSpace(s[0]) then " " + Collapse(LStrip(s[1..]))
    else [s[0]] + Collapse(s[1..])
  }

  /** `_norm`: strip, then collapse whitespace runs to one space. */
  function Norm(s: string): string {
    Collapse(Strip(s))
  }

  // ---------------------------------------------------------------------------
  // case mapping (ASCII letters only)
  // ---------------------------------------------------------------------------

  function LowerChar(c: char): char {
    if 'A' <= c <= 'Z' then (c as int + 32) as char else c
  }

  function UpperChar(c: char): char {
    if 'a' <= c <= 'z' then (c as int - 32) as char else c
  }

  /** `s.lower()`. */
  function Lower(s: string): string {
    seq(|s|, i requires 0 <= i < |s| => LowerChar(s[i]))
  }

  /** `s.capitalize()`: first character upper-cased, the rest lower-cased. */
  function Capitalize(s: string): string {
    if |s| == 0 then "" else [UpperChar(s[0])] + Lower(s[1..])
  }

  // ---------------------------------------------------------------------------
  // prefixes, containment, replacement
  // ---------------------------------------------------------------------------

  predicate StartsWith(s: string, prefix: string) {
    |prefix| <= |s| && s[..|prefix|] == prefix
  }

  /** `part in s` for strings: `part` occurs at some position of `s`. */
  predicate Contains(s: string, part: string)
    decreases |s|
  {
    StartsWith(s, part) || (|s| > 0 && Contains(s[1..], part))
  }

  /** `s.replace(a, b)` for single characters. */
  function ReplaceChar(s: string, a: char, b: char): string {
    seq(|s|, i requires 0 <= i < |s| => if s[i] == a then b else s[i])
  }

  // ---------------------------------------------------------------------------
  // slash-separated segments
  // ---------------------------------------------------------------------------

  /** `s.rsplit(sep, 1)[-1]`, which equals `s.split(sep)[-1]`: the text after the last `sep`. */
  function LastSegment(s: string, sep: char): (r: string)
    ensures sep !in r
    ensures |r| <= |s| && r == s[|s| - |r|..]
    ensures |r| == |s| || s[|s| - |r| - 1] == sep
  {
    if |s| == 0 then ""
    else if s[|s| - 1] == sep then ""
    else LastSegment(s[..|s| - 1], sep) + [s[|s| - 1]]
  }

  /** Two suffixes of `s` that hold no separator and start right after one
      (or at the start of `s`) are the same suffix. */
  lemma SeparatedSuffix(s: string, sep: char, r: string, x: string)
    requires |r| <= |s| && r == s[|s| - |r|..] && sep !in r
    requires |r| == |s| || s[|s| - |r| - 1] == sep
    requires |x| < |s| && x == s[|s| - |x|..] && sep !in x
    requires s[|s| - |x| - 1] == sep
    ensures r == x
  {
  }

  /** The text after a final separator is the last segment. */
  lemma LastSegmentAfter(p: string, sep: char, x: string)
    requires sep !in x
    ensures LastSegment(p + [sep] + x, sep) == x
  {
    var s := p + [sep] + x;
    assert s[|s| - |x|..] == x;
    SeparatedSuffix(s, sep, LastSegment(s, sep), x);
  }

  /** Text without a separator is its own last segment. */
  lemma {:induction false} LastSegmentWhole(s: string, sep: char)
    requires sep !in s
    ensures LastSegment(s, sep) == s
    decreases |s|
  {
    if |s| > 0 {
      var init := s[..|s| - 1];
      assert sep !in init by {
        assert forall i :: 0 <= i < |init| ==> init[i] == s[i];
      }
      LastSegmentWhole(init, sep);
      assert init + [s[|s| - 1]] == s;
    }
  }

  /** `part` occurs in any string that has it as an infix. */
  lemma {:induction false} ContainsInfix(pre: string, part: string, post: string)
    ensures Contains(pre + part + post, part)
    decreases |pre|
  {
    var s := pre + part + post;
    if |pre| == 0 {
      assert s[..|part|] == part;
    } else {
      ContainsInfix(pre[1..], part, post);
      assert s[1..] == pre[1..] + part + post;
    }
  }

  /** `s.rstrip(c)`: every trailing `c` removed. */
  function RStripChar(s: string, c: char): (r: string)
    ensures |r| <= |s| && r == s[..|r|]
    ensures forall i :: |r| <= i < |s| ==> s[i] == c
    ensures |r| == 0 || r[|r| - 1] != c
  {
    if |s| > 0 && s[|s| - 1] == c then RStripChar(s[..|s| - 1], c) else s
  }

  /** `n` copies of `c`. */
  function Repeat(c: char, n: nat): (r: string)
    ensures |r| == n && forall i :: 0 <= i < n ==> r[i] == c
  {
    seq(n, i => c)
  }

  /** Trailing copies of `c` make no difference to `rstrip(c)`. */
  lemma {:induction false} RStripCharTrailing(s: string, c: char, n: nat)
    ensures RStripChar(s + Repeat(c, n), c) == RStripChar(s, c)
    decreases n
  {
    if n == 0 {
      assert s + Repeat(c, 0) == s;
    } else {
      var t := s + Repeat(c, n);
      assert t[|t| - 1] == c;
      assert t[..|t| - 1] == s + Repeat(c, n - 1);
      RStripCharTrailing(s, c, n - 1);
    }
  }

  // ---------------------------------------------------------------------------
  // joining and splitting on one separator
  // ---------------------------------------------------------------------------

  /** `sep.join(parts)`. */
  function Join(parts: seq<string>, sep: string): string {
    if |parts| == 0 then ""
    else if |parts| == 1 then parts[0]
    else parts[0] + sep + Join(parts[1..], sep)
  }

  /** `s.split(sep)`: never empty; the pieces contain no `sep`. */
  function Split(s: string, sep: char): (r: seq<string>)
    ensures |r| >= 1
    ensures forall i :: 0 <= i < |r| ==> sep !in r[i]
    decreases |s|
  {
    if |s| == 0 then [""]
    else
      var rest := Split(s[1..], sep);
      if s[0] == sep then [""] + rest
      else [[s[0]] + rest[0]] + rest[1..]
  }

  // ---------------------------------------------------------------------------
  // alphanumeric tokens: re.findall(r"[A-Za-z0-9]+", s)
  // ---------------------------------------------------------------------------

  predicate AllAlnum(s: string) {
    forall i :: 0 <= i < |s| ==> IsAlnum(s[i])
  }

  /** Length of the leading `[A-Za-z0-9]*` run. */
  function AlnumRun(s: string): (n: nat)
    ensures n <= |s| && AllAlnum(s[..n])
    ensures n < |s| ==> !IsAlnum(s[n])
  {
    if |s| > 0 && IsAlnum(s[0]) then 1 + AlnumRun(s[1..]) else 0
  }

  /** The maximal `[A-Za-z0-9]+` runs of `s`, left to right. */
  function Tokens(s: string): seq<string>
    decreases |s|
  {
    if |s| == 0 then []
    else if !IsAlnum(s[0]) then Tokens(s[1..])
    else
      var n := AlnumRun(s);
      [s[..n]] + Tokens(s[n..])
  }

  /** The `[A-Za-z0-9]` characters of `s`, in order. */
  function AlnumChars(s: string): string {
    if |s| == 0 then "" else (if IsAlnum(s[0]) then [s[0]] else "") + AlnumChars(s[1..])
  }

  function Concat(parts: seq<string>): string {
    if |parts| == 0 then "" else parts[0] + Concat(parts[1..])
  }

  // ===========================================================================
  // Facts about `_norm`
  // ===========================================================================

  lemma CollapseHead(s: string)
    requires |s| > 0
    ensures |Collapse(s)| > 0
    ensures Collapse(s)[0] == if IsSpace(s[0]) then ' ' else s[0]
  {
  }

  /** A character may go in front of a single-spaced string when it is not
      whitespace, or is a plain space followed by something that is not. */
  lemma SingleSpacedCons(c: char, t: string)
    requires SingleSpaced(t)
    requires IsSpace(c) ==> c == ' ' && (|t| == 0 || !IsSpace(t[0]))
    ensures SingleSpaced([c] + t)
  {
    var u := [c] + t;
    forall i | 0 <= i < |u| && IsSpace(u[i]) ensures u[i] == ' ' {
      if i > 0 {
        assert u[i] == t[i - 1];
      }
    }
    forall i, j | 0 <= i < |u| && j == i + 1 && j < |u| ensures !(IsSpace(u[i]) && IsSpace(u[j])) {
      if i > 0 {
        assert u[i] == t[i - 1] && u[j] == t[j - 1];
      }
    }
  }

  /** Collapsing leaves no whitespace other than single plain spaces. */
  lemma {:induction false} CollapseSingleSpaced(s: string)
    ensures SingleSpaced(Collapse(s))
    decreases |s|
  {
    if |s| == 0 {
    } else if IsSpace(s[0]) {
      var t := LStrip(s[1..]);
      CollapseSingleSpaced(t);
      if |t| > 0 {
        CollapseHead(t);
      }
      SingleSpacedCons(' ', Collapse(t));
      assert Collapse(s) == [' '] + Collapse(t);
    } else {
      CollapseSingleSpaced(s[1..]);
      SingleSpacedCons(s[0], Collapse(s[1..]));
      assert Collapse(s) == [s[0]] + Collapse(s[1..]);
    }
  }

  /** A string that does not end in whitespace collapses to one that does not either. */
  lemma {:induction false} CollapseLast(s: string)
    requires |s| > 0 && !IsSpace(s[|s| - 1])
    ensures |Collapse(s)| > 0 && !IsSpace(Collapse(s)[|Collapse(s)| - 1])
    decreases |s|
  {
    if IsSpace(s[0]) {
      var t := LStrip(s[1..]);
      assert s[1..][|s[1..]| - 1] == s[|s| - 1];
      assert |t| > 0;
      assert t[|t| - 1] == s[|s| - 1];
      CollapseLast(t);
      assert Collapse(s) == " " + Collapse(t);
    } else if |s| > 1 {
      assert s[1..][|s[1..]| - 1] == s[|s| - 1];
      CollapseLast(s[1..]);
      assert Collapse(s) == [s[0]] + Collapse(s[1..]);
    }
  }

  /** `_norm` yields a string with no edge whitespace and no whitespace runs. */
  lemma NormNormalized(s: string)
    ensures Normalized(Norm(s))
  {
    var t := Strip(s);
    var c := Collapse(t);
    CollapseSingleSpaced(t);
    if |t| > 0 {
      assert !IsSpace(t[0]) && !IsSpace(t[|t| - 1]);
      CollapseHead(t);
      CollapseLast(t);
      assert !IsSpace(c[0]) && !IsSpace(c[|c| - 1]);
    }
    assert NoEdgeSpace(c);
  }

  lemma StripFixpoint(s: string)
    requires NoEdgeSpace(s)
    ensures Strip(s) == s
  {
  }

  lemma SingleSpacedTail(s: string)
    requires |s| > 0 && SingleSpaced(s)
    ensures SingleSpaced(s[1..])
  {
    var t := s[1..];
    forall i | 0 <= i < |t| && IsSpace(t[i]) ensures t[i] == ' ' {
      assert t[i] == s[i + 1];
    }
    forall i, j | 0 <= i < |t| && j == i + 1 && j < |t| ensures !(IsSpace(t[i]) && IsSpace(t[j])) {
      assert t[i] == s[i + 1] && t[j] == s[j + 1];
    }
  }

  lemma CollapseSpaceHead(s: string)
    requires |s| > 0 && IsSpace(s[0])
    ensures Collapse(s) == " " + Collapse(LStrip(s[1..]))
  {
  }

  lemma CollapseOtherHead(s: string)
    requires |s| > 0 && !IsSpace(s[0])
    ensures Collapse(s) == [s[0]] + Collapse(s[1..])
  {
  }

  lemma LStripNoop(t: string)
    requires |t| == 0 || !IsSpace(t[0])
    ensures LStrip(t) == t
  {
  }

  /** Collapsing a single-spaced string changes nothing. */
  lemma {:induction false} CollapseFixpoint(s: string)
    requires SingleSpaced(s)
    ensures Collapse(s) == s
    decreases |s|
  {
    if |s| > 0 {
      var t := s[1..];
      SingleSpacedTail(s);
      CollapseFixpoint(t);
      if IsSpace(s[0]) {
        assert s[0] == ' ';
        assert |t| == 0 || !IsSpace(t[0]) by {
          if |t| > 0 { assert t[0] == s[1]; }
        }
        LStripNoop(t);
        CollapseSpaceHead(s);
      } else {
        CollapseOtherHead(s);
      }
      assert [s[0]] + t == s;
    }
  }

  /** Normalising an already-normalised string changes nothing. */
  lemma NormFixpoint(s: string)
    requires Normalized(s)
    ensures Norm(s) == s
  {
    StripFixpoint(s);
    CollapseFixpoint(s);
  }

  /** `_norm` is idempotent. */
  lemma NormIdempotent(s: string)
    ensures Norm(Norm(s)) == Norm(s)
  {
    NormNormalized(s);
    NormFixpoint(Norm(s));
  }

  lemma {:induction false} NonSpaceAppend(a: string, b: string)
    ensures NonSpace(a + b) == NonSpace(a) + NonSpace(b)
    decreases |a|
  {
    if |a| > 0 {
      var head := if IsSpace(a[0]) then "" else [a[0]];
      assert (a + b)[0] == a[0];
      assert (a + b)[1..] == a[1..] + b;
      NonSpaceAppend(a[1..], b);
      calc {
        NonSpace(a + b);
        head + NonSpace(a[1..] + b);
        head + (NonSpace(a[1..]) + NonSpace(b));
        (head + NonSpace(a[1..])) + NonSpace(b);
      }
    } else {
      assert a + b == b;
    }
  }

  lemma {:induction false} NonSpaceOfSpaces(s: string)
    requires AllSpace(s)
    ensures NonSpace(s) == ""
    decreases |s|
  {
    if |s| > 0 {
      NonSpaceOfSpaces(s[1..]);
    }
  }

  lemma {:induction false} NonSpaceLStrip(s: string)
    ensures NonSpace(LStrip(s)) == NonSpace(s)
    decreases |s|
  {
    if |s| > 0 && IsSpace(s[0]) {
      NonSpaceLStrip(s[1..]);
    }
  }

  lemma {:induction false} NonSpaceRStrip(s: string)
    ensures NonSpace(RStrip(s)) == NonSpace(s)
    decreases |s|
  {
    if |s| > 0 && IsSpace(s[|s| - 1]) {
      var init := s[..|s| - 1];
      NonSpaceRStrip(init);
      assert s == init + [s[|s| - 1]];
      NonSpaceAppend(init, [s[|s| - 1]]);
      assert NonSpace([s[|s| - 1]]) == "";
    }
  }

  lemma NonSpaceStrip(s: string)
    ensures NonSpace(Strip(s)) == NonSpace(s)
  {
    NonSpaceLStrip(s);
    NonSpaceRStrip(LStrip(s));
  }

  lemma {:induction false} NonSpaceCollapse(s: string)
    ensures NonSpace(Collapse(s)) == NonSpace(s)
    decreases |s|
  {
    if |s| > 0 {
      if IsSpace(s[0]) {
        var t := LStrip(s[1..]);
        NonSpaceCollapse(t);
        NonSpaceAppend(" ", Collapse(t));
        NonSpaceLStrip(s[1..]);
      } else {
        NonSpaceCollapse(s[1..]);
        NonSpaceAppend([s[0]], Collapse(s[1..]));
      }
    }
  }

  /** `_norm` keeps every non-whitespace character, in order, and adds none. */
  lemma NormKeepsContent(s: string)
    ensures NonSpace(Norm(s)) == NonSpace(s)
  {
    NonSpaceStrip(s);
    NonSpaceCollapse(Strip(s));
  }

  lemma {:induction false} NonSpaceEmpty(s: string)
    requires NonSpace(s) == ""
    ensures AllSpace(s)
    decreases |s|
  {
    if |s| > 0 {
      assert IsSpace(s[0]);
      NonSpaceEmpty(s[1..]);
      assert forall i :: 1 <= i < |s| ==> s[i] == s[1..][i - 1];
    }
  }

  /** `_norm(s)` is empty exactly when `s` is all whitespace. */
  lemma NormEmptyIff(s: string)
    ensures Norm(s) == "" <==> AllSpace(s)
  {
    var n := Norm(s);
    NormKeepsContent(s);
    NormNormalized(s);
    if AllSpace(s) {
      NonSpaceOfSpaces(s);
      NonSpaceEmpty(n);
    }
    if n == "" {
      NonSpaceEmpty(s);
    }
  }

  /** `s.strip()` is empty exactly when `s` is all whitespace. */
  lemma StripEmptyIff(s: string)
    ensures Strip(s) == "" <==> AllSpace(s)
  {
    var t := Strip(s);
    NonSpaceStrip(s);
    if AllSpace(s) {
      NonSpaceOfSpaces(s);
      NonSpaceEmpty(t);
    }
    if t == "" {
      NonSpaceEmpty(s);
    }
  }

  // ===========================================================================
  // Facts about case mapping
  // ===========================================================================

  lemma LowerIdempotent(s: string)
    ensures Lower(Lower(s)) == Lower(s)
  {
  }

  /** No character of a lower-cased string is an upper-case letter. */
  predicate IsLowered(s: string) {
    forall i :: 0 <= i < |s| ==> LowerChar(s[i]) == s[i]
  }

  /** `t.capitalize().lower()` gives back a lower-case alphanumeric word, and
      capitalising keeps it alphanumeric. */
  lemma CapitalizeLower(t: string)
    requires AllAlnum(t) && IsLowered(t)
    ensures Lower(Capitalize(t)) == t
    ensures AllAlnum(Capitalize(t))
  {
    if |t| > 0 {
      var c := Capitalize(t);
      assert c == [UpperChar(t[0])] + Lower(t[1..]);
      assert Lower(t[1..]) == t[1..];
      assert LowerChar(UpperChar(t[0])) == t[0];
      assert Lower(c) == [LowerChar(UpperChar(t[0]))] + Lower(t[1..]);
      assert [t[0]] + t[1..] == t;
    }
  }

  // ===========================================================================
  // Facts about split / join and tokens
  // ===========================================================================

  lemma {:induction false} SplitNoSep(p: string, sep: char)
    requires sep !in p
    ensures Split(p, sep) == [p]
    decreases |p|
  {
    if |p| > 0 {
      SplitNoSep(p[1..], sep);
      assert [p[0]] + p[1..] == p;
    }
  }

  lemma {:induction false} SplitAfterPiece(p: string, sep: char, t: string)
    requires sep !in p
    ensures Split(p + [sep] + t, sep) == [p] + Split(t, sep)
    decreases |p|
  {
    var s := p + [sep] + t;
    if |p| == 0 {
      assert s == [sep] + t;
      assert s[1..] == t;
    } else {
      assert s[1..] == p[1..] + [sep] + t;
      SplitAfterPiece(p[1..], sep, t);
      assert [p[0]] + p[1..] == p;
    }
  }

  /** Splitting a join recovers the pieces when no piece contains the separator. */
  lemma {:induction false} SplitJoin(parts: seq<string>, sep: char)
    requires |parts| >= 1
    requires forall i :: 0 <= i < |parts| ==> sep !in parts[i]
    ensures Split(Join(parts, [sep]), sep) == parts
    decreases |parts|
  {
    if |parts| == 1 {
      SplitNoSep(parts[0], sep);
    } else {
      SplitJoin(parts[1..], sep);
      SplitAfterPiece(parts[0], sep, Join(parts[1..], [sep]));
      assert [parts[0]] + parts[1..] == parts;
    }
  }

  /** Replacing the separator of a join by another gives the join with the
      other separator, when no piece contains the first. */
  lemma {:induction false} ReplaceJoin(parts: seq<string>, a: char, b: char)
    requires forall i :: 0 <= i < |parts| ==> a !in parts[i]
    ensures ReplaceChar(Join(parts, [a]), a, b) == Join(parts, [b])
    decreases |parts|
  {
    if |parts| == 1 {
      assert ReplaceChar(parts[0], a, b) == parts[0];
    } else if |parts| > 1 {
      ReplaceJoin(parts[1..], a, b);
      var rest := Join(parts[1..], [a]);
      var s := parts[0] + [a] + rest;
      var t := parts[0] + [b] + ReplaceChar(rest, a, b);
      assert ReplaceChar(s, a, b) == t by {
        forall k | 0 <= k < |s| ensures ReplaceChar(s, a, b)[k] == t[k] {
          if k < |parts[0]| {
            assert s[k] == parts[0][k];
          } else if k > |parts[0]| {
            assert s[k] == rest[k - |parts[0]| - 1];
          }
        }
      }
    }
  }

  lemma {:induction false} AlnumCharsAppend(a: string, b: string)
    ensures AlnumChars(a + b) == AlnumChars(a) + AlnumChars(b)
    decreases |a|
  {
    if |a| > 0 {
      assert (a + b)[1..] == a[1..] + b;
      AlnumCharsAppend(a[1..], b);
    } else {
      assert a + b == b;
    }
  }

  lemma {:induction false} AlnumCharsOfAlnum(a: string)
    requires AllAlnum(a)
    ensures AlnumChars(a) == a
    decreases |a|
  {
    if |a| > 0 {
      AlnumCharsOfAlnum(a[1..]);
      assert [a[0]] + a[1..] == a;
    }
  }

  /** The tokens are non-empty alphanumeric runs that together hold exactly the
      alphanumeric characters of `s`, in order. */
  lemma {:induction false} TokensCover(s: string)
    ensures forall i :: 0 <= i < |Tokens(s)| ==> |Tokens(s)[i]| > 0 && AllAlnum(Tokens(s)[i])
    ensures Concat(Tokens(s)) == AlnumChars(s)
    decreases |s|
  {
    if |s| > 0 {
      if !IsAlnum(s[0]) {
        TokensCover(s[1..]);
      } else {
        var n := AlnumRun(s);
        TokensCover(s[n..]);
        assert s == s[..n] + s[n..];
        AlnumCharsAppend(s[..n], s[n..]);
        AlnumCharsOfAlnum(s[..n]);
        var ts := Tokens(s);
        assert ts == [s[..n]] + Tokens(s[n..]);
        assert ts[1..] == Tokens(s[n..]);
      }
    }
  }

  /** Every character of every token comes from the scanned string. */
  lemma {:induction false} TokensFrom(s: string)
    ensures forall i, j :: 0 <= i < |Tokens(s)| && 0 <= j < |Tokens(s)[i]| ==> Tokens(s)[i][j] in s
    decreases |s|
  {
    if |s| > 0 {
      if !IsAlnum(s[0]) {
        TokensFrom(s[1..]);
      } else {
        var n := AlnumRun(s);
        TokensFrom(s[n..]);
        var ts := Tokens(s);
        assert ts == [s[..n]] + Tokens(s[n..]);
        forall i, j | 0 <= i < |ts| && 0 <= j < |ts[i]| ensures ts[i][j] in s {
          if i == 0 {
            assert ts[0][j] == s[j];
          } else {
            assert ts[i] == Tokens(s[n..])[i - 1];
            assert ts[i][j] in s[n..];
          }
        }
      }
    }
  }

  /** The tokens of a lower-cased string are lower-case. */
  lemma TokensLowered(s: string)
    ensures forall i :: 0 <= i < |Tokens(Lower(s))| ==> IsLowered(Tokens(Lower(s))[i])
  {
    var l := Lower(s);
    TokensFrom(l);
    forall i, j | 0 <= i < |Tokens(l)| && 0 <= j < |Tokens(l)[i]|
      ensures LowerChar(Tokens(l)[i][j]) == Tokens(l)[i][j]
    {
      var k :| 0 <= k < |l| && l[k] == Tokens(l)[i][j];
    }
  }

  /** Joining pieces drawn from a character class with a separator from the same
      class stays inside the class. */
  lemma {:induction false} JoinWithin(parts: seq<string>, sep: string, ok: char -> bool)
    requires forall i, j :: 0 <= i < |parts| && 0 <= j < |parts[i]| ==> ok(parts[i][j])
    requires forall j :: 0 <= j < |sep| ==> ok(sep[j])
    ensures forall j :: 0 <= j < |Join(parts, sep)| ==> ok(Join(parts, sep)[j])
    decreases |parts|
  {
    if |parts| > 1 {
      JoinWithin(parts[1..], sep, ok);
      var rest := Join(parts[1..], sep);
      assert forall i, j :: 0 <= i < |parts[1..]| && 0 <= j < |parts[1..][i]| ==> parts[1..][i][j] == parts[i + 1][j];
      var r := parts[0] + sep + rest;
      forall j | 0 <= j < |r| ensures ok(r[j]) {
        if j < |parts[0]| {
        } else if j < |parts[0]| + |sep| {
          assert r[j] == sep[j - |parts[0]|];
        } else {
          assert r[j] == rest[j - |parts[0]| - |sep|];
        }
      }
    }
  }
}
