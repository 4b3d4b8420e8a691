/** An already-parsed JSON value, as `json.loads` hands it to the pipeline,
    with the two Python views of it the code relies on: truthiness and `str()`. */
module Json {
  import opened Wrappers
  import Text

  /** Objects keep their members in document order. Numbers are integers. */
  datatype Json =
    | JNull
    | JBool(b: bool)
    | JNum(n: int)
    | JStr(s: string)
    | JArr(items: seq<Json>)
    | JObj(fields: seq<(string, Json)>)

  /** `d.get(key)`: the value of the last member named `key` (a repeated name
      in a JSON document overrides the earlier one). */
  function Get(fields: seq<(string, Json)>, key: string): Option<Json>
    decreases |fields|
  {
    if |fields| == 0 then None
    else if fields[|fields| - 1].0 == key then Some(fields[|fields| - 1].1)
    else Get(fields[..|fields| - 1], key)
  }

  /** `d.get(key, default)`. */
  function GetOr(fields: seq<(string, Json)>, key: string, default: Json): Json {
    Get(fields, key).GetOr(default)
  }

  /** Python truthiness of the decoded value. */
  predicate Truthy(j: Json) {
    match j
    case JNull => false
    case JBool(b) => b
    case JNum(n) => n != 0
    case JStr(s) => s != ""
    case JArr(items) => |items| > 0
    case JObj(fields) => |fields| > 0
  }

  function Digits(n: nat): string {
    if n < 10 then [('0' as int + n) as char]
    else Digits(n / 10) + [('0' as int + n % 10) as char]
  }

  function IntToString(n: int): string {
    if n < 0 then "-" + Digits(-n) else Digits(n)
  }

  /** The decimal expansion starts with a digit. */
  lemma {:induction false} DigitsHead(n: nat)
    ensures |Digits(n)| > 0 && '0' <= Digits(n)[0] <= '9'
  {
    if n >= 10 {
      DigitsHead(n / 10);
    }
  }

  /** Python `str(v)` of the decoded value. */
  function Show(j: Json): string {
    match j
    case JNull => "None"
    case JBool(b) => if b then "True" else "False"
    case JNum(n) => IntToString(n)
    case JStr(s) => s
    case _ => Repr(j)
  }

  /** Python `repr(v)` as it appears inside a container's `str()`. */
  function Repr(j: Json): string
    decreases j
  {
    match j
    case JStr(s) => "'" + s + "'"
    case JArr(items) =>
      "[" + Text.Join(seq(|items|, i requires 0 <= i < |items| => Repr(items[i])), ", ") + "]"
    case JObj(fields) =>
      "{" + Text.Join(seq(|fields|, i requires 0 <= i < |fields| =>
                        "'" + fields[i].0 + "': " + Repr(fields[i].1)), ", ") + "}"
    case JNull => "None"
    case JBool(b) => if b then "True" else "False"
    case JNum(n) => IntToString(n)
  }

  /** `str()` of anything but a string is never empty, so such a value always
      passes a truthiness test on its text. */
  lemma ShowNonString(j: Json)
    requires !j.JStr?
    ensures |Show(j)| > 0
  {
    match j
    case JNum(n) =>
      if n < 0 {
      } else {
        assert |Digits(n)| > 0;
      }
    case _ =>
  }

  lemma NonBlankShow(j: Json)
    requires !j.JStr?
    ensures !Text.AllSpace(Show(j))
  {
    ShowNonString(j);
    ShowStartsVisible(j);
  }

  /** The first character of `str()` of a non-string value is not whitespace. */
  lemma ShowStartsVisible(j: Json)
    requires !j.JStr?
    ensures |Show(j)| > 0 && !Text.IsSpace(Show(j)[0])
  {
    ShowNonString(j);
    match j
    case JNum(n) =>
      if n >= 0 {
        DigitsHead(n);
      }
    case _ =>
  }
}
