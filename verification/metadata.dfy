/** The values a question block's YAML header can produce, and the Python
    built-ins the loader applies to them: truthiness (`x or y`), `dict.get`,
    `str(x)` and `int(x)`. */
module Metadata {
  import opened Results
  import opened PyText

  /** One YAML value as `yaml.safe_load` returns it. `Other` stands for every
      value the loader never looks inside (a float, a date, a nested mapping):
      it carries the text `str()` gives for it, the text `repr()` gives for it
      (the two differ for a date: `2020-01-01` against
      `datetime.date(2020, 1, 1)`) and its truth value. */
  datatype Raw =
    | Null
    | Str(s: string)
    | Int(i: int)
    | Bool(b: bool)
    | List(items: seq<Raw>)
    | Other(str: string, repr: string, truthy: bool)

  /** A block header after `yaml.safe_load`: the parser raised, or it gave a
      mapping, or it gave some other document (a scalar, a list, nothing). */
  datatype Header =
    | Malformed
    | Mapping(fields: map<string, Raw>)
    | Scalar(value: Raw)

  /** The exceptions the per-block code can raise outside its `try`. */
  datatype LoadError =
    | MetaNotAMapping(value: Raw)  // `meta.get` on a truthy non-mapping document
    | NotAnInteger(value: Raw)     // `int(...)` of a year bound

  /** Python's `bool(x)`. */
  predicate Truthy(x: Raw) {
    match x
    case Null => false
    case Str(s) => s != ""
    case Int(i) => i != 0
    case Bool(b) => b
    case List(items) => items != []
    case Other(_, _, t) => t
  }

  /** Truthiness agrees with the other built-ins: a number or a boolean is
      true exactly when `int()` of it is not 0, a string exactly when `str()`
      of it is not empty, and `None` never is. */
  lemma TruthyRule(x: Raw)
    ensures x.Int? || x.Bool? ==> (Truthy(x) <==> ToInt(x) != Ok(0))
    ensures x.Str? ==> (Truthy(x) <==> Show(x, false) != "")
    ensures x.Null? ==> !Truthy(x) && Show(x, false) == "None"
  {
  }

  /** Python's `x or y`: the first operand when it is truthy, else the second. */
  function Or(x: Raw, y: Raw): (r: Raw)
    ensures Truthy(r) <==> Truthy(x) || Truthy(y)
    ensures r == x || r == y
  {
    if Truthy(x) then x else y
  }

  /** `meta.get(key)`: a missing key reads as `None`. */
  function Lookup(meta: map<string, Raw>, key: string): (r: Raw)
    ensures key !in meta ==> r == Null
    ensures key in meta ==> r == meta[key]
  {
    if key in meta then meta[key] else Null
  }

  /** `str(x)` when `quoted` is false, `repr(x)` when it is true. A list prints
      as the `repr` of its items between brackets, separated by `", "`. */
  function Show(x: Raw, quoted: bool): (r: string)
    decreases x
    ensures x.Str? && !quoted ==> r == x.s
    ensures x.Str? && quoted ==> |r| == |x.s| + 2 && r[0] == r[|r| - 1] == '\''
    ensures x.List? ==> |r| >= 2 && r[0] == '[' && r[|r| - 1] == ']'
  {
    match x
    case Null => "None"
    case Str(s) => if quoted then "'" + s + "'" else s
    case Int(i) => IntToString(i)
    case Bool(b) => if b then "True" else "False"
    case List(items) => "[" + ShowItems(items) + "]"
    case Other(str, repr, _) => if quoted then repr else str
  }

  /** The `repr` of each item, separated by `", "`. */
  function ShowItems(items: seq<Raw>): string
    decreases items
  {
    if items == [] then ""
    else if |items| == 1 then Show(items[0], true)
    else Show(items[0], true) + ", " + ShowItems(items[1..])
  }

  /** `int(x)`: an integer as is, a boolean as 1 or 0, a string parsed in base 10;
      everything else raises. */
  function ToInt(x: Raw): (r: Result<int, LoadError>)
    ensures x.Int? ==> r == Ok(x.i)
    ensures r.Err? ==> r.error == NotAnInteger(x)
    ensures x.Null? || x.List? ==> r.Err?
  {
    match x
    case Int(i) => Ok(i)
    case Bool(b) => Ok(if b then 1 else 0)
    case Str(s) =>
      (match ParseInt(s)
       case Some(v) => Ok(v)
       case None => Err(NotAnInteger(x)))
    case _ => Err(NotAnInteger(x))
  }

  /** A number survives `int(str(n))`, whether YAML gave it as a number or as text. */
  lemma ToIntOfPrintedInt(i: int)
    ensures ToInt(Str(Show(Int(i), false))) == Ok(i)
    ensures ToInt(Int(i)) == Ok(i)
  {
    ParseIntToString(i);
  }

  /** `yaml.safe_load(header) or {}` followed by the first `meta.get`: a parse
      failure and every falsy document become the empty mapping; a truthy
      document that is not a mapping has no `get` and raises. */
  function MetaOf(h: Header): (r: Result<map<string, Raw>, LoadError>)
    ensures h.Malformed? ==> r == Ok(map[])
    ensures h.Mapping? ==> r == Ok(h.fields)
    ensures h.Scalar? ==> (r.Err? <==> Truthy(h.value))
  {
    match h
    case Malformed => Ok(map[])
    case Mapping(fields) => Ok(fields)
    case Scalar(v) => if Truthy(v) then Err(MetaNotAMapping(v)) else Ok(map[])
  }
}
