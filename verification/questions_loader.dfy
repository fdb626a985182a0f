/** `questions_loader.py`: the `Question` record, the role and tag normalisers,
    the per-block field derivation of `parse_questions_from_text`, and
    `load_questions` over files already read. The front-matter regular
    expression and the YAML parser are not modelled: a file arrives as its
    sequence of blocks, each a parsed header and the raw body text. */
module QuestionsLoader {
  import opened Results
  import opened PyText
  import opened Metadata

  /** One interview question. `explanation` is whatever the header's
      `explanation` key held, `Null` when it had none. */
  datatype Question = Question(
    id: string,
    tech: string,
    roles: seq<string>,
    minYears: int,
    maxYears: int,
    tags: seq<string>,
    question: string,
    explanation: Raw)

  /** One `--- header --- body` block of a question file. */
  datatype Block = Block(header: Header, body: string)

  /** One question file: its technology key (the file's base name) and its blocks. */
  datatype QuestionFile = QuestionFile(tech: string, blocks: seq<Block>)

  /** The sentinel role that matches every role filter. */
  const AnyRole: string := "any"

  /** The pieces of a split, stripped, with the blank ones dropped, in order. */
  function NonBlankPieces(parts: seq<string>): (r: seq<string>)
    ensures |r| <= |parts|
    ensures forall k :: 0 <= k < |r| ==> r[k] != "" && Trimmed(r[k])
    ensures forall k :: 0 <= k < |parts| && Strip(parts[k]) != "" ==> Strip(parts[k]) in r
  {
    if parts == [] then []
    else
      var rest := NonBlankPieces(parts[1..]);
      var head := Strip(parts[0]);
      assert forall k :: 1 <= k < |parts| ==> parts[k] == parts[1..][k - 1];
      if head == "" then rest else [head] + rest
  }

  /** A character no piece contains is in no normalised piece either. */
  lemma {:induction false} NonBlankPiecesAvoid(parts: seq<string>, c: char)
    requires forall k :: 0 <= k < |parts| ==> c !in parts[k]
    ensures forall k :: 0 <= k < |NonBlankPieces(parts)| ==> c !in NonBlankPieces(parts)[k]
  {
    if parts != [] {
      NonBlankPiecesAvoid(parts[1..], c);
      if c in Strip(parts[0]) {
        StripKeepsCharacters(parts[0], c);
      }
    }
  }

  /** Every kept name is a stripped piece. */
  lemma {:induction false} NonBlankPiecesFrom(parts: seq<string>)
    ensures forall x :: x in NonBlankPieces(parts) ==> exists p :: p in parts && Strip(p) == x
  {
    if parts != [] {
      NonBlankPiecesFrom(parts[1..]);
      forall x | x in NonBlankPieces(parts)
        ensures exists p :: p in parts && Strip(p) == x
      {
        if x in NonBlankPieces(parts[1..]) {
          var p :| p in parts[1..] && Strip(p) == x;
          assert p in parts;
        } else {
          assert Strip(parts[0]) == x;
        }
      }
    }
  }

  /** Blank pieces only: no names at all. */
  lemma {:induction false} AllBlankPieces(parts: seq<string>)
    requires forall p :: p in parts ==> Strip(p) == ""
    ensures NonBlankPieces(parts) == []
  {
    if parts != [] {
      assert parts[0] in parts;
      AllBlankPieces(parts[1..]);
    }
  }

  /** The names one piece contributes: its stripped text, unless blank. */
  function PieceName(p: string): (r: seq<string>)
    ensures |r| <= 1
  {
    if Strip(p) == "" then [] else [Strip(p)]
  }

  /** `f` applied to each item in turn, the results concatenated. */
  function FlatMap<A, B>(xs: seq<A>, f: A -> seq<B>): seq<B> {
    if xs == [] then [] else f(xs[0]) + FlatMap(xs[1..], f)
  }

  lemma {:induction false} FlatMapAppend<A, B>(a: seq<A>, b: seq<A>, f: A -> seq<B>)
    ensures FlatMap(a + b, f) == FlatMap(a, f) + FlatMap(b, f)
  {
    if a == [] {
      assert a + b == b;
    } else {
      FlatMapAppend(a[1..], b, f);
      assert (a + b)[0] == a[0] && (a + b)[1..] == a[1..] + b;
    }
  }

  /** Each piece contributes its own name, if any, in order: the filtered
      comprehension is a concatenation over the pieces. */
  lemma {:induction false} NonBlankPiecesFlat(parts: seq<string>)
    ensures NonBlankPieces(parts) == FlatMap(parts, PieceName)
  {
    if parts != [] {
      NonBlankPiecesFlat(parts[1..]);
    }
  }

  /** Pieces are handled one at a time and in order: the names of `a + b`
      are those of `a` followed by those of `b`. */
  lemma NonBlankPiecesAppend(a: seq<string>, b: seq<string>)
    ensures NonBlankPieces(a + b) == NonBlankPieces(a) + NonBlankPieces(b)
  {
    NonBlankPiecesFlat(a + b);
    NonBlankPiecesFlat(a);
    NonBlankPiecesFlat(b);
    FlatMapAppend(a, b, PieceName);
  }

  /** The normalisation `_normalize_roles` and `_normalize_tags` share; they
      differ only in what `None` becomes (`absent`). A string is split on
      commas, every piece stripped and blank pieces dropped; a list keeps one
      stripped `str` per element, blank ones included; any other value becomes
      its unstripped `str` alone. */
  function Normalize(raw: Raw, absent: seq<string>): (r: seq<string>)
    ensures raw.Null? ==> r == absent
  {
    match raw
    case Null => absent
    case Str(s) => NonBlankPieces(Split(s, ','))
    case List(items) => StrippedShows(items)
    case _ => [Show(raw, false)]
  }

  /** `[str(x).strip() for x in items]`. */
  function StrippedShows(items: seq<Raw>): (r: seq<string>)
    ensures |r| == |items|
  {
    if items == [] then [] else [Strip(Show(items[0], false))] + StrippedShows(items[1..])
  }

  /** Element `k` of the list normalisation is the stripped `str` of item `k`. */
  lemma {:induction false} StrippedShowsAt(items: seq<Raw>, k: nat)
    requires k < |items|
    ensures StrippedShows(items)[k] == Strip(Show(items[k], false))
  {
    if k > 0 {
      StrippedShowsAt(items[1..], k - 1);
    }
  }

  /** What each kind of value normalises to. A string gives non-blank, stripped,
      comma-free names, each the stripped text of one comma-separated piece,
      no more names than pieces, and every piece that is not blank shows up
      (`NormalizeStringRules` pins down the order); a list gives exactly one
      stripped `str` per element, in order; a number, boolean or other scalar
      gives its `str`. */
  lemma NormalizeShape(raw: Raw, absent: seq<string>)
    ensures raw.Str? ==>
      && |Normalize(raw, absent)| <= |Split(raw.s, ',')|
      && forall k :: 0 <= k < |Normalize(raw, absent)| ==> Normalize(raw, absent)[k] != "" && Trimmed(Normalize(raw, absent)[k]) && ',' !in Normalize(raw, absent)[k]
    ensures raw.Str? ==> forall x :: x in Normalize(raw, absent) ==> exists p :: p in Split(raw.s, ',') && Strip(p) == x
    ensures raw.Str? ==> forall p :: p in Split(raw.s, ',') && Strip(p) != "" ==> Strip(p) in Normalize(raw, absent)
    ensures raw.List? ==> |Normalize(raw, absent)| == |raw.items|
    ensures raw.List? ==> forall k :: 0 <= k < |raw.items| ==> Normalize(raw, absent)[k] == Strip(Show(raw.items[k], false))
    ensures raw.Int? || raw.Bool? || raw.Other? ==> Normalize(raw, absent) == [Show(raw, false)]
  {
    if raw.List? {
      forall k | 0 <= k < |raw.items|
        ensures Normalize(raw, absent)[k] == Strip(Show(raw.items[k], false))
      {
        StrippedShowsAt(raw.items, k);
      }
    }
    if raw.Str? {
      var parts := Split(raw.s, ',');
      NonBlankPiecesAvoid(parts, ',');
      NonBlankPiecesFrom(parts);
      forall p | p in parts && Strip(p) != ""
        ensures Strip(p) in Normalize(raw, absent)
      {
        var k :| 0 <= k < |parts| && parts[k] == p;
      }
    }
  }

  /** For a string the normalisation is fixed by two rules, which together
      define it on every input: text around a comma normalises as its two
      sides, one after the other; and text without a comma gives its stripped
      self, or nothing when that is blank. */
  lemma NormalizeStringRules(a: string, b: string, absent: seq<string>)
    ensures Normalize(Str(a + "," + b), absent) == Normalize(Str(a), absent) + Normalize(Str(b), absent)
    ensures ',' !in a ==> Normalize(Str(a), absent) == PieceName(a)
  {
    SplitAppend(a, b, ',');
    NonBlankPiecesAppend(Split(a, ','), Split(b, ','));
    if ',' !in a {
      SplitNoSeparator(a, ',');
    }
  }

  /** `_normalize_roles`: `None` becomes the sentinel `["any"]`; anything else
      normalises exactly as a tag value does. */
  function NormalizeRoles(raw: Raw): (r: seq<string>)
    ensures raw.Null? ==> r == [AnyRole]
    ensures !raw.Null? ==> r == NormalizeTags(raw)
  {
    Normalize(raw, [AnyRole])
  }

  /** `_normalize_tags`: `None` becomes the empty list. */
  function NormalizeTags(raw: Raw): (r: seq<string>)
    ensures raw.Null? ==> r == []
  {
    Normalize(raw, [])
  }

  /** A list of clean names (non-empty, no surrounding whitespace, no comma)
      written as one comma-separated string normalises back to that list. */
  lemma {:induction false} NormalizeCommaJoined(names: seq<string>)
    requires forall k :: 0 <= k < |names| ==> names[k] != "" && Trimmed(names[k]) && ',' !in names[k]
    ensures NormalizeTags(Str(Join(names, ","))) == names
    ensures NormalizeRoles(Str(Join(names, ","))) == names
  {
    if names == [] {
      assert Split("", ',') == [""];
      assert Strip("") == "";
    } else {
      SplitJoin(names, ',');
      NonBlankPiecesOfClean(names);
    }
  }

  lemma {:induction false} NonBlankPiecesOfClean(names: seq<string>)
    requires forall k :: 0 <= k < |names| ==> names[k] != "" && Trimmed(names[k])
    ensures NonBlankPieces(names) == names
  {
    if names != [] {
      StripTrimmed(names[0]);
      NonBlankPiecesOfClean(names[1..]);
      assert [names[0]] + names[1..] == names;
    }
  }

  /** The id given to a block without one: `"{tech}-{k}"`. */
  function GeneratedId(tech: string, k: nat): string {
    tech + "-" + NatToString(k)
  }

  /** Generated ids of one technology differ whenever the positions do. */
  lemma GeneratedIdsDiffer(tech: string, j: nat, k: nat)
    requires j != k
    ensures GeneratedId(tech, j) != GeneratedId(tech, k)
  {
    if GeneratedId(tech, j) == GeneratedId(tech, k) {
      var n := |tech| + 1;
      assert GeneratedId(tech, j)[n..] == NatToString(j);
      assert GeneratedId(tech, k)[n..] == NatToString(k);
      NatToStringInjective(j, k);
    }
  }

  /** `str(meta.get("id") or f"{tech}-{k}")`. */
  function IdOf(meta: map<string, Raw>, tech: string, k: nat): string {
    var given := Lookup(meta, "id");
    if Truthy(given) then Show(given, false) else GeneratedId(tech, k)
  }

  /** `int(meta.get(key, meta.get(alias, fallback) or fallback))`: the
      primary key is used whenever present, even when its value is `None`;
      only the alias is replaced by the fallback when missing or falsy. */
  function YearBound(meta: map<string, Raw>, key: string, alias: string, fallback: int): Result<int, LoadError> {
    ToInt(if key in meta then meta[key] else Or(Lookup(meta, alias), Int(fallback)))
  }

  function MinYears(meta: map<string, Raw>): Result<int, LoadError> {
    YearBound(meta, "min_years", "min_year", 0)
  }

  function MaxYears(meta: map<string, Raw>): Result<int, LoadError> {
    YearBound(meta, "max_years", "max_year", 100)
  }

  /** The role value the loader normalises: `meta.get("role") or meta.get("roles")`. */
  function RoleValue(meta: map<string, Raw>): Raw {
    Or(Lookup(meta, "role"), Lookup(meta, "roles"))
  }

  /** The body of the loop in `parse_questions_from_text` for the `k`-th block
      of a file (`k` counts from 1). */
  function ParseBlock(b: Block, tech: string, k: nat): (r: Result<Question, LoadError>)
    ensures r.Ok? ==> r.value.tech == tech && r.value.question == Strip(b.body)
  {
    match MetaOf(b.header)
    case Err(e) => Err(e)
    case Ok(meta) =>
      match MinYears(meta)
      case Err(e) => Err(e)
      case Ok(lo) =>
        match MaxYears(meta)
        case Err(e) => Err(e)
        case Ok(hi) =>
          Ok(Question(
            IdOf(meta, tech, k),
            tech,
            NormalizeRoles(RoleValue(meta)),
            lo,
            hi,
            NormalizeTags(Lookup(meta, "tags")),
            Strip(b.body),
            Lookup(meta, "explanation")))
  }

  /** A header YAML cannot parse, or one that parses to a falsy document (the
      empty mapping among them), is read as an empty mapping: generated id, sentinel role, years 0 to 100,
      no tags, no explanation. A truthy document that is not a mapping has no
      `get` and raises. */
  lemma HeaderFallbacks(b: Block, tech: string, k: nat)
    ensures b.header.Malformed? || b.header == Mapping(map[]) || (b.header.Scalar? && !Truthy(b.header.value)) ==>
      ParseBlock(b, tech, k) == Ok(Question(GeneratedId(tech, k), tech, [AnyRole], 0, 100, [], Strip(b.body), Null))
    ensures b.header.Scalar? && Truthy(b.header.value) ==>
      ParseBlock(b, tech, k) == Err(MetaNotAMapping(b.header.value))
  {
  }

  /** Whether a header carries a usable (truthy) `id`. */
  predicate HasExplicitId(h: Header) {
    h.Mapping? && Truthy(Lookup(h.fields, "id"))
  }

  /** An explicit id is kept, as its `str`; a missing or falsy one is generated
      from the technology and the block's position. */
  lemma IdRule(b: Block, tech: string, k: nat)
    requires ParseBlock(b, tech, k).Ok?
    ensures HasExplicitId(b.header) ==>
      ParseBlock(b, tech, k).value.id == Show(b.header.fields["id"], false)
    ensures !HasExplicitId(b.header) ==> ParseBlock(b, tech, k).value.id == GeneratedId(tech, k)
  {
  }

  /** `role` wins over `roles` when truthy; with neither, the sentinel. */
  lemma RolePrecedence(fields: map<string, Raw>, body: string, tech: string, k: nat)
    requires ParseBlock(Block(Mapping(fields), body), tech, k).Ok?
    ensures Truthy(Lookup(fields, "role")) ==>
      ParseBlock(Block(Mapping(fields), body), tech, k).value.roles == NormalizeRoles(fields["role"])
    ensures !Truthy(Lookup(fields, "role")) ==>
      ParseBlock(Block(Mapping(fields), body), tech, k).value.roles == NormalizeRoles(Lookup(fields, "roles"))
    ensures "role" !in fields && "roles" !in fields ==>
      ParseBlock(Block(Mapping(fields), body), tech, k).value.roles == [AnyRole]
    ensures ParseBlock(Block(Mapping(fields), body), tech, k).value.tags == NormalizeTags(Lookup(fields, "tags"))
  {
  }

  /** A present but empty role list is not the same as a missing one: with no
      truthy `role`, a `roles` value that is an empty list or a string of
      blank comma-separated pieces gives no roles at all, while a falsy `role`
      (`""` say) with no `roles` key gives the sentinel. */
  lemma EmptyRoleValues(fields: map<string, Raw>, body: string, tech: string, k: nat)
    requires ParseBlock(Block(Mapping(fields), body), tech, k).Ok?
    requires !Truthy(Lookup(fields, "role"))
    ensures "roles" in fields && fields["roles"] == List([]) ==>
      ParseBlock(Block(Mapping(fields), body), tech, k).value.roles == []
    ensures "roles" in fields && fields["roles"].Str? && (forall p :: p in Split(fields["roles"].s, ',') ==> Strip(p) == "") ==>
      ParseBlock(Block(Mapping(fields), body), tech, k).value.roles == []
    ensures "roles" !in fields ==> ParseBlock(Block(Mapping(fields), body), tech, k).value.roles == [AnyRole]
  {
    RolePrecedence(fields, body, tech, k);
    var raw := Lookup(fields, "roles");
    if raw.Str? && (forall p :: p in Split(raw.s, ',') ==> Strip(p) == "") {
      AllBlankPieces(Split(raw.s, ','));
    }
  }

  /** The lower year bound: `int` of `min_years` whenever that key is present,
      else `int` of a truthy `min_year`, else 0. */
  lemma MinYearsRule(fields: map<string, Raw>, body: string, tech: string, k: nat)
    requires ParseBlock(Block(Mapping(fields), body), tech, k).Ok?
    ensures "min_years" in fields ==>
      ToInt(fields["min_years"]) == Ok(ParseBlock(Block(Mapping(fields), body), tech, k).value.minYears)
    ensures "min_years" !in fields && Truthy(Lookup(fields, "min_year")) ==>
      ToInt(fields["min_year"]) == Ok(ParseBlock(Block(Mapping(fields), body), tech, k).value.minYears)
    ensures "min_years" !in fields && !Truthy(Lookup(fields, "min_year")) ==>
      ParseBlock(Block(Mapping(fields), body), tech, k).value.minYears == 0
  {
  }

  /** The upper year bound: `int` of `max_years` whenever that key is present,
      else `int` of a truthy `max_year`, else 100. */
  lemma MaxYearsRule(fields: map<string, Raw>, body: string, tech: string, k: nat)
    requires ParseBlock(Block(Mapping(fields), body), tech, k).Ok?
    ensures "max_years" in fields ==>
      ToInt(fields["max_years"]) == Ok(ParseBlock(Block(Mapping(fields), body), tech, k).value.maxYears)
    ensures "max_years" !in fields && Truthy(Lookup(fields, "max_year")) ==>
      ToInt(fields["max_year"]) == Ok(ParseBlock(Block(Mapping(fields), body), tech, k).value.maxYears)
    ensures "max_years" !in fields && !Truthy(Lookup(fields, "max_year")) ==>
      ParseBlock(Block(Mapping(fields), body), tech, k).value.maxYears == 100
  {
  }

  /** A year value `int()` rejects makes the block raise with that value; the
      lower bound is converted first, so its error is the one reported. */
  lemma YearValueErrors(fields: map<string, Raw>, body: string, tech: string, k: nat)
    ensures "min_years" in fields && ToInt(fields["min_years"]).Err? ==>
      ParseBlock(Block(Mapping(fields), body), tech, k) == Err(NotAnInteger(fields["min_years"]))
    ensures "min_years" !in fields && Truthy(Lookup(fields, "min_year")) && ToInt(fields["min_year"]).Err? ==>
      ParseBlock(Block(Mapping(fields), body), tech, k) == Err(NotAnInteger(fields["min_year"]))
    ensures MinYears(fields).Ok? && "max_years" in fields && ToInt(fields["max_years"]).Err? ==>
      ParseBlock(Block(Mapping(fields), body), tech, k) == Err(NotAnInteger(fields["max_years"]))
    ensures MinYears(fields).Ok? && "max_years" !in fields && Truthy(Lookup(fields, "max_year")) && ToInt(fields["max_year"]).Err? ==>
      ParseBlock(Block(Mapping(fields), body), tech, k) == Err(NotAnInteger(fields["max_year"]))
  {
  }

  /** `min_years: abc` cannot be read as a number, so the block raises. */
  lemma NonNumericYearFails(body: string, tech: string, k: nat)
    ensures ParseBlock(Block(Mapping(map["min_years" := Str("abc")]), body), tech, k) == Err(NotAnInteger(Str("abc")))
  {
    LettersAreNotAnInt();
    YearValueErrors(map["min_years" := Str("abc")], body, tech, k);
  }

  /** A primary year key present with value `None` is not defaulted:
      `int(None)` raises and the block (so the file) fails. */
  lemma NullYearKeyFails(fields: map<string, Raw>, body: string, tech: string, k: nat)
    requires "min_years" in fields && fields["min_years"] == Null
    ensures ParseBlock(Block(Mapping(fields), body), tech, k) == Err(NotAnInteger(Null))
  {
  }

  /** With only well-typed integer values (or none) in the year keys the
      block always parses. */
  lemma IntegerYearsParse(fields: map<string, Raw>, body: string, tech: string, k: nat)
    requires forall key :: key in ["min_years", "min_year", "max_years", "max_year"] && key in fields ==>
      fields[key].Int?
    ensures ParseBlock(Block(Mapping(fields), body), tech, k).Ok?
  {
    assert "min_years" in fields ==> fields["min_years"].Int?;
    assert "min_year" in fields ==> fields["min_year"].Int?;
    assert "max_years" in fields ==> fields["max_years"].Int?;
    assert "max_year" in fields ==> fields["max_year"].Int?;
  }

  /** The `explanation` key is carried over untouched. */
  lemma ExplanationKept(fields: map<string, Raw>, body: string, tech: string, k: nat)
    requires ParseBlock(Block(Mapping(fields), body), tech, k).Ok?
    ensures ParseBlock(Block(Mapping(fields), body), tech, k).value.explanation == Lookup(fields, "explanation")
  {
  }

  /** The loop of `parse_questions_from_text`, for any per-item step: once
      `done` holds the results for the first `|done|` items, the next item is
      handled as number `len(done) + 1`, and the first failing step ends the
      loop with its error. */
  function ParseEach<A, T, E>(items: seq<A>, step: (A, nat) -> Result<T, E>, done: seq<T>): (r: Result<seq<T>, E>)
    requires |done| <= |items|
    decreases |items| - |done|
    ensures r.Ok? ==> |r.value| == |items| && r.value[..|done|] == done
  {
    if |done| == |items| then Ok(done)
    else
      var head := step(items[|done|], |done| + 1);
      if head.Err? then Err(head.error)
      else
        var next := done + [head.value];
        var r := ParseEach(items, step, next);
        assert r.Ok? ==> r.value[..|done|] == next[..|done|];
        r
  }

  /** From any point of the loop: it succeeds exactly when every remaining
      step does, and result `i` is what item `i` gives as number `i + 1`. */
  lemma {:induction false} ParseEachInOrder<A, T, E>(items: seq<A>, step: (A, nat) -> Result<T, E>, done: seq<T>)
    requires |done| <= |items|
    decreases |items| - |done|
    ensures ParseEach(items, step, done).Ok? <==>
      forall i :: |done| <= i < |items| ==> step(items[i], i + 1).Ok?
    ensures ParseEach(items, step, done).Ok? ==> forall i :: |done| <= i < |items| ==>
      ParseEach(items, step, done).value[i] == step(items[i], i + 1).value
  {
    if |done| < |items| {
      var head := step(items[|done|], |done| + 1);
      if head.Ok? {
        var next := done + [head.value];
        ParseEachInOrder(items, step, next);
        var r := ParseEach(items, step, next);
        assert r.Ok? ==> r.value[..|next|] == next;
        assert r.Ok? ==> r.value[|done|] == next[|done|];
      }
    }
  }

  /** From any point of the loop, a failure is the error of the first
      remaining step that fails. */
  lemma {:induction false} ParseEachFirstError<A, T, E>(items: seq<A>, step: (A, nat) -> Result<T, E>, done: seq<T>)
    requires |done| <= |items|
    requires ParseEach(items, step, done).Err?
    decreases |items| - |done|
    ensures exists i :: (|done| <= i < |items|
      && step(items[i], i + 1) == Err(ParseEach(items, step, done).error)
      && (forall j :: |done| <= j < i ==> step(items[j], j + 1).Ok?))
  {
    var head := step(items[|done|], |done| + 1);
    if head.Ok? {
      ParseEachFirstError(items, step, done + [head.value]);
    }
  }

  /** The loop body of `parse_questions_from_text` as a step. */
  function BlockStep(tech: string): (Block, nat) -> Result<Question, LoadError> {
    (b: Block, k: nat) => ParseBlock(b, tech, k)
  }

  /** `parse_questions_from_text` over the blocks of one file: one question per
      block, each carrying the file's technology, or an exception. */
  function ParseQuestionsFromText(blocks: seq<Block>, tech: string): (r: Result<seq<Question>, LoadError>)
    ensures r.Ok? ==> |r.value| == |blocks|
  {
    ParseEach(blocks, BlockStep(tech), [])
  }

  /** The file parses exactly when every block does; question `i` is what
      block `i` gives as block number `i + 1`, so the questions come in block
      order. */
  lemma ParsedInBlockOrder(blocks: seq<Block>, tech: string)
    ensures ParseQuestionsFromText(blocks, tech).Ok? <==>
      forall i :: 0 <= i < |blocks| ==> ParseBlock(blocks[i], tech, i + 1).Ok?
    ensures ParseQuestionsFromText(blocks, tech).Ok? ==> forall i :: 0 <= i < |blocks| ==>
      ParseQuestionsFromText(blocks, tech).value[i] == ParseBlock(blocks[i], tech, i + 1).value
  {
    ParseEachInOrder(blocks, BlockStep(tech), []);
    forall i | 0 <= i < |blocks|
      ensures BlockStep(tech)(blocks[i], i + 1) == ParseBlock(blocks[i], tech, i + 1)
    {
    }
  }

  /** A failing file reports the exception of its first failing block. */
  lemma FirstBlockErrorWins(blocks: seq<Block>, tech: string)
    requires ParseQuestionsFromText(blocks, tech).Err?
    ensures exists i :: (0 <= i < |blocks|
      && ParseBlock(blocks[i], tech, i + 1) == Err(ParseQuestionsFromText(blocks, tech).error)
      && (forall j :: 0 <= j < i ==> ParseBlock(blocks[j], tech, j + 1).Ok?))
  {
    ParseEachFirstError(blocks, BlockStep(tech), []);
    forall i | 0 <= i < |blocks|
      ensures BlockStep(tech)(blocks[i], i + 1) == ParseBlock(blocks[i], tech, i + 1)
    {
    }
  }

  /** Every block is kept (an empty body included), so a header that fails to
      parse still gives a question, with the generated id and every default. */
  lemma MalformedHeaderDefaults(blocks: seq<Block>, tech: string, i: nat)
    requires i < |blocks| && blocks[i].header.Malformed?
    requires ParseQuestionsFromText(blocks, tech).Ok?
    ensures ParseQuestionsFromText(blocks, tech).value[i] ==
      Question(GeneratedId(tech, i + 1), tech, [AnyRole], 0, 100, [], Strip(blocks[i].body), Null)
  {
    ParsedInBlockOrder(blocks, tech);
    HeaderFallbacks(blocks[i], tech, i + 1);
  }

  /** Question `i` of a parsed file is block `i` parsed as block number `i + 1`. */
  lemma ParsedAt(blocks: seq<Block>, tech: string, i: nat)
    requires i < |blocks| && ParseQuestionsFromText(blocks, tech).Ok?
    ensures ParseBlock(blocks[i], tech, i + 1).Ok?
    ensures ParseQuestionsFromText(blocks, tech).value[i] == ParseBlock(blocks[i], tech, i + 1).value
  {
    ParsedInBlockOrder(blocks, tech);
  }

  /** In a parsed file, a question from a block without an explicit id has
      the id generated from its 1-based position. */
  lemma ParsedIdAt(blocks: seq<Block>, tech: string, i: nat)
    requires i < |blocks| && ParseQuestionsFromText(blocks, tech).Ok?
    requires !HasExplicitId(blocks[i].header)
    ensures ParseQuestionsFromText(blocks, tech).value[i].id == GeneratedId(tech, i + 1)
  {
    ParsedAt(blocks, tech, i);
    IdRule(blocks[i], tech, i + 1);
  }

  /** Within one file no two blocks without an explicit id get the same id. */
  lemma GeneratedIdsUnique(blocks: seq<Block>, tech: string, i: nat, j: nat)
    requires i < |blocks| && j < |blocks| && i != j
    requires !HasExplicitId(blocks[i].header) && !HasExplicitId(blocks[j].header)
    requires ParseQuestionsFromText(blocks, tech).Ok?
    ensures ParseQuestionsFromText(blocks, tech).value[i].id != ParseQuestionsFromText(blocks, tech).value[j].id
  {
    GeneratedIdsDiffer(tech, i + 1, j + 1);
    ParsedIdAt(blocks, tech, i);
    ParsedIdAt(blocks, tech, j);
  }

  /** Block 1 of `ExplicitIdMayCollide`: the given id is kept. */
  lemma ExplicitIdBlock(body: string)
    ensures ParseBlock(Block(Mapping(map["id" := Str("py-2")]), body), "py", 1).Ok?
    ensures ParseBlock(Block(Mapping(map["id" := Str("py-2")]), body), "py", 1).value.id == "py-2"
  {
    var fields := map["id" := Str("py-2")];
    IntegerYearsParse(fields, body, "py", 1);
    IdRule(Block(Mapping(fields), body), "py", 1);
  }

  /** Ids are not unique within a file: an explicit id may equal the id
      generated for another block. Here block 1 says `id: py-2` and block 2
      has a header that does not parse, so both questions get `py-2`. */
  lemma ExplicitIdMayCollide(body1: string, body2: string)
    ensures ParseQuestionsFromText([Block(Mapping(map["id" := Str("py-2")]), body1), Block(Malformed, body2)], "py").Ok?
    ensures ParseQuestionsFromText([Block(Mapping(map["id" := Str("py-2")]), body1), Block(Malformed, body2)], "py").value[0].id == "py-2"
    ensures ParseQuestionsFromText([Block(Mapping(map["id" := Str("py-2")]), body1), Block(Malformed, body2)], "py").value[1].id == "py-2"
  {
    var blocks := [Block(Mapping(map["id" := Str("py-2")]), body1), Block(Malformed, body2)];
    ExplicitIdBlock(body1);
    HeaderFallbacks(blocks[1], "py", 2);
    assert NatToString(2) == "2";
    ParsedInBlockOrder(blocks, "py");
  }

  /** Every question of a parsed file carries the file's technology. */
  lemma ParsedTech(blocks: seq<Block>, tech: string)
    ensures ParseQuestionsFromText(blocks, tech).Ok? ==>
      forall i :: 0 <= i < |blocks| ==> ParseQuestionsFromText(blocks, tech).value[i].tech == tech
  {
    ParseEachInOrder(blocks, BlockStep(tech), []);
  }

  /** The loop of `load_questions`, for any per-file parser: every file's
      results in turn, concatenated; the first file that raises ends the loop
      with its error. */
  function ConcatEach<A, T, E>(items: seq<A>, parse: A -> Result<seq<T>, E>): (r: Result<seq<T>, E>)
    ensures items == [] ==> r == Ok([])
  {
    if items == [] then Ok([])
    else
      var head :- parse(items[0]);
      var rest :- ConcatEach(items[1..], parse);
      Ok(head + rest)
  }

  /** The total of `size` over `items`. */
  function Total<A>(items: seq<A>, size: A -> nat): nat {
    if items == [] then 0 else size(items[0]) + Total(items[1..], size)
  }

  /** The concatenation succeeds exactly when every item parses. */
  lemma {:induction false} ConcatEachOk<A, T, E>(items: seq<A>, parse: A -> Result<seq<T>, E>)
    ensures ConcatEach(items, parse).Ok? <==> forall i :: 0 <= i < |items| ==> parse(items[i]).Ok?
  {
    if items != [] {
      ConcatEachOk(items[1..], parse);
      assert forall i :: 1 <= i < |items| ==> items[i] == items[1..][i - 1];
    }
  }

  /** A failure is the error of the first item that fails. */
  lemma {:induction false} ConcatEachFirstError<A, T, E>(items: seq<A>, parse: A -> Result<seq<T>, E>)
    requires ConcatEach(items, parse).Err?
    ensures exists i :: (0 <= i < |items|
      && parse(items[i]) == Err(ConcatEach(items, parse).error)
      && (forall j :: 0 <= j < i ==> parse(items[j]).Ok?))
  {
    if parse(items[0]).Ok? {
      ConcatEachFirstError(items[1..], parse);
      var i :| 0 <= i < |items| - 1
        && parse(items[1..][i]) == Err(ConcatEach(items[1..], parse).error)
        && (forall j :: 0 <= j < i ==> parse(items[1..][j]).Ok?);
      assert parse(items[i + 1]) == Err(ConcatEach(items, parse).error);
      forall j | 0 <= j < i + 1 ensures parse(items[j]).Ok? {
        if j > 0 { assert items[j] == items[1..][j - 1]; }
      }
    }
  }

  /** When every item's result has the item's `size`, the concatenation is as
      long as the sizes together. */
  lemma {:induction false} ConcatEachLength<A, T, E>(items: seq<A>, parse: A -> Result<seq<T>, E>, size: A -> nat)
    requires forall i :: 0 <= i < |items| && parse(items[i]).Ok? ==> |parse(items[i]).value| == size(items[i])
    ensures ConcatEach(items, parse).Ok? ==> |ConcatEach(items, parse).value| == Total(items, size)
  {
    if items != [] {
      assert forall i :: 1 <= i < |items| ==> items[i] == items[1..][i - 1];
      ConcatEachLength(items[1..], parse, size);
    }
  }

  /** A property of every element of every item's result holds of every element
      of the concatenation. */
  lemma {:induction false} ConcatEachKeeps<A, T, E>(items: seq<A>, parse: A -> Result<seq<T>, E>, keep: T -> bool)
    requires forall i, k :: 0 <= i < |items| && parse(items[i]).Ok? && 0 <= k < |parse(items[i]).value| ==> keep(parse(items[i]).value[k])
    ensures ConcatEach(items, parse).Ok? ==> forall k :: 0 <= k < |ConcatEach(items, parse).value| ==> keep(ConcatEach(items, parse).value[k])
  {
    if items != [] {
      assert forall i :: 1 <= i < |items| ==> items[i] == items[1..][i - 1];
      ConcatEachKeeps(items[1..], parse, keep);
    }
  }

  /** Concatenating over two runs of items is concatenating their results; if
      the first run fails, so does the whole with the same error. */
  lemma {:induction false} ConcatEachAppend<A, T, E>(a: seq<A>, b: seq<A>, parse: A -> Result<seq<T>, E>)
    ensures ConcatEach(a, parse).Err? ==> ConcatEach(a + b, parse) == ConcatEach(a, parse)
    ensures ConcatEach(a, parse).Ok? && ConcatEach(b, parse).Ok? ==>
      ConcatEach(a + b, parse) == Ok(ConcatEach(a, parse).value + ConcatEach(b, parse).value)
  {
    if a == [] {
      assert a + b == b;
      if ConcatEach(b, parse).Ok? {
        assert [] + ConcatEach(b, parse).value == ConcatEach(b, parse).value;
      }
    } else {
      assert (a + b)[0] == a[0] && (a + b)[1..] == a[1..] + b;
      ConcatEachAppend(a[1..], b, parse);
      if parse(a[0]).Ok? && ConcatEach(a[1..], parse).Ok? && ConcatEach(b, parse).Ok? {
        var head := parse(a[0]).value;
        var rest := ConcatEach(a[1..], parse).value;
        var tail := ConcatEach(b, parse).value;
        assert ConcatEach(a[1..] + b, parse) == Ok(rest + tail);
        assert ConcatEach(a + b, parse) == Ok(head + (rest + tail));
        assert head + (rest + tail) == (head + rest) + tail;
      }
    }
  }

  /** One file through `parse_questions_from_text`. */
  function FileStep(f: QuestionFile): Result<seq<Question>, LoadError> {
    ParseQuestionsFromText(f.blocks, f.tech)
  }

  /** The number of blocks over all files. */
  function TotalBlocks(files: seq<QuestionFile>): nat {
    Total(files, (f: QuestionFile) => |f.blocks|)
  }

  /** The technologies the files stand for. */
  function Techs(files: seq<QuestionFile>): set<string> {
    set f | f in files :: f.tech
  }

  /** `load_questions` over the files the directory listing produced, in that
      order: the questions of every file, concatenated. An exception in any
      file ends the whole load. */
  function LoadQuestions(files: seq<QuestionFile>): (r: Result<seq<Question>, LoadError>)
    ensures files == [] ==> r == Ok([])
  {
    ConcatEach(files, FileStep)
  }

  /** The load succeeds exactly when every file parses. */
  lemma LoadQuestionsOk(files: seq<QuestionFile>)
    ensures LoadQuestions(files).Ok? <==> forall i :: 0 <= i < |files| ==> ParseQuestionsFromText(files[i].blocks, files[i].tech).Ok?
  {
    ConcatEachOk(files, FileStep);
  }

  /** A failed load reports the exception of the first file that raised. */
  lemma LoadQuestionsFirstError(files: seq<QuestionFile>)
    requires LoadQuestions(files).Err?
    ensures exists i :: (0 <= i < |files|
      && ParseQuestionsFromText(files[i].blocks, files[i].tech) == Err(LoadQuestions(files).error)
      && (forall j :: 0 <= j < i ==> ParseQuestionsFromText(files[j].blocks, files[j].tech).Ok?))
  {
    ConcatEachFirstError(files, FileStep);
  }

  /** Loading two groups of files one after the other is loading them together. */
  lemma LoadQuestionsAppend(a: seq<QuestionFile>, b: seq<QuestionFile>)
    ensures LoadQuestions(a).Err? ==> LoadQuestions(a + b) == LoadQuestions(a)
    ensures LoadQuestions(a).Ok? && LoadQuestions(b).Ok? ==>
      LoadQuestions(a + b) == Ok(LoadQuestions(a).value + LoadQuestions(b).value)
  {
    ConcatEachAppend(a, b, FileStep);
  }

  /** A successful load yields one question per block over all files. */
  lemma LoadQuestionsLength(files: seq<QuestionFile>)
    ensures LoadQuestions(files).Ok? ==> |LoadQuestions(files).value| == TotalBlocks(files)
  {
    ConcatEachLength(files, FileStep, (f: QuestionFile) => |f.blocks|);
  }

  /** Every loaded question carries the technology of one of the files. */
  lemma LoadQuestionsTechs(files: seq<QuestionFile>)
    ensures LoadQuestions(files).Ok? ==> forall k :: 0 <= k < |LoadQuestions(files).value| ==>
      LoadQuestions(files).value[k].tech in Techs(files)
  {
    forall i | 0 <= i < |files|
      ensures FileStep(files[i]).Ok? ==> forall k :: 0 <= k < |FileStep(files[i]).value| ==> FileStep(files[i]).value[k].tech in Techs(files)
    {
      ParsedTech(files[i].blocks, files[i].tech);
    }
    ConcatEachKeeps(files, FileStep, (q: Question) => q.tech in Techs(files));
  }
}
