/** The handful of Python `str` built-ins the question loader leans on:
    `str.strip()`, `str.split(",")`, `str(int)` and `int(str)`; `Join` is here
    only to state the inverse of `split`. */
module PyText {
  import opened Results

  /** The code points for which Python's `str.isspace()` holds: the control
      characters tab to carriage return, the separators U+001C..U+001F, and every
      code point Unicode files as a space, line or paragraph separator. */
  const Whitespace: set<int> :=
    {9, 10, 11, 12, 13, 28, 29, 30, 31, 32, 0x85, 0xA0, 0x1680,
     0x2000, 0x2001, 0x2002, 0x2003, 0x2004, 0x2005, 0x2006, 0x2007, 0x2008, 0x2009, 0x200A,
     0x2028, 0x2029, 0x202F, 0x205F, 0x3000}

  predicate IsSpace(c: char) {
    c as int in Whitespace
  }

  /** Every character of `s` from index `lo` up to (not including) `hi` is whitespace. */
  predicate SpaceBetween(s: string, lo: int, hi: int) {
    forall k :: lo <= k < hi && 0 <= k < |s| ==> IsSpace(s[k])
  }

  /** No whitespace at either end. */
  predicate Trimmed(s: string) {
    s == [] || (!IsSpace(s[0]) && !IsSpace(s[|s| - 1]))
  }

  /** The first index at or after `i` that is not whitespace (`|s|` if none). */
  function SkipSpaces(s: string, i: nat): (j: nat)
    requires i <= |s|
    decreases |s| - i
    ensures i <= j <= |s| && SpaceBetween(s, i, j)
    ensures j < |s| ==> !IsSpace(s[j])
  {
    if i == |s| || !IsSpace(s[i]) then i else SkipSpaces(s, i + 1)
  }

  /** Walking back from `j`, but not past `lo`: the end of the last
      non-whitespace character (`lo` if there is none in between). */
  function SkipSpacesBack(s: string, lo: nat, j: nat): (i: nat)
    requires lo <= j <= |s|
    decreases j
    ensures lo <= i <= j && SpaceBetween(s, i, j)
    ensures i > lo ==> !IsSpace(s[i - 1])
  {
    if j == lo || !IsSpace(s[j - 1]) then j else SkipSpacesBack(s, lo, j - 1)
  }

  /** Where the text `s.strip()` keeps starts ... */
  function StripOffset(s: string): (i: nat)
    ensures i <= |s|
  {
    SkipSpaces(s, 0)
  }

  /** ... and where it ends. */
  function StripEnd(s: string): (e: nat)
    ensures StripOffset(s) <= e <= |s|
  {
    SkipSpacesBack(s, StripOffset(s), |s|)
  }

  /** `s.strip()`: whitespace removed at both ends. */
  function Strip(s: string): (r: string)
    ensures Trimmed(r) && |r| <= |s|
  {
    s[StripOffset(s)..StripEnd(s)]
  }

  /** What `strip` removes is exactly a whitespace run at each end: the result
      is the infix of `s` starting at `StripOffset(s)`, everything before and
      after it is whitespace, and it keeps every non-whitespace character. */
  lemma StripIsInfix(s: string)
    ensures StripOffset(s) + |Strip(s)| <= |s|
    ensures Strip(s) == s[StripOffset(s)..StripOffset(s) + |Strip(s)|]
    ensures SpaceBetween(s, 0, StripOffset(s))
    ensures SpaceBetween(s, StripOffset(s) + |Strip(s)|, |s|)
    ensures (exists k :: 0 <= k < |s| && !IsSpace(s[k])) ==> Strip(s) != ""
  {
    var o := StripOffset(s);
    if o < |s| {
      assert !IsSpace(s[o]);
    }
  }

  /** Stripping removes only characters of the input. */
  lemma StripKeepsCharacters(s: string, c: char)
    requires c in Strip(s)
    ensures c in s
  {
    StripIsInfix(s);
    var r := Strip(s);
    var i := StripOffset(s);
    var k :| 0 <= k < |r| && r[k] == c;
    assert s[i + k] == c;
  }

  /** A string with no surrounding whitespace is its own strip. */
  lemma StripTrimmed(s: string)
    requires Trimmed(s)
    ensures Strip(s) == s
  {
    if s != [] {
      assert StripOffset(s) == 0;
      assert StripEnd(s) == |s|;
    }
  }

  /** Stripping is idempotent. */
  lemma StripIdempotent(s: string)
    ensures Strip(Strip(s)) == Strip(s)
  {
    StripTrimmed(Strip(s));
  }

  /** `s.split(sep)` for a one-character separator: always at least one piece,
      empty pieces kept (`"a,,b"` gives three pieces, `""` gives `[""]`). */
  function Split(s: string, sep: char): (r: seq<string>)
    ensures |r| >= 1
    ensures forall k :: 0 <= k < |r| ==> sep !in r[k]
  {
    if s == [] then [""]
    else if s[0] == sep then [""] + Split(s[1..], sep)
    else
      var rest := Split(s[1..], sep);
      [[s[0]] + rest[0]] + rest[1..]
  }

  /** `sep.join(parts)`. */
  function Join(parts: seq<string>, sep: string): string {
    if parts == [] then ""
    else if |parts| == 1 then parts[0]
    else parts[0] + sep + Join(parts[1..], sep)
  }

  /** Splitting then joining on the same separator gives the input back. */
  lemma {:induction false} JoinSplit(s: string, sep: char)
    ensures Join(Split(s, sep), [sep]) == s
  {
    if s == [] {
    } else if s[0] == sep {
      JoinSplit(s[1..], sep);
      assert s == [sep] + s[1..];
    } else {
      var rest := Split(s[1..], sep);
      JoinSplit(s[1..], sep);
      if |rest| == 1 {
        assert s == [s[0]] + rest[0];
      } else {
        assert Join(rest, [sep]) == rest[0] + [sep] + Join(rest[1..], [sep]);
        var r := Split(s, sep);
        assert r[1..] == rest[1..];
        assert s == [s[0]] + s[1..];
      }
    }
  }

  /** A separator-free prefix followed by the separator becomes one piece. */
  lemma {:induction false} SplitAfterPiece(a: string, b: string, sep: char)
    requires sep !in a
    ensures Split(a + [sep] + b, sep) == [a] + Split(b, sep)
  {
    var s := a + [sep] + b;
    if a == [] {
      assert s[0] == sep && s[1..] == b;
    } else {
      SplitAfterPiece(a[1..], b, sep);
      assert s[0] == a[0] && s[1..] == a[1..] + [sep] + b;
      assert [a[0]] + a[1..] == a;
    }
  }

  /** A separator splits the text around it: the pieces of `a`, then those
      of `b`. */
  lemma {:induction false} SplitAppend(a: string, b: string, sep: char)
    ensures Split(a + [sep] + b, sep) == Split(a, sep) + Split(b, sep)
  {
    var s := a + [sep] + b;
    if a == [] {
      assert s[0] == sep && s[1..] == b;
    } else {
      SplitAppend(a[1..], b, sep);
      SplitAppendStep(a, b, sep);
    }
  }

  /** The step of `SplitAppend`: the first character of `a` either ends an
      empty piece or starts the first one. */
  lemma SplitAppendStep(a: string, b: string, sep: char)
    requires a != []
    requires Split(a[1..] + [sep] + b, sep) == Split(a[1..], sep) + Split(b, sep)
    ensures Split(a + [sep] + b, sep) == Split(a, sep) + Split(b, sep)
  {
    var t := a[1..] + [sep] + b;
    var x, y := Split(a[1..], sep), Split(b, sep);
    calc {
      Split(a + [sep] + b, sep);
      { assert a + [sep] + b == [a[0]] + t; }
      Split([a[0]] + t, sep);
      { SplitCons(a[0], t, sep); }
      ConsPiece(a[0], sep, x + y);
      { ConsPieceAppend(a[0], sep, x, y); }
      ConsPiece(a[0], sep, x) + y;
      { SplitCons(a[0], a[1..], sep); assert [a[0]] + a[1..] == a; }
      Split(a, sep) + y;
    }
  }

  /** The pieces of `[c] + rest`, given the pieces `r` of `rest`: a separator
      opens an empty piece, any other character joins the first piece. */
  function ConsPiece<T(==)>(c: T, sep: T, r: seq<seq<T>>): seq<seq<T>>
    requires |r| >= 1
  {
    if c == sep then [[]] + r else [[c] + r[0]] + r[1..]
  }

  /** One step of `split`, in terms of `ConsPiece`. */
  lemma SplitCons(c: char, rest: string, sep: char)
    ensures Split([c] + rest, sep) == ConsPiece(c, sep, Split(rest, sep))
  {
    assert ([c] + rest)[0] == c && ([c] + rest)[1..] == rest;
  }

  /** Pieces appended after the first one are left alone by `ConsPiece`. */
  lemma ConsPieceAppend<T>(c: T, sep: T, x: seq<seq<T>>, y: seq<seq<T>>)
    requires |x| >= 1
    ensures ConsPiece(c, sep, x + y) == ConsPiece(c, sep, x) + y
  {
    assert (x + y)[0] == x[0];
    assert (x + y)[1..] == x[1..] + y;
  }

  /** A separator-free string is a single piece. */
  lemma {:induction false} SplitNoSeparator(a: string, sep: char)
    requires sep !in a
    ensures Split(a, sep) == [a]
  {
    if a != [] {
      SplitNoSeparator(a[1..], sep);
      assert [a[0]] + a[1..] == a;
    }
  }

  /** Joining separator-free pieces then splitting gives the pieces back. */
  lemma {:induction false} SplitJoin(parts: seq<string>, sep: char)
    requires |parts| >= 1
    requires forall k :: 0 <= k < |parts| ==> sep !in parts[k]
    ensures Split(Join(parts, [sep]), sep) == parts
  {
    if |parts| == 1 {
      SplitNoSeparator(parts[0], sep);
    } else {
      SplitJoin(parts[1..], sep);
      SplitAfterPiece(parts[0], Join(parts[1..], [sep]), sep);
      assert [parts[0]] + parts[1..] == parts;
    }
  }

  predicate IsDigit(c: char) {
    '0' <= c <= '9'
  }

  function DigitChar(d: nat): char
    requires d < 10
  {
    ['0', '1', '2', '3', '4', '5', '6', '7', '8', '9'][d]
  }

  function DigitValue(c: char): nat
    requires IsDigit(c)
  {
    (c as int) - ('0' as int)
  }

  /** `str(n)` for a natural number: shortest decimal, no leading zeros. */
  function NatToString(n: nat): (r: string)
    ensures |r| >= 1
    ensures forall k :: 0 <= k < |r| ==> IsDigit(r[k])
    ensures |r| > 1 ==> r[0] != '0'
  {
    if n < 10 then [DigitChar(n)] else NatToString(n / 10) + [DigitChar(n % 10)]
  }

  /** `str(i)`. */
  function IntToString(i: int): (r: string)
    ensures |r| >= 1
  {
    if i < 0 then "-" + NatToString(-i) else NatToString(i)
  }

  /** The value of a non-empty run of decimal digits. */
  function DigitsValue(s: string): nat
    requires forall k :: 0 <= k < |s| ==> IsDigit(s[k])
  {
    if s == [] then 0 else DigitsValue(s[..|s| - 1]) * 10 + DigitValue(s[|s| - 1])
  }

  /** Reading back the digits `str` writes gives the number. */
  lemma {:induction false} NatToStringValue(n: nat)
    ensures DigitsValue(NatToString(n)) == n
  {
    var r := NatToString(n);
    if n >= 10 {
      NatToStringValue(n / 10);
      assert r[..|r| - 1] == NatToString(n / 10);
    }
  }

  /** Distinct numbers print differently. */
  lemma NatToStringInjective(m: nat, n: nat)
    requires NatToString(m) == NatToString(n)
    ensures m == n
  {
    NatToStringValue(m);
    NatToStringValue(n);
  }

  /** Digits separated by single underscores, as Python's `int()` accepts them:
      a digit at each end and never two underscores in a row. */
  predicate IsDigitGroup(s: string) {
    && |s| > 0 && IsDigit(s[0]) && IsDigit(s[|s| - 1])
    && (forall k :: 0 <= k < |s| ==> IsDigit(s[k]) || s[k] == '_')
    && (forall k :: 0 <= k < |s| - 1 ==> s[k] == '_' ==> s[k + 1] != '_')
  }

  function RemoveUnderscores(s: string): (r: string)
    requires forall k :: 0 <= k < |s| ==> IsDigit(s[k]) || s[k] == '_'
    ensures forall k :: 0 <= k < |r| ==> IsDigit(r[k])
    ensures (forall k :: 0 <= k < |s| ==> IsDigit(s[k])) ==> r == s
  {
    if s == [] then []
    else (if s[0] == '_' then [] else [s[0]]) + RemoveUnderscores(s[1..])
  }

  /** A digit group's value, `None` when `b` is not a digit group. */
  function ParseDigitGroup(b: string): Option<nat> {
    if IsDigitGroup(b) then Some(DigitsValue(RemoveUnderscores(b))) else None
  }

  /** The information separators U+001C..U+001F. `str.isspace()` holds for
      them, but `int()` hands an ASCII character to a C-level parser whose
      whitespace is only tab to carriage return and the space, so for `int()`
      they are ordinary characters that no number may contain. */
  predicate IsInfoSeparator(c: char) {
    28 <= c as int <= 31
  }

  predicate NoInfoSeparator(s: string) {
    s == [] || (!IsInfoSeparator(s[0]) && NoInfoSeparator(s[1..]))
  }

  /** A string none of whose characters is an information separator. */
  lemma {:induction false} NoInfoSeparatorWhen(s: string)
    requires forall k :: 0 <= k < |s| ==> !IsInfoSeparator(s[k])
    ensures NoInfoSeparator(s)
  {
    if s != [] {
      NoInfoSeparatorWhen(s[1..]);
    }
  }

  /** Two separator-free texts put together stay separator-free. */
  lemma {:induction false} NoInfoSeparatorAppend(a: string, b: string)
    requires NoInfoSeparator(a) && NoInfoSeparator(b)
    ensures NoInfoSeparator(a + b)
  {
    if a == [] {
      assert a + b == b;
    } else {
      NoInfoSeparatorAppend(a[1..], b);
      assert (a + b)[0] == a[0] && (a + b)[1..] == a[1..] + b;
    }
  }

  /** What `int()` makes of the text between the surrounding whitespace: one
      optional sign, then a digit group. */
  function ParseStripped(t: string): (r: Option<int>)
    ensures r.Some? ==> t != []
  {
    var signed := |t| > 0 && (t[0] == '-' || t[0] == '+');
    match ParseDigitGroup(if signed then t[1..] else t)
    case Some(v) => Some(if signed && t[0] == '-' then 0 - v as int else v)
    case None => None
  }

  /** `int(s)` for a string in base 10: surrounding whitespace, one optional
      sign, then a digit group. `None` stands for the `ValueError` it raises.
      Non-ASCII whitespace is turned into a space before parsing, so every
      whitespace character counts except the information separators. */
  function ParseInt(s: string): (r: Option<int>)
    ensures r.Some? ==> NoInfoSeparator(s) && Strip(s) != ""
  {
    if !NoInfoSeparator(s) then None else ParseStripped(Strip(s))
  }

  lemma DigitIsNotSpace(c: char)
    requires IsDigit(c) || c == '-'
    ensures !IsSpace(c)
  {
  }

  /** `str(i)` writes only a sign and digits. */
  lemma PrintedIntHasNoSeparator(i: int)
    ensures NoInfoSeparator(IntToString(i))
  {
    var s := IntToString(i);
    if i < 0 {
      NoInfoSeparatorWhen(NatToString(-i));
      assert s[1..] == NatToString(-i);
    } else {
      NoInfoSeparatorWhen(s);
    }
  }

  /** `str(i)` begins and ends with a character that is not whitespace. */
  lemma PrintedIntTrimmed(i: int)
    ensures !IsSpace(IntToString(i)[0]) && !IsSpace(IntToString(i)[|IntToString(i)| - 1])
  {
    var s := IntToString(i);
    var n: nat := if i < 0 then -i else i;
    var d := NatToString(n);
    DigitIsNotSpace(s[0]);
    DigitIsNotSpace(d[|d| - 1]);
    assert s[|s| - 1] == d[|d| - 1];
  }

  /** The sign and digits `str(i)` writes read back as `i`. */
  lemma ParseStrippedPrinted(i: int)
    ensures ParseStripped(IntToString(i)) == Some(i)
  {
    if i < 0 {
      PrintedDigitGroup(-i);
      ParseStrippedMinus(NatToString(-i), -i);
    } else {
      PrintedDigitGroup(i);
      ParseStrippedUnsigned(NatToString(i), i);
    }
  }

  /** A digit group without a sign reads as its value. */
  lemma ParseStrippedUnsigned(d: string, v: nat)
    requires ParseDigitGroup(d) == Some(v)
    ensures ParseStripped(d) == Some(v)
  {
    assert IsDigit(d[0]);
  }

  /** A minus sign before a digit group negates its value. */
  lemma ParseStrippedMinus(d: string, v: nat)
    requires ParseDigitGroup(d) == Some(v)
    ensures ParseStripped("-" + d) == Some(-(v as int))
  {
    assert ("-" + d)[0] == '-' && ("-" + d)[1..] == d;
  }

  /** The digits `str` writes form a digit group worth the number. */
  lemma PrintedDigitGroup(n: nat)
    ensures ParseDigitGroup(NatToString(n)) == Some(n)
  {
    NatToStringValue(n);
  }

  /** The first index at or after `i` that is not whitespace is `j`. */
  lemma {:induction false} SkipSpacesTo(s: string, i: nat, j: nat)
    requires i <= j < |s| && SpaceBetween(s, i, j) && !IsSpace(s[j])
    decreases j - i
    ensures SkipSpaces(s, i) == j
  {
    if i < j {
      SkipSpacesTo(s, i + 1, j);
    }
  }

  /** Walking back from `j` over whitespace stops at `i`. */
  lemma {:induction false} SkipSpacesBackTo(s: string, lo: nat, i: nat, j: nat)
    requires lo < i <= j <= |s| && SpaceBetween(s, i, j) && !IsSpace(s[i - 1])
    decreases j
    ensures SkipSpacesBack(s, lo, j) == i
  {
    if i < j {
      SkipSpacesBackTo(s, lo, i, j - 1);
    }
  }

  /** `strip` removes any whitespace padding around a text that does not
      itself begin or end with whitespace. */
  lemma StripPadded(a: string, d: string, b: string)
    requires SpaceBetween(a, 0, |a|) && SpaceBetween(b, 0, |b|)
    requires d != [] && !IsSpace(d[0]) && !IsSpace(d[|d| - 1])
    ensures Strip(a + d + b) == d
  {
    var s := a + d + b;
    var e := |a| + |d|;
    assert SpaceBetween(s, 0, |a|) by {
      forall k | 0 <= k < |a| ensures s[k] == a[k] { }
    }
    SkipSpacesTo(s, 0, |a|);
    assert SpaceBetween(s, e, |s|) by {
      forall k | e <= k < |s| ensures s[k] == b[k - e] { }
    }
    assert s[e - 1] == d[|d| - 1];
    SkipSpacesBackTo(s, |a|, e, |s|);
    assert s[|a|..e] == d;
  }

  /** The whitespace `int()` skips around a number: `isspace` characters
      other than the information separators. */
  predicate IntSpace(s: string) {
    forall k :: 0 <= k < |s| ==> IsSpace(s[k]) && !IsInfoSeparator(s[k])
  }

  /** `int(a + str(i) + b) == i` whenever `a` and `b` are whitespace `int()`
      skips. */
  lemma ParseIntPadded(a: string, i: int, b: string)
    requires IntSpace(a) && IntSpace(b)
    ensures ParseInt(a + IntToString(i) + b) == Some(i)
  {
    var d := IntToString(i);
    NoInfoSeparatorWhen(a);
    NoInfoSeparatorWhen(b);
    PrintedIntHasNoSeparator(i);
    NoInfoSeparatorAppend(a, d);
    NoInfoSeparatorAppend(a + d, b);
    PrintedIntTrimmed(i);
    StripPadded(a, d, b);
    ParseStrippedPrinted(i);
  }

  /** `int(str(i)) == i`. */
  lemma ParseIntToString(i: int)
    ensures ParseInt(IntToString(i)) == Some(i)
  {
    ParseIntPadded("", i, "");
    assert "" + IntToString(i) + "" == IntToString(i);
  }

  /** Letters are not a number. */
  lemma LettersAreNotAnInt()
    ensures ParseInt("abc") == None
  {
    assert SkipSpaces("abc", 0) == 0;
    assert SkipSpacesBack("abc", 0, 3) == 3;
    assert Strip("abc") == "abc";
    assert !IsDigitGroup("abc");
  }

  /** `strip()` removes a leading U+001C, but `int()` refuses it. */
  lemma InfoSeparatorIsNotIntSpace()
    ensures Strip("\U{1C}5") == "5"
    ensures ParseInt("\U{1C}5") == None
    ensures ParseInt(" 5\n") == Some(5)
  {
    var s := "\U{1C}5";
    assert SkipSpaces(s, 1) == 1;
    assert StripOffset(s) == 1;
    assert SkipSpacesBack(s, 1, 2) == 2;
    assert IsInfoSeparator(s[0]);
    var t := " 5\n";
    assert SkipSpaces(t, 1) == 1;
    assert SkipSpacesBack(t, 1, 2) == 2;
    assert Strip(t) == "5";
    assert DigitsValue(RemoveUnderscores("5")) == 5;
  }
}
