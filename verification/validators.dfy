/** The validators `isEmpty`, `isEmptyOr`, `includes`, `includesArr` and
    `onlyEmail`. */
module Validators {
  import opened Wrappers
  import opened JsStrings

  /** The trimmed texts `isEmpty` treats as empty. The comparison is exact,
      so "NULL" or "Unknown" are not among them. */
  const EmptyWords: set<JsString> := {[], Lit("null"), Lit("undefined"), Lit("unknown")}

  /** `isEmpty`: `null`, `undefined`, or a value whose trimmed string form is
      "", "null", "undefined" or "unknown". */
  function IsEmpty(text: Nullable): (b: bool)
    ensures b <==> !text.Str? || Trim(text.text) in EmptyWords
    ensures text.Str? && AllTrimmable(text.text) ==> b
  {
    match text
    case Null => true
    case Undefined => true
    case Str(s) =>
      var rt := Trim(s);
      if AllTrimmable(s) then
        assert rt == [] by {
          var k :| TrimmedAt(s, rt, k);
        }
        true
      else
        |rt| == 0 || rt == Lit("null") || rt == Lit("undefined") || rt == Lit("unknown")
  }

  /** Whitespace around a text never changes whether it counts as empty. */
  lemma {:induction false} IsEmptyIgnoresPadding(pre: JsString, s: JsString, post: JsString)
    requires AllTrimmable(pre) && AllTrimmable(post)
    ensures IsEmpty(Str(pre + s + post)) == IsEmpty(Str(s))
  {
    TrimPadded(pre, s, post);
  }

  /** `isEmptyOr`: the fallback for an empty-looking value, the value's
      string form otherwise. */
  function IsEmptyOr(text: Nullable, or: JsString := []): (r: JsString)
    ensures IsEmpty(text) ==> r == or
    ensures !IsEmpty(text) ==> text.Str? && r == text.text
  {
    if IsEmpty(text) then or else text.text
  }

  /** With a fallback that does not look empty, `isEmptyOr` never returns an
      empty-looking text; and applying it twice with one fallback is applying
      it once. */
  lemma {:induction false} IsEmptyOrResult(text: Nullable, or: JsString)
    ensures !IsEmpty(Str(or)) ==> !IsEmpty(Str(IsEmptyOr(text, or)))
    ensures IsEmptyOr(Str(IsEmptyOr(text, or)), or) == IsEmptyOr(text, or)
  {
  }

  /** `includes`: whether `item` is a substring of `str`. `null` contains
      nothing; on `undefined` the `indexOf` call throws a TypeError. */
  function Includes(str: Nullable, item: JsString): (r: Result<bool, JsError>)
    ensures r.Err? <==> str.Undefined?
    ensures r.Err? ==> r.error == TypeError
    ensures r == Ok(true) <==> str.Str? && Contains(str.text, item)
  {
    match str
    case Null => Ok(false)
    case Undefined => Err(TypeError)
    case Str(s) => Ok(IndexOf(s, item) != -1)
  }

  /** The empty string is included in every string, and whatever a string
      includes, any text containing that string includes as well. */
  lemma {:induction false} IncludesExtends(pre: JsString, s: JsString, post: JsString, item: JsString)
    ensures Includes(Str(s), []) == Ok(true)
    ensures Includes(Str(s), item) == Ok(true) ==> Includes(Str(pre + s + post), item) == Ok(true)
  {
    assert OccursAt(s, [], 0);
    if Includes(Str(s), item) == Ok(true) {
      var i :| OccursAt(s, item, i);
      assert (pre + s + post)[|pre| + i..|pre| + i + |item|] == s[i..i + |item|];
      assert OccursAt(pre + s + post, item, |pre| + i);
    }
  }

  /** `includesArr`: scans the elements in order and stops at the first one
      that includes `item` (true) or that throws; false when none does. */
  method IncludesArr(arr: seq<Nullable>, item: JsString) returns (r: Result<bool, JsError>)
    ensures r == Ok(false) <==> forall i :: 0 <= i < |arr| ==> Includes(arr[i], item) == Ok(false)
    ensures r != Ok(false) ==>
      exists i :: 0 <= i < |arr| && r == Includes(arr[i], item) &&
        forall j :: 0 <= j < i ==> Includes(arr[j], item) == Ok(false)
  {
    var i := 0;
    while i < |arr|
      invariant 0 <= i <= |arr|
      invariant forall j :: 0 <= j < i ==> Includes(arr[j], item) == Ok(false)
    {
      var found := Includes(arr[i], item);
      if found != Ok(false) {
        return found;
      }
      i := i + 1;
    }
    return Ok(false);
  }

  predicate IsAsciiLetter(c: CodeUnit)
  {
    0x41 <= c <= 0x5A || 0x61 <= c <= 0x7A  // A-Z, a-z
  }

  predicate IsAsciiAlnum(c: CodeUnit)
  {
    IsAsciiLetter(c) || 0x30 <= c <= 0x39  // 0-9
  }

  /** `[a-zA-Z0-9._-]`, the class of the part before the `@`. */
  predicate IsLocalChar(c: CodeUnit)
  {
    IsAsciiAlnum(c) || c == DOT || c == UNDERSCORE || c == HYPHEN
  }

  /** `[a-zA-Z0-9.-]`, the class of the domain before the final dot. */
  predicate IsDomainChar(c: CodeUnit)
  {
    IsAsciiAlnum(c) || c == DOT || c == HYPHEN
  }

  /** `t` splits as local `@` domain `.` tld with the `@` at `at` and the dot
      before the tld at `dot`: a non-empty local part, a non-empty domain,
      and a tld of 2 to 4 ASCII letters reaching the end of `t`. */
  predicate EmailSplit(t: JsString, at: int, dot: int)
  {
    && 0 < at && at + 1 < dot && dot + 3 <= |t| <= dot + 5
    && t[at] == AT_SIGN && t[dot] == DOT
    && (forall i :: 0 <= i < at ==> IsLocalChar(t[i]))
    && (forall i :: at < i < dot ==> IsDomainChar(t[i]))
    && (forall i :: dot < i < |t| ==> IsAsciiLetter(t[i]))
  }

  /** The whole of `t` matches `^[a-zA-Z0-9._-]+@[a-zA-Z0-9.-]+\.[a-zA-Z]{2,4}$`
      under some split of the backtracking matcher. */
  ghost predicate MatchesEmailPattern(t: JsString)
  {
    exists at, dot :: EmailSplit(t, at, dot)
  }

  /** No class before the tld admits an `@` and the tld admits no dot, so a
      match can only split at the first `@` and the last dot. */
  lemma {:induction false} EmailSplitIsUnique(t: JsString, at: int, dot: int)
    requires EmailSplit(t, at, dot)
    ensures at == FirstIndexOfUnit(t, AT_SIGN)
    ensures dot == LastIndexOfUnit(t, DOT)
  {
    assert !IsLocalChar(AT_SIGN) && !IsDomainChar(AT_SIGN);
    assert !IsAsciiLetter(DOT);
  }

  /** The matcher, deciding the pattern at the one split that can work. */
  function MatchesEmail(t: JsString): (b: bool)
    ensures b <==> MatchesEmailPattern(t)
  {
    var at := FirstIndexOfUnit(t, AT_SIGN);
    var dot := LastIndexOfUnit(t, DOT);
    if EmailSplit(t, at, dot) then true
    else
      assert !MatchesEmailPattern(t) by {
        if MatchesEmailPattern(t) {
          var a, d :| EmailSplit(t, a, d);
          EmailSplitIsUnique(t, a, d);
        }
      }
      false
  }

  /** `onlyEmail`: the lower-cased text when all of it is one address, else
      `null`. A `null` or `undefined` text makes `match` throw, which the
      function catches and answers with `null`. The pattern admits only ASCII,
      so `toLowerCase` only folds A-Z. */
  function OnlyEmail(text: Nullable): (r: Option<JsString>)
    ensures r.Some? <==> text.Str? && MatchesEmailPattern(text.text)
    ensures r.Some? ==> |r.value| == |text.text|
    ensures r.Some? ==> forall i :: 0 <= i < |r.value| ==> !IsAsciiUpper(r.value[i])
    ensures r.Some? ==> forall i :: 0 <= i < |r.value| ==>
      r.value[i] == text.text[i] || (IsAsciiUpper(text.text[i]) && r.value[i] == text.text[i] + 0x20)
  {
    match text
    case Str(t) => if MatchesEmail(t) then Some(ToLowerAscii(t)) else None
    case _ => None
  }
}
