/** The character-class filters `onlyNumbers`, `onlyAplha`, `onlyAplhaDot`
    and `limitText`. Each `replaceAll` with a negated class and the global
    flag deletes every code unit outside the class, so each filter keeps
    exactly the code units inside it, in order. */
module Filters {
  import opened JsStrings
  import Seqs

  /** `[0-9]`. */
  predicate IsDigit(c: CodeUnit)
  {
    0x30 <= c <= 0x39  // 0-9
  }

  /** The accented letters of the `alpha` class: lower-case á é í ó ú à è ì ò
      ù â ê î ô û ã õ ç and upper-case Á É Í Ó Ú À È Ì Ò Ù Â Ê Î Ô Û Ã Õ.
      Upper-case Ç (0xC7) is not among them. */
  const AccentedLetters: set<CodeUnit> := {
    0xE1, 0xE9, 0xED, 0xF3, 0xFA, 0xE0, 0xE8, 0xEC, 0xF2, 0xF9,
    0xE2, 0xEA, 0xEE, 0xF4, 0xFB, 0xE3, 0xF5, 0xE7,
    0xC1, 0xC9, 0xCD, 0xD3, 0xDA, 0xC0, 0xC8, 0xCC, 0xD2, 0xD9,
    0xC2, 0xCA, 0xCE, 0xD4, 0xDB, 0xC3, 0xD5
  }

  /** The `alpha` class: ASCII letters, the space and the accented letters. */
  predicate IsAlpha(c: CodeUnit)
  {
    || 0x41 <= c <= 0x5A  // A-Z
    || 0x61 <= c <= 0x7A  // a-z
    || c == SPACE
    || c in AccentedLetters
  }

  /** The `alphaDot` class. Its `\\.` is two members of the class, a
      backslash and a dot, not an escaped dot. */
  predicate IsAlphaDot(c: CodeUnit)
  {
    IsAlpha(c) || c == BACKSLASH || c == DOT
  }

  /** `new String(text)`, always called with its one argument: `null`
      becomes "null" and `undefined` becomes "undefined" (only a missing
      argument gives ""). */
  function NewString(text: Nullable): JsString
  {
    match text
    case Null => [0x6E, 0x75, 0x6C, 0x6C]  // "null"
    case Undefined => [0x75, 0x6E, 0x64, 0x65, 0x66, 0x69, 0x6E, 0x65, 0x64]  // "undefined"
    case Str(s) => s
  }

  /** `onlyNumbers`: the ASCII digits of the text, in order. */
  function OnlyNumbers(text: Nullable): (r: JsString)
    ensures |r| <= |NewString(text)|
    ensures forall i :: 0 <= i < |r| ==> IsDigit(r[i])
  {
    Seqs.Filter(NewString(text), IsDigit)
  }

  /** `onlyAplha`: the code units of the text inside the `alpha` class. */
  function OnlyAlpha(text: Nullable): (r: JsString)
    ensures |r| <= |NewString(text)|
    ensures forall i :: 0 <= i < |r| ==> IsAlpha(r[i])
  {
    Seqs.Filter(NewString(text), IsAlpha)
  }

  /** `onlyAplhaDot`: the code units of the text inside the `alphaDot` class. */
  function OnlyAlphaDot(text: Nullable): (r: JsString)
    ensures |r| <= |NewString(text)|
    ensures forall i :: 0 <= i < |r| ==> IsAlphaDot(r[i])
  {
    Seqs.Filter(NewString(text), IsAlphaDot)
  }

  /** Each filter deletes only code units outside its class, and all of
      them: it keeps each code unit of the class exactly as often as the
      text holds it. */
  lemma {:induction false} FiltersSelectExactly(text: Nullable)
    ensures Seqs.SelectsExactly(OnlyNumbers(text), NewString(text), IsDigit)
    ensures Seqs.SelectsExactly(OnlyAlpha(text), NewString(text), IsAlpha)
    ensures Seqs.SelectsExactly(OnlyAlphaDot(text), NewString(text), IsAlphaDot)
  {
    Seqs.FilterSelectsExactly(NewString(text), IsDigit);
    Seqs.FilterSelectsExactly(NewString(text), IsAlpha);
    Seqs.FilterSelectsExactly(NewString(text), IsAlphaDot);
  }

  /** "null" and "undefined" are short words of lower-case ASCII letters. */
  lemma {:induction false} NullishWord(text: Nullable)
    requires !text.Str?
    ensures 4 <= |NewString(text)| <= 9
    ensures forall i :: 0 <= i < |NewString(text)| ==> 0x61 <= NewString(text)[i] <= 0x7A
    ensures Untrimmable(NewString(text))
  {
  }

  /** `null` and `undefined` are filtered as the words "null" and
      "undefined": they hold no digit, and every code unit of them is a
      letter, so the two letter filters give the words back. */
  lemma {:induction false} NullishFilters(text: Nullable)
    requires !text.Str?
    ensures OnlyNumbers(text) == []
    ensures OnlyAlpha(text) == NewString(text) && OnlyAlphaDot(text) == NewString(text)
    ensures text.Null? ==> |OnlyAlpha(text)| == 4
    ensures text.Undefined? ==> |OnlyAlpha(text)| == 9
  {
    var s := NewString(text);
    NullishWord(text);
    Seqs.FilterNoneKept(s, IsDigit);
    Seqs.FilterAllKept(s, IsAlpha);
    Seqs.FilterAllKept(s, IsAlphaDot);
  }

  /** So `limitText(null)` is "null" and `limitText(undefined)` is
      "undefined" under the default limit 50 and any other limit of at
      least 9. */
  lemma {:induction false} NullishLimitText(text: Nullable, limit: int)
    requires !text.Str? && limit >= 9
    ensures LimitText(text, limit) == NewString(text)
  {
    NullishWord(text);
    NullishFilters(text);
    KeptTextLimit(text, limit);
  }

  /** A text the `alphaDot` filter keeps whole, with no whitespace at either
      end, comes back whole from `limitText` when it fits the limit. */
  lemma {:induction false} KeptTextLimit(value: Nullable, limit: int)
    requires OnlyAlphaDot(value) == NewString(value) && Untrimmable(NewString(value))
    requires |NewString(value)| <= limit
    ensures LimitText(value, limit) == NewString(value)
  {
    TrimOfUntrimmable(NewString(value));
  }

  /** Each filter keeps the order of what it keeps: filtering a
      concatenation filters each part. */
  lemma {:induction false} FiltersKeepOrder(a: JsString, b: JsString)
    ensures OnlyNumbers(Str(a + b)) == OnlyNumbers(Str(a)) + OnlyNumbers(Str(b))
    ensures OnlyAlpha(Str(a + b)) == OnlyAlpha(Str(a)) + OnlyAlpha(Str(b))
    ensures OnlyAlphaDot(Str(a + b)) == OnlyAlphaDot(Str(a)) + OnlyAlphaDot(Str(b))
  {
    Seqs.FilterConcat(a, b, IsDigit);
    Seqs.FilterConcat(a, b, IsAlpha);
    Seqs.FilterConcat(a, b, IsAlphaDot);
  }

  /** A filter leaves a text unchanged exactly when the whole text lies in
      its class. */
  lemma {:induction false} FiltersFixClassText(s: JsString)
    ensures OnlyNumbers(Str(s)) == s <==> forall i :: 0 <= i < |s| ==> IsDigit(s[i])
    ensures OnlyAlpha(Str(s)) == s <==> forall i :: 0 <= i < |s| ==> IsAlpha(s[i])
    ensures OnlyAlphaDot(Str(s)) == s <==> forall i :: 0 <= i < |s| ==> IsAlphaDot(s[i])
  {
    Seqs.FilterAllKept(s, IsDigit);
    Seqs.FilterAllKept(s, IsAlpha);
    Seqs.FilterAllKept(s, IsAlphaDot);
  }

  /** Each filter is idempotent. */
  lemma {:induction false} FiltersIdempotent(text: Nullable)
    ensures OnlyNumbers(Str(OnlyNumbers(text))) == OnlyNumbers(text)
    ensures OnlyAlpha(Str(OnlyAlpha(text))) == OnlyAlpha(text)
    ensures OnlyAlphaDot(Str(OnlyAlphaDot(text))) == OnlyAlphaDot(text)
  {
    Seqs.FilterIdempotent(NewString(text), IsDigit);
    Seqs.FilterIdempotent(NewString(text), IsAlpha);
    Seqs.FilterIdempotent(NewString(text), IsAlphaDot);
  }

  /** The `alpha` class lies inside `alphaDot`, so stripping dots and
      backslashes from `onlyAplhaDot`'s output gives `onlyAplha`'s, and on a
      text with neither the two filters agree. */
  lemma {:induction false} AlphaWithinAlphaDot(text: Nullable)
    ensures OnlyAlpha(Str(OnlyAlphaDot(text))) == OnlyAlpha(text)
    ensures (forall i :: 0 <= i < |NewString(text)| ==>
               NewString(text)[i] != DOT && NewString(text)[i] != BACKSLASH)
            ==> OnlyAlphaDot(text) == OnlyAlpha(text)
  {
    Seqs.FilterNarrow(NewString(text), IsAlphaDot, IsAlpha);
    NoDotsFilterAgree(NewString(text));
  }

  lemma {:induction false} NoDotsFilterAgree(s: JsString)
    ensures (forall i :: 0 <= i < |s| ==> s[i] != DOT && s[i] != BACKSLASH)
            ==> Seqs.Filter(s, IsAlphaDot) == Seqs.Filter(s, IsAlpha)
  {
    if |s| > 0 {
      NoDotsFilterAgree(s[1..]);
      if forall i :: 0 <= i < |s| ==> s[i] != DOT && s[i] != BACKSLASH {
        assert forall i :: 0 <= i < |s[1..]| ==> s[1..][i] == s[i + 1];
      }
    }
  }

  /** The only code unit of the `alphaDot` class that `trim` removes is the
      space. */
  lemma {:induction false} AlphaDotTrimmableIsSpace(c: CodeUnit)
    requires IsAlphaDot(c) && IsTrimmable(c)
    ensures c == SPACE
  {
  }

  /** Trimming a text of the `alphaDot` class leaves it in the class. */
  lemma {:induction false} TrimKeepsClass(s: JsString)
    requires forall i :: 0 <= i < |s| ==> IsAlphaDot(s[i])
    ensures forall i :: 0 <= i < |Trim(s)| ==> IsAlphaDot(Trim(s)[i])
  {
    var t := Trim(s);
    var k :| TrimmedAt(s, t, k);
    forall i | 0 <= i < |t|
      ensures IsAlphaDot(t[i])
    {
      assert t[i] == s[k + i];
    }
  }

  /** `s.substring(start, end)` for integral arguments: both are clamped to
      `0..|s|`, and swapped when `start` exceeds `end`. */
  function Substring(s: JsString, start: int, end: int): (r: JsString)
    ensures var lo := Clamp(if start <= end then start else end, |s|);
      var hi := Clamp(if start <= end then end else start, |s|);
      |r| == hi - lo && r == s[lo..hi]
  {
    var a := Clamp(start, |s|);
    var b := Clamp(end, |s|);
    if a <= b then s[a..b] else s[b..a]
  }

  function Clamp(x: int, n: nat): (r: nat)
    ensures r <= n
    ensures 0 <= x <= n ==> r == x
  {
    if x < 0 then 0 else if x > n then n else x
  }

  /** `limitText`: the `alphaDot` filter, then `trim`, then at most `limit`
      code units. `substring(0, limit)` clamps a negative limit to 0. */
  function LimitText(value: Nullable, limit: int := 50): (r: JsString)
    ensures limit >= 0 ==> |r| <= limit
    ensures limit < 0 ==> r == []
    ensures |r| <= |Trim(OnlyAlphaDot(value))|
    ensures r == Trim(OnlyAlphaDot(value))[..|r|]
    ensures |Trim(OnlyAlphaDot(value))| <= limit ==> r == Trim(OnlyAlphaDot(value))
    ensures 0 <= limit < |Trim(OnlyAlphaDot(value))| ==> |r| == limit
    ensures |r| > 0 ==> !IsTrimmable(r[0])
  {
    var data := Trim(OnlyAlphaDot(value));
    if |data| > limit then Substring(data, 0, limit) else data
  }

  /** `limitText` returns only letters, spaces, dots and backslashes. */
  lemma {:induction false} LimitTextKeepsClass(value: Nullable, limit: int)
    ensures forall i :: 0 <= i < |LimitText(value, limit)| ==> IsAlphaDot(LimitText(value, limit)[i])
  {
    var kept := OnlyAlphaDot(value);
    assert forall i :: 0 <= i < |kept| ==> IsAlphaDot(kept[i]);
    TrimKeepsClass(kept);
    var data := Trim(kept);
    var r := LimitText(value, limit);
    forall i | 0 <= i < |r|
      ensures IsAlphaDot(r[i])
    {
      assert r[i] == data[i];
    }
  }
}
