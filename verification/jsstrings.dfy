/** JavaScript strings and the few built-in string operations the helpers
    rely on: `trim`, `indexOf` and ASCII lower-casing. */
module JsStrings {

  /** One UTF-16 code unit. JavaScript strings, `charCodeAt`, `length` and
      regular expressions without the `u` flag all work on these. */
  type CodeUnit = bv16

  type JsString = seq<CodeUnit>

  /** The exceptions the modelled code can throw. */
  datatype JsError =
    | TypeError              // a property read or call on `undefined`/`null`
    | RangeError             // a bad typed-array length or offset
    | InvalidCharacterError  // `atob` on text that is not base64

  /** A dynamically typed argument, restricted to the cases the helpers
      distinguish: `null`, `undefined`, or a value whose string conversion
      is `text`. */
  datatype Nullable = Null | Undefined | Str(text: JsString)

  /** Code units of the ASCII punctuation the helpers single out. */
  const SPACE: CodeUnit := 0x20      // ' '
  const PLUS: CodeUnit := 0x2B       // '+'
  const HYPHEN: CodeUnit := 0x2D     // '-'
  const DOT: CodeUnit := 0x2E        // '.'
  const SLASH: CodeUnit := 0x2F      // '/'
  const EQUALS: CodeUnit := 0x3D     // '='
  const AT_SIGN: CodeUnit := 0x40    // '@'
  const BACKSLASH: CodeUnit := 0x5C  // '\'
  const UNDERSCORE: CodeUnit := 0x5F // '_'

  /** A Dafny string literal as JavaScript code units (only used on
      literals of the Basic Multilingual Plane). */
  function Lit(s: string): (r: JsString)
    requires forall i :: 0 <= i < |s| ==> s[i] as int < 0x1_0000
    ensures |r| == |s|
  {
    seq(|s|, i requires 0 <= i < |s| => s[i] as int as CodeUnit)
  }

  /** The code units ECMAScript calls WhiteSpace or LineTerminator, which is
      what `String.prototype.trim` removes at both ends. */
  predicate IsTrimmable(c: CodeUnit)
  {
    || c == 0x0009 || c == 0x000A || c == 0x000B || c == 0x000C || c == 0x000D
    || c == 0x0020 || c == 0x00A0 || c == 0x1680
    || (0x2000 <= c <= 0x200A)
    || c == 0x2028 || c == 0x2029 || c == 0x202F || c == 0x205F
    || c == 0x3000 || c == 0xFEFF
  }

  /** The length of the run of trimmable code units that starts `s`. */
  function LeadingSpace(s: JsString): (k: nat)
    ensures k <= |s|
    ensures forall i :: 0 <= i < k ==> IsTrimmable(s[i])
    ensures k < |s| ==> !IsTrimmable(s[k])
  {
    if |s| == 0 || !IsTrimmable(s[0]) then 0 else 1 + LeadingSpace(s[1..])
  }

  /** The length of the run of trimmable code units that ends `s`. */
  function TrailingSpace(s: JsString): (k: nat)
    ensures k <= |s|
    ensures forall i :: |s| - k <= i < |s| ==> IsTrimmable(s[i])
    ensures k < |s| ==> !IsTrimmable(s[|s| - 1 - k])
  {
    if |s| == 0 || !IsTrimmable(s[|s| - 1]) then 0 else 1 + TrailingSpace(s[..|s| - 1])
  }

  /** Every code unit of `s` is trimmable. */
  predicate AllTrimmable(s: JsString)
  {
    forall j :: 0 <= j < |s| ==> IsTrimmable(s[j])
  }

  lemma {:induction false} AllTrimmableConcat(a: JsString, b: JsString)
    ensures AllTrimmable(a + b) <==> AllTrimmable(a) && AllTrimmable(b)
  {
    if AllTrimmable(a) && AllTrimmable(b) {
      forall j | 0 <= j < |a + b|
        ensures IsTrimmable((a + b)[j])
      {
        if j >= |a| { assert (a + b)[j] == b[j - |a|]; }
      }
    }
    if AllTrimmable(a + b) {
      forall j | 0 <= j < |a|
        ensures IsTrimmable(a[j])
      {
        assert (a + b)[j] == a[j];
      }
      forall j | 0 <= j < |b|
        ensures IsTrimmable(b[j])
      {
        assert (a + b)[|a| + j] == b[j];
      }
    }
  }

  /** `r` sits at offset `i` of `s`, and everything of `s` around it is
      trimmable. */
  ghost predicate TrimmedAt(s: JsString, r: JsString, i: int)
  {
    && 0 <= i && i + |r| <= |s|
    && s[i..i + |r|] == r
    && AllTrimmable(s[..i])
    && AllTrimmable(s[i + |r|..])
  }

  /** Neither end of `r` is trimmable. */
  predicate Untrimmable(r: JsString)
  {
    |r| == 0 || (!IsTrimmable(r[0]) && !IsTrimmable(r[|r| - 1]))
  }

  /** `String.prototype.trim`. */
  function Trim(s: JsString): (r: JsString)
    ensures Untrimmable(r)
    ensures exists i :: TrimmedAt(s, r, i)
  {
    var lo := LeadingSpace(s);
    if lo == |s| then
      assert TrimmedAt(s, [], |s|);
      []
    else
      var hi := |s| - TrailingSpace(s);
      assert TrimmedAt(s, s[lo..hi], lo);
      s[lo..hi]
  }

  /** Every code unit of `s` outside a trimmed infix is trimmable. */
  lemma {:induction false} UntrimmableInside(s: JsString, r: JsString, i: int, p: int)
    requires TrimmedAt(s, r, i) && 0 <= p < |s|
    ensures !IsTrimmable(s[p]) ==> i <= p < i + |r|
  {
    if p < i {
      assert s[..i][p] == s[p];
    } else if p >= i + |r| {
      assert s[i + |r|..][p - i - |r|] == s[p];
    }
  }

  /** Two trimmed infixes of one text with untrimmable ends are the same. */
  lemma {:induction false} TrimmedAtUnique(s: JsString, r: JsString, i: int, t: JsString, k: int)
    requires TrimmedAt(s, r, i) && Untrimmable(r)
    requires TrimmedAt(s, t, k) && Untrimmable(t)
    ensures r == t
  {
    if |r| > 0 {
      assert s[i] == r[0] && s[i + |r| - 1] == r[|r| - 1];
      UntrimmableInside(s, t, k, i);
      UntrimmableInside(s, t, k, i + |r| - 1);
    }
    if |t| > 0 {
      assert s[k] == t[0] && s[k + |t| - 1] == t[|t| - 1];
      UntrimmableInside(s, r, i, k);
      UntrimmableInside(s, r, i, k + |t| - 1);
    }
    if |r| > 0 && |t| > 0 {
      assert i == k && |r| == |t|;
      assert r == s[i..i + |r|] == t;
    }
  }

  /** The two ensures of `Trim` determine its result: any infix of `s` with
      untrimmable ends and only trimmable code units around it is `Trim(s)`. */
  lemma {:induction false} TrimUnique(s: JsString, r: JsString, i: int)
    requires TrimmedAt(s, r, i) && Untrimmable(r)
    ensures r == Trim(s)
  {
    var t := Trim(s);
    var k :| TrimmedAt(s, t, k);
    TrimmedAtUnique(s, r, i, t, k);
  }

  /** A text with no whitespace at either end is its own trim. */
  lemma {:induction false} TrimOfUntrimmable(s: JsString)
    requires Untrimmable(s)
    ensures Trim(s) == s
  {
    assert s[..0] == [] && s[|s|..] == [];
    assert TrimmedAt(s, s, 0);
    TrimUnique(s, s, 0);
  }

  /** Padding on both sides moves an infix but keeps it trimmed. */
  lemma {:induction false} TrimmedAtPadded(pre: JsString, s: JsString, post: JsString, t: JsString, k: int)
    requires AllTrimmable(pre) && AllTrimmable(post) && TrimmedAt(s, t, k)
    ensures TrimmedAt(pre + s + post, t, |pre| + k)
  {
    var whole := pre + s + post;
    var at := |pre| + k;
    assert whole[at..at + |t|] == s[k..k + |t|];
    assert whole[..at] == pre + s[..k];
    assert whole[at + |t|..] == s[k + |t|..] + post;
    AllTrimmableConcat(pre, s[..k]);
    AllTrimmableConcat(s[k + |t|..], post);
  }

  /** A trimmed infix of `s` is the trim of `s` with any padding around it. */
  lemma {:induction false} TrimOfPadded(pre: JsString, s: JsString, post: JsString, t: JsString, k: int)
    requires AllTrimmable(pre) && AllTrimmable(post)
    requires TrimmedAt(s, t, k) && Untrimmable(t)
    ensures Trim(pre + s + post) == t
  {
    TrimmedAtPadded(pre, s, post, t, k);
    TrimUnique(pre + s + post, t, |pre| + k);
  }

  /** Surrounding a text with trimmable code units does not change its trim. */
  lemma {:induction false} TrimPadded(pre: JsString, s: JsString, post: JsString)
    requires AllTrimmable(pre) && AllTrimmable(post)
    ensures Trim(pre + s + post) == Trim(s)
  {
    var k :| TrimmedAt(s, Trim(s), k);
    TrimOfPadded(pre, s, post, Trim(s), k);
  }

  /** `item` occurs in `s` at offset `i`. */
  predicate OccursAt(s: JsString, item: JsString, i: int)
  {
    0 <= i && i + |item| <= |s| && s[i..i + |item|] == item
  }

  /** `item` is a substring of `s`. */
  ghost predicate Contains(s: JsString, item: JsString)
  {
    exists i :: OccursAt(s, item, i)
  }

  /** The first occurrence of `item` in `s` at or after `from`, or -1. */
  function IndexOfFrom(s: JsString, item: JsString, from: nat): (r: int)
    requires from <= |s| + 1
    ensures r == -1 || (from <= r && OccursAt(s, item, r))
    ensures r == -1 ==> forall j :: from <= j ==> !OccursAt(s, item, j)
    ensures r != -1 ==> forall j :: from <= j < r ==> !OccursAt(s, item, j)
    decreases |s| + 1 - from
  {
    if from + |item| > |s| then -1
    else if s[from..from + |item|] == item then from
    else IndexOfFrom(s, item, from + 1)
  }

  /** `String.prototype.indexOf`: the first occurrence of `item` in `s`, or -1
      when there is none. The empty string occurs at 0. */
  function IndexOf(s: JsString, item: JsString): (r: int)
    ensures r == -1 <==> !Contains(s, item)
    ensures r != -1 ==> OccursAt(s, item, r) && forall j :: 0 <= j < r ==> !OccursAt(s, item, j)
  {
    IndexOfFrom(s, item, 0)
  }

  /** The position of the first `c` in `s`, or -1. */
  function FirstIndexOfUnit(s: JsString, c: CodeUnit): (r: int)
    ensures -1 <= r < |s|
    ensures r >= 0 ==> s[r] == c
    ensures forall j :: 0 <= j < |s| && (r == -1 || j < r) ==> s[j] != c
  {
    if |s| == 0 then -1
    else if s[0] == c then 0
    else
      var k := FirstIndexOfUnit(s[1..], c);
      if k == -1 then -1 else k + 1
  }

  /** The position of the last `c` in `s`, or -1. */
  function LastIndexOfUnit(s: JsString, c: CodeUnit): (r: int)
    ensures -1 <= r < |s|
    ensures r >= 0 ==> s[r] == c
    ensures forall j :: r < j < |s| ==> s[j] != c
  {
    if |s| == 0 then -1
    else if s[|s| - 1] == c then |s| - 1
    else LastIndexOfUnit(s[..|s| - 1], c)
  }

  predicate IsAsciiUpper(c: CodeUnit)
  {
    0x41 <= c <= 0x5A  // A-Z
  }

  /** `String.prototype.toLowerCase` restricted to ASCII letters, which is
      all it changes on ASCII text. */
  function ToLowerAscii(s: JsString): (r: JsString)
    ensures |r| == |s|
    ensures forall i :: 0 <= i < |s| ==> !IsAsciiUpper(r[i])
    ensures forall i :: 0 <= i < |s| && !IsAsciiUpper(s[i]) ==> r[i] == s[i]
    ensures forall i :: 0 <= i < |s| && IsAsciiUpper(s[i]) ==> r[i] == s[i] + 0x20
  {
    seq(|s|, i requires 0 <= i < |s| => if IsAsciiUpper(s[i]) then s[i] + 0x20 else s[i])
  }
}
