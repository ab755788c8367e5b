/** `btoa` and `atob`: base64 with the standard alphabet and `=` padding of
    section 4 of RFC 4648. `btoa` is given its bytes directly (the model
    skips the Latin-1 string `String.fromCharCode` builds from them), and
    `atob` follows the forgiving-base64 decode of the WHATWG Infra standard. */
module Base64 {
  import opened Wrappers
  import opened JsStrings
  import Seqs

  type Byte = bv8

  /** The six bits one base64 character carries. */
  type Sextet = x: bv8 | x < 64

  /** The value-to-character table of the base64 alphabet. */
  function CharOf(x: Sextet): CodeUnit
  {
    if x < 26 then 0x41 + x as CodeUnit              // A-Z
    else if x < 52 then 0x61 + (x - 26) as CodeUnit  // a-z
    else if x < 62 then 0x30 + (x - 52) as CodeUnit  // 0-9
    else if x == 62 then PLUS
    else SLASH
  }

  /** The inverse table; `None` off the alphabet (the pad `=` included). */
  function SextetOf(c: CodeUnit): Option<Sextet>
  {
    if 0x41 <= c <= 0x5A then Some((c - 0x41) as bv8)
    else if 0x61 <= c <= 0x7A then Some((c - 0x61 + 26) as bv8)
    else if 0x30 <= c <= 0x39 then Some((c - 0x30 + 52) as bv8)
    else if c == PLUS then Some(62)
    else if c == SLASH then Some(63)
    else None
  }

  /** The two tables are inverse to each other, and the alphabet holds
      neither the pad nor ASCII whitespace. */
  lemma {:induction false} AlphabetTables(x: Sextet, c: CodeUnit)
    ensures SextetOf(CharOf(x)) == Some(x)
    ensures SextetOf(c).Some? ==> CharOf(SextetOf(c).value) == c
    ensures CharOf(x) != EQUALS && !IsAsciiWhitespace(CharOf(x))
  {
  }

  /** The code units forgiving-base64 decode strips first: tab, line feed,
      form feed, carriage return and space. */
  predicate IsAsciiWhitespace(c: CodeUnit)
  {
    c == 0x09 || c == 0x0A || c == 0x0C || c == 0x0D || c == SPACE
  }

  predicate IsNotAsciiWhitespace(c: CodeUnit)
  {
    !IsAsciiWhitespace(c)
  }

  /** The four sextets of a three-byte group, most significant bits first. */
  function EncodeGroup(b0: Byte, b1: Byte, b2: Byte): seq<Sextet>
  {
    [b0 >> 2, ((b0 & 3) << 4) | (b1 >> 4), ((b1 & 15) << 2) | (b2 >> 6), b2 & 63]
  }

  /** The three bytes of a four-sextet group. */
  function DecodeGroup(x0: Sextet, x1: Sextet, x2: Sextet, x3: Sextet): seq<Byte>
  {
    [(x0 << 2) | (x1 >> 4), (x1 << 4) | (x2 >> 2), (x2 << 6) | x3]
  }

  /** The sextets of `b` without padding: each three bytes give four
      sextets, and a final one or two bytes give two or three sextets whose
      unused low bits are zero. */
  function Sextets(b: seq<Byte>): (r: seq<Sextet>)
    ensures |r| == 4 * (|b| / 3) + (if |b| % 3 == 0 then 0 else |b| % 3 + 1)
  {
    if |b| == 0 then []
    else if |b| == 1 then [b[0] >> 2, (b[0] & 3) << 4]
    else if |b| == 2 then [b[0] >> 2, ((b[0] & 3) << 4) | (b[1] >> 4), (b[1] & 15) << 2]
    else EncodeGroup(b[0], b[1], b[2]) + Sextets(b[3..])
  }

  /** The bytes packed in a sequence of sextets: four sextets give three
      bytes, and a final two or three sextets give one or two bytes, their
      leftover low bits dropped. A single leftover sextet holds no byte. */
  function Bytes(x: seq<Sextet>): (r: seq<Byte>)
    requires |x| % 4 != 1
    ensures |r| == 3 * (|x| / 4) + (if |x| % 4 == 0 then 0 else |x| % 4 - 1)
  {
    if |x| == 0 then []
    else if |x| == 2 then [(x[0] << 2) | (x[1] >> 4)]
    else if |x| == 3 then [(x[0] << 2) | (x[1] >> 4), (x[1] << 4) | (x[2] >> 2)]
    else DecodeGroup(x[0], x[1], x[2], x[3]) + Bytes(x[4..])
  }

  /** A full group survives encoding and decoding. */
  lemma {:induction false} GroupRoundTrip(b0: Byte, b1: Byte, b2: Byte)
    ensures var x := EncodeGroup(b0, b1, b2); DecodeGroup(x[0], x[1], x[2], x[3]) == [b0, b1, b2]
  {
    assert ((b0 >> 2) << 2) | ((((b0 & 3) << 4) | (b1 >> 4)) >> 4) == b0;
    assert ((((b0 & 3) << 4) | (b1 >> 4)) << 4) | ((((b1 & 15) << 2) | (b2 >> 6)) >> 2) == b1;
    assert ((((b1 & 15) << 2) | (b2 >> 6)) << 6) | (b2 & 63) == b2;
  }

  /** A final one- or two-byte group survives encoding and decoding. */
  lemma {:induction false} TailRoundTrip(b: seq<Byte>)
    requires 1 <= |b| <= 2
    ensures Bytes(Sextets(b)) == b
  {
    var b0 := b[0];
    if |b| == 1 {
      assert ((b0 >> 2) << 2) | (((b0 & 3) << 4) >> 4) == b0;
    } else {
      var b1 := b[1];
      assert ((b0 >> 2) << 2) | ((((b0 & 3) << 4) | (b1 >> 4)) >> 4) == b0;
      assert ((((b0 & 3) << 4) | (b1 >> 4)) << 4) | (((b1 & 15) << 2) >> 2) == b1;
    }
  }

  /** Packing a full group in front of more sextets. */
  lemma {:induction false} BytesOfGroup(g: seq<Sextet>, rest: seq<Sextet>)
    requires |g| == 4 && |rest| % 4 != 1
    ensures Bytes(g + rest) == DecodeGroup(g[0], g[1], g[2], g[3]) + Bytes(rest)
  {
    var x := g + rest;
    assert x[..4] == g && x[4..] == rest;
  }

  /** `btoa` never leaves a single sextet over. */
  lemma {:induction false} SextetsFitBytes(b: seq<Byte>)
    ensures |Sextets(b)| % 4 != 1
  {
    var n := |Sextets(b)|;
    var q := |b| / 3;
    assert n == 4 * q + (if |b| % 3 == 0 then 0 else |b| % 3 + 1);
    assert n % 4 == (if |b| % 3 == 0 then 0 else |b| % 3 + 1);
  }

  /** Packing the sextets of some bytes gives those bytes back. */
  lemma {:induction false} BytesOfSextets(b: seq<Byte>)
    ensures |Sextets(b)| % 4 != 1
    ensures Bytes(Sextets(b)) == b
    decreases |b|
  {
    SextetsFitBytes(b);
    if 1 <= |b| <= 2 {
      TailRoundTrip(b);
    } else if |b| >= 3 {
      var g := EncodeGroup(b[0], b[1], b[2]);
      var rest := Sextets(b[3..]);
      assert Sextets(b) == g + rest;
      BytesOfSextets(b[3..]);
      BytesOfGroup(g, rest);
      GroupRoundTrip(b[0], b[1], b[2]);
      assert b == [b[0], b[1], b[2]] + b[3..];
    }
  }

  function Chars(x: seq<Sextet>): (r: JsString)
    ensures |r| == |x|
    ensures forall i :: 0 <= i < |x| ==> r[i] == CharOf(x[i])
  {
    seq(|x|, i requires 0 <= i < |x| => CharOf(x[i]))
  }

  /** The `=` characters that fill the last four-character group. */
  function Padding(n: nat): JsString
  {
    if n % 3 == 1 then [EQUALS, EQUALS] else if n % 3 == 2 then [EQUALS] else []
  }

  /** `btoa`: the base64 text of `b`, padded to whole four-character groups. */
  function Btoa(b: seq<Byte>): (r: JsString)
    ensures |r| == 4 * ((|b| + 2) / 3)
    ensures forall i :: 0 <= i < |r| ==> SextetOf(r[i]).Some? || r[i] == EQUALS
  {
    var r := Chars(Sextets(b)) + Padding(|b|);
    assert forall i :: 0 <= i < |Sextets(b)| ==> SextetOf(r[i]).Some? by {
      forall i | 0 <= i < |Sextets(b)|
        ensures SextetOf(r[i]).Some?
      {
        AlphabetTables(Sextets(b)[i], 0);
      }
    }
    r
  }

  /** Step 2 of forgiving-base64 decode: when the length is a multiple of
      four, one or two trailing `=` are dropped. */
  function StripPadding(d: JsString): JsString
  {
    if |d| % 4 == 0 && |d| >= 2 && d[|d| - 1] == EQUALS && d[|d| - 2] == EQUALS then d[..|d| - 2]
    else if |d| % 4 == 0 && |d| >= 1 && d[|d| - 1] == EQUALS then d[..|d| - 1]
    else d
  }

  /** The sextets of a text, or `None` when some code unit is off the
      alphabet. */
  function DecodeChars(d: JsString): (r: Option<seq<Sextet>>)
    ensures r.Some? <==> forall i :: 0 <= i < |d| ==> SextetOf(d[i]).Some?
    ensures r.Some? ==> |r.value| == |d| && forall i :: 0 <= i < |d| ==> SextetOf(d[i]) == Some(r.value[i])
  {
    if |d| == 0 then Some([])
    else match (SextetOf(d[0]), DecodeChars(d[1..]))
      case (Some(x), Some(rest)) => Some([x] + rest)
      case (None, _) => None
      case (_, None) =>
        assert exists i :: 1 <= i < |d| && SextetOf(d[i]).None? by {
          var j :| 0 <= j < |d[1..]| && SextetOf(d[1..][j]).None?;
          assert d[1..][j] == d[j + 1];
        }
        None
  }

  /** `atob`, which throws an InvalidCharacterError wherever forgiving-base64
      decode fails: after the whitespace and the padding are removed, the
      length leaves remainder 1 modulo 4 or a code unit is off the alphabet. */
  function Atob(s: JsString): (r: Result<seq<Byte>, JsError>)
    ensures r.Err? ==> r.error == InvalidCharacterError
    ensures r.Err? <==>
      var d := StripPadding(Seqs.Filter(s, IsNotAsciiWhitespace));
      |d| % 4 == 1 || exists i :: 0 <= i < |d| && SextetOf(d[i]).None?
  {
    var d := StripPadding(Seqs.Filter(s, IsNotAsciiWhitespace));
    if |d| % 4 == 1 then Err(InvalidCharacterError)
    else
      match DecodeChars(d)
      case None => Err(InvalidCharacterError)
      case Some(x) => Ok(Bytes(x))
  }

  /** Decoding strips exactly the padding of a padded text whose last
      character before the padding is not `=`. */
  lemma {:induction false} StripPaddingOf(x: JsString, pad: JsString)
    requires pad == [] || pad == [EQUALS] || pad == [EQUALS, EQUALS]
    requires (|x| + |pad|) % 4 == 0
    requires |x| > 0 ==> x[|x| - 1] != EQUALS
    ensures StripPadding(x + pad) == x
  {
    var e := x + pad;
    if |pad| == 0 {
      assert e == x;
    } else if |pad| == 2 {
      assert e[..|e| - 2] == x;
    } else {
      assert e[|e| - 2] == x[|x| - 1];
      assert e[..|e| - 1] == x;
    }
  }

  /** The padding of `btoa`'s output is exactly what decoding strips. */
  lemma {:induction false} StripPaddingOfBtoa(b: seq<Byte>)
    ensures StripPadding(Btoa(b)) == Chars(Sextets(b))
  {
    var x := Chars(Sextets(b));
    if |x| > 0 {
      AlphabetTables(Sextets(b)[|x| - 1], 0);
    }
    StripPaddingOf(x, Padding(|b|));
  }

  /** `btoa` never emits whitespace, so decoding keeps all of its text. */
  lemma {:induction false} BtoaKeepsWhitespaceFilter(b: seq<Byte>)
    ensures Seqs.Filter(Btoa(b), IsNotAsciiWhitespace) == Btoa(b)
  {
    var e := Btoa(b);
    forall i | 0 <= i < |e|
      ensures IsNotAsciiWhitespace(e[i])
    {
      if e[i] != EQUALS {
        var x := SextetOf(e[i]).value;
        AlphabetTables(x, e[i]);
      }
    }
    Seqs.FilterAllKept(e, IsNotAsciiWhitespace);
  }

  /** Decoding the characters of some sextets gives those sextets back. */
  lemma {:induction false} DecodeCharsOfChars(x: seq<Sextet>)
    ensures DecodeChars(Chars(x)) == Some(x)
  {
    forall i | 0 <= i < |x|
      ensures SextetOf(Chars(x)[i]) == Some(x[i])
    {
      AlphabetTables(x[i], 0);
    }
    var dx := DecodeChars(Chars(x));
    assert dx.value == x;
  }

  /** Round trip: `atob(btoa(b))` is `b` for every byte sequence, the empty
      one and ones holding zero bytes included. */
  lemma {:induction false} AtobBtoa(b: seq<Byte>)
    ensures Atob(Btoa(b)) == Ok(b)
  {
    BtoaKeepsWhitespaceFilter(b);
    StripPaddingOfBtoa(b);
    DecodeCharsOfChars(Sextets(b));
    BytesOfSextets(b);
  }
}
