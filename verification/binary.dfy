/** `toBinary` and `fromBinary`: a string's UTF-16 code units as base64 text
    and back. The typed arrays are taken to be little-endian, the byte order
    of every platform the code runs on in practice. */
module Binary {
  import opened Wrappers
  import opened JsStrings
  import opened Base64

  function Low(u: CodeUnit): Byte { (u & 0xFF) as Byte }
  function High(u: CodeUnit): Byte { (u >> 8) as Byte }
  function Join(lo: Byte, hi: Byte): CodeUnit { (hi as CodeUnit << 8) | lo as CodeUnit }

  /** Splitting a code unit into its bytes and joining them are inverse. */
  lemma {:induction false} SplitJoin(u: CodeUnit, lo: Byte, hi: Byte)
    ensures Join(Low(u), High(u)) == u
    ensures Low(Join(lo, hi)) == lo && High(Join(lo, hi)) == hi
  {
  }

  /** The bytes of a `Uint16Array` holding `s`: each code unit as its low
      byte, then its high byte. */
  function LittleEndian(s: JsString): (b: seq<Byte>)
    ensures |b| == 2 * |s|
  {
    if |s| == 0 then []
    else [Low(s[0]), High(s[0])] + LittleEndian(s[1..])
  }

  /** Byte `2i` of the buffer is the low byte of code unit `i`, and byte
      `2i + 1` its high byte. */
  lemma {:induction false} LittleEndianAt(s: JsString, i: nat)
    requires i < |s|
    ensures LittleEndian(s)[2 * i] == Low(s[i]) && LittleEndian(s)[2 * i + 1] == High(s[i])
  {
    if i > 0 {
      LittleEndianAt(s[1..], i - 1);
      assert LittleEndian(s)[2..] == LittleEndian(s[1..]);
    }
  }

  /** The code units of a `Uint16Array` over the bytes `b`. */
  function CodeUnits(b: seq<Byte>): (s: JsString)
    requires |b| % 2 == 0
    ensures |s| == |b| / 2
  {
    if |b| == 0 then []
    else [Join(b[0], b[1])] + CodeUnits(b[2..])
  }

  /** Code unit `i` of the view joins bytes `2i` (low) and `2i + 1` (high). */
  lemma {:induction false} CodeUnitsAt(b: seq<Byte>, i: nat)
    requires |b| % 2 == 0 && i < |b| / 2
    ensures CodeUnits(b)[i] == Join(b[2 * i], b[2 * i + 1])
  {
    if i > 0 {
      CodeUnitsAt(b[2..], i - 1);
      assert b[2..][2 * (i - 1)] == b[2 * i] && b[2..][2 * (i - 1) + 1] == b[2 * i + 1];
    }
  }

  /** Splitting a code unit into bytes and joining them gives it back. */
  lemma {:induction false} CodeUnitsOfLittleEndian(s: JsString)
    ensures CodeUnits(LittleEndian(s)) == s
  {
    if |s| > 0 {
      var b := LittleEndian(s);
      assert b[2..] == LittleEndian(s[1..]);
      CodeUnitsOfLittleEndian(s[1..]);
      SplitJoin(s[0], 0, 0);
      assert s == [s[0]] + s[1..];
    }
  }

  /** `toBinary`: the base64 text of the string's little-endian bytes, four
      characters for every started three bytes. */
  function ToBinary(s: JsString): (r: JsString)
    ensures |r| == 4 * ((2 * |s| + 2) / 3)
    ensures forall i :: 0 <= i < |r| ==> SextetOf(r[i]).Some? || r[i] == EQUALS
  {
    Btoa(LittleEndian(s))
  }

  /** `fromBinary`: `atob` throws on text that is not base64; the
      `Uint16Array` constructor throws a RangeError on an odd byte count;
      otherwise the string of the decoded bytes read in pairs. */
  function FromBinary(encoded: JsString): (r: Result<JsString, JsError>)
    ensures Atob(encoded).Err? ==> r == Err(InvalidCharacterError)
    ensures Atob(encoded).Ok? && |Atob(encoded).value| % 2 == 1 ==> r == Err(RangeError)
    ensures Atob(encoded).Ok? && |Atob(encoded).value| % 2 == 0 ==>
      r.Ok? && |r.value| == |Atob(encoded).value| / 2 && LittleEndian(r.value) == Atob(encoded).value
  {
    match Atob(encoded)
    case Err(e) => Err(e)
    case Ok(bytes) =>
      if |bytes| % 2 == 1 then Err(RangeError)
      else
        LittleEndianOfCodeUnits(bytes);
        Ok(CodeUnits(bytes))
  }

  /** Joining bytes in pairs and splitting them again gives them back. */
  lemma {:induction false} LittleEndianOfCodeUnits(b: seq<Byte>)
    requires |b| % 2 == 0
    ensures LittleEndian(CodeUnits(b)) == b
  {
    if |b| > 0 {
      var s := CodeUnits(b);
      var u := Join(b[0], b[1]);
      assert s == [u] + CodeUnits(b[2..]);
      assert s[1..] == CodeUnits(b[2..]);
      LittleEndianOfCodeUnits(b[2..]);
      SplitJoin(0, b[0], b[1]);
      assert b == [b[0], b[1]] + b[2..];
    }
  }

  /** Round trip: `fromBinary(toBinary(s))` is `s` for every string, the
      empty one and ones holding U+0000 or lone surrogates included. */
  lemma {:induction false} FromBinaryToBinary(s: JsString)
    ensures FromBinary(ToBinary(s)) == Ok(s)
  {
    AtobBtoa(LittleEndian(s));
    CodeUnitsOfLittleEndian(s);
  }
}
