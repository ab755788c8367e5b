/** `streamToArrayBuffer`: copies the chunks a stream reader yields into one
    preallocated byte array of the announced size. */
module Streams {
  import opened Wrappers
  import opened JsStrings

  type Byte = bv8

  /** The chunks one after another. */
  function Flatten(chunks: seq<seq<Byte>>): (r: seq<Byte>)
  {
    if |chunks| == 0 then []
    else Flatten(chunks[..|chunks| - 1]) + chunks[|chunks| - 1]
  }

  /** The bytes of the first `k` chunks begin the bytes of all of them. */
  lemma {:induction false} FlattenPrefix(chunks: seq<seq<Byte>>, k: nat)
    requires k <= |chunks|
    ensures |Flatten(chunks[..k])| <= |Flatten(chunks)|
    ensures Flatten(chunks)[..|Flatten(chunks[..k])|] == Flatten(chunks[..k])
    decreases |chunks|
  {
    if k < |chunks| {
      var init := chunks[..|chunks| - 1];
      assert init[..k] == chunks[..k];
      FlattenPrefix(init, k);
    } else {
      assert chunks[..k] == chunks;
    }
  }

  /** `streamToArrayBuffer(stream, streamSize)`, with the stream given as
      the list of chunks it yields. A negative size makes the `Uint8Array`
      constructor throw a RangeError; a chunk that does not fit behind the
      bytes already read makes `set` throw one. Otherwise the result holds
      every byte of the stream in order, followed by zeros up to the
      announced size. */
  method StreamToArrayBuffer(chunks: seq<seq<Byte>>, streamSize: int) returns (r: Result<seq<Byte>, JsError>)
    ensures r.Err? ==> r.error == RangeError
    ensures r.Err? <==> streamSize < 0 || |Flatten(chunks)| > streamSize
    ensures r.Ok? ==> |r.value| == streamSize
    ensures r.Ok? ==> r.value[..|Flatten(chunks)|] == Flatten(chunks)
    ensures r.Ok? ==> forall i :: |Flatten(chunks)| <= i < |r.value| ==> r.value[i] == 0
  {
    if streamSize < 0 {
      return Err(RangeError);
    }
    var result := new Byte[streamSize](_ => 0);
    var bytesRead := 0;
    var k := 0;
    while k < |chunks|
      invariant 0 <= k <= |chunks|
      invariant bytesRead == |Flatten(chunks[..k])| <= streamSize == result.Length
      invariant result[..bytesRead] == Flatten(chunks[..k])
      invariant forall i :: bytesRead <= i < streamSize ==> result[i] == 0
    {
      var value := chunks[k];
      assert chunks[..k + 1][..k] == chunks[..k];
      assert Flatten(chunks[..k + 1]) == Flatten(chunks[..k]) + value;
      if bytesRead + |value| > streamSize {
        FlattenPrefix(chunks, k + 1);
        return Err(RangeError);
      }
      // `result.set(value, bytesRead)`
      forall i | 0 <= i < |value| {
        result[bytesRead + i] := value[i];
      }
      assert result[..bytesRead + |value|] == Flatten(chunks[..k]) + value;
      bytesRead := bytesRead + |value|;
      k := k + 1;
    }
    assert chunks[..k] == chunks;
    return Ok(result[..]);
  }
}
