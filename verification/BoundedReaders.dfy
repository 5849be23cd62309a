/** Response bodies arrive in chunks of any size and are read under hard byte limits. */
module BoundedReaders {
  import opened Options
  import Utf8

  type Bytes = seq<Utf8.Byte>

  const MAX_API_RESPONSE_BYTES := 8 * 1024 * 1024
  const MAX_ERROR_BYTES := 64 * 1024

  /** Data, or a connection that breaks instead of delivering the next chunk. */
  datatype Chunk = Data(bytes: Bytes) | Broken

  datatype ReadError = TooLarge | Unreadable

  /** Everything delivered before the stream ends or breaks. */
  function Concat(chunks: seq<Chunk>): Bytes {
    if chunks == [] || chunks[0].Broken? then [] else chunks[0].bytes + Concat(chunks[1..])
  }

  predicate Intact(chunks: seq<Chunk>) {
    forall c <- chunks :: c.Data?
  }

  /** What accumulating `chunks` onto `body` yields under `limit`. */
  function Accumulated(limit: nat, body: Bytes, chunks: seq<Chunk>): Result<Bytes, ReadError>
    decreases chunks
  {
    if chunks == [] then Ok(body)
    else match chunks[0]
      case Broken => Err(Unreadable)
      case Data(bytes) =>
        if |body| + |bytes| > limit then Err(TooLarge) else Accumulated(limit, body + bytes, chunks[1..])
  }

  function BodyWithin(limit: nat, declared: Option<nat>, chunks: seq<Chunk>): Result<Bytes, ReadError> {
    if declared.Some? && declared.value > limit then Err(TooLarge) else Accumulated(limit, [], chunks)
  }

  /** `peak` is the largest the buffer ever was. */
  method BoundedBody(limit: nat, declared: Option<nat>, chunks: seq<Chunk>)
      returns (r: Result<Bytes, ReadError>, ghost peak: nat)
    ensures r == BodyWithin(limit, declared, chunks)
    ensures peak <= limit
  {
    peak := 0;
    if declared.Some? && declared.value > limit {
      return Err(TooLarge), peak;
    }
    var body: Bytes := [];
    var i := 0;
    while i < |chunks|
      invariant 0 <= i <= |chunks| && |body| <= peak <= limit
      invariant Accumulated(limit, body, chunks[i..]) == Accumulated(limit, [], chunks)
    {
      match chunks[i] {
        case Broken =>
          return Err(Unreadable), peak;
        case Data(bytes) =>
          if |body| + |bytes| > limit {
            return Err(TooLarge), peak;
          }
          body := body + bytes;
          peak := if |body| > peak then |body| else peak;
          assert chunks[i..][1..] == chunks[i + 1..];
      }
      i := i + 1;
    }
    r := Ok(body);
  }

  /** Exactly the intact bodies within the limit are accepted, and returned whole. */
  lemma BodyAcceptedIff(limit: nat, declared: Option<nat>, chunks: seq<Chunk>, body: Bytes)
    ensures BodyWithin(limit, declared, chunks) == Ok(body) <==>
      && (declared.Some? ==> declared.value <= limit)
      && Intact(chunks) && |Concat(chunks)| <= limit && body == Concat(chunks)
  {
    AccumulatedOkIff(limit, [], chunks, body);
    assert [] + Concat(chunks) == Concat(chunks);
  }

  lemma {:induction false} AccumulatedOkIff(limit: nat, before: Bytes, chunks: seq<Chunk>, body: Bytes)
    requires |before| <= limit
    ensures Accumulated(limit, before, chunks) == Ok(body) <==>
      Intact(chunks) && |before + Concat(chunks)| <= limit && body == before + Concat(chunks)
    decreases chunks
  {
    if chunks == [] {
      assert before + Concat(chunks) == before;
    } else {
      assert chunks == [chunks[0]] + chunks[1..] && chunks[0] in chunks;
      assert Intact(chunks) <==> chunks[0].Data? && Intact(chunks[1..]);
      if chunks[0].Data? && |before| + |chunks[0].bytes| <= limit {
        AccumulatedOkIff(limit, before + chunks[0].bytes, chunks[1..], body);
        assert before + chunks[0].bytes + Concat(chunks[1..]) == before + Concat(chunks);
      }
    }
  }

  /** The limit of an answer is 8 MiB to the byte, however it is cut into chunks. */
  lemma EightMebibytes(chunks: seq<Chunk>)
    requires Intact(chunks)
    ensures BodyWithin(MAX_API_RESPONSE_BYTES, None, chunks).Ok? <==> |Concat(chunks)| <= 8_388_608
  {
    BodyAcceptedIff(MAX_API_RESPONSE_BYTES, None, chunks, Concat(chunks));
    var r := BodyWithin(MAX_API_RESPONSE_BYTES, None, chunks);
    if r.Ok? {
      BodyAcceptedIff(MAX_API_RESPONSE_BYTES, None, chunks, r.value);
    }
  }

  function Min(a: nat, b: nat): nat {
    if a < b then a else b
  }

  /**
    * The body of an error answer is cut at the limit: the result is the first bytes of what
    * was delivered, and a break matters only when it comes before the limit is reached.
    */
  method ErrorBody(chunks: seq<Chunk>) returns (r: Result<Bytes, ReadError>)
    ensures r.Ok? <==> Intact(chunks) || |Concat(chunks)| >= 65_536
    ensures r.Ok? ==> r.value == Concat(chunks)[..Min(65_536, |Concat(chunks)|)]
  {
    var body: Bytes := [];
    var i := 0;
    while i < |chunks|
      invariant 0 <= i <= |chunks| && |body| < MAX_ERROR_BYTES
      invariant body + Concat(chunks[i..]) == Concat(chunks)
      invariant forall k :: 0 <= k < i ==> chunks[k].Data?
    {
      var rest := chunks[i..];
      assert rest[1..] == chunks[i + 1..] && rest[0] == chunks[i];
      if chunks[i].Broken? {
        assert chunks[i] in chunks;
        return Err(Unreadable);
      }
      var bytes := chunks[i].bytes;
      var remaining := MAX_ERROR_BYTES - |body|;
      var taken := bytes[..Min(|bytes|, remaining)];
      assert Concat(chunks) == body + bytes + Concat(chunks[i + 1..]);
      body := body + taken;
      if |body| == MAX_ERROR_BYTES {
        assert body == Concat(chunks)[..MAX_ERROR_BYTES];
        return Ok(body);
      }
      i := i + 1;
    }
    assert body == Concat(chunks);
    r := Ok(body);
  }
}
