/** The HTTP vocabulary the function handler works with: bytes, headers, the
    upstream outcome it receives from its HTTP client, and the response object it
    fills in before returning it to the host. */
module Http {
  import opened Options
  import opened Headers

  newtype byte = x: int | 0 <= x < 256

  /** Status codes the handler produces. */
  const OK: int := 200
  const NotFound: int := 404
  const InternalServerError: int := 500

  datatype Header = Header(name: string, value: string)

  /** What the outbound GET hands back: its status code, the content type the
      upstream declared, and the bytes of its body. */
  datatype Upstream = Upstream(status: int, contentType: Option<string>, body: seq<byte>)

  /** The value of a response as the model records it: status, each header as
      it was passed to `Add`, in the order added, and body bytes. */
  datatype Response = Response(status: int, headers: seq<Header>, body: seq<byte>)

  /** `IsSuccessStatusCode`: the status lies in 200..299, the 2xx class. */
  predicate IsSuccessStatusCode(status: int)
    ensures IsSuccessStatusCode(status) <==> status / 100 == 2
  {
    200 <= status <= 299
  }

  /** The UTF-8 encoding of one Unicode scalar value. */
  function EncodeChar(c: char): (r: seq<byte>)
    ensures 1 <= |r| <= 4
    ensures |r| == 1 <==> c as int < 0x80
    ensures |r| == 1 ==> r[0] as int == c as int
    ensures |r| > 1 ==> 0xC0 <= r[0] as int && forall k :: 1 <= k < |r| ==> 0x80 <= r[k] as int < 0xC0
  {
    var n := c as int;
    if n < 0x80 then
      [n as byte]
    else if n < 0x800 then
      [(0xC0 + n / 0x40) as byte, (0x80 + n % 0x40) as byte]
    else if n < 0x1_0000 then
      [(0xE0 + n / 0x1000) as byte, (0x80 + n / 0x40 % 0x40) as byte, (0x80 + n % 0x40) as byte]
    else
      [(0xF0 + n / 0x4_0000) as byte, (0x80 + n / 0x1000 % 0x40) as byte,
       (0x80 + n / 0x40 % 0x40) as byte, (0x80 + n % 0x40) as byte]
  }

  /** The pieces of `chunks` laid end to end; pieces of 1 to 4 bytes give at
      least one and at most four bytes per piece. */
  function Concat(chunks: seq<seq<byte>>): (r: seq<byte>)
    ensures chunks != [] ==> |chunks[0]| <= |r| && r[..|chunks[0]|] == chunks[0]
    ensures (forall k :: 0 <= k < |chunks| ==> 1 <= |chunks[k]| <= 4) ==> |chunks| <= |r| <= 4 * |chunks|
  {
    if chunks == [] then [] else chunks[0] + Concat(chunks[1..])
  }

  /** The UTF-8 encoding of a string: the bytes a text body is written as, each
      character's encoding in turn. */
  function Utf8(s: string): (r: seq<byte>)
    ensures |s| <= |r| <= 4 * |s|
    ensures s != [] ==> |EncodeChar(s[0])| <= |r| && r[..|EncodeChar(s[0])|] == EncodeChar(s[0])
  {
    Concat(seq(|s|, i requires 0 <= i < |s| => EncodeChar(s[i])))
  }

  /** Text made of ASCII characters is written one byte per character, each
      byte the character's code. */
  lemma {:induction false} Utf8OfAscii(s: string)
    requires forall i :: 0 <= i < |s| ==> s[i] as int < 0x80
    ensures |Utf8(s)| == |s|
    ensures forall i :: 0 <= i < |s| ==> Utf8(s)[i] as int == s[i] as int
  {
    var chunks := seq(|s|, i requires 0 <= i < |s| => EncodeChar(s[i]));
    if s != [] {
      Utf8OfAscii(s[1..]);
      assert chunks[1..] == seq(|s| - 1, i requires 0 <= i < |s| - 1 => EncodeChar(s[1..][i]));
      assert Utf8(s) == chunks[0] + Utf8(s[1..]);
    }
  }

  /** The response object the handler creates from the request and fills in
      step by step: headers are appended, the body is written to. */
  class HttpResponseData {
    var status: int
    var headers: seq<Header>
    var body: seq<byte>

    /** The response's status, recorded headers and body as one value. */
    function Snapshot(): Response
      reads this
    {
      Response(status, headers, body)
    }

    /** A fresh response with the given status, no headers and an empty body. */
    constructor (status: int)
      ensures Snapshot() == Response(status, [], [])
    {
      this.status := status;
      headers := [];
      body := [];
    }

    /** `Headers.Add`: appends one header when the collection accepts it, and
        otherwise reports the `FormatException` it throws by returning false,
        leaving the response as it was. Status and body are unchanged. */
    method AddHeader(name: string, value: string) returns (accepted: bool)
      modifies this
      ensures accepted <==> AddAccepts(name, value)
      ensures accepted ==> Snapshot() == old(Snapshot()).(headers := old(headers) + [Header(name, value)])
      ensures !accepted ==> Snapshot() == old(Snapshot())
    {
      accepted := AddAccepts(name, value);
      if accepted {
        headers := headers + [Header(name, value)];
      }
    }

    /** Writes a text to the body as UTF-8; status and headers are unchanged. */
    method WriteString(text: string)
      modifies this
      ensures Snapshot() == old(Snapshot()).(body := old(body) + Utf8(text))
    {
      body := body + Utf8(text);
    }

    /** Copies a byte stream to the end of the body; status and headers are unchanged. */
    method CopyFrom(source: seq<byte>)
      modifies this
      ensures Snapshot() == old(Snapshot()).(body := old(body) + source)
    {
      body := body + source;
    }
  }
}
