/**
 * The inference client of the caption step (`sendToBLIP` in WebcamTest.java):
 * it shapes the request body from the base64 image text, posts it to the
 * captioning endpoint, concatenates the trimmed response lines, and scans the
 * text for the first `"generated_text":` marker. Every failure becomes the
 * sentinel caption "Error calling BLIP API"; a response without the marker
 * becomes "No caption generated".
 *
 * The remote service is an oracle: an `Endpoint` that logs every request it
 * receives and answers with the next reply of a script.
 */
module BlipClient {
  import opened JavaLang

  const API_URL := "https://api-inference.huggingface.co/models/Salesforce/blip-image-captioning-base"
  const DATA_URI_PREFIX := "data:image/jpeg;base64,"
  const BODY_OPEN := "{\"inputs\": \""
  const BODY_CLOSE := "\"}"
  const MARKER := "\"generated_text\":"
  const QUOTE := "\""
  const NO_CAPTION := "No caption generated"
  const ERROR_CAPTION := "Error calling BLIP API"

  // ---------------------------------------------------------------------
  // Request shaping
  // ---------------------------------------------------------------------

  /** One outbound POST: the endpoint, its two headers and its body text. */
  datatype Request = Request(url: string, verb: string, authorization: string, contentType: string, body: string)

  /** The `inputs` value: the data-URI form when `usePrefix`, the bare base64 text otherwise. */
  function Payload(base64Image: string, usePrefix: bool): (imageData: string)
    ensures |imageData| == |base64Image| + (if usePrefix then |DATA_URI_PREFIX| else 0)
    ensures imageData[|imageData| - |base64Image|..] == base64Image
    ensures usePrefix ==> imageData[..|DATA_URI_PREFIX|] == DATA_URI_PREFIX
  {
    if usePrefix then DATA_URI_PREFIX + base64Image else base64Image
  }

  /** The JSON body, built by concatenation exactly as `sendToBLIP` does. */
  function Body(imageData: string): (body: string)
    ensures |body| == |BODY_OPEN| + |imageData| + |BODY_CLOSE|
    ensures body[..|BODY_OPEN|] == BODY_OPEN && body[|body| - |BODY_CLOSE|..] == BODY_CLOSE
    ensures body[|BODY_OPEN|..|body| - |BODY_CLOSE|] == imageData
  {
    BODY_OPEN + imageData + BODY_CLOSE
  }

  /** The request one `sendToBLIP` call issues; the token is configuration. */
  function BuildRequest(base64Image: string, usePrefix: bool, token: string): (request: Request)
    ensures request.url == API_URL && request.verb == "POST" && request.contentType == "application/json"
    ensures |request.authorization| == 7 + |token|
    ensures request.authorization[..7] == "Bearer " && request.authorization[7..] == token
    ensures InputsOf(request.body) == Some(Payload(base64Image, usePrefix))
  {
    BodyRoundTrip(Payload(base64Image, usePrefix));
    Request(API_URL, "POST", "Bearer " + token, "application/json", Body(Payload(base64Image, usePrefix)))
  }

  /** Reads the `inputs` text back out of a body of the shape `Body` builds. */
  function InputsOf(body: string): Option<string>
  {
    if |BODY_OPEN| + |BODY_CLOSE| <= |body|
       && body[..|BODY_OPEN|] == BODY_OPEN
       && body[|body| - |BODY_CLOSE|..] == BODY_CLOSE
    then Some(body[|BODY_OPEN|..|body| - |BODY_CLOSE|])
    else None
  }

  /** Splits an `inputs` text back into its base64 text and whether it carried the data-URI prefix. */
  function ParsePayload(imageData: string): (string, bool)
  {
    if |DATA_URI_PREFIX| <= |imageData| && imageData[..|DATA_URI_PREFIX|] == DATA_URI_PREFIX
    then (imageData[|DATA_URI_PREFIX|..], true)
    else (imageData, false)
  }

  /** The alphabet of standard base64 text (RFC 4648, section 4), padding included. */
  predicate IsBase64Char(c: char)
  {
    ('A' <= c <= 'Z') || ('a' <= c <= 'z') || ('0' <= c <= '9') || c == '+' || c == '/' || c == '='
  }

  predicate IsBase64Text(s: string)
  {
    forall i :: 0 <= i < |s| ==> IsBase64Char(s[i])
  }

  /** The body is exactly the opening text, the payload and the closing text: nothing is lost or added. */
  lemma BodyRoundTrip(imageData: string)
    ensures InputsOf(Body(imageData)) == Some(imageData)
  {
    var body := Body(imageData);
    assert body[..|BODY_OPEN|] == BODY_OPEN;
    assert body[|body| - |BODY_CLOSE|..] == BODY_CLOSE;
    assert body[|BODY_OPEN|..|body| - |BODY_CLOSE|] == imageData;
  }

  /** For base64 text, the payload shape records both the text and the prefix choice unambiguously. */
  lemma PayloadRoundTrip(base64Image: string, usePrefix: bool)
    requires IsBase64Text(base64Image)
    ensures ParsePayload(Payload(base64Image, usePrefix)) == (base64Image, usePrefix)
  {
    var data := Payload(base64Image, usePrefix);
    if usePrefix {
      assert data[..|DATA_URI_PREFIX|] == DATA_URI_PREFIX;
      assert data[|DATA_URI_PREFIX|..] == base64Image;
    } else if |DATA_URI_PREFIX| <= |data| {
      // a base64 text has no ':' where the prefix has one
      assert data[..|DATA_URI_PREFIX|][4] == data[4];
      assert IsBase64Char(data[4]);
    }
  }

  /** A request built from base64 text goes to the fixed endpoint with the bearer token and decodes back to what built it. */
  lemma RequestRoundTrip(base64Image: string, usePrefix: bool, token: string)
    requires IsBase64Text(base64Image)
    ensures var request := BuildRequest(base64Image, usePrefix, token);
      && request.url == API_URL && request.verb == "POST"
      && request.authorization == "Bearer " + token
      && request.contentType == "application/json"
      && InputsOf(request.body) == Some(Payload(base64Image, usePrefix))
      && ParsePayload(Payload(base64Image, usePrefix)) == (base64Image, usePrefix)
  {
    BodyRoundTrip(Payload(base64Image, usePrefix));
    PayloadRoundTrip(base64Image, usePrefix);
  }

  /** The fallback request is never the primary one again: the two bodies differ for every image. */
  lemma ShapesDiffer(base64Image: string, token: string)
    ensures BuildRequest(base64Image, true, token).body != BuildRequest(base64Image, false, token).body
    ensures |BuildRequest(base64Image, true, token).body| == |BuildRequest(base64Image, false, token).body| + |DATA_URI_PREFIX|
  {
  }

  // ---------------------------------------------------------------------
  // Reading the response
  // ---------------------------------------------------------------------

  /** What the transport yields: a failure anywhere in the exchange, or the lines of the body read. */
  datatype Reply = TransportFailure | Delivered(lines: seq<string>)

  /** The texts `f` makes of the lines, in order, with no separator between them. */
  function ConcatMap(f: string -> string, lines: seq<string>): string
  {
    if lines == [] then "" else ConcatMap(f, lines[..|lines| - 1]) + f(lines[|lines| - 1])
  }

  lemma {:induction false} ConcatMapAppend(f: string -> string, a: seq<string>, b: seq<string>)
    ensures ConcatMap(f, a + b) == ConcatMap(f, a) + ConcatMap(f, b)
    decreases |b|
  {
    if b == [] {
      assert a + b == a;
    } else {
      var b' := b[..|b| - 1];
      assert (a + b)[..|a + b| - 1] == a + b';
      ConcatMapAppend(f, a, b');
    }
  }

  /** When no piece starts or ends with a dropped character, neither does their concatenation. */
  lemma {:induction false} ConcatMapEnds(f: string -> string, lines: seq<string>)
    requires forall line :: EndsKept(f(line))
    ensures EndsKept(ConcatMap(f, lines))
    decreases |lines|
  {
    if lines != [] {
      ConcatMapEnds(f, lines[..|lines| - 1]);
    }
  }

  /** The trimmed lines, in order, with no separator between them; the result neither starts nor ends with padding. */
  function TrimmedConcat(lines: seq<string>): (response: string)
    ensures EndsKept(response)
  {
    ConcatMapEnds(Trim, lines);
    ConcatMap(Trim, lines)
  }

  /** Accumulating two runs of lines gives the first run's text followed by the second's. */
  lemma TrimmedConcatAppend(a: seq<string>, b: seq<string>)
    ensures TrimmedConcat(a + b) == TrimmedConcat(a) + TrimmedConcat(b)
  {
    ConcatMapAppend(Trim, a, b);
  }

  /** The accumulated text starts with the first trimmed line, followed by the rest. */
  lemma TrimmedConcatCons(line: string, rest: seq<string>)
    ensures TrimmedConcat([line] + rest) == Trim(line) + TrimmedConcat(rest)
  {
    assert ConcatMap(Trim, [line]) == Trim(line) by {
      assert [line][..0] == [];
    }
    ConcatMapAppend(Trim, [line], rest);
  }

  /** The accumulated text is exactly as long as the trimmed lines together. */
  function TrimmedLength(lines: seq<string>): nat
  {
    if lines == [] then 0 else |Trim(lines[0])| + TrimmedLength(lines[1..])
  }

  lemma {:induction false} TrimmedConcatLength(lines: seq<string>)
    ensures |TrimmedConcat(lines)| == TrimmedLength(lines)
    decreases |lines|
  {
    if lines != [] {
      assert lines == [lines[0]] + lines[1..];
      TrimmedConcatCons(lines[0], lines[1..]);
      TrimmedConcatLength(lines[1..]);
    }
  }

  /** The `readLine` loop: appends each trimmed line to one StringBuilder. */
  method ReadResponse(lines: seq<string>) returns (response: string)
    ensures response == TrimmedConcat(lines)
  {
    var builder := new StringBuilder();
    var i := 0;
    while i < |lines|
      invariant 0 <= i <= |lines|
      invariant builder.text == TrimmedConcat(lines[..i])
    {
      builder.Append(Trim(lines[i]));
      assert lines[..i + 1][..i] == lines[..i];
      i := i + 1;
    }
    assert lines[..|lines|] == lines;
    response := builder.ToString();
  }

  // ---------------------------------------------------------------------
  // Caption extraction
  // ---------------------------------------------------------------------

  /**
   * The marker scan: the text between the first quote after the first
   * marker and the next quote; a missing opening quote makes the start 0,
   * and a missing closing quote makes `substring` throw.
   */
  function Extract(response: string): (r: Completion)
    ensures r.Returned? ==> '"' !in r.value
  {
    var index := IndexOf(response, MARKER, 0);
    if index != -1 then
      var start := IndexOf(response, QUOTE, index + 17) + 1;
      var end := IndexOf(response, QUOTE, start);
      QuoteFreeUntilNextQuote(response, start, end);
      Substring(response, start, end)
    else
      Returned(NO_CAPTION)
  }

  /** Nothing between `start` and the next quote after it is a quote. */
  lemma QuoteFreeUntilNextQuote(response: string, start: int, end: int)
    requires end == IndexOf(response, QUOTE, start)
    ensures 0 <= start <= end <= |response| ==> '"' !in response[start..end]
  {
    if 0 <= start <= end <= |response| {
      forall j | 0 <= j < end - start
        ensures response[start..end][j] != '"'
      {
        OccursAtChar(response, '"', start + j);
      }
    }
  }

  /** The marker is 17 characters long, the offset `sendToBLIP` skips by. */
  lemma MarkerLength()
    ensures |MARKER| == 17 && MARKER[0] == '"'
  {
  }

  /** `i` is the first occurrence of the marker in `response`. */
  predicate FirstMarkerAt(response: string, i: int)
  {
    OccursAt(response, MARKER, i) && forall k :: 0 <= k < i ==> !OccursAt(response, MARKER, k)
  }

  /** No quote character stands in `response[lo..hi]`. */
  predicate QuoteFree(response: string, lo: int, hi: int)
  {
    forall k :: lo <= k < hi && 0 <= k < |response| ==> response[k] != '"'
  }

  lemma FirstMarkerIsIndex(response: string, i: int)
    requires FirstMarkerAt(response, i)
    ensures IndexOf(response, MARKER, 0) == i
  {
  }

  /** With no quote in `[lo, q)` and one at `q`, the first quote at or after `lo` is `q`. */
  lemma NextQuoteIs(response: string, lo: int, q: int)
    requires 0 <= lo <= q < |response| && response[q] == '"' && QuoteFree(response, lo, q)
    ensures IndexOf(response, QUOTE, lo) == q
  {
    OccursAtChar(response, '"', q);
    var r := IndexOf(response, QUOTE, lo);
    if r != -1 {
      OccursAtChar(response, '"', r);
    }
  }

  /** With no quote at or after `lo`, `indexOf` gives -1. */
  lemma NoQuoteAfter(response: string, lo: int)
    requires 0 <= lo <= |response| && QuoteFree(response, lo, |response|)
    ensures IndexOf(response, QUOTE, lo) == -1
  {
    var r := IndexOf(response, QUOTE, lo);
    if r != -1 {
      OccursAtChar(response, '"', r);
    }
  }

  /** Every occurrence of the marker starts with a quote. */
  lemma MarkerStartsWithQuote(s: string, k: int)
    requires OccursAt(s, MARKER, k)
    ensures 0 <= k < |s| && s[k] == '"'
  {
    assert s[k..k + 17][0] == MARKER[0];
  }

  /** A quote-free stretch of text holds no start of the marker. */
  lemma NoMarkerIn(s: string, lo: int, hi: int)
    requires QuoteFree(s, lo, hi)
    ensures forall k :: lo <= k < hi ==> !OccursAt(s, MARKER, k)
  {
    forall k | lo <= k < hi
      ensures !OccursAt(s, MARKER, k)
    {
      if OccursAt(s, MARKER, k) {
        MarkerStartsWithQuote(s, k);
      }
    }
  }

  /** Without the marker the result is exactly "No caption generated". */
  lemma ExtractWithoutMarker(response: string)
    requires !Occurs(response, MARKER)
    ensures Extract(response) == Returned(NO_CAPTION)
  {
    ContainsIff(response, MARKER);
  }

  /** The caption is the text strictly between the first quote after the first marker and the next quote. */
  lemma ExtractQuotedValue(response: string, i: int, q: int, e: int)
    requires FirstMarkerAt(response, i)
    requires i + 17 <= q < e < |response| && response[q] == '"' && response[e] == '"'
    requires QuoteFree(response, i + 17, q) && QuoteFree(response, q + 1, e)
    ensures Extract(response) == Returned(response[q + 1..e])
  {
    FirstMarkerIsIndex(response, i);
    NextQuoteIs(response, i + 17, q);
    NextQuoteIs(response, q + 1, e);
    var start := IndexOf(response, QUOTE, IndexOf(response, MARKER, 0) + 17) + 1;
    assert start == q + 1;
    assert IndexOf(response, QUOTE, start) == e;
  }

  /**
   * When no quote follows the first marker, `indexOf` gives -1, the start
   * becomes 0, and the result is the text before the first quote of the
   * response, which stands no later than the marker itself.
   */
  lemma ExtractWithoutOpeningQuote(response: string, i: int, f: int)
    requires FirstMarkerAt(response, i)
    requires QuoteFree(response, i + 17, |response|)
    requires 0 <= f < |response| && response[f] == '"' && QuoteFree(response, 0, f)
    ensures f <= i
    ensures Extract(response) == Returned(response[..f])
  {
    FirstMarkerIsIndex(response, i);
    assert response[i] == '"' by {
      assert response[i..i + 17][0] == MARKER[0];
    }
    NoQuoteAfter(response, i + 17);
    NextQuoteIs(response, 0, f);
  }

  /** An opening quote with no closing quote after it makes `substring(start, -1)` throw. */
  lemma ExtractUnclosedQuote(response: string, i: int, q: int)
    requires FirstMarkerAt(response, i)
    requires i + 17 <= q < |response| && response[q] == '"'
    requires QuoteFree(response, i + 17, q) && QuoteFree(response, q + 1, |response|)
    ensures Extract(response) == Threw
  {
    FirstMarkerIsIndex(response, i);
    NextQuoteIs(response, i + 17, q);
    NoQuoteAfter(response, q + 1);
  }

  /**
   * Round trip with a response writer: a marker, optional quote-free text,
   * and a quoted quote-free caption give back exactly that caption, whatever
   * follows it.
   */
  lemma ExtractWellFormed(before: string, gap: string, caption: string, after: string)
    requires '"' !in before && '"' !in gap && '"' !in caption
    ensures Extract(before + MARKER + gap + QUOTE + caption + QUOTE + after) == Returned(caption)
  {
    var head := before + MARKER + gap;
    var body := head + QUOTE + caption;
    var response := body + QUOTE + after;
    var i := |before|;
    var q := |head|;
    var e := |body|;
    assert forall k :: 0 <= k < |body| ==> response[k] == body[k];
    assert forall k :: 0 <= k < |head| ==> body[k] == head[k];
    assert response[q] == '"' && response[e] == '"';
    forall k | 0 <= k < i
      ensures response[k] == before[k]
    {
      assert head[k] == before[k];
    }
    forall j | 0 <= j < 17
      ensures response[i + j] == MARKER[j]
    {
      assert head[i + j] == MARKER[j];
    }
    assert response[i..i + 17] == MARKER;
    forall k | i + 17 <= k < q
      ensures response[k] == gap[k - i - 17]
    {
      assert head[k] == gap[k - i - 17];
    }
    forall k | q + 1 <= k < e
      ensures response[k] == caption[k - q - 1]
    {
      assert body[k] == caption[k - q - 1];
    }
    NoMarkerIn(response, 0, i);
    ExtractQuotedValue(response, i, q, e);
    assert response[q + 1..e] == caption;
  }

  /**
   * A value that is not a string (`null`, a number) has no opening quote:
   * the start falls back to 0 and the result is the text before the marker.
   */
  lemma ExtractUnquotedValue(before: string, after: string)
    requires '"' !in before && '"' !in after
    ensures Extract(before + MARKER + after) == Returned(before)
  {
    var head := before + MARKER;
    var response := head + after;
    var i := |before|;
    assert forall k :: 0 <= k < |head| ==> response[k] == head[k];
    forall k | 0 <= k < i
      ensures response[k] == before[k]
    {
      assert head[k] == before[k];
    }
    forall k | i + 17 <= k < |response|
      ensures response[k] == after[k - i - 17]
    {
    }
    assert response[i..i + 17] == head[i..];
    assert response[i] == '"';
    NoMarkerIn(response, 0, i);
    ExtractWithoutOpeningQuote(response, i, i);
    assert response[..i] == before;
  }

  /** The usual reply of the captioning model, `[{"generated_text":"..."}]`. */
  function ModelReply(caption: string): string
  {
    "[{" + MARKER + QUOTE + caption + QUOTE + "}]"
  }

  /** The model's usual reply gives back its caption. */
  lemma ExtractModelReply(caption: string)
    requires '"' !in caption
    ensures Extract(ModelReply(caption)) == Returned(caption)
  {
    ExtractWellFormed("[{", "", caption, "}]");
    assert "[{" + MARKER + "" + QUOTE + caption + QUOTE + "}]" == ModelReply(caption);
  }

  /** `[{"generated_text":null}]` has no opening quote: the result is `[{`, the text before the marker, not an error. */
  lemma ExtractNullValue()
    ensures Extract("[{" + MARKER + "null}]") == Returned("[{")
  {
    ExtractUnquotedValue("[{", "null}]");
  }

  /** An error object from the service has no marker. */
  lemma ExtractServiceError()
    ensures Extract("{\"error\":\"Model is currently loading\"}") == Returned(NO_CAPTION)
  {
    assert MARKER[10] == '_';
    OccursNeeds("{\"error\":\"Model is currently loading\"}", MARKER, '_');
    ExtractWithoutMarker("{\"error\":\"Model is currently loading\"}");
  }

  /** The caption one `sendToBLIP` call returns for the reply its request got. */
  function Interpret(reply: Reply): (caption: string)
    ensures reply.TransportFailure? ==> caption == ERROR_CAPTION
    ensures '"' !in caption
  {
    match reply
    case TransportFailure => ERROR_CAPTION
    case Delivered(lines) =>
      match Extract(TrimmedConcat(lines))
      case Returned(text) => text
      case Threw => ERROR_CAPTION
  }

  /** Every outcome of one call is a sentinel or the text an extraction returned; nothing escapes as an exception. */
  lemma InterpretCases(reply: Reply)
    ensures reply.TransportFailure? ==> Interpret(reply) == ERROR_CAPTION
    ensures reply.Delivered? && Extract(TrimmedConcat(reply.lines)).Threw? ==> Interpret(reply) == ERROR_CAPTION
    ensures reply.Delivered? && !Occurs(TrimmedConcat(reply.lines), MARKER) ==> Interpret(reply) == NO_CAPTION
    ensures reply.Delivered? && Extract(TrimmedConcat(reply.lines)).Returned? ==>
      Interpret(reply) == Extract(TrimmedConcat(reply.lines)).value
  {
    if reply.Delivered? && !Occurs(TrimmedConcat(reply.lines), MARKER) {
      ExtractWithoutMarker(TrimmedConcat(reply.lines));
    }
  }

  /** Line breaks and padding around a well-formed reply do not change the caption. */
  lemma InterpretWellFormedLines(lines: seq<string>, caption: string)
    requires '"' !in caption
    requires TrimmedConcat(lines) == ModelReply(caption)
    ensures Interpret(Delivered(lines)) == caption
  {
    ExtractModelReply(caption);
  }

  /** A trailing space is all `trim` takes from a text whose ends are kept. */
  lemma TrimTrailingSpace(t: string)
    requires EndsKept(t)
    ensures Trim(t + " ") == t
  {
    var s := t + " ";
    assert s[..|t|] == t;
    TrimUnique(s, t, 0, |t|);
  }

  /** Two lines accumulate to the first trimmed followed by the second trimmed. */
  lemma TrimmedConcatPair(x: string, y: string)
    ensures TrimmedConcat([x, y]) == Trim(x) + Trim(y)
  {
    assert [x, y][..1] == [x] && [x][..0] == [];
    assert ConcatMap(Trim, [x]) == Trim(x);
  }

  /** The lines `[{"generated_text":"<head> ` and `<tail>"}]` accumulate to the model reply for `head + tail`. */
  lemma SplitReplyText(head: string, tail: string)
    requires |head| > 0 && |tail| > 0 && !TrimDrops(head[|head| - 1]) && !TrimDrops(tail[0])
    ensures TrimmedConcat(["[{" + MARKER + QUOTE + head + " ", tail + QUOTE + "}]"]) == ModelReply(head + tail)
  {
    var first := "[{" + MARKER + QUOTE + head + " ";
    var second := tail + QUOTE + "}]";
    var kept := "[{" + MARKER + QUOTE + head;
    TrimmedConcatPair(first, second);
    assert kept[0] == '[' && kept[|kept| - 1] == head[|head| - 1];
    TrimTrailingSpace(kept);
    assert kept + " " == first;
    assert second[0] == tail[0] && second[|second| - 1] == ']';
    assert kept + second == ModelReply(head + tail);
  }

  /**
   * `trim` works line by line, so a space next to a line break inside the
   * caption is lost: the lines `[{"generated_text":"a ` and `cat"}]` give
   * `acat`, not `a cat`.
   */
  lemma InterpretSplitCaption(head: string, tail: string)
    requires |head| > 0 && |tail| > 0 && !TrimDrops(head[|head| - 1]) && !TrimDrops(tail[0])
    requires '"' !in head && '"' !in tail
    ensures Interpret(Delivered(["[{" + MARKER + QUOTE + head + " ", tail + QUOTE + "}]"])) == head + tail
  {
    SplitReplyText(head, tail);
    assert '"' !in head + tail;
    InterpretWellFormedLines(["[{" + MARKER + QUOTE + head + " ", tail + QUOTE + "}]"], head + tail);
  }

  // ---------------------------------------------------------------------
  // The remote service and the call itself
  // ---------------------------------------------------------------------

  /** The reply the transport gives next; an exhausted script is a refused connection. */
  function NextReply(pending: seq<Reply>): Reply
  {
    if pending == [] then TransportFailure else pending[0]
  }

  function RestReplies(pending: seq<Reply>): seq<Reply>
  {
    if pending == [] then [] else pending[1..]
  }

  /** The captioning service as seen over HTTP: it logs each request and answers from a script. */
  class Endpoint {
    var sent: seq<Request>
    var pending: seq<Reply>

    constructor (replies: seq<Reply>)
      ensures sent == [] && pending == replies
    {
      sent := [];
      pending := replies;
    }

    method Post(request: Request) returns (reply: Reply)
      modifies this
      ensures sent == old(sent) + [request]
      ensures reply == NextReply(old(pending)) && pending == RestReplies(old(pending))
    {
      sent := sent + [request];
      reply := NextReply(pending);
      pending := RestReplies(pending);
    }
  }

  /** `sendToBLIP`: one POST, then the response text is read and scanned; every failure becomes the error sentinel. */
  method SendToBlip(endpoint: Endpoint, base64Image: string, usePrefix: bool, token: string) returns (caption: string)
    modifies endpoint
    ensures endpoint.sent == old(endpoint.sent) + [BuildRequest(base64Image, usePrefix, token)]
    ensures endpoint.pending == RestReplies(old(endpoint.pending))
    ensures caption == Interpret(NextReply(old(endpoint.pending)))
  {
    var reply := endpoint.Post(BuildRequest(base64Image, usePrefix, token));
    match reply {
      case TransportFailure =>
        caption := ERROR_CAPTION;
      case Delivered(lines) =>
        var response := ReadResponse(lines);
        var extracted := Extract(response);
        match extracted {
          case Returned(text) => caption := text;
          case Threw => caption := ERROR_CAPTION;
        }
    }
  }
}
