/**
 * The caption cycle of WebcamTest.java: `processFrameAndGetCaption` (encode
 * the frame, ask for a caption with the data-URI prefix, and ask once more
 * without it when the first answer looks like a failure) and
 * `startFrameCapture` (give up when the camera is not open, otherwise read a
 * frame per iteration, skip failed reads, and catch every per-frame
 * exception so the loop goes on).
 *
 * The camera is an oracle with a script of reads; the JPEG and base64
 * encoding of a frame is a function parameter that may fail.
 */
module CaptureLoop {
  import opened JavaLang
  import opened BlipClient

  /** The pixel buffer of an OpenCV `Mat`. */
  type Pixels = seq<bv8>

  /** What one camera read yields: a frame, or nothing when the read fails. */
  type Read = Option<Pixels>

  // ---------------------------------------------------------------------
  // One frame: the two-attempt fallback
  // ---------------------------------------------------------------------

  /** The retry test: the first caption mentions "Error" or is the no-caption sentinel. */
  predicate NeedsFallback(caption: string)
    ensures NeedsFallback(caption) <==> Occurs(caption, "Error") || caption == NO_CAPTION
  {
    ContainsIff(caption, "Error");
    Contains(caption, "Error") || caption == NO_CAPTION
  }

  /** Both sentinels of `sendToBLIP` trigger the second attempt. */
  lemma SentinelsNeedFallback()
    ensures NeedsFallback(ERROR_CAPTION) && NeedsFallback(NO_CAPTION)
  {
    assert ERROR_CAPTION[0..5] == "Error";
    assert OccursAt(ERROR_CAPTION, "Error", 0);
  }

  /** The caption a frame gets, the requests it costs, and the replies left afterwards. */
  datatype Attempts = Attempts(caption: string, requests: seq<Request>, pending: seq<Reply>)

  /** The fallback rule as a function of the base64 image and the replies the service will give. */
  function CaptionFrame(base64Image: string, token: string, pending: seq<Reply>): (a: Attempts)
    ensures 1 <= |a.requests| <= 2 && a.requests[0] == BuildRequest(base64Image, true, token)
    ensures '"' !in a.caption
  {
    var first := Interpret(NextReply(pending));
    var primary := BuildRequest(base64Image, true, token);
    if NeedsFallback(first) then
      Attempts(Interpret(NextReply(RestReplies(pending))),
               [primary, BuildRequest(base64Image, false, token)],
               RestReplies(RestReplies(pending)))
    else
      Attempts(first, [primary], RestReplies(pending))
  }

  /**
   * At most two calls: the first always with the prefix; a second, without
   * it and for the same image, exactly when the first caption needs a
   * fallback; the second answer is then final.
   */
  lemma FallbackPolicy(base64Image: string, token: string, pending: seq<Reply>)
    ensures var a := CaptionFrame(base64Image, token, pending);
      var first := Interpret(NextReply(pending));
      && 1 <= |a.requests| <= 2
      && a.requests[0] == BuildRequest(base64Image, true, token)
      && (|a.requests| == 2 <==> NeedsFallback(first))
      && (|a.requests| == 2 ==> a.requests[1] == BuildRequest(base64Image, false, token)
                                && a.caption == Interpret(NextReply(RestReplies(pending))))
      && (|a.requests| == 1 ==> a.caption == first)
  {
  }

  /** The published caption never holds a quote character, whatever the service answers. */
  lemma CaptionHasNoQuote(base64Image: string, token: string, pending: seq<Reply>)
    ensures '"' !in CaptionFrame(base64Image, token, pending).caption
  {
  }

  /** The model's usual reply on the first call is published verbatim, with no second call. */
  lemma CaptionedFirstTime(base64Image: string, token: string, pending: seq<Reply>, caption: string)
    requires '"' !in caption && !Occurs(caption, "Error") && caption != NO_CAPTION
    requires NextReply(pending).Delivered? && TrimmedConcat(NextReply(pending).lines) == ModelReply(caption)
    ensures CaptionFrame(base64Image, token, pending).caption == caption
    ensures CaptionFrame(base64Image, token, pending).requests == [BuildRequest(base64Image, true, token)]
  {
    InterpretWellFormedLines(NextReply(pending).lines, caption);
    ContainsIff(caption, "Error");
  }

  /** A one-line reply carrying "a cat" gives the caption `a cat`. */
  lemma CaptionedCat(base64Image: string, token: string, rest: seq<Reply>)
    ensures var a := CaptionFrame(base64Image, token, [Delivered([ModelReply("a cat")])] + rest);
      a.caption == "a cat" && |a.requests| == 1 && a.pending == rest
  {
    var line := ModelReply("a cat");
    assert TrimmedConcat([line]) == line by {
      assert line[0] == '[' && line[|line| - 1] == ']';
      TrimmedConcatCons(line, []);
      assert [line] + [] == [line];
    }
    OccursNeeds("a cat", "Error", 'E');
    CaptionedFirstTime(base64Image, token, [Delivered([line])] + rest, "a cat");
  }

  /** A first reply without the marker, then a captioned one: the fallback's caption is published. */
  lemma FallbackAfterMissingMarker(base64Image: string, token: string, pending: seq<Reply>, caption: string)
    requires '"' !in caption
    requires NextReply(pending).Delivered? && !Occurs(TrimmedConcat(NextReply(pending).lines), MARKER)
    requires NextReply(RestReplies(pending)).Delivered?
    requires TrimmedConcat(NextReply(RestReplies(pending)).lines) == ModelReply(caption)
    ensures CaptionFrame(base64Image, token, pending).caption == caption
    ensures CaptionFrame(base64Image, token, pending).requests
         == [BuildRequest(base64Image, true, token), BuildRequest(base64Image, false, token)]
  {
    InterpretCases(NextReply(pending));
    SentinelsNeedFallback();
    InterpretWellFormedLines(NextReply(RestReplies(pending)).lines, caption);
  }

  /** Two transport failures: two calls, and the error sentinel is published. */
  lemma BothAttemptsFail(base64Image: string, token: string, pending: seq<Reply>)
    requires NextReply(pending).TransportFailure? && NextReply(RestReplies(pending)).TransportFailure?
    ensures CaptionFrame(base64Image, token, pending).caption == ERROR_CAPTION
    ensures |CaptionFrame(base64Image, token, pending).requests| == 2
  {
    SentinelsNeedFallback();
  }

  /** A genuine caption that mentions "Error" also triggers the second call. */
  lemma ErrorInCaptionRetries(base64Image: string, token: string, pending: seq<Reply>, caption: string)
    requires '"' !in caption && Occurs(caption, "Error")
    requires NextReply(pending).Delivered? && TrimmedConcat(NextReply(pending).lines) == ModelReply(caption)
    ensures |CaptionFrame(base64Image, token, pending).requests| == 2
    ensures CaptionFrame(base64Image, token, pending).caption == Interpret(NextReply(RestReplies(pending)))
  {
    InterpretWellFormedLines(NextReply(pending).lines, caption);
    ContainsIff(caption, "Error");
  }

  /** The `Mat` the capture loop reuses: every read overwrites its pixels. */
  class Mat {
    var pixels: Pixels

    constructor ()
      ensures pixels == []
    {
      pixels := [];
    }
  }

  /**
   * `processFrameAndGetCaption`: an encoding failure throws before any call;
   * otherwise the prefixed call, and the unprefixed one when needed.
   */
  method ProcessFrame(frame: Mat, encode: Pixels -> Option<string>, endpoint: Endpoint, token: string)
    returns (result: Completion)
    modifies endpoint
    ensures encode(frame.pixels).None? ==>
      result == Threw && endpoint.sent == old(endpoint.sent) && endpoint.pending == old(endpoint.pending)
    ensures encode(frame.pixels).Some? ==>
      var a := CaptionFrame(encode(frame.pixels).value, token, old(endpoint.pending));
      && result == Returned(a.caption)
      && endpoint.sent == old(endpoint.sent) + a.requests
      && endpoint.pending == a.pending
  {
    var image := encode(frame.pixels);
    if image.None? {
      return Threw;
    }
    var base64Image := image.value;
    var caption := SendToBlip(endpoint, base64Image, true, token);
    if NeedsFallback(caption) {
      caption := SendToBlip(endpoint, base64Image, false, token);
    }
    return Returned(caption);
  }

  // ---------------------------------------------------------------------
  // The capture loop
  // ---------------------------------------------------------------------

  /** What the read after this one yields; an exhausted script is a failed read. */
  function NextRead(feed: seq<Read>): Read
  {
    if feed == [] then None else feed[0]
  }

  function RestFeed(feed: seq<Read>): seq<Read>
  {
    if feed == [] then [] else feed[1..]
  }

  /** The camera device: whether it opened, and what its successive reads yield. */
  class Camera {
    const isOpened: bool
    var feed: seq<Read>

    constructor (isOpened: bool, feed: seq<Read>)
      ensures this.isOpened == isOpened && this.feed == feed
    {
      this.isOpened := isOpened;
      this.feed := feed;
    }

    /** `camera.read(frame)`: refills the Mat, or leaves it empty when no frame comes. */
    method ReadInto(frame: Mat) returns (ok: bool)
      modifies this, frame
      ensures ok == NextRead(old(feed)).Some?
      ensures frame.pixels == if ok then NextRead(old(feed)).value else []
      ensures feed == RestFeed(old(feed))
    {
      var next := NextRead(feed);
      ok := next.Some?;
      frame.pixels := if ok then next.value else [];
      feed := RestFeed(feed);
    }
  }

  /** What the loop prints: the missing camera, a caption, or a caught per-frame exception. */
  datatype Event = CameraNotFound | CaptionPrinted(caption: string) | FrameFailed

  /** The loop's effect so far: printed events, requests sent, and what is left of both scripts. */
  datatype Progress = Progress(events: seq<Event>, requests: seq<Request>, feed: seq<Read>, pending: seq<Reply>)

  /** One iteration of the capture loop. */
  function Cycle(encode: Pixels -> Option<string>, token: string, p: Progress): (q: Progress)
    ensures q.feed == RestFeed(p.feed)
    ensures p.events <= q.events && |q.events| <= |p.events| + 1
    ensures p.requests <= q.requests && |q.requests| <= |p.requests| + 2
  {
    match NextRead(p.feed)
    case None => p.(feed := RestFeed(p.feed))
    case Some(pixels) =>
      match encode(pixels)
      case None => p.(events := p.events + [FrameFailed], feed := RestFeed(p.feed))
      case Some(base64Image) =>
        var a := CaptionFrame(base64Image, token, p.pending);
        Progress(p.events + [CaptionPrinted(a.caption)], p.requests + a.requests, RestFeed(p.feed), a.pending)
  }

  /** The first `n` iterations from the given scripts. */
  function Run(encode: Pixels -> Option<string>, token: string, feed: seq<Read>, pending: seq<Reply>, n: nat): (r: Progress)
    ensures |r.events| <= n && |r.requests| <= 2 * n
  {
    if n == 0 then Progress([], [], feed, pending)
    else Cycle(encode, token, Run(encode, token, feed, pending, n - 1))
  }

  /** One turn of the capture loop: read, and when a frame came, caption it inside the try block. */
  method CaptureOnce(camera: Camera, frame: Mat, encode: Pixels -> Option<string>, endpoint: Endpoint, token: string,
                     events: seq<Event>, ghost base: seq<Request>, ghost p: Progress)
    returns (events': seq<Event>)
    requires events == p.events && camera.feed == p.feed && endpoint.pending == p.pending
    requires endpoint.sent == base + p.requests
    modifies camera, frame, endpoint
    ensures var q := Cycle(encode, token, p);
      && events' == q.events
      && endpoint.sent == base + q.requests
      && endpoint.pending == q.pending
      && camera.feed == q.feed
    ensures frame.pixels == if NextRead(p.feed).Some? then NextRead(p.feed).value else []
  {
    events' := events;
    var ok := camera.ReadInto(frame);
    if ok {
      var result := ProcessFrame(frame, encode, endpoint, token);
      match result {
        case Returned(caption) => events' := events + [CaptionPrinted(caption)];
        case Threw => events' := events + [FrameFailed];
      }
    }
  }

  /**
   * `startFrameCapture`, cut off after `iterations` turns of its endless
   * loop: nothing is asked of the service when the camera is not open.
   */
  method StartFrameCapture(camera: Camera, encode: Pixels -> Option<string>, endpoint: Endpoint, token: string,
                           iterations: nat)
    returns (events: seq<Event>)
    modifies camera, endpoint
    ensures !camera.isOpened ==>
      && events == [CameraNotFound]
      && endpoint.sent == old(endpoint.sent) && endpoint.pending == old(endpoint.pending)
      && camera.feed == old(camera.feed)
    ensures camera.isOpened ==>
      var p := Run(encode, token, old(camera.feed), old(endpoint.pending), iterations);
      && events == p.events
      && endpoint.sent == old(endpoint.sent) + p.requests
      && endpoint.pending == p.pending
      && camera.feed == p.feed
  {
    if !camera.isOpened {
      return [CameraNotFound];
    }
    var frame := new Mat();
    events := [];
    var i := 0;
    while i < iterations
      invariant 0 <= i <= iterations
      invariant var p := Run(encode, token, old(camera.feed), old(endpoint.pending), i);
        && events == p.events
        && endpoint.sent == old(endpoint.sent) + p.requests
        && endpoint.pending == p.pending
        && camera.feed == p.feed
    {
      ghost var p := Run(encode, token, old(camera.feed), old(endpoint.pending), i);
      events := CaptureOnce(camera, frame, encode, endpoint, token, events, old(endpoint.sent), p);
      i := i + 1;
    }
  }

  // ---------------------------------------------------------------------
  // Properties of the loop
  // ---------------------------------------------------------------------

  /** What is left of a feed after `n` reads. */
  function Drop(feed: seq<Read>, n: nat): seq<Read>
  {
    if n <= |feed| then feed[n..] else []
  }

  /** How many of the first `n` reads delivered a frame. */
  function FramesRead(feed: seq<Read>, n: nat): nat
  {
    if n == 0 then 0
    else FramesRead(feed, n - 1) + (if n - 1 < |feed| && feed[n - 1].Some? then 1 else 0)
  }

  lemma DropStep(feed: seq<Read>, n: nat)
    ensures NextRead(Drop(feed, n)) == (if n < |feed| then feed[n] else None)
    ensures RestFeed(Drop(feed, n)) == Drop(feed, n + 1)
  {
  }

  /** Every request goes to the captioning endpoint by POST with the configured bearer token. */
  predicate Addressed(requests: seq<Request>, token: string)
  {
    forall i :: 0 <= i < |requests| ==>
      requests[i].url == API_URL && requests[i].verb == "POST" && requests[i].authorization == "Bearer " + token
  }

  lemma AddressedConcat(first: seq<Request>, second: seq<Request>, token: string)
    requires Addressed(first, token) && Addressed(second, token)
    ensures Addressed(first + second, token)
  {
    forall i | 0 <= i < |first + second|
      ensures (first + second)[i].url == API_URL && (first + second)[i].verb == "POST"
      ensures (first + second)[i].authorization == "Bearer " + token
    {
      if i >= |first| {
        assert (first + second)[i] == second[i - |first|];
      }
    }
  }

  lemma CycleAddressing(encode: Pixels -> Option<string>, token: string, p: Progress)
    requires Addressed(p.requests, token)
    ensures Addressed(Cycle(encode, token, p).requests, token)
  {
    if NextRead(p.feed).Some? && encode(NextRead(p.feed).value).Some? {
      var a := CaptionFrame(encode(NextRead(p.feed).value).value, token, p.pending);
      FallbackPolicy(encode(NextRead(p.feed).value).value, token, p.pending);
      assert Addressed(a.requests, token);
      AddressedConcat(p.requests, a.requests, token);
    }
  }

  /** One iteration consumes one read, prints one line per delivered frame, and sends at most two requests for it. */
  lemma CycleCounts(encode: Pixels -> Option<string>, token: string, p: Progress)
    ensures Cycle(encode, token, p).feed == RestFeed(p.feed)
    ensures |Cycle(encode, token, p).events| == |p.events| + (if NextRead(p.feed).Some? then 1 else 0)
    ensures |Cycle(encode, token, p).requests| <= |p.requests| + (if NextRead(p.feed).Some? then 2 else 0)
  {
    if NextRead(p.feed).Some? && encode(NextRead(p.feed).value).Some? {
      FallbackPolicy(encode(NextRead(p.feed).value).value, token, p.pending);
    }
  }

  /** A failed read sends nothing, prints nothing and leaves the service's replies untouched. */
  lemma CycleFailedRead(encode: Pixels -> Option<string>, token: string, p: Progress)
    requires NextRead(p.feed).None?
    ensures var q := Cycle(encode, token, p);
      q.events == p.events && q.requests == p.requests && q.pending == p.pending && q.feed == RestFeed(p.feed)
  {
  }

  /** A frame that cannot be encoded is reported as a caught failure before any call, and the loop goes on to the next read. */
  lemma CycleEncodeFailure(encode: Pixels -> Option<string>, token: string, p: Progress)
    requires NextRead(p.feed).Some? && encode(NextRead(p.feed).value).None?
    ensures var q := Cycle(encode, token, p);
      q.events == p.events + [FrameFailed] && q.requests == p.requests && q.pending == p.pending
      && q.feed == RestFeed(p.feed)
  {
  }

  /** Liveness: every iteration performs exactly one read, whatever happened to the frame before. */
  lemma {:induction false} RunReadsOncePerIteration(encode: Pixels -> Option<string>, token: string,
                                                    feed: seq<Read>, pending: seq<Reply>, n: nat)
    ensures Run(encode, token, feed, pending, n).feed == Drop(feed, n)
  {
    if n > 0 {
      var p := Run(encode, token, feed, pending, n - 1);
      RunReadsOncePerIteration(encode, token, feed, pending, n - 1);
      DropStep(feed, n - 1);
      CycleCounts(encode, token, p);
      assert Run(encode, token, feed, pending, n) == Cycle(encode, token, p);
    }
  }

  /** Every read that delivers a frame prints exactly one line (a caption or a caught failure); a failed read prints nothing. */
  lemma {:induction false} RunPublishesEachFrame(encode: Pixels -> Option<string>, token: string,
                                                 feed: seq<Read>, pending: seq<Reply>, n: nat)
    ensures |Run(encode, token, feed, pending, n).events| == FramesRead(feed, n)
  {
    if n > 0 {
      var p := Run(encode, token, feed, pending, n - 1);
      RunPublishesEachFrame(encode, token, feed, pending, n - 1);
      RunReadsOncePerIteration(encode, token, feed, pending, n - 1);
      DropStep(feed, n - 1);
      CycleCounts(encode, token, p);
      assert Run(encode, token, feed, pending, n) == Cycle(encode, token, p);
      assert |Cycle(encode, token, p).events| == |p.events| + (if n - 1 < |feed| && feed[n - 1].Some? then 1 else 0);
    }
  }

  /** No more than two requests are sent per printed frame. */
  lemma {:induction false} RunCallsAtMostTwicePerFrame(encode: Pixels -> Option<string>, token: string,
                                                       feed: seq<Read>, pending: seq<Reply>, n: nat)
    ensures |Run(encode, token, feed, pending, n).requests| <= 2 * |Run(encode, token, feed, pending, n).events|
  {
    if n > 0 {
      var p := Run(encode, token, feed, pending, n - 1);
      RunCallsAtMostTwicePerFrame(encode, token, feed, pending, n - 1);
      CycleCounts(encode, token, p);
      assert Run(encode, token, feed, pending, n) == Cycle(encode, token, p);
    }
  }

  /** With no frame delivered, the loop never calls the service and prints nothing. */
  lemma RunWithoutFrames(encode: Pixels -> Option<string>, token: string,
                         feed: seq<Read>, pending: seq<Reply>, n: nat)
    requires FramesRead(feed, n) == 0
    ensures Run(encode, token, feed, pending, n).requests == []
    ensures Run(encode, token, feed, pending, n).events == []
  {
    RunPublishesEachFrame(encode, token, feed, pending, n);
    RunCallsAtMostTwicePerFrame(encode, token, feed, pending, n);
  }

  /** Every request the loop sends goes to the captioning endpoint with the configured bearer token. */
  lemma {:induction false} RunRequestsCarryToken(encode: Pixels -> Option<string>, token: string,
                                                 feed: seq<Read>, pending: seq<Reply>, n: nat)
    ensures Addressed(Run(encode, token, feed, pending, n).requests, token)
  {
    if n > 0 {
      var p := Run(encode, token, feed, pending, n - 1);
      RunRequestsCarryToken(encode, token, feed, pending, n - 1);
      CycleAddressing(encode, token, p);
      assert Run(encode, token, feed, pending, n) == Cycle(encode, token, p);
    }
  }
}
