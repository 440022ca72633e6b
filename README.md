# Webcam captioning client: a Dafny model of the caption step

`WebcamTest.java` grabs frames from a webcam and asks the hosted BLIP
image-captioning model for a caption of each one. For every frame:

- the JPEG bytes are turned into base64 text;
- `sendToBLIP` wraps that text as the JSON body `{"inputs": "<data>"}`, with or
  without the `data:image/jpeg;base64,` prefix, and POSTs it with a bearer
  token;
- it concatenates the trimmed response lines and cuts the caption out of the
  text after the first `"generated_text":` using `indexOf` and `substring`;
- it maps every failure to one of two sentinel strings;
- `processFrameAndGetCaption` makes a second, unprefixed attempt when the
  first answer looks like a failure;
- `startFrameCapture` repeats this forever, skipping failed reads and
  catching per-frame exceptions.

The project has three modules:

- `JavaLang` (`java_lang.dfy`): the Java semantics this code depends on, written
  out over `seq<char>`. It covers `indexOf`, plus its clamping of the start
  index and its -1 result, and `contains`. It covers `substring`, which throws
  unless `0 <= begin <= end <= length`, and `trim`, which drops the leading and
  trailing characters up to U+0020 and keeps everything between them. It also defines an append-only `StringBuilder` and a
  `Completion` type for an expression that either returns a string or throws.
- `BlipClient` (`blip_client.dfy`): `sendToBLIP`. It covers payload and body
  shaping, the line-reading loop, the extraction and the sentinels. The HTTP
  service is an `Endpoint` object. The endpoint logs every request it receives
  and answers from a script of replies. A reply is either a transport failure or
  the lines of the body.
- `CaptureLoop` (`capture_loop.dfy`): `processFrameAndGetCaption` and
  `startFrameCapture`. The camera is a `Camera` object with a fixed "opened"
  flag and a script of reads. The JPEG and base64 encoding is a function
  argument that may fail, which stands for the `IOException`. The endless loop
  is cut off after a given number of iterations.

Each imperative method is proved against a specification function:

- `ReadResponse` against `TrimmedConcat`;
- `ProcessFrame` against `CaptionFrame`;
- `StartFrameCapture`, one iteration at a time through `CaptureOnce`, against
  `Run`, which is `Cycle` applied `n` times.

The lemmas then state what the source promises about those functions.

Two behaviours of the code are easy to misread:

- **The retry test is broader than "the call failed".** The second attempt is
  made when the first caption *contains* `Error` (`WebcamTest.java:63`), or
  equals `No caption generated`. So a genuine caption that mentions "Error" is
  also retried (`CaptureLoop.ErrorInCaptionRetries`).
- **A marker with no opening quote after it returns text instead of failing.**
  `indexOf` returns -1 there, so `start` becomes 0. The result is then the
  text before the response's first quote, which lies at or before the marker,
  not an error (`BlipClient.ExtractWithoutOpeningQuote`). For example,
  `[{"generated_text":null}]` yields `[{` (`BlipClient.ExtractNullValue`).
- **Line breaks inside a caption can swallow a space.** Each line is trimmed
  before the lines are joined (`WebcamTest.java:114`). So a space next to a
  line break inside the caption is lost: `[{"generated_text":"a ` followed by
  `cat"}]` gives `acat` (`BlipClient.InterpretSplitCaption`).

## Model

| member | source | states |
|---|---|---|
| JavaLang.ClampIndex | WebcamTest.java:123 | the start index `indexOf` uses lies in `0..length`, and is the given index when that is already in range |
| JavaLang.IndexOf | WebcamTest.java:121-124 | `s.indexOf(pat, from)` is -1 or an occurrence of `pat` at or after the clamped start |
| JavaLang.Contains | WebcamTest.java:63 | `contains` can hold only when the pattern is no longer than the text, and always holds for the empty pattern |
| JavaLang.FindFrom | WebcamTest.java:121-124 | `indexOf`'s search: the result is -1 exactly when the pattern does not occur at or after the start; otherwise it is the least such occurrence |
| JavaLang.ContainsIff | WebcamTest.java:63 | `caption.contains(t)` holds exactly when `t` occurs somewhere in `caption` |
| JavaLang.Substring | WebcamTest.java:125 | `substring(begin, end)` returns exactly when `0 <= begin <= end <= length`, and throws otherwise |
| JavaLang.Trim | WebcamTest.java:114 | `trim()` returns a slice `s[a..b]` of its input where everything before `a` and from `b` on is a character up to U+0020; the slice neither starts nor ends with such a character, and an input that already does not is returned unchanged |
| JavaLang.TrimUnique | WebcamTest.java:114 | any slice cut that way with kept characters at both ends is exactly `trim`'s result, so the contract above determines `trim` |
| JavaLang.TrimPadded | WebcamTest.java:114 | `"  ab  ".trim()` is `"ab"` |
| JavaLang.StringBuilder.Append | WebcamTest.java:114 | appending extends the builder's text by exactly the argument |
| BlipClient.Payload | WebcamTest.java:90 | the payload is the base64 text, preceded by `data:image/jpeg;base64,` exactly when `usePrefix`, and is longer by the prefix's length in that case |
| BlipClient.Body | WebcamTest.java:91 | the body opens with `{"inputs": "`, closes with `"}`, and holds exactly the payload in between |
| BlipClient.BuildRequest | WebcamTest.java:94-98 | the request goes to the BLIP URL by POST as `application/json`, its authorization is `Bearer ` followed by the token, and its body gives back the payload |
| BlipClient.BodyRoundTrip | WebcamTest.java:91 | the JSON body is exactly `{"inputs": "` + payload + `"}`: the payload can be read back out of it unchanged |
| BlipClient.PayloadRoundTrip | WebcamTest.java:90 | the payload is the prefix plus the base64 text when `usePrefix`, and the bare text otherwise; for base64 text, the payload determines both the text and the flag |
| BlipClient.RequestRoundTrip | WebcamTest.java:86-98 | a request goes to the BLIP URL by POST, with `Bearer <token>` and `application/json`, and its body decodes back to the base64 text and prefix flag |
| BlipClient.ShapesDiffer | WebcamTest.java:90-91 | the prefixed and unprefixed bodies of the same image always differ, by exactly the prefix's length |
| BlipClient.TrimmedConcat | WebcamTest.java:111-118 | the accumulated response neither starts nor ends with a character up to U+0020 |
| BlipClient.ConcatMapAppend | WebcamTest.java:111-118 | accumulating the pieces of two runs of lines gives the first run's text followed by the second's |
| BlipClient.TrimmedConcatAppend | WebcamTest.java:111-118 | the accumulated text of two runs of lines is the first run's text followed by the second's: the lines stay in order with no separator |
| BlipClient.TrimmedConcatCons | WebcamTest.java:113-114 | the accumulated text begins with the first line trimmed, followed by the rest |
| BlipClient.TrimmedConcatLength | WebcamTest.java:111-118 | the accumulated text is exactly as long as the trimmed lines together: nothing is inserted |
| BlipClient.ReadResponse | WebcamTest.java:111-118 | the `readLine` loop over a `StringBuilder` yields exactly the concatenation of the trimmed lines, in order |
| BlipClient.Extract | WebcamTest.java:121-127 | whenever the extraction returns a caption, that caption contains no `"` |
| BlipClient.QuoteFreeUntilNextQuote | WebcamTest.java:123-125 | the text between `start` and the next quote at or after `start` contains no quote |
| BlipClient.MarkerLength | WebcamTest.java:121-123 | the marker `"generated_text":` is 17 characters long, which is the offset `sendToBLIP` skips, and it begins with a quote |
| BlipClient.FirstMarkerIsIndex | WebcamTest.java:121 | `indexOf` finds the first occurrence of the marker |
| BlipClient.NextQuoteIs | WebcamTest.java:123-124 | with no quote in `[lo, q)` and a quote at `q`, `indexOf("\"", lo)` is `q` |
| BlipClient.NoQuoteAfter | WebcamTest.java:123 | with no quote at or after `lo`, `indexOf("\"", lo)` is -1 |
| BlipClient.ExtractWithoutMarker | WebcamTest.java:121-127 | a response without the marker yields exactly `No caption generated` |
| BlipClient.ExtractQuotedValue | WebcamTest.java:121-125 | with the first marker at `i`, the first quote at or after `i+17` at `q`, and the next quote at `e`, the result is exactly `response[q+1..e]` |
| BlipClient.ExtractWellFormed | WebcamTest.java:121-125 | in any response of the form text + marker + gap + quoted caption + rest, where the text, gap and caption hold no quote, the caption is returned exactly |
| BlipClient.ExtractWithoutOpeningQuote | WebcamTest.java:123-125 | when no quote follows the marker, `start` is 0 and the result is the text before the response's first quote, without an exception |
| BlipClient.ExtractUnquotedValue | WebcamTest.java:123-125 | for text + marker + rest, where neither the text nor the rest holds a quote, the result is the text before the marker |
| BlipClient.ExtractUnclosedQuote | WebcamTest.java:123-125 | an opening quote without a closing quote makes `substring(start, -1)` throw |
| BlipClient.ExtractModelReply | WebcamTest.java:121-125 | the usual model reply `[{"generated_text":"<caption>"}]` gives back its caption |
| BlipClient.ExtractNullValue | WebcamTest.java:123-125 | `[{"generated_text":null}]` yields `[{` |
| BlipClient.ExtractServiceError | WebcamTest.java:121-127 | the service's error object `{"error":"Model is currently loading"}` yields `No caption generated` |
| BlipClient.Interpret | WebcamTest.java:121-131 | a transport failure yields exactly `Error calling BLIP API`, and no caption contains a quote |
| BlipClient.InterpretCases | WebcamTest.java:93-131 | a call never throws: a transport failure or a thrown `substring` gives the error sentinel, a missing marker gives the no-caption sentinel, and otherwise the extracted text is returned |
| BlipClient.InterpretWellFormedLines | WebcamTest.java:111-125 | when the trimmed lines concatenate to the model reply, that reply's caption is returned |
| BlipClient.TrimTrailingSpace | WebcamTest.java:114 | a trailing space is all `trim` removes from a text whose ends are kept |
| BlipClient.TrimmedConcatPair | WebcamTest.java:111-118 | two lines accumulate to the first trimmed followed by the second trimmed |
| BlipClient.SplitReplyText | WebcamTest.java:111-118 | a model reply broken after a space inside its caption accumulates to the reply for the caption with that space removed |
| BlipClient.InterpretSplitCaption | WebcamTest.java:111-125 | a caption split across two lines after a space comes back without that space (`a ` + `cat` gives `acat`) |
| BlipClient.Endpoint.Post | WebcamTest.java:94-109 | the service logs the request and answers with the next scripted reply, or with a transport failure once the script is exhausted |
| BlipClient.SendToBlip | WebcamTest.java:86-131 | `sendToBLIP` sends exactly one request, built from the image, the prefix flag and the token, consumes one reply, and returns that reply's interpretation |
| CaptureLoop.NeedsFallback | WebcamTest.java:63 | the retry test holds exactly when `Error` occurs in the caption or the caption is `No caption generated` |
| CaptureLoop.CaptionFrame | WebcamTest.java:62-67 | one frame costs one or two requests, the first of them prefixed, and its caption holds no quote |
| CaptureLoop.SentinelsNeedFallback | WebcamTest.java:63 | both sentinels of `sendToBLIP` trigger the second attempt |
| CaptureLoop.FallbackPolicy | WebcamTest.java:62-67 | each frame gets one or two calls. The first is prefixed. A second, unprefixed call with the same image is made if and only if the first caption contains `Error` or is `No caption generated`. The second caption is final when that call is made, and the first otherwise |
| CaptureLoop.CaptionHasNoQuote | WebcamTest.java:62-67 | the published caption never contains a quote, whatever the service answers |
| CaptureLoop.CaptionedFirstTime | WebcamTest.java:62-67 | a well-formed first reply whose caption neither mentions `Error` nor is the sentinel is published after a single prefixed call |
| CaptureLoop.CaptionedCat | WebcamTest.java:62-67 | a one-line reply carrying `a cat` gives the caption `a cat` after one call |
| CaptureLoop.FallbackAfterMissingMarker | WebcamTest.java:62-67 | a first reply without the marker, then a well-formed one, publishes the second caption after a prefixed and an unprefixed call |
| CaptureLoop.BothAttemptsFail | WebcamTest.java:62-67 | two transport failures cost two calls and publish the error sentinel |
| CaptureLoop.ErrorInCaptionRetries | WebcamTest.java:63-65 | a genuine caption that mentions `Error` still triggers the second call, and the second call's caption is published |
| CaptureLoop.ProcessFrame | WebcamTest.java:54-68 | a frame that cannot be encoded throws before any call. Otherwise the calls and the caption are those of the fallback rule |
| CaptureLoop.Camera.ReadInto | WebcamTest.java:38 | a read consumes one scripted read and reports whether a frame came; the frame's pixels are replaced by that frame, or emptied |
| CaptureLoop.CaptureOnce | WebcamTest.java:37-49 | one loop turn does exactly what `Cycle` says to the printed lines, the requests sent, the camera and the reply script |
| CaptureLoop.StartFrameCapture | WebcamTest.java:25-51 | when the camera is not opened, the method reports it and touches neither the camera nor the service. Otherwise each turn runs as `Run` over the given number of iterations |
| CaptureLoop.Cycle | WebcamTest.java:37-49 | one iteration consumes one read, only appends to the printed lines (at most one) and to the requests (at most two) |
| CaptureLoop.Run | WebcamTest.java:37-50 | `n` iterations print at most `n` lines and send at most `2n` requests |
| CaptureLoop.CycleFailedRead | WebcamTest.java:38 | a failed read makes no call and prints nothing |
| CaptureLoop.CycleEncodeFailure | WebcamTest.java:41-56 | a frame that cannot be encoded is reported as a caught failure, makes no call, and the loop continues |
| CaptureLoop.CycleCounts | WebcamTest.java:37-49 | one iteration consumes one read, prints one line for each frame delivered, and sends at most two requests |
| CaptureLoop.CycleAddressing | WebcamTest.java:94-97 | an iteration keeps every request addressed to the BLIP URL by POST with the bearer token |
| CaptureLoop.RunReadsOncePerIteration | WebcamTest.java:37-50 | after `n` iterations exactly `n` reads have been consumed: an exception inside the `try` block (`WebcamTest.java:41-48`) never stops the loop |
| CaptureLoop.RunPublishesEachFrame | WebcamTest.java:38-48 | the loop prints exactly one line (caption or caught failure) for each delivered frame, and nothing for a failed read |
| CaptureLoop.RunCallsAtMostTwicePerFrame | WebcamTest.java:38-67 | no more than two requests are sent per printed frame |
| CaptureLoop.RunWithoutFrames | WebcamTest.java:38 | when no read delivers a frame, the loop never calls the service and prints nothing |
| CaptureLoop.RunRequestsCarryToken | WebcamTest.java:94-97 | every request the loop sends goes to the BLIP URL by POST with `Bearer <token>` |

## Left out

- OpenCV capture, `camera.set` resolution and the `HighGui` window (`WebcamTest.java:26,31-32,39-40`). These are native device and UI calls. The camera is a scripted `Camera` object.
- The failed read: the model empties the reused `Mat`. That is OpenCV's behaviour. The encoder only ever receives pixels from a successful read, so no contract depends on the emptying.
- JPEG encoding through `Imgcodecs.imencode` and `ImageIO`, the `temp.jpg` write, read and delete, and `Base64.getEncoder()` (`WebcamTest.java:55-61,71-83`). These are foreign codecs and file I/O. Together they are one function argument from pixels to an optional base64 string, where "none" is the thrown `IOException`. A failure of `ImageIO.write` or of the file read is folded into the same "none".
- `HttpURLConnection`: the connection, the response code, and the choice between the input and error streams (`WebcamTest.java:94-109`). This is network I/O. A reply is the sequence of lines either stream yields, because both are read the same way, or a transport failure. A transport failure stands for every exception the exchange can throw, from opening the connection through `readLine` and `in.close()` (`WebcamTest.java:94-116`); all of them land in the catch at `WebcamTest.java:128-131`. The response code is not modelled.
- Timeouts. `HttpURLConnection` sets no connect or read timeout, so a stalled call blocks the loop forever. `Endpoint.Post` always answers, so the model does not capture a call that never returns.
- Exceptions outside the `try` block. `camera.read`, `HighGui.imshow` and `HighGui.waitKey` (`WebcamTest.java:38-40`) can throw, and such an exception ends `startFrameCapture`. The model's camera read never throws.
- `readLine`'s splitting of the byte stream into lines and the UTF-8 decoding. The reply script already holds decoded lines.
- `Thread.sleep(2000)` and the endless `while (true)`. Timing is not modelled. The capture method runs a given number of iterations.
- The hardcoded API token (`WebcamTest.java:88`). It is a parameter of the model.
- Console output other than the loop's events: `Press Ctrl+C to exit`, `Base64 string length`, `Response Code`, `Full API Response`, `Trying without prefix...` and the stack traces. They do not affect any result.
- JSON well-formedness. The source never parses JSON (it scans text with `indexOf`), so the model does not either. No escaping of quotes inside the caption is modelled, because the source does none.
- `src/application/Main.java` and `src/frontend/gui/src/Main.java`. These are JavaFX layout, a timer thread polling the camera and a style toggle: concurrency and presentation, with no captioning logic.
