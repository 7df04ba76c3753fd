/** The transform client (services/geminiService.ts): the credential guard,
    the extraction of payload and MIME type from the uploaded data URL, the
    scan of the service's response for the first inline image, and the
    mapping of every failure to one user-facing message. The remote call
    itself is a parameter: a function from the request to its outcome. */
module GeminiService {
  import opened Wrappers

  const ApiKeyMissing := "API Key is missing. Please ensure it is configured."
  const NoImageReturned := "Failed to receive an edited image from the AI. It might have only returned text."
  const UnexpectedError := "An unexpected error occurred during transformation."
  const DefaultMimeType := "image/jpeg"

  // ---------------------------------------------------------------------
  // Splitting on a separator, as JavaScript's String.prototype.split does
  // ---------------------------------------------------------------------

  /** The pieces of `s` between occurrences of `sep`, in order; `s` with k
      separators has k + 1 pieces, some of which may be empty. */
  function Split(s: string, sep: char): (r: seq<string>)
    ensures |r| >= 1
    ensures forall k :: 0 <= k < |r| ==> sep !in r[k]
  {
    if s == [] then [[]]
    else if s[0] == sep then [[]] + Split(s[1..], sep)
    else
      var rest := Split(s[1..], sep);
      [[s[0]] + rest[0]] + rest[1..]
  }

  /** The pieces glued back together with `sep` between neighbours. */
  function Join(pieces: seq<string>, sep: char): string
    requires |pieces| >= 1
  {
    if |pieces| == 1 then pieces[0] else pieces[0] + [sep] + Join(pieces[1..], sep)
  }

  /** Joining the pieces of a split gives back the string. */
  lemma {:induction false} JoinSplit(s: string, sep: char)
    ensures Join(Split(s, sep), sep) == s
  {
    if s == [] {
    } else if s[0] == sep {
      JoinSplit(s[1..], sep);
      var rest := Split(s[1..], sep);
      assert Split(s, sep) == [[]] + rest;
      assert ([[]] + rest)[1..] == rest;
      assert s == [] + [sep] + s[1..];
    } else {
      JoinSplit(s[1..], sep);
      var rest := Split(s[1..], sep);
      var r := [[s[0]] + rest[0]] + rest[1..];
      assert Split(s, sep) == r;
      if |rest| == 1 {
        assert r == [[s[0]] + rest[0]];
        assert s == [s[0]] + s[1..];
      } else {
        assert r[1..] == rest[1..];
        assert Join(rest, sep) == rest[0] + [sep] + Join(rest[1..], sep);
        assert s == [s[0]] + s[1..];
      }
    }
  }

  /** Splitting a string that starts with a separator-free stretch `a`
      extends the first piece of the rest by `a`. */
  lemma {:induction false} SplitAfterPrefix(a: string, s: string, sep: char)
    requires sep !in a
    ensures Split(a + s, sep) == [a + Split(s, sep)[0]] + Split(s, sep)[1..]
  {
    if a == [] {
      var pieces := Split(s, sep);
      assert a + s == s && a + pieces[0] == pieces[0];
      assert [pieces[0]] + pieces[1..] == pieces;
    } else {
      SplitAfterPrefix(a[1..], s, sep);
      assert (a + s)[0] == a[0];
      assert (a + s)[1..] == a[1..] + s;
      assert [a[0]] + (a[1..] + Split(s, sep)[0]) == a + Split(s, sep)[0];
    }
  }

  /** Splitting undoes joining, provided no piece holds the separator. */
  lemma {:induction false} SplitJoin(pieces: seq<string>, sep: char)
    requires |pieces| >= 1
    requires forall k :: 0 <= k < |pieces| ==> sep !in pieces[k]
    ensures Split(Join(pieces, sep), sep) == pieces
  {
    if |pieces| == 1 {
      SplitAfterPrefix(pieces[0], [], sep);
      assert pieces[0] + [] == pieces[0];
    } else {
      var tail := Join(pieces[1..], sep);
      SplitJoin(pieces[1..], sep);
      SplitAfterPrefix(pieces[0], [sep] + tail, sep);
      assert ([sep] + tail)[0] == sep && ([sep] + tail)[1..] == tail;
      assert Split([sep] + tail, sep) == [[]] + pieces[1..];
      assert pieces[0] + [sep] + tail == pieces[0] + ([sep] + tail);
      assert pieces[0] + [] == pieces[0];
      assert [pieces[0]] + pieces[1..] == pieces;
    }
  }

  // ---------------------------------------------------------------------
  // Payload: `base64Image.split(',')[1] || base64Image`
  // ---------------------------------------------------------------------

  /** The piece after the first comma when there is one and it is not
      empty (an empty string is falsy); otherwise the whole input. */
  function Payload(image: string): string
  {
    var pieces := Split(image, ',');
    if |pieces| > 1 && pieces[1] != [] then pieces[1] else image
  }

  /** Without a comma the whole input is the payload. */
  lemma PayloadWithoutComma(image: string)
    requires ',' !in image
    ensures Payload(image) == image
  {
    SplitJoin([image], ',');
  }

  /** With a comma, the payload is the text between the first and the second
      comma (or the end), unless that text is empty, when the whole input is
      used. `a` is what precedes the first comma and `b` what follows it up
      to the next comma or the end. */
  lemma PayloadIsSecondPiece(a: string, b: string, rest: string)
    requires ',' !in a && ',' !in b
    requires rest == [] || rest[0] == ','
    ensures Payload(a + [','] + b + rest) == if b != [] then b else a + [','] + b + rest
  {
    var tail := Split(rest, ',');
    assert tail[0] == [] by {
      if rest != [] {
        assert Split(rest, ',') == [[]] + Split(rest[1..], ',');
      }
    }
    SplitAfterPrefix(b, rest, ',');
    assert Split(b + rest, ',') == [b] + tail[1..] by {
      assert b + tail[0] == b;
    }
    assert ([','] + (b + rest))[1..] == b + rest;
    assert Split([','] + (b + rest), ',') == [[]] + ([b] + tail[1..]);
    SplitAfterPrefix(a, [','] + (b + rest), ',');
    assert a + [','] + b + rest == a + ([','] + (b + rest));
    assert Split(a + [','] + b + rest, ',')[1] == b;
  }

  // ---------------------------------------------------------------------
  // MIME type: `base64Image.match(/data:([^;]+);/)?.[1] || 'image/jpeg'`
  // ---------------------------------------------------------------------

  /** The longest prefix of `s` without the character `c`: what the greedy
      `[^;]+` consumes before it stops. */
  function RunWithout(s: string, c: char): (r: string)
    ensures r <= s && c !in r
    ensures |r| < |s| ==> s[|r|] == c
  {
    if s == [] || s[0] == c then [] else [s[0]] + RunWithout(s[1..], c)
  }

  /** A run of non-`c` characters that ends with `c` is what RunWithout
      returns: the greedy run is the only one that can be followed by `c`. */
  lemma RunWithoutUnique(s: string, g: string, c: char)
    requires c !in g && |g| < |s| && s[..|g|] == g && s[|g|] == c
    ensures RunWithout(s, c) == g
  {
    // Both are prefixes of `s`; whichever were shorter would end at a
    // character of the other, which is `c` on one side and not on the other.
  }

  /** The regular expression matches at position `i` with capture `g`:
      "data:", then a non-empty run `g` of characters other than ';', then ';'. */
  ghost predicate MatchesAt(s: string, i: nat, g: string)
  {
    i + 5 + |g| < |s| && s[i..i + 5] == "data:" && g != [] && ';' !in g
    && s[i + 5..i + 5 + |g|] == g && s[i + 5 + |g|] == ';'
  }

  /** The regular expression tried at position `i`, the way a backtracking
      matcher does it: "data:", then as many non-';' characters as there are,
      then ';'. */
  function MatchAt(s: string, i: nat): Option<string>
  {
    if i + 5 <= |s| && s[i..i + 5] == "data:" then
      var run := RunWithout(s[i + 5..], ';');
      if run != [] && i + 5 + |run| < |s| then Some(run) else None
    else None
  }

  /** The matcher finds a capture at `i` exactly when the regular expression
      matches there with that capture. */
  lemma MatchAtIsRegexMatch(s: string, i: nat, g: string)
    ensures MatchAt(s, i) == Some(g) <==> MatchesAt(s, i, g)
  {
    if MatchesAt(s, i, g) {
      assert s[i + 5..][..|g|] == g;
      RunWithoutUnique(s[i + 5..], g, ';');
    }
    if MatchAt(s, i) == Some(g) {
      var t := s[i + 5..];
      assert g <= t && |g| < |t|;
      assert s[i + 5..i + 5 + |g|] == t[..|g|];
    }
  }

  /** The leftmost position at or after `from` where the expression matches:
      the search `String.prototype.match` performs. */
  function LeftmostMatch(s: string, from: nat): (r: Option<nat>)
    ensures r.Some? ==> from <= r.value < |s| && MatchAt(s, r.value).Some?
    ensures r.Some? ==> forall j :: from <= j < r.value ==> MatchAt(s, j).None?
    ensures r.None? ==> forall j :: from <= j < |s| ==> MatchAt(s, j).None?
    decreases |s| - from
  {
    if from >= |s| then None
    else if MatchAt(s, from).Some? then Some(from)
    else LeftmostMatch(s, from + 1)
  }

  /** The MIME type sent with the request: the capture of the leftmost match,
      or "image/jpeg" when there is none (or, were it possible, when the
      capture were empty). */
  function MimeType(image: string): string
  {
    var m := LeftmostMatch(image, 0);
    var capture := if m.Some? then MatchAt(image, m.value) else None;
    if capture.Some? && capture.value != [] then capture.value else DefaultMimeType
  }

  /** With no match anywhere the MIME type falls back to "image/jpeg". */
  lemma MimeTypeWithoutMatch(image: string)
    requires forall i, g :: 0 <= i < |image| ==> !MatchesAt(image, i, g)
    ensures MimeType(image) == DefaultMimeType
  {
    var m := LeftmostMatch(image, 0);
    if m.Some? {
      MatchAtIsRegexMatch(image, m.value, MatchAt(image, m.value).value);
      assert false;
    }
  }

  /** The MIME type is the capture of the leftmost match. */
  lemma MimeTypeIsLeftmostCapture(image: string, i: nat, g: string)
    requires MatchesAt(image, i, g)
    requires forall j, h :: 0 <= j < i ==> !MatchesAt(image, j, h)
    ensures MimeType(image) == g
  {
    MatchAtIsRegexMatch(image, i, g);
    var m := LeftmostMatch(image, 0);
    if m.Some? && m.value < i {
      MatchAtIsRegexMatch(image, m.value, MatchAt(image, m.value).value);
      assert false;
    }
  }

  /** The request sent to the service: payload and MIME type taken from the
      uploaded image (the fixed instruction text is not modelled). */
  datatype Request = Request(data: string, mimeType: string)

  function BuildRequest(image: string): Request
  {
    Request(Payload(image), MimeType(image))
  }

  /** The data URL the client builds from a MIME type and a payload. */
  function DataUrl(mimeType: string, data: string): string
  {
    "data:" + mimeType + ";base64," + data
  }

  /** Round trip: a well-formed data URL yields the MIME type and payload it
      was built from. */
  lemma RequestRoundTrip(mimeType: string, data: string)
    requires mimeType != [] && ';' !in mimeType && ',' !in mimeType
    requires data != [] && ',' !in data
    ensures BuildRequest(DataUrl(mimeType, data)) == Request(data, mimeType)
  {
    var url := DataUrl(mimeType, data);
    var head := "data:" + mimeType + ";base64";
    assert ',' !in head;
    assert url == head + [','] + data + [];
    PayloadIsSecondPiece(head, data, []);
    assert MatchesAt(url, 0, mimeType) by {
      assert url[5..5 + |mimeType|] == mimeType;
      assert url[5 + |mimeType|] == ';';
    }
    MimeTypeIsLeftmostCapture(url, 0, mimeType);
  }

  // ---------------------------------------------------------------------
  // The response and the scan for the first inline image
  // ---------------------------------------------------------------------

  /** Inline data of a response part; both fields are optional in the
      service's response type. */
  datatype Blob = Blob(mimeType: Option<string>, data: Option<string>)

  /** A response part: one with inline data, or any other part (text,
      a function call, a thought, an empty part), whose `inlineData` is
      absent and therefore falsy; what such a part holds plays no role. */
  datatype Part = OtherPart | InlineDataPart(inlineData: Blob)

  /** What the remote call produced: a reply whose first candidate may carry
      a list of parts, or a thrown error, which may lack a message. */
  datatype RemoteOutcome = Replied(parts: Option<seq<Part>>) | Threw(message: Option<string>)

  /** A value interpolated into a template literal: an absent one reads
      "undefined". */
  function Interpolate(v: Option<string>): string
  {
    match v
    case Some(s) => s
    case None => "undefined"
  }

  /** The data URL rebuilt from a part's inline data. */
  function ImageUrl(blob: Blob): string
  {
    DataUrl(Interpolate(blob.mimeType), Interpolate(blob.data))
  }

  /** The index of the first part carrying inline data, if any. */
  function FirstInlineImage(parts: seq<Part>): (r: Option<nat>)
    ensures r.Some? ==> r.value < |parts| && parts[r.value].InlineDataPart?
    ensures r.Some? ==> forall k :: 0 <= k < r.value ==> parts[k].OtherPart?
    ensures r.None? <==> forall k :: 0 <= k < |parts| ==> parts[k].OtherPart?
  {
    if parts == [] then None
    else if parts[0].InlineDataPart? then Some(0)
    else match FirstInlineImage(parts[1..])
      case Some(k) => Some(k + 1)
      case None => None
  }

  /** The URL the scan settles on: that of the first inline image. */
  function ResultImageUrl(parts: seq<Part>): Option<string>
  {
    match FirstInlineImage(parts)
    case Some(k) => Some(ImageUrl(parts[k].inlineData))
    case None => None
  }

  /** Text parts before the first image and every part after it play no
      role in the result. */
  lemma {:induction false} FirstImageWins(before: seq<Part>, blob: Blob, after: seq<Part>)
    requires forall k :: 0 <= k < |before| ==> before[k].OtherPart?
    ensures ResultImageUrl(before + [InlineDataPart(blob)] + after) == Some(ImageUrl(blob))
  {
    var parts := before + [InlineDataPart(blob)] + after;
    var r := FirstInlineImage(parts);
    assert parts[|before|].InlineDataPart?;
    assert r.Some?;
    if r.value != |before| {
      assert false;
    }
  }

  /** The scan over the response parts: the first part with inline data
      gives the URL and the loop stops there. */
  method ScanForImage(parts: seq<Part>) returns (url: Option<string>)
    ensures url == ResultImageUrl(parts)
    ensures url.None? <==> forall k :: 0 <= k < |parts| ==> parts[k].OtherPart?
    ensures url.Some? ==> "data:" <= url.value
  {
    url := None;
    var i := 0;
    while i < |parts|
      invariant 0 <= i <= |parts|
      invariant url.None?
      invariant forall k :: 0 <= k < i ==> parts[k].OtherPart?
    {
      if parts[i].InlineDataPart? {
        url := Some(ImageUrl(parts[i].inlineData));
        assert FirstInlineImage(parts) == Some(i) by {
          var r := FirstInlineImage(parts);
          assert r.Some?;
          if r.value != i { assert false; }
        }
        break;
      }
      i := i + 1;
    }
  }

  // ---------------------------------------------------------------------
  // The whole call
  // ---------------------------------------------------------------------

  /** A credential is configured: present and not empty (falsy otherwise). */
  predicate HasKey(apiKey: Option<string>)
  {
    apiKey.Some? && apiKey.value != []
  }

  /** The message a caught error is rethrown with: its own, or a generic one
      when it has none or it is empty. */
  function RethrownMessage(message: Option<string>): (r: string)
    ensures r != []
    ensures message.Some? && message.value != [] ==> r == message.value
    ensures (message.None? || message.value == []) ==> r == UnexpectedError
  {
    if message.Some? && message.value != [] then message.value else UnexpectedError
  }

  /** What the client resolves or rejects with, given what the service did. */
  function ExpectedOutcome(outcome: RemoteOutcome): Result<string, string>
  {
    match outcome
    case Threw(message) => Failure(RethrownMessage(message))
    case Replied(None) => Failure(NoImageReturned)
    case Replied(Some(parts)) =>
      match ResultImageUrl(parts)
      case Some(url) => Success(url)
      case None => Failure(NoImageReturned)
  }

  /** What transformImageToCowboy settles with: the credential error before
      any request is built, otherwise what the service's outcome maps to. */
  function ClientOutcome(apiKey: Option<string>, image: string, service: Request -> RemoteOutcome): Result<string, string>
  {
    if HasKey(apiKey) then ExpectedOutcome(service(BuildRequest(image))) else Failure(ApiKeyMissing)
  }

  /** transformImageToCowboy: guard the credential, build the request from
      the image, call the service, scan the reply for the first inline image,
      and rethrow any failure inside the request block with its message or
      the generic fallback. */
  method TransformImageToCowboy(apiKey: Option<string>, base64Image: string, service: Request -> RemoteOutcome)
    returns (r: Result<string, string>)
    ensures !HasKey(apiKey) ==> r == Failure(ApiKeyMissing)
    ensures r == ClientOutcome(apiKey, base64Image, service)
    ensures r.Success? ==> "data:" <= r.value
    ensures r.Failure? ==> r.error != []
  {
    if !HasKey(apiKey) {
      return Failure(ApiKeyMissing);
    }
    var request := BuildRequest(base64Image);
    // The try block: an error raised in it is caught with its message, if any.
    var caught: Option<Option<string>> := None;
    var resultImageUrl: Option<string> := None;
    match service(request) {
      case Threw(message) =>
        caught := Some(message);
      case Replied(parts) =>
        if parts.Some? {
          resultImageUrl := ScanForImage(parts.value);
        }
        if resultImageUrl.None? {
          caught := Some(Some(NoImageReturned));
        }
    }
    // The catch block rethrows with the caught message or the generic one.
    if caught.Some? {
      r := Failure(RethrownMessage(caught.value));
    } else {
      r := Success(resultImageUrl.value);
    }
  }
}
