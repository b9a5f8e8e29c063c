/**
 The pure decisions of the app's API client (mobile/api.ts): which images
 `analyzePhoto` uploads, the file name and MIME type of each upload part, and the
 endpoint `sendPrompt` chooses. The HTTP requests themselves are not modelled.
 */
module PhotoUpload {
  import opened Results
  import Decimal

  /** How many images one analysis request carries. */
  const MAX_UPLOAD_IMAGES: nat := 3

  const FALLBACK_MIME: string := "image/jpeg"

  /** One image of the multipart upload: its URI, file name and MIME type. */
  datatype UploadPart = UploadPart(uri: string, name: string, mimeType: string)

  /** The request `sendPrompt` makes: an image analysis or a text-only
      camera-settings query. */
  datatype Request =
    | AnalyzeRequest(parts: seq<UploadPart>, prompt: string)
    | CameraSettingsRequest(eventType: string, lighting: string, subject: string)

  /** `imageUris.slice(0, 3)`: the first three URIs, in order. */
  function ImagesToSend(uris: seq<string>): (r: seq<string>)
    ensures |r| == if |uris| < MAX_UPLOAD_IMAGES then |uris| else MAX_UPLOAD_IMAGES
    ensures r == uris[..|r|]
  {
    if |uris| < MAX_UPLOAD_IMAGES then uris else uris[..MAX_UPLOAD_IMAGES]
  }

  /** `uri.split('/').pop()`: the text after the last `/`, or the whole URI when it
      has none. */
  function LastSegment(uri: string): (seg: string)
    ensures '/' !in seg
    ensures |seg| <= |uri| && uri[|uri| - |seg|..] == seg
    ensures |seg| < |uri| ==> uri[|uri| - |seg| - 1] == '/'
    decreases |uri|
  {
    if |uri| == 0 || uri[|uri| - 1] == '/' then ""
    else
      var init := uri[..|uri| - 1];
      var seg := LastSegment(init);
      assert uri == init + [uri[|uri| - 1]];
      seg + [uri[|uri| - 1]]
  }

  /** Whatever precedes the last `/`, the segment after it is what `LastSegment` finds. */
  lemma {:induction false} LastSegmentAfterSlash(dir: string, seg: string)
    requires '/' !in seg
    ensures LastSegment(dir + "/" + seg) == seg
    decreases |seg|
  {
    if |seg| == 0 {
      assert (dir + "/" + seg)[|dir + "/" + seg| - 1] == '/';
    } else {
      var u := dir + "/" + seg;
      assert u[..|u| - 1] == dir + "/" + seg[..|seg| - 1];
      assert seg[|seg| - 1] in seg;
      LastSegmentAfterSlash(dir, seg[..|seg| - 1]);
      assert seg == seg[..|seg| - 1] + [seg[|seg| - 1]];
    }
  }

  /** The name used for an image whose URI ends in `/`: `photo{n}.jpg`. */
  function FallbackName(n: nat): (name: string)
    ensures |name| == 5 + |Decimal.NatToString(n)| + 4
    ensures name[..5] == "photo" && name[|name| - 4..] == ".jpg"
    ensures name[5..|name| - 4] == Decimal.NatToString(n)
    // the digits between "photo" and ".jpg" read back as `n`
    ensures Decimal.DigitsValue(name[5..|name| - 4]) == n
    ensures '/' !in name
  {
    var digits := Decimal.NatToString(n);
    var name := "photo" + digits + ".jpg";
    assert name[..5] == "photo" && name[|name| - 4..] == ".jpg";
    assert name[5..|name| - 4] == digits;
    Decimal.NatToStringRoundTrip(n);
    assert '/' !in digits by {
      forall i | 0 <= i < |digits|
        ensures digits[i] != '/'
      {
        assert Decimal.IsDigit(digits[i]);
      }
    }
    NoSlashConcat("photo", digits);
    NoSlashConcat("photo" + digits, ".jpg");
    name
  }

  lemma NoSlashConcat(a: string, b: string)
    requires '/' !in a && '/' !in b
    ensures '/' !in a + b
  {
  }

  /** `filename`: the last path segment, or `photo{index + 1}.jpg` when that is empty. */
  function FileName(uri: string, index: nat): (name: string)
    ensures LastSegment(uri) != "" ==> name == LastSegment(uri)
    ensures LastSegment(uri) == "" ==> name == FallbackName(index + 1)
    ensures '/' !in name
  {
    var seg := LastSegment(uri);
    if seg != "" then seg else FallbackName(index + 1)
  }

  /** The regular-expression class `\w`: ASCII letters, digits and `_`. */
  predicate IsWordChar(c: char) {
    ('A' <= c <= 'Z') || ('a' <= c <= 'z') || ('0' <= c <= '9') || c == '_'
  }

  /** `/\.(\w+)$/` matches `name` starting at position `p`: a dot there, then one or
      more word characters up to the end. */
  predicate RegexMatchesAt(name: string, p: int) {
    && 0 <= p < |name| - 1
    && name[p] == '.'
    && forall j | p < j < |name| :: IsWordChar(name[j])
  }

  /** The length of the longest run of word characters that ends `s`. */
  function TrailingWordRun(s: string): (k: nat)
    ensures k <= |s|
    ensures forall j | |s| - k <= j < |s| :: IsWordChar(s[j])
    ensures k < |s| ==> !IsWordChar(s[|s| - k - 1])
    decreases |s|
  {
    if |s| == 0 || !IsWordChar(s[|s| - 1]) then 0
    else 1 + TrailingWordRun(s[..|s| - 1])
  }

  /** A suffix of `m` word characters makes the trailing run at least that long. */
  lemma {:induction false} TrailingRunAtLeast(s: string, m: nat)
    requires m <= |s|
    requires forall j | |s| - m <= j < |s| :: IsWordChar(s[j])
    ensures TrailingWordRun(s) >= m
    decreases m
  {
    if m > 0 {
      var init := s[..|s| - 1];
      assert forall j | |init| - (m - 1) <= j < |init| :: init[j] == s[j];
      TrailingRunAtLeast(init, m - 1);
    }
  }

  /** A non-word character at `p` bounds the trailing run by what follows it. */
  lemma {:induction false} TrailingRunAtMost(s: string, p: nat)
    requires p < |s| && !IsWordChar(s[p])
    ensures TrailingWordRun(s) <= |s| - p - 1
    decreases |s|
  {
    if p < |s| - 1 && IsWordChar(s[|s| - 1]) {
      var init := s[..|s| - 1];
      assert init[p] == s[p];
      TrailingRunAtMost(init, p);
    }
  }

  /** Where the expression matches, the trailing run is exactly the captured text. */
  lemma MatchDeterminesRun(name: string, p: int)
    requires RegexMatchesAt(name, p)
    ensures TrailingWordRun(name) == |name| - p - 1
  {
    TrailingRunAtLeast(name, |name| - p - 1);
    TrailingRunAtMost(name, p);
  }

  /** The captured extension `match[1]`, when the expression matches. */
  function Extension(name: string): (ext: Option<string>)
    ensures ext.Some? ==> RegexMatchesAt(name, |name| - |ext.value| - 1)
    ensures ext.Some? ==> |ext.value| < |name| && ext.value == name[|name| - |ext.value|..]
    ensures ext.None? <==> forall p | 0 <= p < |name| :: !RegexMatchesAt(name, p)
  {
    var k := TrailingWordRun(name);
    if 0 < k < |name| && name[|name| - k - 1] == '.' then Some(name[|name| - k..])
    else
      forall p | 0 <= p < |name| && RegexMatchesAt(name, p)
        ensures false
      {
        MatchDeterminesRun(name, p);
      }
      None
  }

  /** The expression can match at one position at most, so its leftmost match is the
      only one. */
  lemma RegexMatchIsUnique(name: string, p: int, q: int)
    requires RegexMatchesAt(name, p) && RegexMatchesAt(name, q)
    ensures p == q
  {
    MatchDeterminesRun(name, p);
    MatchDeterminesRun(name, q);
  }

  /** `type`: `image/<extension>` when the name ends in a dot and word characters,
      `image/jpeg` otherwise. */
  function MimeType(name: string): (mime: string)
    ensures (exists p | 0 <= p < |name| :: RegexMatchesAt(name, p)) || mime == FALLBACK_MIME
    ensures forall p | RegexMatchesAt(name, p) :: mime == "image/" + name[p + 1..]
  {
    match Extension(name)
    case Some(ext) =>
      forall p | RegexMatchesAt(name, p)
        ensures "image/" + ext == "image/" + name[p + 1..]
      {
        RegexMatchIsUnique(name, p, |name| - |ext| - 1);
      }
      "image/" + ext
    case None => FALLBACK_MIME
  }

  /** A name that ends in a dot and word characters gets the type named by them. */
  lemma DotWordNameType(stem: string, ext: string)
    requires |ext| > 0 && forall j | 0 <= j < |ext| :: IsWordChar(ext[j])
    ensures MimeType(stem + "." + ext) == "image/" + ext
  {
    var name := stem + "." + ext;
    var p := |stem|;
    assert forall j | p < j < |name| :: name[j] == ext[j - p - 1];
    assert RegexMatchesAt(name, p);
    assert name[p + 1..] == ext;
  }

  /** A fallback name `photoN.jpg` always gets the type `image/jpg`. */
  lemma FallbackNameType(n: nat)
    ensures MimeType(FallbackName(n)) == "image/jpg"
  {
    var name := FallbackName(n);
    var stem, ext := name[..|name| - 4], "jpg";
    assert name == stem + "." + ext by {
      assert name == name[..|name| - 4] + name[|name| - 4..];
    }
    assert IsWordChar(ext[0]) && IsWordChar(ext[1]) && IsWordChar(ext[2]);
    DotWordNameType(stem, ext);
  }

  /** An image whose URI ends in `/` is uploaded as `photo{index + 1}.jpg` of type
      `image/jpg`. */
  lemma FallbackNameIsJpg(uri: string, index: nat)
    requires LastSegment(uri) == ""
    ensures FileName(uri, index) == FallbackName(index + 1)
    ensures MimeType(FileName(uri, index)) == "image/jpg"
  {
    FallbackNameType(index + 1);
  }

  /** A URI ending in `/stem.ext` is uploaded under the name `stem.ext` with the type
      `image/ext`. */
  lemma NamedUriType(dir: string, stem: string, ext: string, index: nat)
    requires '/' !in stem && |ext| > 0 && forall j | 0 <= j < |ext| :: IsWordChar(ext[j])
    ensures FileName(dir + "/" + (stem + "." + ext), index) == stem + "." + ext
    ensures MimeType(FileName(dir + "/" + (stem + "." + ext), index)) == "image/" + ext
  {
    var name := stem + "." + ext;
    assert '/' !in ext by {
      forall j | 0 <= j < |ext|
        ensures ext[j] != '/'
      {
        assert IsWordChar(ext[j]);
      }
    }
    NoSlashConcat(stem, ".");
    NoSlashConcat(stem + ".", ext);
    LastSegmentAfterSlash(dir, name);
    DotWordNameType(stem, ext);
  }

  /** A name without a dot gets the fallback type. */
  lemma NoDotIsJpeg(name: string)
    requires '.' !in name
    ensures MimeType(name) == FALLBACK_MIME
  {
    assert forall p | 0 <= p < |name| :: name[p] in name;
  }

  /** The parts of an analysis upload: the first three URIs in order, each with its
      derived file name and type. */
  function AnalyzePhotoParts(uris: seq<string>): (parts: seq<UploadPart>)
    ensures |parts| <= MAX_UPLOAD_IMAGES
    ensures |parts| == |ImagesToSend(uris)|
    ensures forall i | 0 <= i < |parts| :: parts[i].uri == uris[i]
    ensures forall i | 0 <= i < |parts| ::
      parts[i].name == FileName(uris[i], i) && parts[i].mimeType == MimeType(parts[i].name)
  {
    var sent := ImagesToSend(uris);
    seq(|sent|, i requires 0 <= i < |sent| =>
      UploadPart(sent[i], FileName(sent[i], i), MimeType(FileName(sent[i], i))))
  }

  /** `sendPrompt`: an analysis of the images when at least one is given; otherwise a
      camera-settings query with the text (or a generic event) and fixed lighting and
      subject. */
  function SendPrompt(text: string, imageUris: Option<seq<string>>): (r: Request)
    ensures r.AnalyzeRequest? <==> imageUris.Some? && |imageUris.value| > 0
    ensures r.AnalyzeRequest? ==> r.prompt == text && r.parts == AnalyzePhotoParts(imageUris.value)
    ensures r.CameraSettingsRequest? ==>
      && r.eventType == (if text == "" then "general photography" else text)
      && r.lighting == "natural light"
      && r.subject == "general"
  {
    if imageUris.Some? && |imageUris.value| > 0 then
      AnalyzeRequest(AnalyzePhotoParts(imageUris.value), text)
    else
      CameraSettingsRequest(if text == "" then "general photography" else text, "natural light", "general")
  }
}
