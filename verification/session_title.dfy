/**
 The title a session receives from its first prompt (`generateSessionTitle` in
 mobile/utils/sessionStorage.ts): a 30-character preview of the prompt text
 followed by an ellipsis, prefixed by a camera marker with the image count, or
 the marker alone or a default label when the text is blank.
 */
module SessionTitle {
  import opened Results
  import Decimal

  /** How many characters of the prompt the title previews. */
  const PREVIEW_LENGTH: nat := 30

  /** The title of a session with neither visible text nor images. */
  const DEFAULT_TITLE: string := "New Session"

  /** The camera emoji that opens the image marker. */
  const CAMERA: string := "\U{1F4F7}"

  const ELLIPSIS: string := "..."

  /** The characters JavaScript's `String.prototype.trim` removes: the white-space
      and line-terminator code points of ECMAScript. */
  predicate IsTrimmedSpace(c: char) {
    || c == '\t' || c == '\n' || c == '\U{000B}' || c == '\U{000C}' || c == '\r'
    || c == ' ' || c == '\U{00A0}' || c == '\U{1680}'
    || ('\U{2000}' <= c <= '\U{200A}')
    || c == '\U{2028}' || c == '\U{2029}' || c == '\U{202F}' || c == '\U{205F}'
    || c == '\U{3000}' || c == '\U{FEFF}'
  }

  /** `s.trim()` is non-empty: some character of `s` is not trimmed away. */
  predicate HasVisibleText(s: string) {
    exists i | 0 <= i < |s| :: !IsTrimmedSpace(s[i])
  }

  predicate StartsWith(s: string, prefix: string) {
    |prefix| <= |s| && s[..|prefix|] == prefix
  }

  predicate EndsWith(s: string, suffix: string) {
    |suffix| <= |s| && s[|s| - |suffix|..] == suffix
  }

  /** `images?.length || 0`: an absent list and an empty list both count 0. */
  function ImageCount(images: Option<seq<string>>): (n: nat)
    ensures images.None? ==> n == 0
    ensures images.Some? ==> n == |images.value|
  {
    match images
    case None => 0
    case Some(uris) => |uris|
  }

  /** `firstMessage.substring(0, 30)`: the first 30 characters, or all of a shorter text. */
  function Preview(text: string): (p: string)
    ensures |p| == if |text| < PREVIEW_LENGTH then |text| else PREVIEW_LENGTH
    ensures StartsWith(text, p)
  {
    if |text| < PREVIEW_LENGTH then text else text[..PREVIEW_LENGTH]
  }

  /** Text that ends with `tail` ends with a suffix exactly when `tail` does. */
  lemma SuffixThroughTail(text: string, k: nat, tail: string, suffix: string)
    requires k <= |text| && text[k..] == tail && |suffix| <= |tail|
    ensures EndsWith(text, suffix) <==> EndsWith(tail, suffix)
  {
    assert text[|text| - |suffix|..] == tail[|tail| - |suffix|..];
  }

  /** The pieces of `a + b + c` sit where their lengths put them. */
  lemma PiecesOf(a: string, b: string, c: string)
    ensures |a + b + c| == |a| + |b| + |c|
    ensures (a + b + c)[..|a|] == a
    ensures (a + b + c)[|a|..|a| + |b|] == b
    ensures (a + b + c)[|a| + |b|..] == c
  {
  }

  /** The noun after the count: singular for one image. */
  function ImageNoun(n: nat): string {
    if n == 1 then " image" else " images"
  }

  /** Only the singular noun ends in "image", and neither ends in an ellipsis. */
  lemma ImageNouns(n: nat)
    ensures |ImageNoun(n)| >= 6
    ensures EndsWith(ImageNoun(n), "image") <==> n == 1
    ensures !EndsWith(ImageNoun(n), ELLIPSIS)
  {
    var t := " images";
    assert t[|t| - 1] == 's';
  }

  /** "📷 N image" for one image, "📷 N images" for more: the camera, a space, the
      printed count, then the noun. */
  function ImageMarker(n: nat): (m: string)
    requires n > 0
    ensures StartsWith(m, CAMERA + " ")
    ensures |CAMERA| + 1 + |Decimal.NatToString(n)| < |m|
    ensures m[|CAMERA| + 1..|CAMERA| + 1 + |Decimal.NatToString(n)|] == Decimal.NatToString(n)
    ensures m[|CAMERA| + 1 + |Decimal.NatToString(n)|..] == ImageNoun(n)
    ensures EndsWith(m, "image") <==> n == 1
    ensures !EndsWith(m, ELLIPSIS)
  {
    var digits := Decimal.NatToString(n);
    var m := CAMERA + " " + digits + ImageNoun(n);
    PiecesOf(CAMERA + " ", digits, ImageNoun(n));
    ImageNouns(n);
    SuffixThroughTail(m, |CAMERA| + 1 + |digits|, ImageNoun(n), "image");
    SuffixThroughTail(m, |CAMERA| + 1 + |digits|, ImageNoun(n), ELLIPSIS);
    m
  }

  function GenerateSessionTitle(firstMessage: string, images: Option<seq<string>>): (r: string)
    // the ellipsis marks exactly the titles built from visible text
    ensures EndsWith(r, ELLIPSIS) <==> HasVisibleText(Preview(firstMessage))
    // the default label is used exactly when there is nothing else to show
    ensures r == DEFAULT_TITLE <==> ImageCount(images) == 0 && !HasVisibleText(Preview(firstMessage))
    // a title with images opens with the marker
    ensures ImageCount(images) > 0 ==> StartsWith(r, ImageMarker(ImageCount(images)))
    // a title without images but with text is the preview and the ellipsis
    ensures ImageCount(images) == 0 && HasVisibleText(Preview(firstMessage))
      ==> r == Preview(firstMessage) + ELLIPSIS
    // a title with images and blank text is the marker alone
    ensures ImageCount(images) > 0 && !HasVisibleText(Preview(firstMessage))
      ==> r == ImageMarker(ImageCount(images))
  {
    var n := ImageCount(images);
    var preview := Preview(firstMessage);
    if HasVisibleText(preview) then
      if n > 0 then
        var m := ImageMarker(n);
        MarkedTitle(m, preview);
        m + " - " + preview + ELLIPSIS
      else
        PlainTitle(preview);
        preview + ELLIPSIS
    else if n > 0 then
      MarkedTitle(ImageMarker(n), "");
      ImageMarker(n)
    else
      assert DEFAULT_TITLE[|DEFAULT_TITLE| - 3..] != ELLIPSIS;
      DEFAULT_TITLE
  }

  /** A marker followed by the separator, a text and the ellipsis keeps the marker and
      ends with the ellipsis; no marker is the default label. */
  lemma MarkedTitle(m: string, text: string)
    requires StartsWith(m, CAMERA + " ")
    ensures StartsWith(m + " - " + text + ELLIPSIS, m)
    ensures EndsWith(m + " - " + text + ELLIPSIS, ELLIPSIS)
    ensures m != DEFAULT_TITLE && m + " - " + text + ELLIPSIS != DEFAULT_TITLE
  {
    var r := m + " - " + text + ELLIPSIS;
    assert r[..|m|] == m;
    assert r[|r| - 3..] == ELLIPSIS;
    assert m[0] == CAMERA[0] && r[0] == m[0];
  }

  /** A text followed by the ellipsis ends with it, and is not the default label. */
  lemma PlainTitle(text: string)
    ensures EndsWith(text + ELLIPSIS, ELLIPSIS)
    ensures text + ELLIPSIS != DEFAULT_TITLE
  {
    var r := text + ELLIPSIS;
    assert r[|r| - 3..] == ELLIPSIS;
    assert DEFAULT_TITLE[|DEFAULT_TITLE| - 3..] != ELLIPSIS;
  }

  /** With visible text, the preview sits right before the ellipsis, after the
      marker and separator when there are images. */
  lemma TitleEndsWithPreview(firstMessage: string, images: Option<seq<string>>)
    requires HasVisibleText(Preview(firstMessage))
    ensures var r := GenerateSessionTitle(firstMessage, images);
      var p := Preview(firstMessage);
      && |p| + |ELLIPSIS| <= |r|
      && r[|r| - |ELLIPSIS| - |p|..|r| - |ELLIPSIS|] == p
      && (ImageCount(images) > 0 ==>
            r == ImageMarker(ImageCount(images)) + " - " + p + ELLIPSIS)
  {
  }

  /** The ellipsis is added to short text too. */
  lemma ShortTextGetsEllipsis()
    ensures GenerateSessionTitle("hi", None) == "hi..."
  {
    assert Preview("hi") == "hi";
    assert !IsTrimmedSpace("hi"[0]);
  }

  /** A long prompt is cut to its first 30 characters. */
  lemma LongTextIsCut()
    ensures GenerateSessionTitle("bright sunny beach wedding with golden hour lighting", None)
      == "bright sunny beach wedding wit..."
  {
    var text := "bright sunny beach wedding with golden hour lighting";
    var p := "bright sunny beach wedding wit";
    assert Preview(text) == text[..30] == p;
    assert !IsTrimmedSpace(p[0]);
  }

  /** Blank text with images gives the marker alone: camera, count and noun. */
  lemma BlankTextShowsMarker(firstMessage: string, images: Option<seq<string>>)
    requires ImageCount(images) > 0 && !HasVisibleText(Preview(firstMessage))
    ensures var n := ImageCount(images);
      GenerateSessionTitle(firstMessage, images)
        == CAMERA + " " + Decimal.NatToString(n) + ImageNoun(n)
  {
    MarkerParts(ImageCount(images));
  }

  /** Blank text with two images gives the plural marker alone. */
  lemma TwoImagesNoText(a: string, b: string)
    ensures GenerateSessionTitle("", Some([a, b])) == CAMERA + " 2 images"
  {
    assert !HasVisibleText(Preview(""));
    assert ImageCount(Some([a, b])) == 2;
    BlankTextShowsMarker("", Some([a, b]));
    assert Decimal.NatToString(2) == "2" && ImageNoun(2) == " images";
    assert " " + "2" + " images" == " 2 images";
    assert CAMERA + " " + "2" + " images" == CAMERA + (" " + "2" + " images");
  }

  /** Blank text with an empty image list gives the default label. */
  lemma EmptyImagesNoText()
    ensures GenerateSessionTitle("   ", Some([])) == DEFAULT_TITLE
  {
  }

  /** The digits after the camera read back as the image count. */
  lemma MarkerCountReadsBack(n: nat)
    requires n > 0
    ensures Decimal.LeadingCount(ImageMarker(n)[|CAMERA| + 1..]) == n
  {
    var m := ImageMarker(n);
    var k := |CAMERA| + 1;
    var d := Decimal.NatToString(n);
    assert m[k..] == d + ImageNoun(n) by {
      ThreeParts(m[k..], 0, |d|);
    }
    Decimal.CountReadsBack(n, ImageNoun(n));
  }

  /** The marker is the camera, a space, the printed count and the noun. */
  lemma MarkerParts(n: nat)
    requires n > 0
    ensures ImageMarker(n)
      == CAMERA + " " + Decimal.NatToString(n) + ImageNoun(n)
  {
    var k := |CAMERA| + 1;
    ThreeParts(ImageMarker(n), k, k + |Decimal.NatToString(n)|);
  }

  /** A text is the concatenation of its pieces around two cut points. */
  lemma ThreeParts(s: string, i: nat, j: nat)
    requires i <= j <= |s|
    ensures s == s[..i] + s[i..j] + s[j..]
  {
  }
}
