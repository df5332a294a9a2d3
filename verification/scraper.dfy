/** The naming helpers of the scraper (scraper.py): the image URL taken
    from a card's inline style, the file extension chosen from a download's
    content type, and the file name each download is saved under. */
module Scraper {
  import opened Results
  import opened Text
  import opened Paths
  import Standardize

  // ---------------------------------------------------------------------------
  // Image URLs from inline styles
  // ---------------------------------------------------------------------------

  const UrlOpen := "url("

  predicate IsQuote(c: char) {
    c == '"'
  }

  /** `style.split('url(')[1]` raised an IndexError: the style has no
      "url(". */
  datatype ScrapeError = NoUrl(style: string)

  /** `style.split('url(')[1].split(')')[0].strip('"')`: the text after the
      first "url(", cut at the next ')' (or at a second "url(", where the first
      split already cut it), without surrounding double quotes. */
  function StyleUrl(style: string): (r: Result<string, ScrapeError>)
    ensures r.Failure? <==> !Contains(style, UrlOpen)
    ensures r.Failure? ==> r.error == NoUrl(style)
    ensures r.Success? ==> ')' !in r.value
    ensures r.Success? && r.value != [] ==> !IsQuote(r.value[0]) && !IsQuote(r.value[|r.value| - 1])
  {
    var parts := Split(style, UrlOpen);
    SplitLengthMeansContains(style, UrlOpen);
    if |parts| < 2 then Failure(NoUrl(style))
    else
      var inner := Split(parts[1], ")")[0];
      SplitPiecesAvoidSep(parts[1], ")");
      assert ')' !in inner by {
        if ')' in inner {
          var k :| 0 <= k < |inner| && inner[k] == ')';
          assert OccursAt(inner, ")", k);
        }
      }
      var url := Strip(inner, IsQuote);
      StripIsSlice(inner, IsQuote);
      assert ')' !in url;
      Success(url)
  }

  /** A split yields a second piece exactly when the separator occurs. */
  lemma {:induction false} SplitLengthMeansContains(s: string, sep: string)
    requires |sep| > 0
    ensures |Split(s, sep)| >= 2 <==> Contains(s, sep)
  {
  }

  /** A style `...url(X)...` whose text before "url(" does not contain
      "url(" yields X without surrounding double quotes, for any X free of ')'
      and of "url(": the quoted form `url("U")` and the bare form `url(U)`
      alike. */
  lemma {:induction false} StyleUrlOfUrl(prefix: string, inner: string, suffix: string)
    requires !Contains(prefix, UrlOpen)
    requires ')' !in inner && !Contains(inner, UrlOpen)
    ensures StyleUrl(prefix + UrlOpen + inner + ")" + suffix) == Success(Strip(inner, IsQuote))
  {
    var open := UrlOpen;
    assert open[1..] == "rl(";
    var tail := inner + ")" + suffix;
    var style := prefix + UrlOpen + inner + ")" + suffix;
    assert style == prefix + open + tail;
    SplitAfterPlain(prefix, open, tail);
    NoUrlOpenBeforeClose(inner, suffix);
    FirstPieceKeepsPrefix(tail, open, |inner| + 1);
    var piece := Split(tail, open)[0];
    var rest := piece[|inner| + 1..];
    assert piece[..|inner| + 1] == tail[..|inner| + 1] == inner + ")";
    assert piece == inner + ")" + rest;
    AbsentCharNotContained(inner, ')');
    SplitAfterPlain(inner, ")", rest);
    SplitLengthMeansContains(style, UrlOpen);
  }

  /** In `inner + ")" + suffix`, with `inner` free of "url(", no "url(" begins
      at or before the ')'. */
  lemma {:induction false} NoUrlOpenBeforeClose(inner: string, suffix: string)
    requires !Contains(inner, UrlOpen)
    ensures forall j: nat :: j <= |inner| ==> !OccursAt(inner + ")" + suffix, UrlOpen, j)
  {
    var t := inner + ")" + suffix;
    var open := UrlOpen;
    assert t[|inner|] == ')';
    forall j: nat | j <= |inner|
      ensures !OccursAt(t, open, j)
    {
      if j + |open| <= |inner| {
        assert t[j..j + |open|] == inner[j..j + |open|];
        assert !OccursAt(inner, open, j);
      } else {
        DiffersAt(t, open, j, |inner| - j);
      }
    }
  }

  /** Text without '(' contains no "url(". */
  lemma {:induction false} NoUrlOpenWithoutParen(s: string)
    requires '(' !in s
    ensures !Contains(s, UrlOpen)
  {
    forall j: nat | j + 4 <= |s|
      ensures !OccursAt(s, UrlOpen, j)
    {
      assert s[j + 3] in s;
      DiffersAt(s, UrlOpen, j, 3);
    }
  }

  /** The quoted form: `url("U")`, after text without "url(", yields `U` for
      any URL free of parentheses and double quotes. */
  lemma {:induction false} StyleUrlOfQuotedUrl(prefix: string, u: string, suffix: string)
    requires !Contains(prefix, UrlOpen)
    requires '(' !in u && ')' !in u && '"' !in u
    ensures StyleUrl(prefix + UrlOpen + "\"" + u + "\")" + suffix) == Success(u)
  {
    var inner := "\"" + u + "\"";
    assert prefix + UrlOpen + "\"" + u + "\")" + suffix == prefix + UrlOpen + inner + ")" + suffix;
    assert '(' !in inner && ')' !in inner;
    NoUrlOpenWithoutParen(inner);
    StyleUrlOfUrl(prefix, inner, suffix);
    StripWrapped(u, '"', IsQuote);
    assert inner == ['"'] + u + ['"'];
  }

  /** `styles[k]` is the first style without "url(". */
  predicate FirstWithoutUrl(styles: seq<string>, k: nat) {
    k < |styles| && !Contains(styles[k], UrlOpen) && forall j :: 0 <= j < k ==> Contains(styles[j], UrlOpen)
  }

  /** `urls` are the URLs of the first `|urls|` styles, in order. */
  predicate UrlsOfPrefix(styles: seq<string>, urls: seq<string>) {
    |urls| <= |styles| && forall j :: 0 <= j < |urls| ==> StyleUrl(styles[j]) == Success(urls[j])
  }

  lemma {:induction false} ExtendUrls(styles: seq<string>, urls: seq<string>, u: string)
    requires UrlsOfPrefix(styles, urls) && |urls| < |styles|
    requires StyleUrl(styles[|urls|]) == Success(u)
    ensures UrlsOfPrefix(styles, urls + [u])
  {
    var next := urls + [u];
    assert forall j :: 0 <= j < |urls| ==> next[j] == urls[j];
  }

  /** Every card's image URLs, in document order (the loop of
      `get_card_info` over the static images); the first style without
      "url(" aborts the scrape. */
  method ImageUrls(styles: seq<string>) returns (r: Result<seq<string>, ScrapeError>)
    ensures r.Success? <==> forall k :: 0 <= k < |styles| ==> Contains(styles[k], UrlOpen)
    ensures r.Success? ==> |r.value| == |styles|
    ensures r.Success? ==> forall k :: 0 <= k < |styles| ==> StyleUrl(styles[k]) == Success(r.value[k])
    ensures r.Failure? ==> exists k: nat :: FirstWithoutUrl(styles, k) && r.error == NoUrl(styles[k])
  {
    var urls := [];
    var k := 0;
    while k < |styles|
      invariant k == |urls| && UrlsOfPrefix(styles, urls)
    {
      var url := StyleUrl(styles[k]);
      if url.Failure? {
        assert FirstWithoutUrl(styles, k) by {
          forall j | 0 <= j < k ensures Contains(styles[j], UrlOpen) {
            assert StyleUrl(styles[j]).Success?;
          }
        }
        return Failure(url.error);
      }
      ExtendUrls(styles, urls, url.value);
      urls := urls + [url.value];
      k := k + 1;
    }
    assert forall j :: 0 <= j < k ==> StyleUrl(styles[j]).Success?;
    return Success(urls);
  }

  // ---------------------------------------------------------------------------
  // Download naming
  // ---------------------------------------------------------------------------

  /** The four extensions a download can be saved with. */
  predicate IsImageExtension(ext: string) {
    ext == "jpg" || ext == "png" || ext == "webp" || ext == "svg"
  }

  /** The extension for a response with the given content-type header
      (`None` when the header is missing): the lower-cased header is searched
      for "jpeg" or "jpg", then "png", "webp" and "svg", in that order, and an
      unrecognised type falls back to PNG. */
  function ExtensionFor(contentType: Option<string>): (ext: string)
    ensures IsImageExtension(ext)
    ensures contentType.None? ==> ext == "png"
    ensures var t := Lower(match contentType case None => "" case Some(h) => h);
      && (ext == "jpg" <==> Contains(t, "jpeg") || Contains(t, "jpg"))
      && (ext == "webp" || ext == "svg" ==> Contains(t, ext) && !Contains(t, "png"))
      && (ext == "svg" ==> !Contains(t, "webp"))
      && (ext == "png" ==> Contains(t, "png") || (!Contains(t, "webp") && !Contains(t, "svg")))
  {
    var t := Lower(match contentType case None => "" case Some(h) => h);
    if Contains(t, "jpeg") || Contains(t, "jpg") then "jpg"
    else if Contains(t, "png") then "png"
    else if Contains(t, "webp") then "webp"
    else if Contains(t, "svg") then "svg"
    else "png"
  }

  /** Lower-casing twice is lower-casing once. */
  lemma {:induction false} LowerIdempotent(s: string)
    ensures Lower(Lower(s)) == Lower(s)
  {
  }

  /** The classification ignores the case of the header. */
  lemma {:induction false} ExtensionIgnoresCase(h: string)
    ensures ExtensionFor(Some(Lower(h))) == ExtensionFor(Some(h))
  {
    LowerIdempotent(h);
  }

  /** The usual SVG content type is classified as SVG: it mentions none of
      the earlier candidates. */
  lemma {:induction false} ExtensionOfSvgHeader(h: string)
    requires h == "image/svg+xml"
    ensures ExtensionFor(Some(h)) == "svg"
  {
    SvgHeaderIsLowerCase(h);
    SvgHeaderMentions(h);
  }

  lemma {:induction false} SvgHeaderIsLowerCase(h: string)
    requires h == "image/svg+xml"
    ensures Lower(h) == h
  {
    LowerOfLowerCase(h);
  }

  lemma {:induction false} SvgHeaderMentions(h: string)
    requires h == "image/svg+xml"
    ensures !Contains(h, "jpeg") && !Contains(h, "jpg") && !Contains(h, "png") && !Contains(h, "webp")
    ensures Contains(h, "svg")
  {
    MissingFirstChar(h, "jpeg");
    MissingFirstChar(h, "jpg");
    MissingFirstChar(h, "png");
    MissingFirstChar(h, "webp");
    assert OccursAt(h, "svg", 6);
  }

  /** An upper-case JPEG content type is classified as JPEG. */
  lemma {:induction false} ExtensionOfUpperCaseJpeg(h: string)
    requires h == "IMAGE/JPEG"
    ensures ExtensionFor(Some(h)) == "jpg"
  {
    var t := Lower(h);
    assert t[6..10] == "jpeg";
    assert OccursAt(t, "jpeg", 6);
  }

  /** The file a download is saved as: `{images_dir}/{index}_{img_index}.{ext}`. */
  function ImageFilename(dir: string, index: nat, imgIndex: nat, ext: string): (name: string)
    ensures EndsWith(name, "." + ext)
  {
    var name := dir + "/" + NatToString(index) + "_" + NatToString(imgIndex) + "." + ext;
    assert name == (dir + "/" + NatToString(index) + "_" + NatToString(imgIndex)) + ("." + ext);
    name
  }

  /** Different downloads are saved under different names. */
  lemma {:induction false} ImageFilenameInjective(dir: string, index: nat, imgIndex: nat, ext: string,
                                                  index2: nat, imgIndex2: nat, ext2: string)
    requires ImageFilename(dir, index, imgIndex, ext) == ImageFilename(dir, index2, imgIndex2, ext2)
    ensures index == index2 && imgIndex == imgIndex2 && ext == ext2
  {
    var a, b := NatToString(index), NatToString(imgIndex);
    var a2, b2 := NatToString(index2), NatToString(imgIndex2);
    ImageFilenameAfterDir(dir, index, imgIndex, ext);
    ImageFilenameAfterDir(dir, index2, imgIndex2, ext2);
    SameTail(dir + "/", a + "_" + (b + "." + ext), a2 + "_" + (b2 + "." + ext2));
    assert '_' !in a && '_' !in a2 && '.' !in b && '.' !in b2;
    CutAtChar(a, b + "." + ext, a2, b2 + "." + ext2, '_');
    CutAtChar(b, ext, b2, ext2, '.');
    NatToStringInjective(index, index2);
    NatToStringInjective(imgIndex, imgIndex2);
  }

  lemma {:induction false} ImageFilenameAfterDir(dir: string, index: nat, imgIndex: nat, ext: string)
    ensures ImageFilename(dir, index, imgIndex, ext)
            == (dir + "/") + (NatToString(index) + "_" + (NatToString(imgIndex) + "." + ext))
  {
  }

  lemma {:induction false} SameTail(head: string, rest: string, rest2: string)
    requires head + rest == head + rest2
    ensures rest == rest2
  {
    assert rest == (head + rest)[|head|..];
    assert rest2 == (head + rest2)[|head|..];
  }

  /** A download is rasterised by the standardisation exactly when it was
      saved as an SVG. */
  lemma {:induction false} DownloadedSvgIsRasterised(dir: string, index: nat, imgIndex: nat, ext: string)
    requires IsImageExtension(ext)
    ensures Standardize.IsSvg(ImageFilename(dir, index, imgIndex, ext)) <==> ext == "svg"
  {
    var name := ImageFilename(dir, index, imgIndex, ext);
    var dotExt := "." + ext;
    assert name[|name| - |dotExt|..] == dotExt;
    assert name[|name| - 4..] == dotExt[|dotExt| - 4..];
    var svg := ".svg";
    if ext == "webp" {
      assert dotExt[|dotExt| - 4..][0] == 'w' != svg[0];
    } else if ext != "svg" {
      assert dotExt[|dotExt| - 4..][1] == ext[0] != svg[1];
    }
  }

  /** A downloaded image that is not an SVG keeps its file name when it is
      standardised into `outDir`. */
  lemma {:induction false} DownloadedImageStandardPath(dir: string, index: nat, imgIndex: nat, ext: string, outDir: string)
    requires IsImageExtension(ext) && ext != "svg"
    ensures Standardize.StandardPath(ImageFilename(dir, index, imgIndex, ext), outDir)
      == outDir + "/" + (NatToString(index) + "_" + NatToString(imgIndex) + "." + ext)
  {
    var file := NatToString(index) + "_" + NatToString(imgIndex) + "." + ext;
    var name := ImageFilename(dir, index, imgIndex, ext);
    DownloadedSvgIsRasterised(dir, index, imgIndex, ext);
    Standardize.StandardPathOfNonSvg(name, outDir);
    ImageFilenameInDir(dir, index, imgIndex, ext);
    BasenameAfterSlash(dir, file);
  }

  /** The file name proper sits after the last '/'. */
  lemma {:induction false} ImageFilenameInDir(dir: string, index: nat, imgIndex: nat, ext: string)
    requires IsImageExtension(ext)
    ensures ImageFilename(dir, index, imgIndex, ext) == dir + "/" + (NatToString(index) + "_" + NatToString(imgIndex) + "." + ext)
    ensures '/' !in NatToString(index) + "_" + NatToString(imgIndex) + "." + ext
  {
    FileNameAvoidsSlash(index, imgIndex, ext);
  }

  lemma {:induction false} FileNameAvoidsSlash(index: nat, imgIndex: nat, ext: string)
    requires IsImageExtension(ext)
    ensures '/' !in NatToString(index) + "_" + NatToString(imgIndex) + "." + ext
  {
    assert '/' !in NatToString(index) && '/' !in NatToString(imgIndex);
  }
}
