/** Image standardisation (standardize_images.py): every image of the
    scraped records is rasterised or copied into one output directory,
    letter-boxed onto a 448x448 canvas, and checked against a size limit.
    Pixels are not modelled: an image is its dimensions, a file is its byte
    count, and what the script does to the file system is returned as a
    list of effects. */
module Standardize {
  import opened Results
  import opened Text
  import opened Paths
  import opened Dataset

  const MiB: nat := 1024 * 1024

  /** Width and height of an image in pixels (PIL's `img.size`). */
  datatype Size = Size(width: nat, height: nat)

  /** The canvas every image is padded onto. */
  const DefaultTarget := Size(448, 448)

  /** The `max_size_mb` default of every function of the script. */
  const DefaultMaxMb: nat := 5

  predicate Fits(inner: Size, outer: Size) {
    inner.width <= outer.width && inner.height <= outer.height
  }

  /** What PIL's `thumbnail(target)` promises about the size `t` it shrinks
      `source` to: it fits the target, never grows the image, and leaves an
      image that already fits untouched. */
  predicate IsThumbnail(source: Size, target: Size, t: Size) {
    Fits(t, target) && Fits(t, source) && (Fits(source, target) ==> t == source)
  }

  // ---------------------------------------------------------------------------
  // resize_with_padding
  // ---------------------------------------------------------------------------

  /** Pasting an image of size `content` onto a black canvas at offset
      (`left`, `top`) and saving the result to `outPath`. */
  datatype Paste = Paste(canvas: Size, content: Size, left: int, top: int, outPath: string)

  /** The pasted image lies wholly on the canvas: nothing is cropped. */
  predicate Contained(p: Paste) {
    0 <= p.left && p.left + p.content.width <= p.canvas.width &&
    0 <= p.top && p.top + p.content.height <= p.canvas.height
  }

  /** The padding on the right (bottom) equals that on the left (top), or
      exceeds it by one pixel when the total padding is odd. */
  predicate Centred(p: Paste) {
    var right := p.canvas.width - p.content.width - p.left;
    var bottom := p.canvas.height - p.content.height - p.top;
    (right == p.left || right == p.left + 1) && (bottom == p.top || bottom == p.top + 1)
  }

  /** `resize_with_padding(im_path, out_dir, target)` for an image of size
      `source` that PIL's `thumbnail` shrinks to `thumb`. Returns the input
      path and the paste it performs, or `None` when the image already has
      the target size and nothing is written. */
  function ResizeWithPadding(imPath: string, outDir: string, source: Size, target: Size, thumb: Size)
    : (r: (string, Option<Paste>))
    ensures r.0 == imPath
    ensures r.1.None? <==> source == target
    ensures r.1.Some? ==> r.1.value.canvas == target && r.1.value.content == thumb
    ensures r.1.Some? ==> r.1.value.outPath == JoinPath(outDir, Basename(imPath))
    ensures r.1.Some? ==> Centred(r.1.value)
    ensures r.1.Some? && Fits(thumb, target) ==> Contained(r.1.value)
  {
    if source == target then (imPath, None)
    else
      // Python's `//` floors; for the divisor 2 that is Dafny's Euclidean `/`,
      // negative numerators included.
      var left := (target.width - thumb.width) / 2;
      var top := (target.height - thumb.height) / 2;
      (imPath, Some(Paste(target, thumb, left, top, JoinPath(outDir, Basename(imPath)))))
  }

  /** An image that already fits the canvas but differs from it is pasted at
      its own size: padding, never scaling. */
  lemma {:induction false} SmallImagesArePadded(imPath: string, outDir: string, source: Size, target: Size, thumb: Size)
    requires IsThumbnail(source, target, thumb) && Fits(source, target) && source != target
    ensures ResizeWithPadding(imPath, outDir, source, target, thumb).1.Some?
    ensures ResizeWithPadding(imPath, outDir, source, target, thumb).1.value.content == source
    ensures Contained(ResizeWithPadding(imPath, outDir, source, target, thumb).1.value)
  {
  }

  /** The padded image has exactly the target size and hides nothing of the
      thumbnail, whatever the source size. */
  lemma {:induction false} PaddedImageHasTargetSize(imPath: string, outDir: string, source: Size, target: Size, thumb: Size)
    requires IsThumbnail(source, target, thumb) && source != target
    ensures var p := ResizeWithPadding(imPath, outDir, source, target, thumb).1.value;
      p.canvas == target && Contained(p) && Centred(p)
  {
  }

  /** For an image that already lives in the output directory, the padded
      image overwrites the file it was read from: the very path when `outDir`
      has no trailing '/', the same file spelt with one '/' when it has one.
      With the empty directory the image sits at the root, but the padding is
      saved to a relative path. */
  lemma {:induction false} ResizeWritesInPlace(outDir: string, name: string)
    requires '/' !in name
    ensures outDir != [] ==> FileKey(JoinPath(outDir, Basename(outDir + "/" + name))) == FileKey(outDir + "/" + name)
    ensures outDir != [] && outDir[|outDir| - 1] != '/' ==> JoinPath(outDir, Basename(outDir + "/" + name)) == outDir + "/" + name
    ensures outDir == [] ==> FileKey(JoinPath(outDir, Basename(outDir + "/" + name))) != FileKey(outDir + "/" + name)
  {
    BasenameAfterSlash(outDir, name);
    assert name == [] || name[0] != '/' by {
      if name != [] {
        assert name[0] in name;
      }
    }
    if outDir != [] {
      JoinPathSameFile(outDir, name);
    } else {
      JoinPathOntoEmpty(name);
    }
  }

  // ---------------------------------------------------------------------------
  // Size limits
  // ---------------------------------------------------------------------------

  function ByteLimit(maxMb: nat): nat {
    maxMb * MiB
  }

  /** `check_valid_image_size`: the file is at most `maxMb` MiB. */
  predicate CheckValidImageSize(bytes: nat, maxMb: nat) {
    bytes <= ByteLimit(maxMb)
  }

  /** The acceptance test inside `compress_image`, which is strict. */
  predicate CompressAccepts(bytes: nat, maxMb: nat) {
    bytes < ByteLimit(maxMb)
  }

  /** A compressed file is always a valid one, but a file of exactly the
      limit is valid without being accepted by the compressor. */
  lemma {:induction false} CompressAcceptsOnlyValid(bytes: nat, maxMb: nat)
    ensures CompressAccepts(bytes, maxMb) ==> CheckValidImageSize(bytes, maxMb)
    ensures CheckValidImageSize(bytes, maxMb) && !CompressAccepts(bytes, maxMb) <==> bytes == ByteLimit(maxMb)
  {
  }

  // ---------------------------------------------------------------------------
  // compress_image
  // ---------------------------------------------------------------------------

  /** The output path as the script computes it: every occurrence of the
      extension in the path is replaced, and an empty extension (a path with
      none) matches between every pair of characters. */
  function CompressedPathAsWritten(p: string): string {
    var ext := SplitExt(p).1;
    ReplaceAll(p, ext, "_compressed" + ext)
  }

  /** The output path as intended: "_compressed" inserted before the
      extension. */
  function CompressedPath(p: string): (r: string)
    ensures r == SplitExt(p).0 + "_compressed" + SplitExt(p).1
    ensures |r| == |p| + 11
  {
    var (root, ext) := SplitExt(p);
    root + "_compressed" + ext
  }

  /** The intended output path keeps the extension of the input. */
  lemma {:induction false} CompressedPathKeepsExtension(p: string)
    ensures SplitExt(CompressedPath(p)).1 == SplitExt(p).1
    ensures SplitExt(CompressedPath(p)).0 == SplitExt(p).0 + "_compressed"
  {
    CompressedPathLayout(p);
    if SplitExt(p).1 == [] {
      CompressedPathWithoutExtension(p);
    } else {
      CompressedPathWithExtension(p);
    }
  }

  /** Where the characters of `CompressedPath(p)` come from, and that the
      last '/' stays where it was. */
  lemma {:induction false} CompressedPathLayout(p: string)
    ensures var root := SplitExt(p).0; var ext := SplitExt(p).1; var r := CompressedPath(p);
      && (forall j :: 0 <= j < |root| ==> r[j] == p[j])
      && (forall j :: |root| <= j < |root| + 11 ==> r[j] != '.' && r[j] != '/')
      && (forall j :: |root| + 11 <= j < |r| ==> r[j] == ext[j - |root| - 11])
      && RFind(CompressedPath(p), '/') == RFind(p, '/')
  {
    var root := SplitExt(p).0;
    var ext := SplitExt(p).1;
    var r := CompressedPath(p);
    var mid := root + "_compressed";
    assert |mid| == |root| + 11;
    CompressedPathChars(p, root, ext, r, mid);
    RFindSlash(p, r, |root|, ext, mid);
  }

  lemma {:induction false} CompressedPathChars(p: string, root: string, ext: string, r: string, mid: string)
    requires p == root + ext && mid == root + "_compressed" && r == mid + ext
    ensures forall j :: 0 <= j < |root| ==> r[j] == p[j]
    ensures forall j :: |root| <= j < |mid| ==> r[j] != '.' && r[j] != '/'
    ensures forall j :: |mid| <= j < |r| ==> r[j] == ext[j - |mid|]
    ensures p[|root|..] == ext
  {
    forall j | |root| <= j < |mid|
      ensures r[j] != '.' && r[j] != '/'
    {
      assert r[j] == "_compressed"[j - |root|];
    }
    assert r[|mid|..] == ext && r[..|root|] == p[..|root|];
    LayoutOfConcat(r, p, |root|, |mid|, ext);
  }

  lemma {:induction false} LayoutOfConcat(r: string, p: string, k: nat, m: nat, ext: string)
    requires k <= m <= |r| && k <= |p| && r[m..] == ext && r[..k] == p[..k]
    ensures forall j :: m <= j < |r| ==> r[j] == ext[j - m]
    ensures forall j :: 0 <= j < k ==> r[j] == p[j]
  {
    assert forall j :: 0 <= j < k ==> r[j] == r[..k][j] && p[j] == p[..k][j];
  }

  lemma {:induction false} CompressedPathWithoutExtension(p: string)
    requires SplitExt(p).1 == []
    requires var r := CompressedPath(p);
      && (forall j :: 0 <= j < |p| ==> r[j] == p[j])
      && (forall j :: |p| <= j < |r| ==> r[j] != '.')
      && RFind(r, '/') == RFind(p, '/')
    ensures SplitExt(CompressedPath(p)) == (CompressedPath(p), [])
  {
    var r := CompressedPath(p);
    assert r[..|p|] == p;
    RFindAbsentTail(p, r, '.');
  }

  lemma {:induction false} CompressedPathWithExtension(p: string)
    requires SplitExt(p).1 != []
    requires var (root, ext) := SplitExt(p); var r := CompressedPath(p);
      && (forall j :: |root| <= j < |root| + 11 ==> r[j] != '.')
      && (forall j :: |root| + 11 <= j < |r| ==> r[j] == ext[j - |root| - 11])
      && RFind(r, '/') == RFind(p, '/')
    ensures SplitExt(CompressedPath(p)) == (SplitExt(p).0 + "_compressed", SplitExt(p).1)
  {
    var (root, ext) := SplitExt(p);
    var r := CompressedPath(p);
    var m := |root| + 11;
    assert r[m] == '.';
    forall j | m < j < |r|
      ensures r[j] != '.'
    {
      assert r[j] == ext[1..][j - m - 1];
    }
    RFindIsLast(r, '.', m);
    ExtensionAtLastDot(p);
    assert NameStart(r) == NameStart(p);
    SplitAtLastDot(r, m, |root|);
    assert r[m..] == ext;
    assert r[..m] == root + "_compressed";
  }

  /** Appending text free of `c` to `p` leaves the last `c` where it was. */
  lemma {:induction false} RFindAbsentTail(p: string, r: string, c: char)
    requires |p| <= |r| && r[..|p|] == p
    requires forall j :: |p| <= j < |r| ==> r[j] != c
    ensures RFind(r, c) == RFind(p, c)
  {
    match RFind(p, c)
    case None =>
      assert forall j :: 0 <= j < |p| ==> r[j] == p[j];
      RFindAbsent(r, c);
    case Some(i) =>
      assert r[i] == p[i];
      RFindIsLast(r, c, i);
  }

  /** `CompressedPath` leaves the last '/' of the path where it was. */
  lemma {:induction false} RFindSlash(p: string, r: string, k: nat, ext: string, mid: string)
    requires k <= |p| && |p| == k + |ext| && |r| == |mid| + |ext| && k <= |mid|
    requires '/' !in ext
    requires forall j :: 0 <= j < k ==> r[j] == p[j]
    requires forall j :: k <= j < |mid| ==> r[j] != '.' && r[j] != '/'
    requires forall j :: |mid| <= j < |r| ==> r[j] == ext[j - |mid|]
    requires p[k..] == ext
    ensures RFind(r, '/') == RFind(p, '/')
  {
    assert forall j :: k <= j < |p| ==> p[j] != '/' by {
      forall j | k <= j < |p|
        ensures p[j] != '/'
      {
        assert p[j] == ext[j - k];
      }
    }
    match RFind(p, '/')
    case None =>
      forall j | 0 <= j < |r|
        ensures r[j] != '/'
      {
        if j < k {
          assert r[j] == p[j];
        } else if j >= |mid| {
          assert r[j] == ext[j - |mid|];
        }
      }
      RFindAbsent(r, '/');
    case Some(i) =>
      assert i < k;
      forall j | i < j < |r|
        ensures r[j] != '/'
      {
        if j < k {
          assert r[j] == p[j];
        } else if j >= |mid| {
          assert r[j] == ext[j - |mid|];
        }
      }
      RFindIsLast(r, '/', i);
  }

  /** Where the extension occurs in the path only at its end, the script's
      output path is the intended one. */
  lemma {:induction false} CompressedPathAsWrittenAgrees(p: string)
    requires SplitExt(p).1 != [] && Find(p, SplitExt(p).1) == Some(|SplitExt(p).0|)
    ensures CompressedPathAsWritten(p) == CompressedPath(p)
  {
    var (root, ext) := SplitExt(p);
    assert p[..|root|] == root && p[|root| + |ext|..] == [];
    EmptySplit(ext);
    var parts := [root] + [[]];
    assert Split(p, ext) == parts;
    assert parts[1..] == [[]];
    assert Join(parts, "_compressed" + ext) == root + ("_compressed" + ext) + [];
  }

  /** Any path without an extension gets "_compressed" inserted between every
      pair of characters instead of appended once. */
  lemma {:induction false} CompressedPathAsWrittenWithoutExtension(p: string)
    requires p != [] && SplitExt(p).1 == []
    ensures |CompressedPathAsWritten(p)| == |p| + (|p| + 1) * 11
    ensures CompressedPathAsWritten(p) != CompressedPath(p)
  {
    var c := "_compressed";
    assert c + [] == c;
    assert CompressedPathAsWritten(p) == Interleave(p, c);
    assert |CompressedPath(p)| == |p| + 11;
  }

  /** The smallest witness: "img" becomes
      "_compressedi_compressedm_compressedg_compressed", not "img_compressed". */
  lemma {:induction false} CompressedPathAsWrittenOfImg(p: string, c: string)
    requires p == "img" && c == "_compressed"
    ensures CompressedPath(p) == p + c
    ensures CompressedPathAsWritten(p) == c + "i" + c + "m" + c + "g" + c
  {
    RFindAbsent(p, '.');
    assert SplitExt(p) == (p, []);
    assert c + [] == c;
    assert CompressedPathAsWritten(p) == Interleave(p, c);
    InterleaveThree(p, c);
  }

  lemma {:induction false} InterleaveThree(p: string, c: string)
    requires |p| == 3
    ensures Interleave(p, c) == c + [p[0]] + c + [p[1]] + c + [p[2]] + c
  {
    var t := Interleave(p[2..], c);
    assert p[2..][0] == p[2] && p[2..][1..] == [];
    assert Interleave([], c) == c;
    assert t == c + [p[2]] + c;
    assert p[1..][1..] == p[2..];
    assert Interleave(p[1..], c) == c + [p[1]] + t;
  }

  /** `compress_image(in_path, max_size_mb)`, where `sizeAt(q)` is the size in
      bytes of the JPEG the script saves at quality `q`. Qualities 95, 90, ...,
      15 are tried in turn and the first whose file is under the limit is
      kept; `quality` reports which one (10 when none was). The path returned
      is the one the script computes, which is the intended one exactly when
      the extension occurs in the path only at its end. */
  method CompressImage(inPath: string, maxMb: nat, sizeAt: nat -> nat) returns (out: Option<string>, quality: nat)
    ensures out.Some? ==> out.value == CompressedPathAsWritten(inPath)
    ensures out.Some? && SplitExt(inPath).1 != [] && Find(inPath, SplitExt(inPath).1) == Some(|SplitExt(inPath).0|) ==>
      out.value == CompressedPath(inPath)
    ensures out.Some? && inPath != [] && SplitExt(inPath).1 == [] ==> out.value != CompressedPath(inPath)
    ensures out.Some? ==> 10 < quality <= 95 && quality % 5 == 0 && CompressAccepts(sizeAt(quality), maxMb)
    ensures out.None? ==> quality == 10
    ensures forall q :: quality < q <= 95 && q % 5 == 0 ==> !CompressAccepts(sizeAt(q), maxMb)
  {
    quality := 95;
    while quality > 10
      invariant 10 <= quality <= 95 && quality % 5 == 0
      invariant forall q :: quality < q <= 95 && q % 5 == 0 ==> !CompressAccepts(sizeAt(q), maxMb)
    {
      if CompressAccepts(sizeAt(quality), maxMb) {
        if SplitExt(inPath).1 != [] && Find(inPath, SplitExt(inPath).1) == Some(|SplitExt(inPath).0|) {
          CompressedPathAsWrittenAgrees(inPath);
        }
        if inPath != [] && SplitExt(inPath).1 == [] {
          CompressedPathAsWrittenWithoutExtension(inPath);
        }
        return Some(CompressedPathAsWritten(inPath)), quality;
      }
      quality := quality - 5;
    }
    return None, quality;
  }

  /** The compressor gives up exactly when no quality from 95 down to 15
      brings the file under the limit, and otherwise keeps the highest
      quality that does. */
  lemma {:induction false} CompressImageGivesUpOnlyWhenNothingFits(maxMb: nat, sizeAt: nat -> nat, quality: nat)
    requires 10 <= quality <= 95 && quality % 5 == 0
    requires forall q :: quality < q <= 95 && q % 5 == 0 ==> !CompressAccepts(sizeAt(q), maxMb)
    requires quality > 10 ==> CompressAccepts(sizeAt(quality), maxMb)
    ensures quality == 10 <==> forall q :: 10 < q <= 95 && q % 5 == 0 ==> !CompressAccepts(sizeAt(q), maxMb)
  {
  }

  // ---------------------------------------------------------------------------
  // prepare_dataset
  // ---------------------------------------------------------------------------

  /** What `prepare_dataset` does to the file system, in order. */
  datatype Effect =
    | Rasterize(src: string, dst: string)  // cairosvg.svg2png
    | Copy(src: string, dst: string)       // shutil.copy
    | Resize(src: string, paste: Paste)    // resize_with_padding writing a file
    | Warn(path: string, shownMb: nat)     // the printed size warning

  predicate IsSvg(p: string) {
    EndsWith(p, ".svg")
  }

  /** The file name an SVG is rasterised to: the final component of the path
      with every ".svg" in it replaced by ".png". */
  function PngName(p: string): (name: string)
    ensures '/' !in name
  {
    Basename(ReplaceAll(p, ".svg", ".png"))
  }

  /** The path an image is recorded under once it is in `outDir`: the
      directory, a '/', and the image's own file name (its PNG name for an
      SVG), wherever the rasteriser put the file. */
  function StandardPath(p: string, outDir: string): (r: string)
    ensures r == outDir + "/" + (if IsSvg(p) then PngName(p) else Basename(p))
  {
    if IsSvg(p) then
      var newPath := JoinPath(outDir, PngName(p));
      BasenameOfJoin(outDir, PngName(p));
      outDir + "/" + Basename(newPath)
    else
      outDir + "/" + Basename(p)
  }

  /** An SVG is rasterised to a ".png" file name. */
  lemma {:induction false} PngNameOfSvg(p: string)
    requires IsSvg(p)
    ensures EndsWith(PngName(p), ".png")
  {
    var svg, png := ".svg", ".png";
    assert svg[1..] == "svg";
    SplitEndingInSep(p, svg);
    JoinEndingInEmpty(Split(p, svg), png);
    BasenameKeepsSuffix(ReplaceAll(p, svg, png), png);
  }

  /** An SVG is recorded as a ".png" file. */
  lemma {:induction false} SvgBecomesPng(p: string, outDir: string)
    requires IsSvg(p)
    ensures EndsWith(StandardPath(p, outDir), ".png")
  {
    PngNameOfSvg(p);
    EndsWithAppend(outDir + "/", PngName(p), ".png");
  }

  /** Recording paths, one per image. */
  function StandardPaths(paths: seq<string>, outDir: string): (r: seq<string>)
    ensures |r| == |paths|
    ensures forall k :: 0 <= k < |paths| ==> r[k] == StandardPath(paths[k], outDir)
  {
    seq(|paths|, k requires 0 <= k < |paths| => StandardPath(paths[k], outDir))
  }

  /** Rasterising an SVG into `outDir`, or copying any other image there. */
  function ConvertEffect(p: string, outDir: string): (e: Effect)
    ensures e.Rasterize? <==> IsSvg(p)
    ensures (e.Rasterize? || e.Copy?) && e.src == p
  {
    if IsSvg(p) then Rasterize(p, JoinPath(outDir, PngName(p))) else Copy(p, StandardPath(p, outDir))
  }

  /** The file a conversion writes is the one the record points to: a copy
      writes the recorded path itself, and a rasterisation writes it too when
      `outDir` has no trailing '/', the same file spelt with one '/' when it
      has one, and a different, relative file when `outDir` is empty. */
  lemma {:induction false} ConversionWritesRecordedPath(p: string, outDir: string)
    ensures !IsSvg(p) ==> ConvertEffect(p, outDir).dst == StandardPath(p, outDir)
    ensures outDir != [] ==> FileKey(ConvertEffect(p, outDir).dst) == FileKey(StandardPath(p, outDir))
    ensures outDir != [] && outDir[|outDir| - 1] != '/' ==> ConvertEffect(p, outDir).dst == StandardPath(p, outDir)
    ensures outDir == [] && IsSvg(p) ==> FileKey(ConvertEffect(p, outDir).dst) != FileKey(StandardPath(p, outDir))
  {
    if IsSvg(p) {
      var name := PngName(p);
      assert name == [] || name[0] != '/' by {
        if name != [] {
          assert name[0] in name;
        }
      }
      if outDir != [] {
        JoinPathSameFile(outDir, name);
      } else {
        JoinPathOntoEmpty(name);
      }
    }
  }

  function ConvertEffects(paths: seq<string>, outDir: string): (es: seq<Effect>)
    ensures |es| == |paths|
    ensures forall k :: 0 <= k < |paths| ==> es[k] == ConvertEffect(paths[k], outDir)
  {
    seq(|paths|, k requires 0 <= k < |paths| => ConvertEffect(paths[k], outDir))
  }

  // ---------------------------------------------------------------------------
  // The files during a run
  // ---------------------------------------------------------------------------

  /** What a file holds: the file found at `path` before the run, the PNG
      cairosvg renders of an SVG, or the letter-boxed image
      `resize_with_padding` saves of another image. */
  datatype Image = Original(path: string) | Rasterized(svg: Image) | Padded(from: Image)

  /** The files the run has written so far, by `FileKey`; every other file
      still holds what it held before the run. */
  type Files = map<string, Image>

  /** What the file named by `p` holds, however `p` spells it. */
  function Read(files: Files, p: string): Image {
    var key := FileKey(p);
    if key in files then files[key] else Original(key)
  }

  /** The files after `img` is written to the file named by `p`. */
  function Write(files: Files, p: string, img: Image): Files {
    files[FileKey(p) := img]
  }

  /** The files a sequence of paths names, in order. */
  function Keys(paths: seq<string>): (ks: seq<string>)
    ensures |ks| == |paths|
    ensures forall k :: 0 <= k < |paths| ==> ks[k] == FileKey(paths[k])
  {
    seq(|paths|, k requires 0 <= k < |paths| => FileKey(paths[k]))
  }

  lemma {:induction false} KeysAppend(a: seq<string>, b: seq<string>)
    ensures Keys(a + b) == Keys(a) + Keys(b)
  {
  }

  /** The files named by a non-empty sequence of paths: the first path's,
      and those of the rest. */
  lemma {:induction false} KeysCons(paths: seq<string>)
    requires paths != []
    ensures Keys(paths[1..]) == Keys(paths)[1..]
    ensures forall x :: x in Keys(paths) <==> x == FileKey(paths[0]) || x in Keys(paths[1..])
  {
    assert Keys(paths) == [FileKey(paths[0])] + Keys(paths[1..]);
  }

  /** What PIL and the file system report about an image: its dimensions,
      the size PIL's `thumbnail` shrinks it to, and its size in bytes. */
  datatype Disk = Disk(dims: Image -> Size, thumb: Image -> Size, bytes: Image -> nat)

  /** The dimensions of an image; a padded image has the canvas size. */
  function Dims(disk: Disk, img: Image): Size {
    if img.Padded? then DefaultTarget else disk.dims(img)
  }

  /** The files after one effect: a rasterisation or a copy writes its
      destination from what its source holds at that moment, a padding writes
      its output path, and a warning writes nothing. */
  function Apply(files: Files, e: Effect): Files {
    match e
    case Rasterize(src, dst) => Write(files, dst, Rasterized(Read(files, src)))
    case Copy(src, dst) => Write(files, dst, Read(files, src))
    case Resize(src, paste) => Write(files, paste.outPath, Padded(Read(files, src)))
    case Warn(_, _) => files
  }

  /** The files after a sequence of effects, applied in order. */
  function ApplyAll(files: Files, es: seq<Effect>): Files
    decreases |es|
  {
    if es == [] then files else ApplyAll(Apply(files, es[0]), es[1..])
  }

  lemma {:induction false} ApplyAllAppend(files: Files, a: seq<Effect>, b: seq<Effect>)
    ensures ApplyAll(files, a + b) == ApplyAll(ApplyAll(files, a), b)
    decreases |a|
  {
    if a == [] {
      assert a + b == b;
    } else {
      assert (a + b)[0] == a[0] && (a + b)[1..] == a[1..] + b;
      ApplyAllAppend(Apply(files, a[0]), a[1..], b);
    }
  }

  /** Warnings write no file. */
  lemma {:induction false} ApplyWarnings(files: Files, es: seq<Effect>)
    requires forall k :: 0 <= k < |es| ==> es[k].Warn?
    ensures ApplyAll(files, es) == files
    decreases |es|
  {
    if es != [] {
      ApplyWarnings(files, es[1..]);
    }
  }

  // ---------------------------------------------------------------------------
  // The second loop of prepare_dataset: padding and size checks
  // ---------------------------------------------------------------------------

  /** The padding `resize_with_padding(p, outDir)` makes of the image `img`
      it finds at `p`, if any. */
  function PaddingOf(p: string, outDir: string, disk: Disk, img: Image): Option<Paste> {
    ResizeWithPadding(p, outDir, Dims(disk, img), DefaultTarget, disk.thumb(img)).1
  }

  /** A way of padding: the padding made of the image found at a path. */
  type Pads = (string, Image) -> Option<Paste>

  /** `resize_with_padding` into `outDir`, as a function of the path and the
      image found there. The loop below takes its padding as a parameter, so
      that what it relies on is stated once, by the two predicates after it. */
  function PadInto(outDir: string, disk: Disk): (pad: Pads)
    ensures forall p, img :: pad(p, img) == PaddingOf(p, outDir, disk, img)
  {
    (p, img) => PaddingOf(p, outDir, disk, img)
  }

  /** `pad` leaves exactly the canvas-sized images alone. */
  ghost predicate PadsOffSize(pad: Pads, disk: Disk) {
    forall p, img :: pad(p, img).None? <==> Dims(disk, img) == DefaultTarget
  }

  /** `pad` saves the padded image of each of `paths` over the file that
      path names. */
  ghost predicate PadsInPlace(pad: Pads, paths: seq<string>) {
    forall k, img :: 0 <= k < |paths| && pad(paths[k], img).Some? ==> FileKey(pad(paths[k], img).value.outPath) == FileKey(paths[k])
  }

  /** `resize_with_padding` pads exactly the images that do not already have
      the canvas size. */
  lemma {:induction false} PadIntoPadsOffSize(outDir: string, disk: Disk)
    ensures PadsOffSize(PadInto(outDir, disk), disk)
  {
    var pad := PadInto(outDir, disk);
    forall p, img
      ensures pad(p, img).None? <==> Dims(disk, img) == DefaultTarget
    {
      var r := ResizeWithPadding(p, outDir, Dims(disk, img), DefaultTarget, disk.thumb(img));
      assert pad(p, img) == r.1;
    }
  }

  /** One image: it is padded exactly when it does not already have the
      canvas size. */
  lemma {:induction false} PadIntoOffSize(outDir: string, disk: Disk, p: string, img: Image)
    ensures PadInto(outDir, disk)(p, img).None? <==> Dims(disk, img) == DefaultTarget
  {
    PadIntoPadsOffSize(outDir, disk);
  }

  /** `resize_with_padding` saves over the file a path names when joining
      the path's file name onto `outDir` names that file again. */
  lemma {:induction false} PadIntoInPlace(outDir: string, disk: Disk, paths: seq<string>)
    requires forall k :: 0 <= k < |paths| ==> FileKey(JoinPath(outDir, Basename(paths[k]))) == FileKey(paths[k])
    ensures PadsInPlace(PadInto(outDir, disk), paths)
  {
    var pad := PadInto(outDir, disk);
    forall k, img | 0 <= k < |paths| && pad(paths[k], img).Some?
      ensures FileKey(pad(paths[k], img).value.outPath) == FileKey(paths[k])
    {
      var r := ResizeWithPadding(paths[k], outDir, Dims(disk, img), DefaultTarget, disk.thumb(img));
      assert pad(paths[k], img) == r.1;
    }
  }

  /** The size check fails for the image. */
  predicate TooLarge(disk: Disk, img: Image, limitMb: nat) {
    !CheckValidImageSize(disk.bytes(img), limitMb)
  }

  /** The checks of one recorded path: its padding `pad`, if any, then a
      warning naming `shownMb` when `tooLarge`. */
  function CheckOne(p: string, pad: Option<Paste>, shownMb: nat, tooLarge: bool): (es: seq<Effect>)
    ensures forall e :: e in es ==> e == Warn(p, shownMb) || (pad.Some? && e == Resize(p, pad.value))
    ensures Warn(p, shownMb) in es <==> tooLarge
    ensures pad.Some? ==> Resize(p, pad.value) in es
  {
    var warn := if tooLarge then [Warn(p, shownMb)] else [];
    match pad
    case None => warn
    case Some(paste) => [Resize(p, paste)] + warn
  }

  /** One pass of the second loop, at `path`: the image `resize_with_padding`
      read there, and the image the size check read after it. */
  datatype Check = Check(path: string, read: Image, sized: Image)

  /** What a stretch of the run leaves behind: its effects in order, one
      `Check` per pass, and the files afterwards. The checks are not output by
      the script; they record what each pass saw. */
  datatype Pass = Pass(effects: seq<Effect>, checks: seq<Check>, files: Files)

  /** The files after padding the image found at `p`, if it needs it. */
  function PadAt(p: string, pad: Pads, files: Files): Files {
    var img := Read(files, p);
    if pad(p, img).Some? then Apply(files, Resize(p, pad(p, img).value)) else files
  }

  /** The second loop of `prepare_dataset` over the recorded paths of one
      item, starting from `files`: pad the image found at each path, then warn,
      naming `shownMb`, when the file then at that path exceeds `limitMb` MiB. */
  function CheckLoop(paths: seq<string>, pad: Pads, shownMb: nat, limitMb: nat, disk: Disk, files: Files): (r: Pass)
    ensures |r.checks| == |paths|
    ensures forall k :: 0 <= k < |paths| ==> r.checks[k].path == paths[k]
    decreases |paths|
  {
    if paths == [] then Pass([], [], files)
    else
      var p := paths[0];
      var padded := PadAt(p, pad, files);
      var sized := Read(padded, p);
      var rest := CheckLoop(paths[1..], pad, shownMb, limitMb, disk, padded);
      var checks := [Check(p, Read(files, p), sized)] + rest.checks;
      assert forall k :: 0 < k < |paths| ==> checks[k] == rest.checks[k - 1] && paths[k] == paths[1..][k - 1];
      Pass(CheckOne(p, pad(p, Read(files, p)), shownMb, TooLarge(disk, sized, limitMb)) + rest.effects, checks, rest.files)
  }

  /** The first pass of a loop, and the loop over the remaining paths. */
  lemma {:induction false} CheckLoopStep(paths: seq<string>, pad: Pads, shownMb: nat, limitMb: nat, disk: Disk, files: Files)
      returns (rest: Pass)
    requires paths != []
    ensures rest == CheckLoop(paths[1..], pad, shownMb, limitMb, disk, PadAt(paths[0], pad, files))
    ensures var p := paths[0]; var sized := Read(PadAt(p, pad, files), p);
      CheckLoop(paths, pad, shownMb, limitMb, disk, files)
        == Pass(CheckOne(p, pad(p, Read(files, p)), shownMb, TooLarge(disk, sized, limitMb)) + rest.effects,
                [Check(p, Read(files, p), sized)] + rest.checks, rest.files)
  {
    rest := CheckLoop(paths[1..], pad, shownMb, limitMb, disk, PadAt(paths[0], pad, files));
  }

  /** Replaying the effects of the loop gives the files it leaves. */
  lemma {:induction false} CheckLoopReplays(paths: seq<string>, pad: Pads, shownMb: nat, limitMb: nat, disk: Disk, files: Files)
    ensures var r := CheckLoop(paths, pad, shownMb, limitMb, disk, files);
      r.files == ApplyAll(files, r.effects)
    decreases |paths|
  {
    if paths != [] {
      var p := paths[0];
      var padded := PadAt(p, pad, files);
      var rest := CheckLoopStep(paths, pad, shownMb, limitMb, disk, files);
      var tooLarge := TooLarge(disk, Read(padded, p), limitMb);
      var head := CheckOne(p, pad(p, Read(files, p)), shownMb, tooLarge);
      CheckLoopReplays(paths[1..], pad, shownMb, limitMb, disk, padded);
      ApplyAllAppend(files, head, rest.effects);
      var warn := if tooLarge then [Warn(p, shownMb)] else [];
      if pad(p, Read(files, p)).Some? {
        var resize := Resize(p, pad(p, Read(files, p)).value);
        assert head == [resize] + warn;
        ApplyAllAppend(files, [resize], warn);
        assert ApplyAll(files, [resize]) == padded;
      }
      ApplyWarnings(padded, warn);
    }
  }

  /** What each pass's size check reads: the padded image when the padding
      was saved over the file it was read from, otherwise the image the
      padding read. */
  lemma {:induction false} CheckLoopSized(paths: seq<string>, pad: Pads, shownMb: nat, limitMb: nat, disk: Disk, files: Files)
    ensures var r := CheckLoop(paths, pad, shownMb, limitMb, disk, files);
      forall k :: 0 <= k < |paths| ==>
        var pk := pad(paths[k], r.checks[k].read);
        r.checks[k].sized == if pk.Some? && FileKey(pk.value.outPath) == FileKey(paths[k]) then Padded(r.checks[k].read) else r.checks[k].read
    decreases |paths|
  {
    if paths != [] {
      var rest := CheckLoopStep(paths, pad, shownMb, limitMb, disk, files);
      CheckLoopSized(paths[1..], pad, shownMb, limitMb, disk, PadAt(paths[0], pad, files));
      var r := CheckLoop(paths, pad, shownMb, limitMb, disk, files);
      assert forall k :: 0 < k < |paths| ==> r.checks[k] == rest.checks[k - 1] && paths[k] == paths[1..][k - 1];
    }
  }

  /** Every warning among `effects` names `shownMb` and a path one of
      `checks` found too large. */
  ghost predicate WarnsOnlyTooLarge(effects: seq<Effect>, checks: seq<Check>, shownMb: nat, limitMb: nat, disk: Disk) {
    forall e :: e in effects && e.Warn? ==>
      (e.shownMb == shownMb && exists k :: 0 <= k < |checks| && e.path == checks[k].path && TooLarge(disk, checks[k].sized, limitMb))
  }

  /** Every check that found its file too large has its warning among
      `effects`. */
  ghost predicate WarnsEveryTooLarge(effects: seq<Effect>, checks: seq<Check>, shownMb: nat, limitMb: nat, disk: Disk) {
    forall k :: 0 <= k < |checks| && TooLarge(disk, checks[k].sized, limitMb) ==> Warn(checks[k].path, shownMb) in effects
  }

  /** Every padding among `effects` is the one `pad` makes of the image one
      of `checks` read. */
  ghost predicate PadsOnlyRead(effects: seq<Effect>, checks: seq<Check>, pad: Pads) {
    forall e :: e in effects && e.Resize? ==>
      exists k :: 0 <= k < |checks| && e.src == checks[k].path && pad(checks[k].path, checks[k].read) == Some(e.paste)
  }

  /** Every check whose image needs padding has that padding among
      `effects`. */
  ghost predicate PadsEveryRead(effects: seq<Effect>, checks: seq<Check>, pad: Pads) {
    forall k :: 0 <= k < |checks| && pad(checks[k].path, checks[k].read).Some? ==>
      Resize(checks[k].path, pad(checks[k].path, checks[k].read).value) in effects
  }

  /** Warnings accounted for by two stretches of a run are accounted for by
      the two together. */
  lemma {:induction false} WarningsAppend(e1: seq<Effect>, c1: seq<Check>, e2: seq<Effect>, c2: seq<Check>, shownMb: nat, limitMb: nat, disk: Disk)
    requires WarnsOnlyTooLarge(e1, c1, shownMb, limitMb, disk) && WarnsOnlyTooLarge(e2, c2, shownMb, limitMb, disk)
    requires WarnsEveryTooLarge(e1, c1, shownMb, limitMb, disk) && WarnsEveryTooLarge(e2, c2, shownMb, limitMb, disk)
    ensures WarnsOnlyTooLarge(e1 + e2, c1 + c2, shownMb, limitMb, disk)
    ensures WarnsEveryTooLarge(e1 + e2, c1 + c2, shownMb, limitMb, disk)
  {
    var c := c1 + c2;
    forall e | e in e1 + e2 && e.Warn?
      ensures exists k :: 0 <= k < |c| && e.path == c[k].path && TooLarge(disk, c[k].sized, limitMb)
    {
      if e in e1 {
        var k :| 0 <= k < |c1| && e.path == c1[k].path && TooLarge(disk, c1[k].sized, limitMb);
        assert c[k] == c1[k];
      } else {
        var k :| 0 <= k < |c2| && e.path == c2[k].path && TooLarge(disk, c2[k].sized, limitMb);
        assert c[|c1| + k] == c2[k];
      }
    }
    forall k | |c1| <= k < |c| && TooLarge(disk, c[k].sized, limitMb)
      ensures Warn(c[k].path, shownMb) in e1 + e2
    {
      assert c[k] == c2[k - |c1|];
    }
  }

  /** Paddings accounted for by two stretches of a run are accounted for by
      the two together. */
  lemma {:induction false} PaddingsAppend(e1: seq<Effect>, c1: seq<Check>, e2: seq<Effect>, c2: seq<Check>, pad: Pads)
    requires PadsOnlyRead(e1, c1, pad) && PadsOnlyRead(e2, c2, pad)
    requires PadsEveryRead(e1, c1, pad) && PadsEveryRead(e2, c2, pad)
    ensures PadsOnlyRead(e1 + e2, c1 + c2, pad)
    ensures PadsEveryRead(e1 + e2, c1 + c2, pad)
  {
    var c := c1 + c2;
    forall e | e in e1 + e2 && e.Resize?
      ensures exists k :: 0 <= k < |c| && e.src == c[k].path && pad(c[k].path, c[k].read) == Some(e.paste)
    {
      if e in e1 {
        var k :| 0 <= k < |c1| && e.src == c1[k].path && pad(c1[k].path, c1[k].read) == Some(e.paste);
        assert c[k] == c1[k];
      } else {
        var k :| 0 <= k < |c2| && e.src == c2[k].path && pad(c2[k].path, c2[k].read) == Some(e.paste);
        assert c[|c1| + k] == c2[k];
      }
    }
    forall k | |c1| <= k < |c| && pad(c[k].path, c[k].read).Some?
      ensures Resize(c[k].path, pad(c[k].path, c[k].read).value) in e1 + e2
    {
      assert c[k] == c2[k - |c1|];
    }
  }

  /** One pass on its own: it only pads and warns, and its padding and its
      warning are the ones its check calls for. */
  lemma {:induction false} CheckOneAccounted(p: string, img: Image, sized: Image, pad: Pads, shownMb: nat, limitMb: nat, disk: Disk)
    ensures var es := CheckOne(p, pad(p, img), shownMb, TooLarge(disk, sized, limitMb));
      forall e :: e in es ==> e.Warn? || e.Resize?
    ensures var es := CheckOne(p, pad(p, img), shownMb, TooLarge(disk, sized, limitMb));
      WarnsOnlyTooLarge(es, [Check(p, img, sized)], shownMb, limitMb, disk) && WarnsEveryTooLarge(es, [Check(p, img, sized)], shownMb, limitMb, disk)
    ensures var es := CheckOne(p, pad(p, img), shownMb, TooLarge(disk, sized, limitMb));
      PadsOnlyRead(es, [Check(p, img, sized)], pad) && PadsEveryRead(es, [Check(p, img, sized)], pad)
  {
    var cs := [Check(p, img, sized)];
    assert cs[0].path == p && cs[0].read == img && cs[0].sized == sized;
  }

  /** The loop's warnings are exactly those its size checks call for. */
  lemma {:induction false} CheckLoopWarns(paths: seq<string>, pad: Pads, shownMb: nat, limitMb: nat, disk: Disk, files: Files)
    ensures var r := CheckLoop(paths, pad, shownMb, limitMb, disk, files);
      WarnsOnlyTooLarge(r.effects, r.checks, shownMb, limitMb, disk) && WarnsEveryTooLarge(r.effects, r.checks, shownMb, limitMb, disk)
    decreases |paths|
  {
    if paths != [] {
      var p := paths[0];
      var padded := PadAt(p, pad, files);
      var rest := CheckLoopStep(paths, pad, shownMb, limitMb, disk, files);
      CheckLoopWarns(paths[1..], pad, shownMb, limitMb, disk, padded);
      CheckOneAccounted(p, Read(files, p), Read(padded, p), pad, shownMb, limitMb, disk);
      WarningsAppend(CheckOne(p, pad(p, Read(files, p)), shownMb, TooLarge(disk, Read(padded, p), limitMb)),
        [Check(p, Read(files, p), Read(padded, p))], rest.effects, rest.checks, shownMb, limitMb, disk);
    }
  }

  /** The loop only pads and warns, and its paddings are exactly those the
      images it reads call for. */
  lemma {:induction false} CheckLoopResizes(paths: seq<string>, pad: Pads, shownMb: nat, limitMb: nat, disk: Disk, files: Files)
    ensures var r := CheckLoop(paths, pad, shownMb, limitMb, disk, files);
      forall e :: e in r.effects ==> e.Warn? || e.Resize?
    ensures var r := CheckLoop(paths, pad, shownMb, limitMb, disk, files);
      PadsOnlyRead(r.effects, r.checks, pad) && PadsEveryRead(r.effects, r.checks, pad)
    decreases |paths|
  {
    if paths != [] {
      var p := paths[0];
      var padded := PadAt(p, pad, files);
      var rest := CheckLoopStep(paths, pad, shownMb, limitMb, disk, files);
      CheckLoopResizes(paths[1..], pad, shownMb, limitMb, disk, padded);
      CheckOneAccounted(p, Read(files, p), Read(padded, p), pad, shownMb, limitMb, disk);
      PaddingsAppend(CheckOne(p, pad(p, Read(files, p)), shownMb, TooLarge(disk, Read(padded, p), limitMb)),
        [Check(p, Read(files, p), Read(padded, p))], rest.effects, rest.checks, pad);
    }
  }

  /** Padding in place, a pass leaves every other file alone. */
  lemma {:induction false} PadAtElsewhere(p: string, pad: Pads, files: Files, q: string)
    requires PadsInPlace(pad, [p]) && FileKey(q) != FileKey(p)
    ensures Read(PadAt(p, pad, files), q) == Read(files, q)
  {
    var img := Read(files, p);
    if pad(p, img).Some? {
      assert [p][0] == p;
    }
  }

  /** Padding in place, a pass leaves a canvas-sized image at its path and
      writes nothing else. */
  lemma {:induction false} PadAtInPlace(p: string, pad: Pads, disk: Disk, files: Files)
    requires PadsOffSize(pad, disk)
    requires PadsInPlace(pad, [p])
    ensures Dims(disk, Read(PadAt(p, pad, files), p)) == DefaultTarget
    ensures forall q :: FileKey(q) != FileKey(p) ==> Read(PadAt(p, pad, files), q) == Read(files, q)
  {
    var img := Read(files, p);
    if pad(p, img).Some? {
      assert [p][0] == p;
      assert PadAt(p, pad, files) == Write(files, p, Padded(img));
    }
  }

  lemma {:induction false} PadsInPlaceTail(pad: Pads, paths: seq<string>)
    requires paths != [] && PadsInPlace(pad, paths)
    ensures PadsInPlace(pad, [paths[0]])
    ensures PadsInPlace(pad, paths[1..])
  {
    assert forall k :: 0 <= k < |paths[1..]| ==> paths[1..][k] == paths[k + 1];
    assert [paths[0]][0] == paths[0];
  }

  /** Padding in place, the loop writes only the files it visits. */
  lemma {:induction false} CheckLoopKeepsOthers(paths: seq<string>, pad: Pads, shownMb: nat, limitMb: nat, disk: Disk, files: Files)
    requires PadsOffSize(pad, disk) && PadsInPlace(pad, paths)
    ensures var r := CheckLoop(paths, pad, shownMb, limitMb, disk, files);
      forall q :: FileKey(q) !in Keys(paths) ==> Read(r.files, q) == Read(files, q)
    decreases |paths|
  {
    if paths != [] {
      var p := paths[0];
      var rest := CheckLoopStep(paths, pad, shownMb, limitMb, disk, files);
      PadsInPlaceTail(pad, paths);
      PadAtInPlace(p, pad, disk, files);
      CheckLoopKeepsOthers(paths[1..], pad, shownMb, limitMb, disk, PadAt(p, pad, files));
      KeysCons(paths);
    }
  }

  /** Padding in place, the loop leaves a canvas-sized image in every file
      it visits, however the file is spelt. */
  lemma {:induction false} CheckLoopStandardizes(paths: seq<string>, pad: Pads, shownMb: nat, limitMb: nat, disk: Disk, files: Files)
    requires PadsOffSize(pad, disk) && PadsInPlace(pad, paths)
    ensures var r := CheckLoop(paths, pad, shownMb, limitMb, disk, files);
      forall q :: FileKey(q) in Keys(paths) ==> Dims(disk, Read(r.files, q)) == DefaultTarget
    decreases |paths|
  {
    if paths != [] {
      var p := paths[0];
      var rest := CheckLoopStep(paths, pad, shownMb, limitMb, disk, files);
      PadsInPlaceTail(pad, paths);
      PadAtInPlace(p, pad, disk, files);
      CheckLoopStandardizes(paths[1..], pad, shownMb, limitMb, disk, PadAt(p, pad, files));
      CheckLoopKeepsOthers(paths[1..], pad, shownMb, limitMb, disk, PadAt(p, pad, files));
      KeysCons(paths);
    }
  }

  /** Padding in place, every size check reads a canvas-sized image. */
  lemma {:induction false} CheckLoopSizesStandard(paths: seq<string>, pad: Pads, shownMb: nat, limitMb: nat, disk: Disk, files: Files)
    requires PadsOffSize(pad, disk) && PadsInPlace(pad, paths)
    ensures var r := CheckLoop(paths, pad, shownMb, limitMb, disk, files);
      forall k :: 0 <= k < |paths| ==> Dims(disk, r.checks[k].sized) == DefaultTarget
    decreases |paths|
  {
    if paths != [] {
      var rest := CheckLoopStep(paths, pad, shownMb, limitMb, disk, files);
      PadsInPlaceTail(pad, paths);
      PadAtInPlace(paths[0], pad, disk, files);
      CheckLoopSizesStandard(paths[1..], pad, shownMb, limitMb, disk, PadAt(paths[0], pad, files));
      var r := CheckLoop(paths, pad, shownMb, limitMb, disk, files);
      assert forall k :: 0 < k < |paths| ==> r.checks[k] == rest.checks[k - 1];
    }
  }

  /** `x` occurs among the first `k` elements of `s` exactly when it is the
      first element or occurs among the first `k - 1` of the rest. */
  lemma {:induction false} InPrefixCons<T>(s: seq<T>, k: nat, x: T)
    requires 0 < k <= |s|
    ensures x in s[..k] <==> x == s[0] || x in s[1..][..k - 1]
  {
    assert s[..k] == [s[0]] + s[1..][..k - 1];
  }

  /** The first visit of a file reads what it held before the loop. */
  lemma {:induction false} CheckLoopFirstVisit(paths: seq<string>, pad: Pads, shownMb: nat, limitMb: nat, disk: Disk, files: Files)
    requires PadsInPlace(pad, paths)
    ensures var r := CheckLoop(paths, pad, shownMb, limitMb, disk, files);
      forall k :: 0 <= k < |paths| && Keys(paths)[k] !in Keys(paths)[..k] ==> r.checks[k].read == Read(files, paths[k])
    decreases |paths|
  {
    if paths != [] {
      var p := paths[0];
      var padded := PadAt(p, pad, files);
      var rest := CheckLoopStep(paths, pad, shownMb, limitMb, disk, files);
      PadsInPlaceTail(pad, paths);
      CheckLoopFirstVisit(paths[1..], pad, shownMb, limitMb, disk, padded);
      KeysCons(paths);
      var r := CheckLoop(paths, pad, shownMb, limitMb, disk, files);
      forall k | 0 < k < |paths| && Keys(paths)[k] !in Keys(paths)[..k]
        ensures r.checks[k].read == Read(files, paths[k])
      {
        var tail := paths[1..];
        assert r.checks[k] == rest.checks[k - 1] && paths[k] == tail[k - 1];
        InPrefixCons(Keys(paths), k, Keys(paths)[k]);
        PadAtElsewhere(p, pad, files, paths[k]);
      }
    }
  }

  /** A pass writes only padded images, so it leaves a canvas-sized file
      canvas-sized. */
  lemma {:induction false} PadAtKeepsSized(p: string, pad: Pads, disk: Disk, files: Files, q: string)
    requires Dims(disk, Read(files, q)) == DefaultTarget
    ensures Dims(disk, Read(PadAt(p, pad, files), q)) == DefaultTarget
  {
    var img := Read(files, p);
    if pad(p, img).Some? {
      assert PadAt(p, pad, files) == Write(files, pad(p, img).value.outPath, Padded(img));
    }
  }

  /** The check at a later index `k` is the rest of the loop's check at
      `k - 1`. */
  lemma {:induction false} CheckLoopLater(paths: seq<string>, pad: Pads, shownMb: nat, limitMb: nat, disk: Disk, files: Files, k: nat)
    requires 0 < k < |paths|
    ensures CheckLoop(paths, pad, shownMb, limitMb, disk, files).checks[k]
      == CheckLoop(paths[1..], pad, shownMb, limitMb, disk, PadAt(paths[0], pad, files)).checks[k - 1]
    ensures paths[k] == paths[1..][k - 1]
  {
    var rest := CheckLoopStep(paths, pad, shownMb, limitMb, disk, files);
  }

  /** The image the pass at `k` reads: what the file `paths[k]` names holds
      after the passes before it. */
  function ReadAt(paths: seq<string>, pad: Pads, files: Files, k: nat): Image
    requires k < |paths|
    decreases k
  {
    if k == 0 then Read(files, paths[0]) else ReadAt(paths[1..], pad, PadAt(paths[0], pad, files), k - 1)
  }

  /** The pass at `k` reads the image `ReadAt` names. */
  lemma {:induction false} CheckLoopReadAt(paths: seq<string>, pad: Pads, shownMb: nat, limitMb: nat, disk: Disk, files: Files, k: nat)
    requires k < |paths|
    ensures CheckLoop(paths, pad, shownMb, limitMb, disk, files).checks[k].read == ReadAt(paths, pad, files, k)
    decreases k
  {
    var rest := CheckLoopStep(paths, pad, shownMb, limitMb, disk, files);
    if k > 0 {
      CheckLoopLater(paths, pad, shownMb, limitMb, disk, files, k);
      CheckLoopReadAt(paths[1..], pad, shownMb, limitMb, disk, PadAt(paths[0], pad, files), k - 1);
    }
  }

  /** A file that has the canvas size keeps it through the loop: every visit
      of it, under any spelling, reads a canvas-sized image. */
  lemma {:induction false} ReadAtKeepsSized(paths: seq<string>, pad: Pads, disk: Disk, files: Files, q: string, k: nat)
    requires k < |paths| && FileKey(paths[k]) == FileKey(q)
    requires Dims(disk, Read(files, q)) == DefaultTarget
    ensures Dims(disk, ReadAt(paths, pad, files, k)) == DefaultTarget
    decreases k
  {
    if k == 0 {
      assert Read(files, paths[0]) == Read(files, q);
    } else {
      PadAtKeepsSized(paths[0], pad, disk, files, q);
      assert paths[1..][k - 1] == paths[k];
      ReadAtKeepsSized(paths[1..], pad, disk, PadAt(paths[0], pad, files), q, k - 1);
    }
  }

  /** Padding in place, a later visit of a file, under any spelling, finds
      it already padded and pads nothing. */
  lemma {:induction false} CheckLoopPadsOnce(paths: seq<string>, pad: Pads, shownMb: nat, limitMb: nat, disk: Disk, files: Files)
    requires PadsOffSize(pad, disk) && PadsInPlace(pad, paths)
    ensures var r := CheckLoop(paths, pad, shownMb, limitMb, disk, files);
      forall k :: 0 <= k < |paths| && Keys(paths)[k] in Keys(paths)[..k] ==> pad(paths[k], r.checks[k].read) == None
  {
    var r := CheckLoop(paths, pad, shownMb, limitMb, disk, files);
    forall k | 0 <= k < |paths| && Keys(paths)[k] in Keys(paths)[..k]
      ensures pad(paths[k], r.checks[k].read) == None
    {
      var j :| 0 <= j < k && Keys(paths)[..k][j] == Keys(paths)[k];
      CheckLoopReadAt(paths, pad, shownMb, limitMb, disk, files, k);
      ReadAtPadsOnce(paths, pad, disk, files, j, k);
    }
  }

  /** `CheckLoopPadsOnce` for a visit `k` of the file an earlier visit `j`
      named, by induction on `j`. */
  lemma {:induction false} ReadAtPadsOnce(paths: seq<string>, pad: Pads, disk: Disk, files: Files, j: nat, k: nat)
    requires j < k < |paths| && FileKey(paths[j]) == FileKey(paths[k])
    requires PadsOffSize(pad, disk) && PadsInPlace(pad, paths)
    ensures pad(paths[k], ReadAt(paths, pad, files, k)) == None
    decreases j
  {
    var padded := PadAt(paths[0], pad, files);
    PadsInPlaceTail(pad, paths);
    assert paths[1..][k - 1] == paths[k];
    if j == 0 {
      PadAtInPlace(paths[0], pad, disk, files);
      ReadAtKeepsSized(paths[1..], pad, disk, padded, paths[0], k - 1);
    } else {
      assert paths[1..][j - 1] == paths[j];
      ReadAtPadsOnce(paths[1..], pad, disk, padded, j - 1, k - 1);
    }
  }

  /** The limits only decide which warnings are printed: the checks and the
      files do not depend on them. */
  lemma {:induction false} CheckLoopIgnoresLimits(paths: seq<string>, pad: Pads, shown1: nat, limit1: nat, shown2: nat, limit2: nat, disk: Disk, files: Files)
    ensures var r1 := CheckLoop(paths, pad, shown1, limit1, disk, files);
      var r2 := CheckLoop(paths, pad, shown2, limit2, disk, files);
      r1.checks == r2.checks && r1.files == r2.files
    decreases |paths|
  {
    if paths != [] {
      var rest1 := CheckLoopStep(paths, pad, shown1, limit1, disk, files);
      var rest2 := CheckLoopStep(paths, pad, shown2, limit2, disk, files);
      CheckLoopIgnoresLimits(paths[1..], pad, shown1, limit1, shown2, limit2, disk, PadAt(paths[0], pad, files));
    }
  }

  // ---------------------------------------------------------------------------
  // One item, and the whole dataset
  // ---------------------------------------------------------------------------

  /** The conversions only rasterise and copy. */
  lemma {:induction false} ConversionsOnlyConvert(paths: seq<string>, outDir: string)
    ensures forall e :: e in ConvertEffects(paths, outDir) ==> e.Rasterize? || e.Copy?
  {
    var es := ConvertEffects(paths, outDir);
    forall e | e in es
      ensures e.Rasterize? || e.Copy?
    {
      var k :| 0 <= k < |es| && es[k] == e;
      assert e == ConvertEffect(paths[k], outDir);
    }
  }

  /** With a non-empty output directory, the conversions of an item write
      only the files its recorded paths name. */
  lemma {:induction false} ConversionsWriteRecordedPaths(paths: seq<string>, outDir: string, files: Files)
    requires outDir != []
    ensures forall q :: FileKey(q) !in Keys(StandardPaths(paths, outDir)) ==>
      Read(ApplyAll(files, ConvertEffects(paths, outDir)), q) == Read(files, q)
    decreases |paths|
  {
    if paths != [] {
      var es := ConvertEffects(paths, outDir);
      var recorded := StandardPaths(paths, outDir);
      var first := Apply(files, es[0]);
      assert es[1..] == ConvertEffects(paths[1..], outDir);
      assert recorded[1..] == StandardPaths(paths[1..], outDir);
      ConversionWritesRecordedPath(paths[0], outDir);
      ConversionsWriteRecordedPaths(paths[1..], outDir, first);
      forall q | FileKey(q) !in Keys(recorded)
        ensures Read(ApplyAll(files, es), q) == Read(files, q)
      {
        assert Keys(recorded)[0] == FileKey(recorded[0]) && Keys(recorded[1..]) == Keys(recorded)[1..];
        assert FileKey(q) != FileKey(recorded[0]) && FileKey(q) !in Keys(recorded[1..]);
        assert Read(first, q) == Read(files, q);
      }
    }
  }

  /** One item of `prepare_dataset`, starting from `files`: the record
      pointed at its standardised paths, and the pass over it, which is the
      item's conversions followed by the second loop over the new paths. */
  function PrepareItem(item: SymbolRecord, outDir: string, shownMb: nat, limitMb: nat, disk: Disk, files: Files)
    : (r: (SymbolRecord, Pass))
    ensures r.0 == item.(images := StandardPaths(item.images, outDir))
    ensures |r.1.checks| == |item.images|
    ensures forall k :: 0 <= k < |item.images| ==> r.1.checks[k].path == StandardPath(item.images[k], outDir)
  {
    var record := item.(images := StandardPaths(item.images, outDir));
    var converts := ConvertEffects(item.images, outDir);
    var checked := CheckLoop(record.images, PadInto(outDir, disk), shownMb, limitMb, disk, ApplyAll(files, converts));
    (record, Pass(converts + checked.effects, checked.checks, checked.files))
  }

  /** Replaying the effects of an item gives the files it leaves. */
  lemma {:induction false} PrepareItemReplays(item: SymbolRecord, outDir: string, shownMb: nat, limitMb: nat, disk: Disk, files: Files)
    ensures var r := PrepareItem(item, outDir, shownMb, limitMb, disk, files);
      r.1.files == ApplyAll(files, r.1.effects)
  {
    var converts := ConvertEffects(item.images, outDir);
    var converted := ApplyAll(files, converts);
    var pad := PadInto(outDir, disk);
    CheckLoopReplays(StandardPaths(item.images, outDir), pad, shownMb, limitMb, disk, converted);
    ApplyAllAppend(files, converts, CheckLoop(StandardPaths(item.images, outDir), pad, shownMb, limitMb, disk, converted).effects);
  }

  /** Within an item, the warnings are exactly those its size checks call
      for, and a warned image is not dropped: the item keeps every recorded
      path. */
  lemma {:induction false} PrepareItemWarns(item: SymbolRecord, outDir: string, shownMb: nat, limitMb: nat, disk: Disk, files: Files)
    ensures var r := PrepareItem(item, outDir, shownMb, limitMb, disk, files).1;
      WarnsOnlyTooLarge(r.effects, r.checks, shownMb, limitMb, disk) && WarnsEveryTooLarge(r.effects, r.checks, shownMb, limitMb, disk)
    ensures PrepareItem(item, outDir, shownMb, limitMb, disk, files).0.images == StandardPaths(item.images, outDir)
  {
    var paths := StandardPaths(item.images, outDir);
    var converts := ConvertEffects(item.images, outDir);
    var pad := PadInto(outDir, disk);
    var checked := CheckLoop(paths, pad, shownMb, limitMb, disk, ApplyAll(files, converts));
    CheckLoopWarns(paths, pad, shownMb, limitMb, disk, ApplyAll(files, converts));
    ConversionsOnlyConvert(item.images, outDir);
    assert [] + checked.checks == checked.checks;
    WarningsAppend(converts, [], checked.effects, checked.checks, shownMb, limitMb, disk);
  }

  /** Within an item, the paddings are exactly those `resize_with_padding`
      makes of the images its checks read. */
  lemma {:induction false} PrepareItemResizes(item: SymbolRecord, outDir: string, shownMb: nat, limitMb: nat, disk: Disk, files: Files)
    ensures var r := PrepareItem(item, outDir, shownMb, limitMb, disk, files).1;
      PadsOnlyRead(r.effects, r.checks, PadInto(outDir, disk)) && PadsEveryRead(r.effects, r.checks, PadInto(outDir, disk))
  {
    var paths := StandardPaths(item.images, outDir);
    var converts := ConvertEffects(item.images, outDir);
    var pad := PadInto(outDir, disk);
    var checked := CheckLoop(paths, pad, shownMb, limitMb, disk, ApplyAll(files, converts));
    CheckLoopResizes(paths, pad, shownMb, limitMb, disk, ApplyAll(files, converts));
    ConversionsOnlyConvert(item.images, outDir);
    assert [] + checked.checks == checked.checks;
    PaddingsAppend(converts, [], checked.effects, checked.checks, pad);
  }

  /** With a non-empty output directory, an item leaves a canvas-sized image
      in each file its recorded paths name, and no other file changes. */
  lemma {:induction false} PrepareItemStandardizes(item: SymbolRecord, outDir: string, shownMb: nat, limitMb: nat, disk: Disk, files: Files)
    requires outDir != []
    ensures var r := PrepareItem(item, outDir, shownMb, limitMb, disk, files);
      forall q :: FileKey(q) in Keys(r.0.images) ==> Dims(disk, Read(r.1.files, q)) == DefaultTarget
    ensures var r := PrepareItem(item, outDir, shownMb, limitMb, disk, files);
      forall q :: FileKey(q) !in Keys(r.0.images) ==> Read(r.1.files, q) == Read(files, q)
  {
    var paths := StandardPaths(item.images, outDir);
    var converted := ApplyAll(files, ConvertEffects(item.images, outDir));
    forall k | 0 <= k < |paths|
      ensures FileKey(JoinPath(outDir, Basename(paths[k]))) == FileKey(paths[k])
    {
      StandardPathInPlace(item.images, outDir, paths[k]);
    }
    var pad := PadInto(outDir, disk);
    PadIntoPadsOffSize(outDir, disk);
    PadIntoInPlace(outDir, disk, paths);
    ConversionsWriteRecordedPaths(item.images, outDir, files);
    CheckLoopStandardizes(paths, pad, shownMb, limitMb, disk, converted);
    CheckLoopKeepsOthers(paths, pad, shownMb, limitMb, disk, converted);
  }

  /** Every one of `checks` read a canvas-sized image. */
  ghost predicate SizedChecks(checks: seq<Check>, disk: Disk) {
    forall k :: 0 <= k < |checks| ==> Dims(disk, checks[k].sized) == DefaultTarget
  }

  lemma {:induction false} SizedChecksAppend(c1: seq<Check>, c2: seq<Check>, disk: Disk)
    requires SizedChecks(c1, disk) && SizedChecks(c2, disk)
    ensures SizedChecks(c1 + c2, disk)
  {
    var c := c1 + c2;
    forall k | |c1| <= k < |c|
      ensures Dims(disk, c[k].sized) == DefaultTarget
    {
      assert c[k] == c2[k - |c1|];
    }
  }

  /** With a non-empty output directory, every size check of an item reads
      a canvas-sized image. */
  lemma {:induction false} PrepareItemSizesStandard(item: SymbolRecord, outDir: string, shownMb: nat, limitMb: nat, disk: Disk, files: Files)
    requires outDir != []
    ensures SizedChecks(PrepareItem(item, outDir, shownMb, limitMb, disk, files).1.checks, disk)
  {
    var paths := StandardPaths(item.images, outDir);
    var converted := ApplyAll(files, ConvertEffects(item.images, outDir));
    forall k | 0 <= k < |paths|
      ensures FileKey(JoinPath(outDir, Basename(paths[k]))) == FileKey(paths[k])
    {
      StandardPathInPlace(item.images, outDir, paths[k]);
    }
    var pad := PadInto(outDir, disk);
    PadIntoPadsOffSize(outDir, disk);
    PadIntoInPlace(outDir, disk, paths);
    CheckLoopSizesStandard(paths, pad, shownMb, limitMb, disk, converted);
    assert PrepareItem(item, outDir, shownMb, limitMb, disk, files).1.checks
      == CheckLoop(paths, pad, shownMb, limitMb, disk, converted).checks;
  }

  /** An item checks its recorded paths, in order. */
  lemma {:induction false} PrepareItemChecksPaths(item: SymbolRecord, outDir: string, shownMb: nat, limitMb: nat, disk: Disk, files: Files)
    ensures var r := PrepareItem(item, outDir, shownMb, limitMb, disk, files);
      CheckedPaths(r.1.checks) == r.0.images
  {
  }

  /** With a non-empty output directory, the first size check of a recorded
      file reads what the item's conversions left there, and a file the item
      lists twice is padded at most once. */
  lemma {:induction false} PrepareItemPadsOnce(item: SymbolRecord, outDir: string, shownMb: nat, limitMb: nat, disk: Disk, files: Files)
    requires outDir != []
    ensures var r := PrepareItem(item, outDir, shownMb, limitMb, disk, files);
      forall k :: 0 <= k < |r.0.images| && Keys(r.0.images)[k] !in Keys(r.0.images)[..k] ==>
        r.1.checks[k].read == Read(ApplyAll(files, ConvertEffects(item.images, outDir)), r.0.images[k])
    ensures var r := PrepareItem(item, outDir, shownMb, limitMb, disk, files);
      forall k :: 0 <= k < |r.0.images| && Keys(r.0.images)[k] in Keys(r.0.images)[..k] ==>
        PaddingOf(r.0.images[k], outDir, disk, r.1.checks[k].read) == None
  {
    var paths := StandardPaths(item.images, outDir);
    forall k | 0 <= k < |paths|
      ensures FileKey(JoinPath(outDir, Basename(paths[k]))) == FileKey(paths[k])
    {
      StandardPathInPlace(item.images, outDir, paths[k]);
    }
    PadIntoPadsOffSize(outDir, disk);
    PadIntoInPlace(outDir, disk, paths);
    CheckLoopFirstVisit(paths, PadInto(outDir, disk), shownMb, limitMb, disk, ApplyAll(files, ConvertEffects(item.images, outDir)));
    CheckLoopPadsOnce(paths, PadInto(outDir, disk), shownMb, limitMb, disk, ApplyAll(files, ConvertEffects(item.images, outDir)));
  }

  /** What a run of `prepare_dataset` leaves behind: the records written to
      the output file, the effects in order, one `Check` per pass of the
      second loops, and the files afterwards. */
  datatype Run = Run(records: seq<SymbolRecord>, effects: seq<Effect>, checks: seq<Check>, files: Files)

  /** The image paths of the records, in order. */
  function RecordedPaths(records: seq<SymbolRecord>): seq<string>
    decreases |records|
  {
    if records == [] then [] else records[0].images + RecordedPaths(records[1..])
  }

  /** The paths the checks were made at, in order. */
  function CheckedPaths(checks: seq<Check>): (ps: seq<string>)
    ensures |ps| == |checks|
    ensures forall k :: 0 <= k < |checks| ==> ps[k] == checks[k].path
  {
    seq(|checks|, k requires 0 <= k < |checks| => checks[k].path)
  }

  lemma {:induction false} CheckedPathsAppend(c1: seq<Check>, c2: seq<Check>)
    ensures CheckedPaths(c1 + c2) == CheckedPaths(c1) + CheckedPaths(c2)
  {
  }

  /** `p` is an image path of one of the records. */
  predicate Recorded(records: seq<SymbolRecord>, p: string) {
    exists i :: 0 <= i < |records| && p in records[i].images
  }

  lemma {:induction false} RecordedPathIsRecorded(records: seq<SymbolRecord>, p: string)
    requires p in RecordedPaths(records)
    ensures Recorded(records, p)
    decreases |records|
  {
    if p !in records[0].images {
      RecordedPathIsRecorded(records[1..], p);
      var i :| 0 <= i < |records[1..]| && p in records[1..][i].images;
      assert records[i + 1] == records[1..][i];
    }
  }

  /** `prepare_dataset` over the items of the results file, starting from
      `files`, with the size shown in the warning and the size checked
      against as separate parameters: every record is pointed at its
      standardised paths. That every recorded path is checked once, in
      order, and what the effects are, is stated by the lemmas that
      follow. */
  function PrepareWith(items: seq<SymbolRecord>, outDir: string, shownMb: nat, limitMb: nat, disk: Disk, files: Files)
    : (r: Run)
    ensures |r.records| == |items|
    ensures forall i :: 0 <= i < |items| ==> r.records[i] == items[i].(images := StandardPaths(items[i].images, outDir))
    decreases |items|
  {
    if items == [] then Run([], [], [], files)
    else
      var head := PrepareItem(items[0], outDir, shownMb, limitMb, disk, files);
      var tail := PrepareWith(items[1..], outDir, shownMb, limitMb, disk, head.1.files);
      var r := Run([head.0] + tail.records, head.1.effects + tail.effects, head.1.checks + tail.checks, tail.files);
      assert forall i :: 0 < i < |r.records| ==> r.records[i] == tail.records[i - 1] && items[i] == items[1..][i - 1];
      r
  }

  /** The first item, and the run over the remaining ones. */
  lemma {:induction false} PrepareStep(items: seq<SymbolRecord>, outDir: string, shownMb: nat, limitMb: nat, disk: Disk, files: Files)
      returns (head: (SymbolRecord, Pass), tail: Run)
    requires items != []
    ensures head == PrepareItem(items[0], outDir, shownMb, limitMb, disk, files)
    ensures tail == PrepareWith(items[1..], outDir, shownMb, limitMb, disk, head.1.files)
    ensures PrepareWith(items, outDir, shownMb, limitMb, disk, files)
      == Run([head.0] + tail.records, head.1.effects + tail.effects, head.1.checks + tail.checks, tail.files)
    ensures RecordedPaths([head.0] + tail.records) == head.0.images + RecordedPaths(tail.records)
  {
    head := PrepareItem(items[0], outDir, shownMb, limitMb, disk, files);
    tail := PrepareWith(items[1..], outDir, shownMb, limitMb, disk, head.1.files);
    assert ([head.0] + tail.records)[1..] == tail.records;
  }

  /** The run checks every recorded path once, in the order the records
      list them. */
  lemma {:induction false} PrepareChecksEveryPath(items: seq<SymbolRecord>, outDir: string, shownMb: nat, limitMb: nat, disk: Disk, files: Files)
    ensures var r := PrepareWith(items, outDir, shownMb, limitMb, disk, files);
      CheckedPaths(r.checks) == RecordedPaths(r.records)
    decreases |items|
  {
    if items != [] {
      var head, tail := PrepareStep(items, outDir, shownMb, limitMb, disk, files);
      PrepareChecksEveryPath(items[1..], outDir, shownMb, limitMb, disk, head.1.files);
      PrepareItemChecksPaths(items[0], outDir, shownMb, limitMb, disk, files);
      CheckedPathsAppend(head.1.checks, tail.checks);
    }
  }

  /** Every image of every item is moved into `outDir`. */
  lemma {:induction false} PrepareConverts(items: seq<SymbolRecord>, outDir: string, shownMb: nat, limitMb: nat, disk: Disk, files: Files)
    ensures forall i, k :: 0 <= i < |items| && 0 <= k < |items[i].images| ==>
      ConvertEffect(items[i].images[k], outDir) in PrepareWith(items, outDir, shownMb, limitMb, disk, files).effects
    decreases |items|
  {
    if items != [] {
      var head, tail := PrepareStep(items, outDir, shownMb, limitMb, disk, files);
      var es := PrepareWith(items, outDir, shownMb, limitMb, disk, files).effects;
      PrepareConverts(items[1..], outDir, shownMb, limitMb, disk, head.1.files);
      var converts := ConvertEffects(items[0].images, outDir);
      assert head.1.effects[..|converts|] == converts;
      forall i, k | 0 <= i < |items| && 0 <= k < |items[i].images|
        ensures ConvertEffect(items[i].images[k], outDir) in es
      {
        if i > 0 {
          assert items[i] == items[1..][i - 1];
        } else {
          assert head.1.effects[k] == converts[k];
        }
      }
    }
  }

  /** Replaying the effects of the run gives the files it leaves. */
  lemma {:induction false} PrepareReplays(items: seq<SymbolRecord>, outDir: string, shownMb: nat, limitMb: nat, disk: Disk, files: Files)
    ensures var r := PrepareWith(items, outDir, shownMb, limitMb, disk, files);
      r.files == ApplyAll(files, r.effects)
    decreases |items|
  {
    if items != [] {
      var head, tail := PrepareStep(items, outDir, shownMb, limitMb, disk, files);
      PrepareItemReplays(items[0], outDir, shownMb, limitMb, disk, files);
      PrepareReplays(items[1..], outDir, shownMb, limitMb, disk, head.1.files);
      ApplyAllAppend(files, head.1.effects, tail.effects);
    }
  }

  /** The warnings of the run are exactly those its size checks call for:
      each names `shownMb` and a path whose check, at that point of the run,
      found the file larger than `limitMb` MiB. */
  lemma {:induction false} PrepareWarns(items: seq<SymbolRecord>, outDir: string, shownMb: nat, limitMb: nat, disk: Disk, files: Files)
    ensures var r := PrepareWith(items, outDir, shownMb, limitMb, disk, files);
      WarnsOnlyTooLarge(r.effects, r.checks, shownMb, limitMb, disk) && WarnsEveryTooLarge(r.effects, r.checks, shownMb, limitMb, disk)
    decreases |items|
  {
    if items != [] {
      var head, tail := PrepareStep(items, outDir, shownMb, limitMb, disk, files);
      PrepareItemWarns(items[0], outDir, shownMb, limitMb, disk, files);
      PrepareWarns(items[1..], outDir, shownMb, limitMb, disk, head.1.files);
      WarningsAppend(head.1.effects, head.1.checks, tail.effects, tail.checks, shownMb, limitMb, disk);
    }
  }

  /** The paddings of the run are exactly those `resize_with_padding` makes
      of the images its checks read. */
  lemma {:induction false} PrepareResizes(items: seq<SymbolRecord>, outDir: string, shownMb: nat, limitMb: nat, disk: Disk, files: Files)
    ensures var r := PrepareWith(items, outDir, shownMb, limitMb, disk, files);
      PadsOnlyRead(r.effects, r.checks, PadInto(outDir, disk)) && PadsEveryRead(r.effects, r.checks, PadInto(outDir, disk))
    decreases |items|
  {
    if items != [] {
      var head, tail := PrepareStep(items, outDir, shownMb, limitMb, disk, files);
      PrepareItemResizes(items[0], outDir, shownMb, limitMb, disk, files);
      PrepareResizes(items[1..], outDir, shownMb, limitMb, disk, head.1.files);
      PaddingsAppend(head.1.effects, head.1.checks, tail.effects, tail.checks, PadInto(outDir, disk));
    }
  }

  /** With a non-empty output directory, every padded image overwrites the
      standardised file it was read from, under the same spelling when the
      directory has no trailing '/'. */
  lemma {:induction false} PaddingOverwritesStandardImages(items: seq<SymbolRecord>, outDir: string, shownMb: nat, limitMb: nat, disk: Disk, files: Files, e: Effect)
    requires outDir != []
    requires e in PrepareWith(items, outDir, shownMb, limitMb, disk, files).effects && e.Resize?
    ensures FileKey(e.paste.outPath) == FileKey(e.src)
    ensures outDir[|outDir| - 1] != '/' ==> e.paste.outPath == e.src
  {
    var r := PrepareWith(items, outDir, shownMb, limitMb, disk, files);
    var pad := PadInto(outDir, disk);
    PrepareResizes(items, outDir, shownMb, limitMb, disk, files);
    PrepareChecksEveryPath(items, outDir, shownMb, limitMb, disk, files);
    var k :| 0 <= k < |r.checks| && e.src == r.checks[k].path && pad(r.checks[k].path, r.checks[k].read) == Some(e.paste);
    assert PaddingOf(e.src, outDir, disk, r.checks[k].read) == Some(e.paste);
    assert e.src in RecordedPaths(r.records) by {
      assert CheckedPaths(r.checks)[k] == e.src;
    }
    RecordedPathIsRecorded(r.records, e.src);
    var i :| 0 <= i < |r.records| && e.src in r.records[i].images;
    StandardPathInPlace(items[i].images, outDir, e.src);
  }

  /** A standardised path names a file directly inside a non-empty `outDir`,
      so joining its file name back onto `outDir` names that file again, and
      gives the very path when `outDir` has no trailing '/'. */
  lemma {:induction false} StandardPathInPlace(paths: seq<string>, outDir: string, p: string)
    requires outDir != []
    requires p in StandardPaths(paths, outDir)
    ensures FileKey(JoinPath(outDir, Basename(p))) == FileKey(p)
    ensures outDir[|outDir| - 1] != '/' ==> JoinPath(outDir, Basename(p)) == p
  {
    var k :| 0 <= k < |paths| && p == StandardPath(paths[k], outDir);
    var q := paths[k];
    ResizeWritesInPlace(outDir, if IsSvg(q) then PngName(q) else Basename(q));
  }

  /** With a non-empty output directory, every size check of the run reads
      a canvas-sized image. */
  lemma {:induction false} PrepareSizesStandard(items: seq<SymbolRecord>, outDir: string, shownMb: nat, limitMb: nat, disk: Disk, files: Files)
    requires outDir != []
    ensures SizedChecks(PrepareWith(items, outDir, shownMb, limitMb, disk, files).checks, disk)
    decreases |items|
  {
    if items != [] {
      var head, tail := PrepareStep(items, outDir, shownMb, limitMb, disk, files);
      PrepareItemSizesStandard(items[0], outDir, shownMb, limitMb, disk, files);
      PrepareSizesStandard(items[1..], outDir, shownMb, limitMb, disk, head.1.files);
      SizedChecksAppend(head.1.checks, tail.checks, disk);
    }
  }

  /** With a non-empty output directory, no file other than those the
      recorded paths name changes. */
  lemma {:induction false} PrepareKeepsOthers(items: seq<SymbolRecord>, outDir: string, shownMb: nat, limitMb: nat, disk: Disk, files: Files)
    requires outDir != []
    ensures var r := PrepareWith(items, outDir, shownMb, limitMb, disk, files);
      forall q :: FileKey(q) !in Keys(RecordedPaths(r.records)) ==> Read(r.files, q) == Read(files, q)
    decreases |items|
  {
    if items != [] {
      var head, tail := PrepareStep(items, outDir, shownMb, limitMb, disk, files);
      KeysAppend(head.0.images, RecordedPaths(tail.records));
      PrepareItemStandardizes(items[0], outDir, shownMb, limitMb, disk, files);
      PrepareKeepsOthers(items[1..], outDir, shownMb, limitMb, disk, head.1.files);
    }
  }

  /** With a non-empty output directory, the run leaves a canvas-sized image
      in every file a recorded path names, even when a later item's image of
      the same file name overwrote it. */
  lemma {:induction false} PrepareStandardizes(items: seq<SymbolRecord>, outDir: string, shownMb: nat, limitMb: nat, disk: Disk, files: Files)
    requires outDir != []
    ensures var r := PrepareWith(items, outDir, shownMb, limitMb, disk, files);
      forall q :: FileKey(q) in Keys(RecordedPaths(r.records)) ==> Dims(disk, Read(r.files, q)) == DefaultTarget
    decreases |items|
  {
    if items != [] {
      var head, tail := PrepareStep(items, outDir, shownMb, limitMb, disk, files);
      KeysAppend(head.0.images, RecordedPaths(tail.records));
      PrepareItemStandardizes(items[0], outDir, shownMb, limitMb, disk, files);
      PrepareStandardizes(items[1..], outDir, shownMb, limitMb, disk, head.1.files);
      PrepareKeepsOthers(items[1..], outDir, shownMb, limitMb, disk, head.1.files);
    }
  }

  /** The limits only decide which warnings are printed: the records, the
      checks and the files do not depend on them. */
  lemma {:induction false} PrepareIgnoresLimits(items: seq<SymbolRecord>, outDir: string, shown1: nat, limit1: nat, shown2: nat, limit2: nat, disk: Disk, files: Files)
    ensures var r1 := PrepareWith(items, outDir, shown1, limit1, disk, files);
      var r2 := PrepareWith(items, outDir, shown2, limit2, disk, files);
      r1.records == r2.records && r1.checks == r2.checks && r1.files == r2.files
    decreases |items|
  {
    if items != [] {
      var head1, tail1 := PrepareStep(items, outDir, shown1, limit1, disk, files);
      var head2, tail2 := PrepareStep(items, outDir, shown2, limit2, disk, files);
      CheckLoopIgnoresLimits(head1.0.images, PadInto(outDir, disk), shown1, limit1, shown2, limit2, disk,
        ApplyAll(files, ConvertEffects(items[0].images, outDir)));
      PrepareIgnoresLimits(items[1..], outDir, shown1, limit1, shown2, limit2, disk, head1.1.files);
    }
  }

  /** `prepare_dataset(..., max_size_mb)` as written, over the files as they
      are before the run: the warning names `max_size_mb`, but the check
      behind it uses the default limit of 5 MiB. */
  function PrepareDatasetAsWritten(items: seq<SymbolRecord>, outDir: string, maxMb: nat, disk: Disk): (r: Run)
    ensures CheckedPaths(r.checks) == RecordedPaths(r.records)
    ensures forall p :: Warn(p, maxMb) in r.effects <==>
      exists k :: 0 <= k < |r.checks| && r.checks[k].path == p && TooLarge(disk, r.checks[k].sized, DefaultMaxMb)
  {
    PrepareWarns(items, outDir, maxMb, DefaultMaxMb, disk, map[]);
    PrepareChecksEveryPath(items, outDir, maxMb, DefaultMaxMb, disk, map[]);
    PrepareWith(items, outDir, maxMb, DefaultMaxMb, disk, map[])
  }

  /** `prepare_dataset(..., max_size_mb)` as intended: a recorded path is
      reported exactly when one of its size checks finds the file larger than
      the limit the warning names. */
  function PrepareDataset(items: seq<SymbolRecord>, outDir: string, maxMb: nat, disk: Disk): (r: Run)
    ensures CheckedPaths(r.checks) == RecordedPaths(r.records)
    ensures forall p :: Warn(p, maxMb) in r.effects <==>
      exists k :: 0 <= k < |r.checks| && r.checks[k].path == p && TooLarge(disk, r.checks[k].sized, maxMb)
  {
    PrepareWarns(items, outDir, maxMb, maxMb, disk, map[]);
    PrepareChecksEveryPath(items, outDir, maxMb, maxMb, disk, map[]);
    PrepareWith(items, outDir, maxMb, maxMb, disk, map[])
  }

  /** With a limit above the default, a file between 5 MiB and the limit is
      reported as too large by the script but not by the intended version. */
  lemma {:induction false} WarningIgnoresMaxSize(items: seq<SymbolRecord>, outDir: string, maxMb: nat, disk: Disk, k: nat)
    requires k < |PrepareDataset(items, outDir, maxMb, disk).checks|
    requires var checks := PrepareDataset(items, outDir, maxMb, disk).checks;
      forall j :: 0 <= j < |checks| && checks[j].path == checks[k].path ==>
        ByteLimit(DefaultMaxMb) < disk.bytes(checks[j].sized) <= ByteLimit(maxMb)
    ensures var p := PrepareDataset(items, outDir, maxMb, disk).checks[k].path;
      Warn(p, maxMb) in PrepareDatasetAsWritten(items, outDir, maxMb, disk).effects
    ensures var p := PrepareDataset(items, outDir, maxMb, disk).checks[k].path;
      Warn(p, maxMb) !in PrepareDataset(items, outDir, maxMb, disk).effects
  {
    PrepareIgnoresLimits(items, outDir, maxMb, DefaultMaxMb, maxMb, maxMb, disk, map[]);
  }

  lemma {:induction false} ApplyAllSingle(files: Files, e: Effect)
    ensures ApplyAll(files, [e]) == Apply(files, e)
  {
    assert [e][1..] == [];
  }

  /** The loop over a single path is that path's pass. */
  lemma {:induction false} CheckLoopSingle(p: string, pad: Pads, shownMb: nat, limitMb: nat, disk: Disk, files: Files)
    ensures var padded := PadAt(p, pad, files);
      CheckLoop([p], pad, shownMb, limitMb, disk, files)
        == Pass(CheckOne(p, pad(p, Read(files, p)), shownMb, TooLarge(disk, Read(padded, p), limitMb)),
                [Check(p, Read(files, p), Read(padded, p))], padded)
  {
    var rest := CheckLoopStep([p], pad, shownMb, limitMb, disk, files);
    assert [p][1..] == [];
  }

  /** An item with one image that is not an SVG: the image is copied to its
      recorded path `p` and checked there once, padded when it needs it. */
  lemma {:induction false} SingleImageItem(item: SymbolRecord, outDir: string, p: string, shownMb: nat, limitMb: nat, disk: Disk, files: Files)
      returns (pass: Pass)
    requires outDir != []
    requires |item.images| == 1 && !IsSvg(item.images[0]) && StandardPath(item.images[0], outDir) == p
    ensures pass == PrepareItem(item, outDir, shownMb, limitMb, disk, files).1
    ensures var img := Read(files, item.images[0]);
      var sized := if PaddingOf(p, outDir, disk, img).Some? then Padded(img) else img;
      && pass.checks == [Check(p, img, sized)]
      && pass.files == Write(files, p, sized)
  {
    var name := item.images[0];
    var img := Read(files, name);
    var pad := PadInto(outDir, disk);
    pass := PrepareItem(item, outDir, shownMb, limitMb, disk, files).1;
    var paths := StandardPaths(item.images, outDir);
    assert paths == [p];
    var converts := ConvertEffects(item.images, outDir);
    assert converts == [Copy(name, p)];
    var converted := ApplyAll(files, converts);
    ApplyAllSingle(files, Copy(name, p));
    assert converted == Write(files, p, img);
    CheckLoopSingle(p, pad, shownMb, limitMb, disk, converted);
    assert p in paths by {
      assert paths[0] == p;
    }
    StandardPathInPlace(item.images, outDir, p);
    PadIntoInPlace(outDir, disk, paths);
    if pad(p, img).Some? {
      assert FileKey(pad(p, img).value.outPath) == FileKey(p) by {
        assert paths[0] == p;
      }
      PadAtOverwrites(p, pad, converted);
      UpdateTwice(files, p, img, Padded(img));
    }
  }

  /** With an empty output directory, an item with one file name `name`
      that is not an SVG is copied to, and recorded as, "/" + `name`, but the
      padding made of it is saved to `name` itself, the file it was copied
      from: the recorded file keeps the unpadded image. */
  lemma {:induction false} SingleImageInEmptyDir(item: SymbolRecord, name: string, shownMb: nat, limitMb: nat, disk: Disk, files: Files)
      returns (pass: Pass)
    requires item.images == [name] && '/' !in name && !IsSvg(name)
    ensures pass == PrepareItem(item, "", shownMb, limitMb, disk, files).1
    ensures var p := "/" + name; var img := Read(files, name);
      && PrepareItem(item, "", shownMb, limitMb, disk, files).0.images == [p]
      && pass.checks == [Check(p, img, img)]
      && Read(pass.files, p) == img
      && Read(pass.files, name) == (if PaddingOf(p, "", disk, img).Some? then Padded(img) else img)
  {
    var p := "/" + name;
    var img := Read(files, name);
    var pad := PadInto("", disk);
    pass := PrepareItem(item, "", shownMb, limitMb, disk, files).1;
    var converted := EmptyDirCopies(item, name, files);
    CheckLoopSingle(p, pad, shownMb, limitMb, disk, converted);
    var padded := PadAt(p, pad, converted);
    assert pass.files == padded && pass.checks == [Check(p, img, Read(padded, p))];
    PadIntoEmptyDir(name, disk, img);
    if pad(p, img).Some? {
      PadAtWrites(p, pad, converted);
      assert padded == Write(converted, name, Padded(img));
    }
  }

  /** Padding the image at `p` saves its padded version at the output path
      the padding names. */
  lemma {:induction false} PadAtWrites(p: string, pad: Pads, files: Files)
    requires pad(p, Read(files, p)).Some?
    ensures PadAt(p, pad, files) == Write(files, pad(p, Read(files, p)).value.outPath, Padded(Read(files, p)))
  {
  }

  /** With an empty output directory, a file name that is not an SVG is
      recorded as "/" + `name` and copied there. */
  lemma {:induction false} EmptyDirCopies(item: SymbolRecord, name: string, files: Files) returns (converted: Files)
    requires item.images == [name] && '/' !in name && !IsSvg(name)
    ensures StandardPaths(item.images, "") == ["/" + name]
    ensures converted == ApplyAll(files, ConvertEffects(item.images, ""))
    ensures converted == Write(files, "/" + name, Read(files, name))
  {
    var p := "/" + name;
    StandardPathOfPlainName(name, "");
    assert StandardPath(name, "") == p by {
      assert "" + "/" + name == p;
    }
    assert StandardPaths(item.images, "") == [p];
    assert ConvertEffects(item.images, "") == [Copy(name, p)];
    converted := ApplyAll(files, ConvertEffects(item.images, ""));
    ApplyAllSingle(files, Copy(name, p));
  }

  /** With an empty output directory, the padding of "/" + `name` is saved
      to `name`, a different file. */
  lemma {:induction false} PadIntoEmptyDir(name: string, disk: Disk, img: Image)
    requires '/' !in name
    ensures PadInto("", disk)("/" + name, img).Some? ==> PadInto("", disk)("/" + name, img).value.outPath == name
    ensures FileKey(name) != FileKey("/" + name)
  {
    JoinPathOntoEmpty(name);
    BasenameAfterSlash("", name);
    assert "" + "/" + name == "/" + name;
  }

  /** Padding an image in place replaces it with its padded version. */
  lemma {:induction false} PadAtOverwrites(p: string, pad: Pads, files: Files)
    requires pad(p, Read(files, p)).Some? && FileKey(pad(p, Read(files, p)).value.outPath) == FileKey(p)
    ensures PadAt(p, pad, files) == Write(files, p, Padded(Read(files, p)))
  {
  }

  lemma {:induction false} UpdateTwice(files: Files, p: string, a: Image, b: Image)
    ensures Write(Write(files, p, a), p, b) == Write(files, p, b)
  {
  }

  /** A concrete instance: with `max_size_mb` 10, a 448x448 image "a.jpg" of
      6 MiB standardised into "out" is reported as larger than 10 MB. */
  lemma {:induction false} WarningForImageWithinLimit(items: seq<SymbolRecord>, disk: Disk)
    requires items == [SymbolRecord("Eagle", [], [], ["a.jpg"])]
    requires disk.dims(Original("a.jpg")) == DefaultTarget && disk.bytes(Original("a.jpg")) == 6 * MiB
    ensures CheckValidImageSize(6 * MiB, 10)
    ensures Warn("out/a.jpg", 10) in PrepareDatasetAsWritten(items, "out", 10, disk).effects
  {
    var outDir, p := "out", "out/a.jpg";
    StandardPathOfJpg("a.jpg", outDir, p);
    JpgKeys("a.jpg", outDir, p);
    var head, tail := PrepareStep(items, outDir, 10, DefaultMaxMb, disk, map[]);
    var pass := SingleImageItem(items[0], outDir, p, 10, DefaultMaxMb, disk, map[]);
    PadIntoOffSize(outDir, disk, p, Original("a.jpg"));
    var r := PrepareDatasetAsWritten(items, outDir, 10, disk);
    assert r.checks[0] == Check(p, Original("a.jpg"), Original("a.jpg"));
  }

  /** A concrete instance with an output directory written with a trailing
      '/': "x.jpg", 1000x1000 pixels and 6 MiB, is recorded as "out//x.jpg"
      and padded through `join("out/", "x.jpg")`, which is "out/x.jpg", the
      same file. The size check then reads the 1 MiB padded image, so
      nothing is reported, and both spellings hold the padded image. */
  lemma {:induction false} TrailingSlashPadsInPlace(items: seq<SymbolRecord>, disk: Disk)
    requires items == [SymbolRecord("Eagle", [], [], ["x.jpg"])]
    requires disk.dims(Original("x.jpg")) == Size(1000, 1000)
    requires disk.bytes(Original("x.jpg")) == 6 * MiB && disk.bytes(Padded(Original("x.jpg"))) == MiB
    ensures var r := PrepareDatasetAsWritten(items, "out/", 5, disk);
      && r.records[0].images == ["out//x.jpg"]
      && Warn("out//x.jpg", 5) !in r.effects
      && Read(r.files, "out//x.jpg") == Padded(Original("x.jpg"))
      && Read(r.files, "out/x.jpg") == Padded(Original("x.jpg"))
  {
    var outDir, name, p := "out/", "x.jpg", "out//x.jpg";
    PlainNameInDir(name, outDir, p);
    TwoSpellings(p, "out/x.jpg");
    var img := Original(name);
    var pass := SingleImageItem(items[0], outDir, p, 5, DefaultMaxMb, disk, map[]);
    PadIntoOffSize(outDir, disk, p, img);
    var head, tail := PrepareStep(items, outDir, 5, DefaultMaxMb, disk, map[]);
    assert items[1..] == [];
    var r := PrepareDatasetAsWritten(items, outDir, 5, disk);
    assert r.checks == [Check(p, img, Padded(img))];
    assert !TooLarge(disk, Padded(img), DefaultMaxMb);
  }

  /** "out//x.jpg" and "out/x.jpg" name the same file. */
  lemma {:induction false} TwoSpellings(doubled: string, single: string)
    requires doubled == "out//x.jpg" && single == "out/x.jpg"
    ensures FileKey(doubled) == FileKey(single)
  {
    var dir, name := "out", "x.jpg";
    assert doubled == dir + "//" + name;
    assert single == dir + "/" + name;
    FileKeyDoubleSlash(dir, name);
  }

  /** "x.jpg" is recorded directly under `outDir`, and is its own file key. */
  lemma {:induction false} PlainNameInDir(name: string, outDir: string, path: string)
    requires name == "x.jpg" && path == outDir + "/" + name
    ensures !IsSvg(name) && FileKey(name) == name
    ensures StandardPaths([name], outDir) == [path]
    ensures StandardPath(name, outDir) == path
  {
    assert !IsSvg(name) by {
      assert name[|name| - 4..] == ".jpg";
    }
    StandardPathOfPlainName(name, outDir);
    FileKeyOfName(name);
  }

  /** Copying a file twice to another file leaves the file there. */
  lemma {:induction false} CopiedTwice(files: Files, src: string, dst: string)
    requires FileKey(src) != FileKey(dst)
    ensures Read(ApplyAll(files, [Copy(src, dst), Copy(src, dst)]), dst) == Read(files, src)
  {
    var c := Copy(src, dst);
    assert [c, c] == [c] + [c];
    ApplyAllAppend(files, [c], [c]);
    ApplyAllSingle(files, c);
    ApplyAllSingle(Apply(files, c), c);
  }

  /** An item that lists a file name twice copies it twice and checks its
      recorded path twice: the first check reads the copied image, and the
      second finds it already at canvas size, so it is padded at most
      once. */
  lemma {:induction false} RepeatedNamePaddedOnce(item: SymbolRecord, outDir: string, x: string, p: string, shownMb: nat, limitMb: nat, disk: Disk, files: Files)
    requires outDir != []
    requires item.images == [x, x] && !IsSvg(x) && StandardPath(x, outDir) == p && FileKey(x) != FileKey(p)
    ensures var checks := PrepareItem(item, outDir, shownMb, limitMb, disk, files).1.checks;
      && |checks| == 2
      && checks[0].read == Read(files, x)
      && PaddingOf(p, outDir, disk, checks[1].read) == None
  {
    var paths := StandardPaths(item.images, outDir);
    assert paths == [p, p] && Keys(paths)[..0] == [] && Keys(paths)[..1] == [FileKey(p)];
    var converts := ConvertEffects(item.images, outDir);
    assert converts == [Copy(x, p), Copy(x, p)];
    CopiedTwice(files, x, p);
    PrepareItemPadsOnce(item, outDir, shownMb, limitMb, disk, files);
  }

  /** A concrete instance: "x.jpg" listed twice, 100x100 pixels, is padded
      by the first size check only. */
  lemma {:induction false} RepeatedImagePaddedOnce(items: seq<SymbolRecord>, disk: Disk)
    requires items == [SymbolRecord("Eagle", [], [], ["x.jpg", "x.jpg"])]
    requires disk.dims(Original("x.jpg")) == Size(100, 100)
    ensures var r := PrepareDataset(items, "out", 5, disk);
      && |r.checks| == 2
      && r.checks[0].read == Original("x.jpg") && PaddingOf("out/x.jpg", "out", disk, r.checks[0].read).Some?
      && PaddingOf("out/x.jpg", "out", disk, r.checks[1].read) == None
  {
    var outDir, p := "out", "out/x.jpg";
    StandardPathOfJpg("x.jpg", outDir, p);
    JpgKeys("x.jpg", outDir, p);
    assert "x.jpg" != p by {
      assert |"x.jpg"| != |p|;
    }
    var head, tail := PrepareStep(items, outDir, 5, 5, disk, map[]);
    RepeatedNamePaddedOnce(items[0], outDir, "x.jpg", p, 5, 5, disk, map[]);
    PadIntoOffSize(outDir, disk, p, Original("x.jpg"));
    var r := PrepareDataset(items, outDir, 5, disk);
    assert r.checks == head.1.checks;
  }

  /** Two items, each with one image that is not an SVG, whose images share
      a recorded path `p`: both records point at `p`, each item checks it
      once, and the second item's image, padded when it needs it, is what
      the run leaves there. */
  lemma {:induction false} SharedPathLastWins(first: SymbolRecord, second: SymbolRecord, outDir: string, p: string, shownMb: nat, limitMb: nat, disk: Disk, files: Files)
    requires outDir != []
    requires |first.images| == 1 && !IsSvg(first.images[0]) && StandardPath(first.images[0], outDir) == p
    requires |second.images| == 1 && !IsSvg(second.images[0]) && StandardPath(second.images[0], outDir) == p
    ensures var r := PrepareWith([first, second], outDir, shownMb, limitMb, disk, files);
      var img1 := Read(files, first.images[0]);
      var sized1 := if PaddingOf(p, outDir, disk, img1).Some? then Padded(img1) else img1;
      var img2 := Read(Write(files, p, sized1), second.images[0]);
      var sized2 := if PaddingOf(p, outDir, disk, img2).Some? then Padded(img2) else img2;
      && r.records[0].images == [p] && r.records[1].images == [p]
      && r.checks == [Check(p, img1, sized1), Check(p, img2, sized2)]
      && r.files == Write(files, p, sized2)
  {
    var pass1 := SingleImageItem(first, outDir, p, shownMb, limitMb, disk, files);
    var pass2 := SingleImageItem(second, outDir, p, shownMb, limitMb, disk, pass1.files);
    PrepareTwo(first, second, outDir, shownMb, limitMb, disk, files);
    var img1 := Read(files, first.images[0]);
    var sized1 := if PaddingOf(p, outDir, disk, img1).Some? then Padded(img1) else img1;
    var img2 := Read(Write(files, p, sized1), second.images[0]);
    var sized2 := if PaddingOf(p, outDir, disk, img2).Some? then Padded(img2) else img2;
    UpdateTwice(files, p, sized1, sized2);
  }

  /** A run over two items is the first item's pass followed by the
      second's, which starts from the files the first leaves. */
  lemma {:induction false} PrepareTwo(first: SymbolRecord, second: SymbolRecord, outDir: string, shownMb: nat, limitMb: nat, disk: Disk, files: Files)
    ensures var head := PrepareItem(first, outDir, shownMb, limitMb, disk, files);
      var next := PrepareItem(second, outDir, shownMb, limitMb, disk, head.1.files);
      PrepareWith([first, second], outDir, shownMb, limitMb, disk, files)
        == Run([head.0, next.0], head.1.effects + next.1.effects, head.1.checks + next.1.checks, next.1.files)
  {
    var items := [first, second];
    assert items[1..] == [second];
    var head, tail := PrepareStep(items, outDir, shownMb, limitMb, disk, files);
    var next, last := PrepareStep([second], outDir, shownMb, limitMb, disk, head.1.files);
    assert [second][1..] == [];
    assert next.1.effects + [] == next.1.effects && next.1.checks + [] == next.1.checks;
  }

  /** A concrete instance: "a/x.jpg", already at canvas size, and "b/x.jpg",
      100x100 pixels, in two items are both recorded as "out/x.jpg"; the
      second overwrites the first, so the first record ends up pointing at
      the second item's padded image. */
  lemma {:induction false} SharedNameOverwritten(items: seq<SymbolRecord>, disk: Disk)
    requires items == [SymbolRecord("Eagle", [], [], ["a/x.jpg"]), SymbolRecord("Lion", [], [], ["b/x.jpg"])]
    requires disk.dims(Original("a/x.jpg")) == DefaultTarget && disk.dims(Original("b/x.jpg")) == Size(100, 100)
    ensures var r := PrepareDataset(items, "out", 5, disk);
      && r.records[0].images == r.records[1].images == ["out/x.jpg"]
      && r.checks[0].sized == Original("a/x.jpg")
      && Read(r.files, "out/x.jpg") == Padded(Original("b/x.jpg"))
  {
    var outDir, p := "out", "out/x.jpg";
    StandardPathOfNested("a/x.jpg", outDir);
    StandardPathOfNested("b/x.jpg", outDir);
    NestedKeys("a/x.jpg", "x.jpg");
    NestedKeys("b/x.jpg", "x.jpg");
    NestedApart("b/x.jpg", p);
    PadIntoOffSize(outDir, disk, p, Original("a/x.jpg"));
    PadIntoOffSize(outDir, disk, p, Original("b/x.jpg"));
    SharedPathLastWins(items[0], items[1], outDir, p, 5, 5, disk, map[]);
    assert items == [items[0], items[1]];
  }

  lemma {:induction false} StandardPathOfJpg(name: string, outDir: string, path: string)
    requires name in {"a.jpg", "x.jpg"} && outDir == "out" && path == outDir + "/" + name
    ensures !IsSvg(name)
    ensures StandardPaths([name], outDir) == [path]
    ensures StandardPath(name, outDir) == path
  {
    assert !IsSvg(name) by {
      assert name[|name| - 4..] == ".jpg";
    }
    StandardPathOfPlainName(name, outDir);
  }

  /** "a.jpg", "x.jpg" and their paths under "out" are each a file's own
      name, and the two spellings name different files. */
  lemma {:induction false} JpgKeys(name: string, outDir: string, path: string)
    requires name in {"a.jpg", "x.jpg"} && outDir == "out" && path == outDir + "/" + name
    ensures FileKey(name) == name && FileKey(path) == path && FileKey(name) != FileKey(path)
  {
    FileKeyOfName(name);
    FileKeyOfDirName(outDir, name);
    assert |name| != |path|;
  }

  /** "a/x.jpg" and "b/x.jpg" are both recorded as "out/x.jpg". */
  lemma {:induction false} StandardPathOfNested(p: string, outDir: string)
    requires p in {"a/x.jpg", "b/x.jpg"} && outDir == "out"
    ensures !IsSvg(p)
    ensures StandardPath(p, outDir) == "out/x.jpg"
  {
    assert !IsSvg(p) by {
      assert p[|p| - 4..] == ".jpg";
    }
    assert p[1] == '/' && forall j :: 0 <= j < |p| && j != 1 ==> p[j] != '/';
    assert RFind(p, '/') == Some(1);
    assert Basename(p) == p[2..] == "x.jpg";
  }

  lemma {:induction false} NestedKeys(p: string, name: string)
    requires p in {"a/x.jpg", "b/x.jpg"} && name == "x.jpg"
    ensures FileKey(p) == p
  {
    var dir := if p == "a/x.jpg" then "a" else "b";
    assert p == dir + "/" + name;
    FileKeyOfDirName(dir, name);
  }

  /** "b/x.jpg" and "out/x.jpg" name different files. */
  lemma {:induction false} NestedApart(q: string, p: string)
    requires q == "b/x.jpg" && p == "out/x.jpg"
    ensures FileKey(q) != FileKey(p)
  {
    NestedKeys(q, "x.jpg");
    assert p == "out" + "/" + "x.jpg";
    FileKeyOfDirName("out", "x.jpg");
    assert FileKey(q)[0] != FileKey(p)[0];
  }

  lemma {:induction false} StandardPathOfNonSvg(p: string, outDir: string)
    requires !IsSvg(p)
    ensures StandardPath(p, outDir) == outDir + "/" + Basename(p)
  {
  }

  /** A file name that is not an SVG is recorded directly under `outDir`. */
  lemma {:induction false} StandardPathOfPlainName(name: string, outDir: string)
    requires '/' !in name && !IsSvg(name)
    ensures StandardPath(name, outDir) == outDir + "/" + name
  {
    RFindAbsent(name, '/');
  }
}
