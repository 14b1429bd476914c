/**
 * Which files the viewer treats as images, and the content type it serves
 * a file with: both decided by the file's extension, compared after
 * lower-casing it.
 */
module Images {
  import opened Wrappers
  import opened Text
  import opened Paths

  /** The extensions a listed image may have. */
  const ImageExtensions: seq<string> := ["jpg", "jpeg", "png", "gif", "bmp", "avif", "webp", "tiff", "svg", "ico"]

  /**
   * `is_image_file`: the path has an extension, and lower-cased it is one of
   * `ImageExtensions`; so an image's name is a non-empty stem, a '.' and an
   * extension of three or four characters.
   */
  predicate IsImageFile(p: Path)
    ensures IsImageFile(p) ==> p.Extension().Some? && 3 <= |p.Extension().value| <= 4
    ensures IsImageFile(p) ==> p.FileStem().Some? && p.FileStem().value != ""
  {
    match p.Extension()
    case None => false
    case Some(ext) => Lower(ext) in ImageExtensions
  }

  /** The media type served for a lower-cased extension; anything unknown is plain bytes. */
  function MediaType(ext: string): (t: string)
    ensures t == "application/octet-stream" || (|t| > 6 && t[..6] == "image/")
    ensures ext in ImageExtensions ==> t != "application/octet-stream"
    ensures t != "application/octet-stream" ==> (ext in ImageExtensions <==> ext != "tif")
  {
    if ext == "jpg" || ext == "jpeg" then "image/jpeg"
    else if ext == "png" then "image/png"
    else if ext == "gif" then "image/gif"
    else if ext == "bmp" then "image/bmp"
    else if ext == "webp" then "image/webp"
    else if ext == "avif" then "image/avif"
    else if ext == "svg" then "image/svg+xml"
    else if ext == "tiff" || ext == "tif" then "image/tiff"
    else if ext == "ico" then "image/x-icon"
    else "application/octet-stream"
  }

  /**
   * The `Content-Type` a file is served with, chosen by its lower-cased
   * extension. Every file the listing calls an image gets an image type;
   * the only image type given to a file the listing does not show is
   * TIFF for "tif".
   */
  function ContentType(p: Path): (t: string)
    ensures t == "application/octet-stream" || (|t| > 6 && t[..6] == "image/")
    ensures IsImageFile(p) ==> t != "application/octet-stream"
    ensures t != "application/octet-stream" ==> p.Extension().Some? && (IsImageFile(p) <==> Lower(p.Extension().value) != "tif")
  {
    match p.Extension()
    case None => "application/octet-stream"
    case Some(ext) => MediaType(Lower(ext))
  }

  /** `photo.JPG` is an image, served as JPEG. */
  lemma UpperCaseJpegIsImage(dir: seq<string>)
    ensures IsImageFile(Path(true, dir + ["photo.JPG"]))
    ensures ContentType(Path(true, dir + ["photo.JPG"])) == "image/jpeg"
  {
    var p := Path(true, dir + ["photo.JPG"]);
    JpgFacts();
    assert p.Extension() == Some("JPG") by {
      SplitFileNameJoin("photo", "JPG");
    }
  }

  lemma JpgFacts()
    ensures "photo" + "." + "JPG" == "photo.JPG"
    ensures Lower("JPG") == "jpg"
    ensures MediaType("jpg") == "image/jpeg"
    ensures "jpg" in ImageExtensions
  {
    assert Lower("JPG") == "jpg";
  }

  /** `scan.TIF` is served as TIFF but is not listed as an image. */
  lemma TifIsServedNotListed(dir: seq<string>)
    ensures !IsImageFile(Path(true, dir + ["scan.TIF"]))
    ensures ContentType(Path(true, dir + ["scan.TIF"])) == "image/tiff"
  {
    var p := Path(true, dir + ["scan.TIF"]);
    TifFacts();
    assert p.Extension() == Some("TIF") by {
      SplitFileNameJoin("scan", "TIF");
    }
  }

  lemma TifFacts()
    ensures "scan" + "." + "TIF" == "scan.TIF"
    ensures Lower("TIF") == "tif"
    ensures MediaType("tif") == "image/tiff"
    ensures "tif" !in ImageExtensions
  {
    assert Lower("TIF") == "tif";
  }

  /** `.png` is a name without an extension, so it is neither an image nor served as one. */
  lemma DotPngIsNoImage(dir: seq<string>)
    ensures !IsImageFile(Path(true, dir + [".png"]))
    ensures ContentType(Path(true, dir + [".png"])) == "application/octet-stream"
  {
    var hidden := ".png";
    assert LastDot(hidden) == Some(0) by {
      assert hidden[0] == '.';
      assert forall k :: 0 < k < |hidden| ==> hidden[k] != '.';
    }
  }
}
