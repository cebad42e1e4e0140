/**
 * The image description of app/models/image.go: its properties map, its
 * aspect ratio (as an exact rational) and its orientation.  Opening the
 * file and decoding its header are outside the model: an Image is given.
 */
module ImageModel {
  import opened GoStrings

  datatype Image = Image(source: string, width: int, height: int, format: string, fileSize: int)

  /** The values of the properties map. */
  datatype Property = Text(text: string) | Number(number: int)

  /** The part of a slash-free-ended path after its last '/'. */
  function LastElement(path: string): (name: string)
    ensures '/' !in name
    ensures |name| <= |path| && path[|path| - |name|..] == name
    ensures |name| < |path| ==> path[|path| - |name| - 1] == '/'
  {
    if |path| == 0 || path[|path| - 1] == '/' then ""
    else LastElement(path[..|path| - 1]) + [path[|path| - 1]]
  }

  /** filepath.Base on a Unix path: "." for "", "/" for slashes only, else the last element. */
  function Base(path: string): (name: string)
    ensures |name| > 0
    ensures name != "/" ==> '/' !in name
  {
    if path == "" then "."
    else
      var trimmed := TrimRight(path, '/');
      var last := LastElement(trimmed);
      if last == "" then "/" else last
  }

  lemma {:induction false} LastElementOfName(dir: string, name: string)
    requires '/' !in name
    ensures LastElement(dir + "/" + name) == name
  {
    if |name| > 0 {
      var init := name[..|name| - 1];
      assert (dir + "/" + name)[..|dir + "/" + name| - 1] == dir + "/" + init;
      LastElementOfName(dir, init);
      assert name == init + [name[|name| - 1]];
    }
  }

  /** The file name of "dir/name" is name, for a non-empty name without a slash. */
  lemma BaseOfJoinedPath(dir: string, name: string)
    requires name != "" && '/' !in name
    ensures Base(dir + "/" + name) == name
  {
    var path := dir + "/" + name;
    assert path[|path| - 1] == name[|name| - 1];
    assert TrimRight(path, '/') == path;
    LastElementOfName(dir, name);
  }

  /** The six property names are pairwise different. */
  lemma DistinctKeys()
    ensures "source" != "width" && "source" != "height" && "source" != "format"
    ensures "source" != "fileSize" && "source" != "filename"
    ensures "width" != "height" && "width" != "format" && "width" != "fileSize" && "width" != "filename"
    ensures "height" != "format" && "height" != "fileSize" && "height" != "filename"
    ensures "format" != "fileSize" && "format" != "filename"
    ensures "fileSize" != "filename"
  {
    assert "source"[0] != "height"[0] && "source"[0] != "format"[0] && "height"[0] != "format"[0];
    assert "fileSize"[4] != "filename"[4];
  }

  /** GetProperties: one entry per field, and the file name. */
  function Properties(img: Image): (m: map<string, Property>)
    ensures m.Keys == {"source", "width", "height", "format", "fileSize", "filename"}
  {
    DistinctKeys();
    map["source" := Text(img.source), "width" := Number(img.width), "height" := Number(img.height),
        "format" := Text(img.format), "fileSize" := Number(img.fileSize), "filename" := Text(Base(img.source))]
  }

  /** The fields are kept unchanged, and the file name is the base name of the source. */
  lemma PropertyValues(img: Image)
    ensures var m := Properties(img);
            && m["source"] == Text(img.source) && m["format"] == Text(img.format)
            && m["width"] == Number(img.width) && m["height"] == Number(img.height)
            && m["fileSize"] == Number(img.fileSize)
            && m["filename"].Text? && m["filename"].text == Base(img.source)
  {
    DistinctKeys();
  }

  /** Width over height, and 0 for a zero height. */
  function AspectRatio(img: Image): (r: real)
    ensures img.height == 0 ==> r == 0.0
    ensures img.height != 0 ==> r * img.height as real == img.width as real
  {
    if img.height == 0 then 0.0 else img.width as real / img.height as real
  }

  predicate IsLandscape(img: Image)
  {
    img.width > img.height
  }

  predicate IsPortrait(img: Image)
  {
    img.height > img.width
  }

  predicate IsSquare(img: Image)
  {
    img.width == img.height
  }

  /** Every image has exactly one orientation. */
  lemma ExactlyOneOrientation(img: Image)
    ensures IsLandscape(img) || IsPortrait(img) || IsSquare(img)
    ensures !(IsLandscape(img) && IsPortrait(img))
    ensures !(IsLandscape(img) && IsSquare(img))
    ensures !(IsPortrait(img) && IsSquare(img))
  {
  }

  /** Multiplying a positive number by a factor above (below) 1 makes it larger (smaller). */
  lemma ScaleAgainstOne(r: real, h: real)
    requires h > 0.0
    ensures r > 1.0 ==> r * h > h
    ensures r < 1.0 ==> r * h < h
    ensures r == 1.0 ==> r * h == h
  {
    if r > 1.0 {
      assert r * h - h == (r - 1.0) * h;
    } else if r < 1.0 {
      assert h - r * h == (1.0 - r) * h;
    }
  }

  /** A landscape image is wider than tall: its aspect ratio exceeds 1 for a positive height. */
  lemma LandscapeRatio(img: Image)
    requires img.height > 0
    ensures IsLandscape(img) <==> AspectRatio(img) > 1.0
    ensures IsSquare(img) <==> AspectRatio(img) == 1.0
  {
    var r := AspectRatio(img);
    var h := img.height as real;
    var w := img.width as real;
    assert r * h == w;
    ScaleAgainstOne(r, h);
    if r > 1.0 {
      assert w > h;
    } else if r < 1.0 {
      assert w < h;
    } else {
      assert w == h;
    }
  }
}
