/**
 * The decision logic of the resize endpoint (app/handlers/resize.go):
 * reading the resize directives from the query, deriving the integer cache
 * discriminator, the placeholder graphic, the geometry of the transform,
 * the choice of output encoder, the repair of the source URL and the
 * cache-bypass and write-back rules.  Network, codecs and response writing
 * are outside the model; their outcomes are parameters.
 */
module ResizeHandler {
  import opened Wrappers
  import opened GoStrings
  import ImageTable

  // ---------------------------------------------------------------------
  // Query parameters
  // ---------------------------------------------------------------------

  /** The query string: key to value.  As with url.Values.Get, a missing key reads as "". */
  type Query = map<string, string>

  function Get(q: Query, key: string): string
  {
    if key in q then q[key] else ""
  }

  /** The short spelling of a parameter if it has a value, else the long one. */
  function GetEither(q: Query, short: string, long: string): string
  {
    if Get(q, short) != "" then Get(q, short) else Get(q, long)
  }

  /** The parsed directives: Width and Height are 0 when not requested. */
  datatype ResizeParams = ResizeParams(width: int, height: int, cropMode: bool, cacheKey: string)

  /** A dimension is a strconv.Atoi value that is positive. */
  function Dimension(s: string): (r: Option<int>)
    ensures r.Some? ==> 0 < r.value <= MaxInt64
  {
    var n := Atoi(s);
    if n.Some? && n.value > 0 then n else None
  }

  /** The canonical cache-key string of a request, determined by its dimensions and mode. */
  function CanonicalKey(width: int, height: int, cropMode: bool): string
  {
    if cropMode then "c_" + Itoa(width) + "x" + Itoa(height)
    else if width > 0 && height > 0 then "w_" + Itoa(width) + "x" + Itoa(height)
    else if width > 0 then "w_" + Itoa(width)
    else if height > 0 then "h_" + Itoa(height)
    else ""
  }

  /** What every successful parse produces. */
  predicate WellFormed(p: ResizeParams)
  {
    && 0 <= p.width <= MaxInt64
    && 0 <= p.height <= MaxInt64
    && (p.cropMode ==> p.width > 0 && p.height > 0)
    && p.cacheKey == CanonicalKey(p.width, p.height, p.cropMode)
  }

  /**
   * The "WxH" form of a value: it must split on 'x' into exactly two
   * dimensions.  The three messages are those for a wrong number of parts,
   * a bad first part and a bad second part.
   */
  function PairValue(s: string, formatError: string, widthError: string, heightError: string): (r: Result<(int, int), string>)
    ensures var parts := Split(s, 'x');
            r.Ok? <==> |parts| == 2 && Dimension(parts[0]).Some? && Dimension(parts[1]).Some?
    ensures var parts := Split(s, 'x');
            r.Ok? ==> r.value == (Dimension(parts[0]).value, Dimension(parts[1]).value)
    ensures |Split(s, 'x')| != 2 ==> r == Err(formatError)
    ensures r.Ok? ==> 0 < r.value.0 <= MaxInt64 && 0 < r.value.1 <= MaxInt64
  {
    var parts := Split(s, 'x');
    if |parts| != 2 then Err(formatError)
    else if Dimension(parts[0]).None? then Err(widthError)
    else if Dimension(parts[1]).None? then Err(heightError)
    else Ok((Dimension(parts[0]).value, Dimension(parts[1]).value))
  }

  /** The dimensions a non-empty crop value asks for: "WxH", or "S" for an S by S square. */
  function CropValue(crop: string): (r: Result<(int, int), string>)
    ensures var parts := Split(crop, 'x');
            'x' in crop ==>
              && (r.Ok? <==> |parts| == 2 && Dimension(parts[0]).Some? && Dimension(parts[1]).Some?)
              && (r.Ok? ==> r.value == (Dimension(parts[0]).value, Dimension(parts[1]).value))
    ensures 'x' !in crop ==> (r.Ok? <==> Dimension(crop).Some?)
    ensures 'x' !in crop && r.Ok? ==> r.value == (Dimension(crop).value, Dimension(crop).value)
    ensures r.Ok? ==> 0 < r.value.0 <= MaxInt64 && 0 < r.value.1 <= MaxInt64
  {
    if 'x' in crop then PairValue(crop, "invalid crop format, use c=100 or c=100x100", "invalid crop width", "invalid crop height")
    else if Dimension(crop).None? then Err("invalid crop size")
    else Ok((Dimension(crop).value, Dimension(crop).value))
  }

  /** The dimensions a width value asks for: none when empty, "WxH", or a bare width. */
  function WidthValue(w: string): (r: Result<(int, int), string>)
    ensures w == "" ==> r == Ok((0, 0))
    ensures var parts := Split(w, 'x');
            'x' in w ==>
              && (r.Ok? <==> |parts| == 2 && Dimension(parts[0]).Some? && Dimension(parts[1]).Some?)
              && (r.Ok? ==> r.value == (Dimension(parts[0]).value, Dimension(parts[1]).value))
    ensures w != "" && 'x' !in w ==> (r.Ok? <==> Dimension(w).Some?)
    ensures w != "" && 'x' !in w && r.Ok? ==> r.value == (Dimension(w).value, 0)
    ensures r.Ok? ==> 0 <= r.value.0 <= MaxInt64 && 0 <= r.value.1 <= MaxInt64
    ensures r.Ok? && w != "" ==> r.value.0 > 0
  {
    if w == "" then Ok((0, 0))
    else if 'x' in w then PairValue(w, "invalid dimension format, use w=100x100", "invalid width", "invalid height")
    else if Dimension(w).None? then Err("invalid width parameter")
    else Ok((Dimension(w).value, 0))
  }

  /**
   * The meaning of the resize directives.  A crop value takes precedence and
   * is the only one read when present; otherwise the width value (bare or
   * "WxH") and then a bare height value are read, the height value
   * overriding the height of a "WxH" width.
   */
  function Parse(q: Query): (r: Result<ResizeParams, string>)
    ensures r.Ok? ==> WellFormed(r.value)
    ensures r.Ok? ==> (r.value.cropMode <==> GetEither(q, "c", "crop") != "")
  {
    var crop := GetEither(q, "c", "crop");
    if crop != "" then
      var dims := CropValue(crop);
      if dims.Err? then Err(dims.error)
      else Ok(ResizeParams(dims.value.0, dims.value.1, true, CanonicalKey(dims.value.0, dims.value.1, true)))
    else SizeParams(GetEither(q, "w", "width"), GetEither(q, "h", "height"))
  }

  /** The meaning of the width and height values when no crop is asked for. */
  function SizeParams(w: string, h: string): (r: Result<ResizeParams, string>)
    ensures r.Ok? <==> WidthValue(w).Ok? && (h == "" || Dimension(h).Some?)
    ensures r.Ok? ==> WellFormed(r.value) && !r.value.cropMode
    ensures r.Ok? ==> r.value.width == WidthValue(w).value.0
    ensures r.Ok? ==> r.value.height == if h != "" then Dimension(h).value else WidthValue(w).value.1
  {
    var fromWidth := WidthValue(w);
    if fromWidth.Err? then Err(fromWidth.error)
    else if h != "" && Dimension(h).None? then Err("invalid height parameter")
    else
      var width := fromWidth.value.0;
      var height := if h != "" then Dimension(h).value else fromWidth.value.1;
      Ok(ResizeParams(width, height, false, CanonicalKey(width, height, false)))
  }

  /** The crop branch of parseResizeParams: reads "WxH" or a single size. */
  method ReadCropValue(cropStr: string) returns (r: Result<(int, int), string>)
    ensures r == CropValue(cropStr)
  {
    ContainsChar(cropStr, 'x');
    if Contains(cropStr, "x") {
      var parts := Split(cropStr, 'x');
      if |parts| != 2 {
        return Err("invalid crop format, use c=100 or c=100x100");
      }
      var width := Atoi(parts[0]);
      if width.None? || width.value <= 0 {
        return Err("invalid crop width");
      }
      var height := Atoi(parts[1]);
      if height.None? || height.value <= 0 {
        return Err("invalid crop height");
      }
      return Ok((width.value, height.value));
    }
    var size := Atoi(cropStr);
    if size.None? || size.value <= 0 {
      return Err("invalid crop size");
    }
    return Ok((size.value, size.value));
  }

  /** The width branch of parseResizeParams: reads "WxH" or a bare width. */
  method ReadWidthValue(widthStr: string) returns (r: Result<(int, int), string>)
    requires widthStr != ""
    ensures r == WidthValue(widthStr)
  {
    ContainsChar(widthStr, 'x');
    if Contains(widthStr, "x") {
      var parts := Split(widthStr, 'x');
      if |parts| != 2 {
        return Err("invalid dimension format, use w=100x100");
      }
      var width := Atoi(parts[0]);
      if width.None? || width.value <= 0 {
        return Err("invalid width");
      }
      var height := Atoi(parts[1]);
      if height.None? || height.value <= 0 {
        return Err("invalid height");
      }
      return Ok((width.value, height.value));
    }
    var width := Atoi(widthStr);
    if width.None? || width.value <= 0 {
      return Err("invalid width parameter");
    }
    return Ok((width.value, 0));
  }

  /** parseResizeParams: fills the parameter record field by field, returning at the first invalid value. */
  method ParseResizeParams(q: Query) returns (r: Result<ResizeParams, string>)
    ensures r == Parse(q)
    ensures r.Ok? ==> WellFormed(r.value)
  {
    var width, height, cropMode, cacheKey := 0, 0, false, "";
    var cropStr := Get(q, "c");
    if cropStr == "" {
      cropStr := Get(q, "crop");
    }
    assert cropStr == GetEither(q, "c", "crop");
    if cropStr != "" {
      cropMode := true;
      var dims := ReadCropValue(cropStr);
      if dims.Err? {
        return Err(dims.error);
      }
      width, height := dims.value.0, dims.value.1;
      cacheKey := "c_" + Itoa(width) + "x" + Itoa(height);
      assert cacheKey == CanonicalKey(width, height, true);
      return Ok(ResizeParams(width, height, cropMode, cacheKey));
    }

    var widthStr := Get(q, "w");
    if widthStr == "" {
      widthStr := Get(q, "width");
    }
    var heightStr := Get(q, "h");
    if heightStr == "" {
      heightStr := Get(q, "height");
    }
    r := ReadSizeDirectives(widthStr, heightStr);
  }

  /**
   * The width and height part of parseResizeParams: a width value first,
   * then a bare height value, which overrides the height of a "WxH" width.
   */
  method ReadSizeDirectives(widthStr: string, heightStr: string) returns (r: Result<ResizeParams, string>)
    ensures r == SizeParams(widthStr, heightStr)
    ensures r.Ok? ==> WellFormed(r.value)
  {
    var width, height, cacheKey := 0, 0, "";
    if widthStr != "" {
      var dims := ReadWidthValue(widthStr);
      if dims.Err? {
        return Err(dims.error);
      }
      width, height := dims.value.0, dims.value.1;
      if height > 0 {
        cacheKey := "w_" + Itoa(width) + "x" + Itoa(height);
      } else {
        cacheKey := "w_" + Itoa(width);
      }
      assert cacheKey == CanonicalKey(width, height, false);
    }

    if heightStr != "" {
      var h := Atoi(heightStr);
      if h.None? || h.value <= 0 {
        return Err("invalid height parameter");
      }
      if width > 0 {
        height := h.value;
        cacheKey := "w_" + Itoa(width) + "x" + Itoa(height);
      } else {
        width, height := 0, h.value;
        cacheKey := "h_" + Itoa(height);
      }
      assert cacheKey == CanonicalKey(width, height, false);
    }
    return Ok(ResizeParams(width, height, false, cacheKey));
  }

  /**
   * A non-empty crop value decides the result on its own: two queries with
   * the same crop value parse alike whatever their w/h values, the result is
   * a crop, and a single value S gives the S by S square keyed "c_SxS".
   */
  lemma CropTakesPrecedence(q1: Query, q2: Query)
    requires GetEither(q1, "c", "crop") == GetEither(q2, "c", "crop") != ""
    ensures Parse(q1) == Parse(q2)
    ensures Parse(q1).Ok? ==> Parse(q1).value.cropMode
    ensures var c := GetEither(q1, "c", "crop");
            'x' !in c && Dimension(c).Some? ==>
              var s := Dimension(c).value;
              Parse(q1) == Ok(ResizeParams(s, s, true, "c_" + Itoa(s) + "x" + Itoa(s)))
  {
  }

  /**
   * Without a crop value: a bare width gives key "w_N" and height 0; a
   * separate height value overrides the height of w=WxH; a height alone
   * gives key "h_N" and width 0; no directive at all gives 0, 0 and "".
   */
  lemma {:induction false} ParseWithoutCrop(q: Query)
    requires GetEither(q, "c", "crop") == ""
    ensures var w := GetEither(q, "w", "width");
            var h := GetEither(q, "h", "height");
            && (w == "" && h == "" ==> Parse(q) == Ok(ResizeParams(0, 0, false, "")))
            && (w != "" && 'x' !in w && Dimension(w).Some? && h == "" ==>
                  Parse(q) == Ok(ResizeParams(Dimension(w).value, 0, false, "w_" + Itoa(Dimension(w).value))))
            && (WidthValue(w).Ok? && w != "" && Dimension(h).Some? ==>
                  var width := WidthValue(w).value.0;
                  Parse(q) == Ok(ResizeParams(width, Dimension(h).value, false,
                                              "w_" + Itoa(width) + "x" + Itoa(Dimension(h).value))))
            && (w == "" && Dimension(h).Some? ==>
                  Parse(q) == Ok(ResizeParams(0, Dimension(h).value, false, "h_" + Itoa(Dimension(h).value))))
  {
    var w := GetEither(q, "w", "width");
    if WidthValue(w).Ok? && w != "" {
      assert WidthValue(w).value.0 > 0;
    }
  }

  /**
   * The rejections: a "WxH" value that does not split into exactly two
   * parts, a part of a "WxH" value or a bare value that is not a number,
   * and a number that is not positive all fail the parse.
   */
  lemma {:induction false} ParseRejects(q: Query)
    ensures var c := GetEither(q, "c", "crop");
            c != "" && 'x' in c && |Split(c, 'x')| != 2 ==> Parse(q).Err?
    ensures var c := GetEither(q, "c", "crop");
            c != "" && 'x' !in c && (Atoi(c).None? || Atoi(c).value <= 0) ==> Parse(q).Err?
    ensures var c := GetEither(q, "c", "crop");
            var w := GetEither(q, "w", "width");
            c == "" && w != "" && 'x' !in w && (Atoi(w).None? || Atoi(w).value <= 0) ==> Parse(q).Err?
    ensures var c := GetEither(q, "c", "crop");
            var w := GetEither(q, "w", "width");
            c == "" && w != "" && 'x' in w && |Split(w, 'x')| != 2 ==> Parse(q).Err?
    ensures var c := GetEither(q, "c", "crop");
            var h := GetEither(q, "h", "height");
            c == "" && h != "" && (Atoi(h).None? || Atoi(h).value <= 0) ==> Parse(q).Err?
    ensures var c := GetEither(q, "c", "crop");
            var parts := Split(c, 'x');
            c != "" && 'x' in c && |parts| == 2 && (Dimension(parts[0]).None? || Dimension(parts[1]).None?) ==>
              Parse(q).Err?
    ensures var c := GetEither(q, "c", "crop");
            var w := GetEither(q, "w", "width");
            var parts := Split(w, 'x');
            c == "" && w != "" && 'x' in w && |parts| == 2 && (Dimension(parts[0]).None? || Dimension(parts[1]).None?) ==>
              Parse(q).Err?
  {
  }

  // The invalid requests of the handler's test suite, each rejected with its message.

  lemma RejectsNonNumericWidth()
    ensures Parse(map["w" := "abc"]) == Err("invalid width parameter")
  {
    var q := map["w" := "abc"];
    assert GetEither(q, "c", "crop") == "" && GetEither(q, "w", "width") == "abc";
    assert Atoi("abc").None? by { assert !IsDigit("abc"[0]); }
    assert 'x' !in "abc";
  }

  lemma RejectsNonNumericHeight()
    ensures Parse(map["h" := "xyz"]) == Err("invalid height parameter")
  {
    var q := map["h" := "xyz"];
    assert GetEither(q, "c", "crop") == "" && GetEither(q, "w", "width") == "" && GetEither(q, "h", "height") == "xyz";
    assert Atoi("xyz").None? by { assert !IsDigit("xyz"[0]); }
  }

  lemma RejectsThreePartCrop()
    ensures Parse(map["c" := "100x200x300"]) == Err("invalid crop format, use c=100 or c=100x100")
  {
    assert "100x200x300" == "100" + "x" + "200" + "x" + "300";
    ThreePartCropRejected("100", "200", "300");
  }

  /** A crop value with three parts is a format error, whatever the parts. */
  lemma {:induction false} ThreePartCropRejected(a: string, b: string, c: string)
    requires 'x' !in a && 'x' !in b && 'x' !in c
    ensures Parse(map["c" := a + "x" + b + "x" + c]) == Err("invalid crop format, use c=100 or c=100x100")
  {
    var s := a + "x" + b + "x" + c;
    assert s == a + ['x'] + (b + ['x'] + c);
    SplitFirst(a, b + ['x'] + c, 'x');
    SplitPair(b, c, 'x');
    assert s[|a|] == 'x';
    var q := map["c" := s];
    assert GetEither(q, "c", "crop") == s;
  }

  lemma RejectsZeroWidth()
    ensures Parse(map["w" := "0"]) == Err("invalid width parameter")
  {
    var q := map["w" := "0"];
    assert GetEither(q, "c", "crop") == "" && GetEither(q, "w", "width") == "0";
    assert Atoi("0") == Some(0) by {
      assert Unsigned("0") == "0" && AllDigits("0");
      assert "0"[..0] == "";
      assert DigitsValue("0") == 0;
    }
    assert 'x' !in "0";
  }

  lemma RejectsNegativeHeight()
    ensures Parse(map["h" := "-100"]) == Err("invalid height parameter")
  {
    var q := map["h" := "-100"];
    assert GetEither(q, "c", "crop") == "" && GetEither(q, "w", "width") == "" && GetEither(q, "h", "height") == "-100";
    assert Atoi("-100").None? || Atoi("-100").value <= 0 by {
      assert Unsigned("-100") == "100";
    }
  }

  /**
   * Printing a request in canonical form and parsing it back gives the
   * request and its canonical key: as a crop or width value "WxH", as
   * separate width and height values, and each dimension alone.
   */
  lemma {:induction false} PairQueryRoundTrip(width: int, height: int)
    requires 0 < width <= MaxInt64 && 0 < height <= MaxInt64
    ensures Parse(map["c" := Itoa(width) + "x" + Itoa(height)])
         == Ok(ResizeParams(width, height, true, CanonicalKey(width, height, true)))
    ensures Parse(map["w" := Itoa(width) + "x" + Itoa(height)])
         == Ok(ResizeParams(width, height, false, CanonicalKey(width, height, false)))
  {
    var a, b := Itoa(width), Itoa(height);
    PairString(width, height);
    var qc := map["c" := a + "x" + b];
    assert GetEither(qc, "c", "crop") == a + "x" + b;
    var qw := map["w" := a + "x" + b];
    assert GetEither(qw, "c", "crop") == "" && GetEither(qw, "w", "width") == a + "x" + b;
    assert GetEither(qw, "h", "height") == "";
  }

  /** "WxH" printed from two positive dimensions reads back as them, as a crop value and as a width value. */
  lemma {:induction false} PairString(width: int, height: int)
    requires 0 < width <= MaxInt64 && 0 < height <= MaxInt64
    ensures CropValue(Itoa(width) + "x" + Itoa(height)) == Ok((width, height))
    ensures WidthValue(Itoa(width) + "x" + Itoa(height)) == Ok((width, height))
  {
    AtoiItoa(width);
    AtoiItoa(height);
    var a, b := Itoa(width), Itoa(height);
    assert 'x' !in a && 'x' !in b by {
      assert AllDigits(a) && AllDigits(b);
    }
    SplitPair(a, b, 'x');
    assert a + "x" + b == a + ['x'] + b;
    assert 'x' in a + "x" + b by {
      assert (a + "x" + b)[|a|] == 'x';
    }
  }

  lemma {:induction false} SeparateQueryRoundTrip(width: int, height: int)
    requires 0 < width <= MaxInt64 && 0 < height <= MaxInt64
    ensures Parse(map["w" := Itoa(width), "h" := Itoa(height)])
         == Ok(ResizeParams(width, height, false, CanonicalKey(width, height, false)))
    ensures Parse(map["w" := Itoa(width)]) == Ok(ResizeParams(width, 0, false, "w_" + Itoa(width)))
    ensures Parse(map["h" := Itoa(height)]) == Ok(ResizeParams(0, height, false, "h_" + Itoa(height)))
  {
    AtoiItoa(width);
    AtoiItoa(height);
    var a, b := Itoa(width), Itoa(height);
    assert 'x' !in a by {
      assert AllDigits(a);
    }
    var q1 := map["w" := a, "h" := b];
    assert GetEither(q1, "c", "crop") == "" && GetEither(q1, "w", "width") == a && GetEither(q1, "h", "height") == b;
    var q2 := map["w" := a];
    assert GetEither(q2, "c", "crop") == "" && GetEither(q2, "w", "width") == a && GetEither(q2, "h", "height") == "";
    var q3 := map["h" := b];
    assert GetEither(q3, "c", "crop") == "" && GetEither(q3, "w", "width") == "" && GetEither(q3, "h", "height") == b;
  }

  /** No two well-formed requests share a canonical key: only the hash below can make them collide. */
  lemma {:induction false} CanonicalKeyInjective(p1: ResizeParams, p2: ResizeParams)
    requires WellFormed(p1) && WellFormed(p2)
    requires p1.cacheKey == p2.cacheKey
    ensures p1 == p2
  {
    var k := p1.cacheKey;
    if k == "" {
      assert !p1.cropMode && p1.width == 0 && p1.height == 0;
      assert !p2.cropMode && p2.width == 0 && p2.height == 0;
    } else {
      var body := k[2..];
      assert k == k[..2] + body;
      KeyPrefix(p1);
      KeyPrefix(p2);
      PairOrSingle(p1, body);
      PairOrSingle(p2, body);
      if p1.width > 0 {
        NatToStringInjective(p1.width, p2.width);
      }
      if p1.height > 0 {
        NatToStringInjective(p1.height, p2.height);
      }
    }
  }

  /** The first character of a non-empty canonical key names its form. */
  lemma {:induction false} KeyPrefix(p: ResizeParams)
    requires WellFormed(p) && p.cacheKey != ""
    ensures p.cropMode <==> p.cacheKey[0] == 'c'
    ensures p.cacheKey[0] == 'h' <==> !p.cropMode && p.width == 0
  {
  }

  /** What follows the two-character prefix of a non-empty canonical key. */
  lemma {:induction false} PairOrSingle(p: ResizeParams, body: string)
    requires WellFormed(p) && p.cacheKey != "" && body == p.cacheKey[2..]
    ensures p.width > 0 && p.height > 0 ==> Split(body, 'x') == [NatToString(p.width), NatToString(p.height)]
    ensures p.width > 0 && p.height == 0 ==> Split(body, 'x') == [NatToString(p.width)]
    ensures p.width == 0 ==> Split(body, 'x') == [NatToString(p.height)]
  {
    var w, h := NatToString(p.width), NatToString(p.height);
    if p.width > 0 && p.height > 0 {
      var tag := if p.cropMode then "c_" else "w_";
      assert p.cacheKey == tag + (w + "x" + h);
      KeySuffix(tag, w + "x" + h);
      assert w + "x" + h == w + ['x'] + h;
      SplitPair(w, h, 'x');
    } else if p.width > 0 {
      assert p.cacheKey == "w_" + w;
      KeySuffix("w_", w);
      SingleField(w);
    } else {
      assert p.cacheKey == "h_" + h;
      KeySuffix("h_", h);
      SingleField(h);
    }
  }

  /** Dropping a two-character tag leaves what followed it. */
  lemma KeySuffix(tag: string, rest: string)
    requires |tag| == 2
    ensures (tag + rest)[2..] == rest
  {
  }

  /** The digits of a number contain no 'x', so they split into one field. */
  lemma SingleField(digits: string)
    requires 'x' !in digits
    ensures Split(digits, 'x') == [digits]
  {
    var parts := Split(digits, 'x');
    assert Join(parts, 'x') == parts[0];
  }

  // ---------------------------------------------------------------------
  // The integer cache discriminator
  // ---------------------------------------------------------------------

  const HashModulus: int := 0x8000_0000
  const WordModulus: int := 0x1_0000_0000_0000_0000

  /** The low 31 bits of the key's polynomial hash, accumulated character by character. */
  function KeyHash(key: string): (h: nat)
    ensures h < HashModulus
  {
    if |key| == 0 then 0
    else (KeyHash(key[..|key| - 1]) * 31 + key[|key| - 1] as int) % HashModulus
  }

  /**
   * The width column a request is cached under: its width when only a
   * width (or nothing) is requested, otherwise the hash of its key folded
   * into 100000..199999.
   */
  function Discriminator(p: ResizeParams): (d: int)
    ensures p.height > 0 || p.cropMode ==> 100000 <= d < 200000
    ensures p.height <= 0 && !p.cropMode ==> d == p.width
  {
    if p.height > 0 || p.cropMode then KeyHash(p.cacheKey) % 100000 + 100000 else p.width
  }

  /** Reducing modulo 2^64 (Go's int wrap-around) keeps the low 31 bits. */
  lemma WrapKeepsLowBits(x: int)
    requires x >= 0
    ensures (x % WordModulus) % HashModulus == x % HashModulus
  {
    var q := x / WordModulus;
    assert x == q * WordModulus + x % WordModulus;
    AddMultipleOfHashModulus(x % WordModulus, q * 0x2_0000_0000);
  }

  lemma AddMultipleOfHashModulus(a: int, k: int)
    ensures (a + k * HashModulus) % HashModulus == a % HashModulus
  {
  }

  /** One step of the Go loop, seen through the low 31 bits. */
  lemma HashStep(hash: int, low: int, c: int)
    requires hash >= 0 && c >= 0 && low == hash % HashModulus
    ensures ((hash * 31 + c) % WordModulus) % HashModulus == (low * 31 + c) % HashModulus
  {
    WrapKeepsLowBits(hash * 31 + c);
    var q := hash / HashModulus;
    assert hash == q * HashModulus + low;
    assert hash * 31 + c == (low * 31 + c) + (q * 31) * HashModulus;
    AddMultipleOfHashModulus(low * 31 + c, q * 31);
  }

  /**
   * The cache-width computation: the hash loop runs on Go's 64-bit int,
   * which wraps around, and keeps the low 31 bits (hash & 0x7FFFFFFF).
   * The wrapped value is kept as its unsigned bit pattern.
   */
  method CacheWidth(p: ResizeParams) returns (cacheWidth: int)
    ensures cacheWidth == Discriminator(p)
  {
    cacheWidth := p.width;
    if p.height > 0 || p.cropMode {
      var hash := 0;
      for i := 0 to |p.cacheKey|
        invariant 0 <= hash < WordModulus
        invariant hash % HashModulus == KeyHash(p.cacheKey[..i])
      {
        HashStep(hash, KeyHash(p.cacheKey[..i]), p.cacheKey[i] as int);
        assert p.cacheKey[..i + 1][..i] == p.cacheKey[..i];
        hash := (hash * 31 + p.cacheKey[i] as int) % WordModulus;
      }
      assert p.cacheKey[..|p.cacheKey|] == p.cacheKey;
      cacheWidth := (hash % HashModulus) % 100000 + 100000;
    }
  }

  /**
   * For a parsed request the discriminator is its width when no height and
   * no crop is asked for (so 0 with no directive at all); otherwise it lies
   * in 100000..199999.  It is 0 exactly when nothing is requested.
   */
  lemma DiscriminatorOfParsed(p: ResizeParams)
    requires WellFormed(p)
    ensures p.height == 0 && !p.cropMode ==> Discriminator(p) == p.width
    ensures p.height > 0 || p.cropMode ==> 100000 <= Discriminator(p) <= 199999
    ensures Discriminator(p) == 0 <==> p.width == 0 && p.height == 0
  {
  }

  /**
   * The two ranges overlap: a bare width between 100000 and 199999 is its
   * own discriminator, and so can share the cache row of a hashed key.
   * w=102938 and h=1 are two such requests.
   */
  lemma BareWidthSharesHashedRow()
    ensures var wide := ResizeParams(102938, 0, false, "w_102938");
            var tall := ResizeParams(0, 1, false, "h_1");
            && WellFormed(wide) && WellFormed(tall)
            && Discriminator(wide) == Discriminator(tall) == 102938
            && wide != tall
  {
    assert Itoa(1) == "1";
    assert NatToString(10) == "10";
    assert NatToString(102) == "102";
    assert NatToString(1029) == "1029";
    assert NatToString(10293) == "10293";
    assert Itoa(102938) == "102938";
    var key := "h_1";
    assert key[..2][..1] == "h" && key[..2] == "h_";
    assert KeyHash("h") == 104;
    assert KeyHash("h_") == 3319;
    assert KeyHash(key) == 102938;
  }

  // ---------------------------------------------------------------------
  // Placeholder graphic
  // ---------------------------------------------------------------------

  const PlaceholderText: string := "Image not available"

  const SvgOpen: string := "<svg"

  /** Everything between the opening "<svg" and the placeholder text. */
  function SvgAttributes(width: int, height: int): string
  {
    " width=\"" + Itoa(width) + "\" height=\"" + Itoa(height) + "\" xmlns=\"http://www.w3.org/2000/svg\">\n"
    + "  <rect width=\"100%\" height=\"100%\" fill=\"#eeeeee\"/>\n"
    + "  <text x=\"50%\" y=\"50%\" text-anchor=\"middle\" dominant-baseline=\"middle\" fill=\"#999999\" font-family=\"Arial, sans-serif\" font-size=\"16\">\n"
    + "    "
  }

  const SvgTail: string := "\n  </text>\n</svg>"

  /** The gray placeholder document of the given size. */
  function SvgDocument(width: int, height: int): string
  {
    SvgOpen + SvgAttributes(width, height) + PlaceholderText + SvgTail
  }

  /** Every placeholder document is an SVG element carrying the placeholder text. */
  lemma SvgDocumentMarkers(width: int, height: int)
    ensures Contains(SvgDocument(width, height), SvgOpen)
    ensures Contains(SvgDocument(width, height), PlaceholderText)
  {
    ContainsFirstAndThird(SvgOpen, SvgAttributes(width, height), PlaceholderText, SvgTail);
  }

  /**
   * generateErrorSVG: with no dimension the placeholder is 400x300, with one
   * dimension it is square, otherwise it has the requested size; it is an
   * SVG element carrying the text "Image not available".
   */
  method GenerateErrorSvg(width: int, height: int) returns (svg: string)
    ensures width == 0 && height == 0 ==> svg == SvgDocument(400, 300)
    ensures width == 0 && height != 0 ==> svg == SvgDocument(height, height)
    ensures width != 0 && height == 0 ==> svg == SvgDocument(width, width)
    ensures width != 0 && height != 0 ==> svg == SvgDocument(width, height)
    ensures Contains(svg, SvgOpen) && Contains(svg, PlaceholderText)
  {
    var w, h := width, height;
    if w == 0 && h == 0 {
      w, h := 400, 300;
    } else if w == 0 {
      w := h;
    } else if h == 0 {
      h := w;
    }
    svg := SvgDocument(w, h);
    SvgDocumentMarkers(w, h);
  }

  // ---------------------------------------------------------------------
  // Transform geometry
  // ---------------------------------------------------------------------

  /** Go's conversion of a float to int, which truncates toward zero. */
  function Trunc(x: real): int
  {
    if x >= 0.0 then x.Floor else -((-x).Floor)
  }

  /** Go's integer division, which truncates toward zero. */
  function GoDiv(a: int, b: int): int
    requires b != 0
  {
    var q := (if a < 0 then -a else a) / (if b < 0 then -b else b);
    if (a < 0) != (b < 0) then -q else q
  }

  /**
   * The transform applied to the decoded image, with the image given by its
   * size.  FillCrop resizes to scaledWidth x scaledHeight and then crops the
   * rectangle at (cropX, cropY) of size cropWidth x cropHeight.
   */
  datatype Transform =
    | Unchanged
    | FillCrop(scaledWidth: int, scaledHeight: int, cropX: int, cropY: int, cropWidth: int, cropHeight: int)
    | Fit(maxWidth: int, maxHeight: int)
    | ResizeToWidth(width: int)
    | ResizeToHeight(height: int)

  /** The fill scale: the larger of the two target/original ratios. */
  function FillScale(origWidth: int, origHeight: int, width: int, height: int): (scale: real)
    requires origWidth > 0 && origHeight > 0
    ensures scale >= width as real / origWidth as real && scale >= height as real / origHeight as real
    ensures scale == width as real / origWidth as real || scale == height as real / origHeight as real
  {
    var scaleX := width as real / origWidth as real;
    var scaleY := height as real / origHeight as real;
    if scaleY > scaleX then scaleY else scaleX
  }

  /** A dimension after scaling, truncated as by Go's int conversion. */
  function Scaled(dimension: int, scale: real): int
  {
    Trunc(dimension as real * scale)
  }

  /** The crop of a scaled image: centred horizontally, with 30% of the vertical overflow above. */
  function CropOf(newWidth: int, newHeight: int, width: int, height: int): Transform
  {
    var cropX := GoDiv(newWidth - width, 2);
    var cropY := Trunc((newHeight - height) as real * 0.3);
    FillCrop(newWidth, newHeight, if cropX < 0 then 0 else cropX, if cropY < 0 then 0 else cropY, width, height)
  }

  /**
   * resizeImage, with the crop arithmetic in exact rationals: the fill scale
   * is the larger of the two target/original ratios, the crop is centred
   * horizontally and leaves 30% of the vertical overflow above it.
   */
  function ResizeImage(origWidth: int, origHeight: int, p: ResizeParams): (r: Transform)
    requires p.cropMode && !(p.width == 0 && p.height == 0) ==> origWidth > 0 && origHeight > 0
    ensures p.width == 0 && p.height == 0 ==> r == Unchanged
    ensures p.cropMode && (p.width != 0 || p.height != 0) ==> r.FillCrop? && r.cropWidth == p.width && r.cropHeight == p.height
    ensures !p.cropMode && p.width > 0 && p.height > 0 ==> r == Fit(p.width, p.height)
    ensures !p.cropMode && p.width > 0 && p.height <= 0 ==> r == ResizeToWidth(p.width)
    ensures !p.cropMode && p.width <= 0 && p.height > 0 ==> r == ResizeToHeight(p.height)
    ensures !p.cropMode && p.width <= 0 && p.height <= 0 ==> r == Unchanged
  {
    if p.width == 0 && p.height == 0 then Unchanged
    else if p.cropMode then
      var scale := FillScale(origWidth, origHeight, p.width, p.height);
      CropOf(Scaled(origWidth, scale), Scaled(origHeight, scale), p.width, p.height)
    else if p.width > 0 && p.height > 0 then Fit(p.width, p.height)
    else if p.width > 0 then ResizeToWidth(p.width)
    else if p.height > 0 then ResizeToHeight(p.height)
    else Unchanged
  }

  lemma ScaleCovers(orig: int, target: int, scale: real)
    requires orig > 0 && target > 0 && scale >= target as real / orig as real
    ensures Scaled(orig, scale) >= target
    ensures scale == target as real / orig as real ==> Scaled(orig, scale) == target
  {
    var o, t := orig as real, target as real;
    assert o * (t / o) == t;
    assert o * scale >= o * (t / o);
  }

  /** Cropping an image that covers the target needs no clamping. */
  lemma CropOfCovering(newWidth: int, newHeight: int, width: int, height: int)
    requires newWidth >= width && newHeight >= height
    ensures CropOf(newWidth, newHeight, width, height)
         == FillCrop(newWidth, newHeight, (newWidth - width) / 2,
                     ((newHeight - height) as real * 0.3).Floor, width, height)
  {
    var overflow := (newHeight - height) as real;
    assert 0.0 <= overflow * 0.3;
    assert GoDiv(newWidth - width, 2) == (newWidth - width) / 2;
    assert Trunc(overflow * 0.3) == (overflow * 0.3).Floor >= 0;
  }

  /**
   * Crop geometry: the scaled image covers the target in both directions
   * and matches it exactly in one, the offsets need no clamping (the
   * horizontal one is half the overflow, the vertical one 30% of it,
   * truncated), and the crop rectangle is exactly the target size and lies
   * inside the scaled image.
   */
  lemma CropGeometry(origWidth: int, origHeight: int, p: ResizeParams)
    requires origWidth > 0 && origHeight > 0
    requires p.cropMode && p.width > 0 && p.height > 0
    ensures var t := ResizeImage(origWidth, origHeight, p);
            && t.FillCrop?
            && t.scaledWidth >= p.width && t.scaledHeight >= p.height
            && (t.scaledWidth == p.width || t.scaledHeight == p.height)
            && t.cropX == (t.scaledWidth - p.width) / 2
            && t.cropY == ((t.scaledHeight - p.height) as real * 0.3).Floor
            && t.cropWidth == p.width && t.cropHeight == p.height
            && 0 <= t.cropX && t.cropX + t.cropWidth <= t.scaledWidth
            && 0 <= t.cropY && t.cropY + t.cropHeight <= t.scaledHeight
  {
    var scale := FillScale(origWidth, origHeight, p.width, p.height);
    ScaleCovers(origWidth, p.width, scale);
    ScaleCovers(origHeight, p.height, scale);
    var newWidth := Scaled(origWidth, scale);
    var newHeight := Scaled(origHeight, scale);
    assert ResizeImage(origWidth, origHeight, p) == CropOf(newWidth, newHeight, p.width, p.height);
    CropOfCovering(newWidth, newHeight, p.width, p.height);
    if scale == p.width as real / origWidth as real {
      assert newWidth == p.width;
    } else {
      assert newHeight == p.height;
    }
    var overflow := (newHeight - p.height) as real;
    assert (overflow * 0.3).Floor <= newHeight - p.height by {
      assert overflow * 0.3 <= overflow;
    }
  }

  /** The example of a 400x300 image cropped to 100x100: scaled to 133x100, cropped at (16, 0). */
  lemma CropExample()
    ensures ResizeImage(400, 300, ResizeParams(100, 100, true, "c_100x100")) == FillCrop(133, 100, 16, 0, 100, 100)
  {
    assert (400.0 * (100.0 / 300.0)).Floor == 133;
  }

  // ---------------------------------------------------------------------
  // Output encoding
  // ---------------------------------------------------------------------

  /** The encoder whose bytes are sent. */
  datatype Encoder = WebPLossy(quality: int) | JpegEncoder(quality: int) | PngLossless | GifEncoder

  /**
   * The output branch: GIF stays GIF; every other input is sent as WebP
   * when the WebP encode succeeds, otherwise as JPEG (for JPEG and unknown
   * inputs, at the same quality) or as lossless PNG (for PNG input).
   */
  method ChooseEncoding(format: string, webpSucceeds: bool, quality: int)
    returns (mimeType: string, outputFormat: string, encoder: Encoder)
    ensures mimeType == "image/" + outputFormat
    ensures format == "gif" ==> outputFormat == "gif" && encoder == GifEncoder
    ensures format != "gif" && webpSucceeds ==> outputFormat == "webp" && encoder == WebPLossy(quality)
    ensures format != "gif" && !webpSucceeds && format != "png" ==> outputFormat == "jpeg" && encoder == JpegEncoder(quality)
    ensures outputFormat == "png" <==> format == "png" && !webpSucceeds
    ensures encoder == PngLossless <==> outputFormat == "png"
  {
    if format != "gif" {
      if webpSucceeds {
        mimeType, outputFormat, encoder := "image/webp", "webp", WebPLossy(quality);
      } else if format == "jpeg" || format == "jpg" {
        mimeType, outputFormat, encoder := "image/jpeg", "jpeg", JpegEncoder(quality);
      } else if format == "png" {
        mimeType, outputFormat, encoder := "image/png", "png", PngLossless;
      } else {
        mimeType, outputFormat, encoder := "image/jpeg", "jpeg", JpegEncoder(quality);
      }
    } else {
      mimeType, outputFormat, encoder := "image/gif", "gif", GifEncoder;
    }
  }

  /** The QUALITY setting: an integer from 10 to 100 is taken, anything else (or nothing) gives 90. */
  function WebPQuality(env: string): (quality: int)
    ensures 10 <= quality <= 100
    ensures Atoi(env).Some? && 10 <= Atoi(env).value <= 100 ==> quality == Atoi(env).value
    ensures quality != 90 ==> Atoi(env) == Some(quality)
  {
    if env != "" then
      var n := Atoi(env);
      if n.None? || n.value < 10 || n.value > 100 then 90 else n.value
    else 90
  }

  // ---------------------------------------------------------------------
  // Source URL repair, cache bypass and write-back
  // ---------------------------------------------------------------------

  /** The repair of a missing slash after "https:" or "http:". */
  function RepairScheme(src: string): (r: string)
    ensures HasPrefix(src, "https:/") && !HasPrefix(src, "https://") ==> r == "https://" + src[7..]
    ensures HasPrefix(src, "http:/") && !HasPrefix(src, "http://") ==> r == "http://" + src[6..]
    ensures !(HasPrefix(src, "https:/") && !HasPrefix(src, "https://"))
            && !(HasPrefix(src, "http:/") && !HasPrefix(src, "http://"))
            ==> r == src
    ensures HasPrefix(r, "https:/") ==> HasPrefix(r, "https://")
    ensures HasPrefix(r, "http:/") ==> HasPrefix(r, "http://")
  {
    var s := if HasPrefix(src, "https:/") && !HasPrefix(src, "https://") then ReplaceFirst(src, "https:/", "https://") else src;
    if HasPrefix(s, "http:/") && !HasPrefix(s, "http://") then ReplaceFirst(s, "http:/", "http://") else s
  }

  /** Repairing a repaired URL changes nothing. */
  lemma RepairIdempotent(src: string)
    ensures RepairScheme(RepairScheme(src)) == RepairScheme(src)
  {
  }

  /** The client asks for fresh content: Cache-Control holds "no-cache" or "no-store", or Pragma is "no-cache". */
  function SkipCache(cacheControl: string, pragma: string): (skip: bool)
    ensures skip <==> ((exists i :: OccursAt(cacheControl, "no-cache", i))
                       || (exists i :: OccursAt(cacheControl, "no-store", i))
                       || pragma == "no-cache")
  {
    Contains(cacheControl, "no-cache") || Contains(cacheControl, "no-store") || pragma == "no-cache"
  }

  /** The X-Cache header of a freshly fetched response. */
  function FreshCacheHeader(skip: bool): string
  {
    if skip then "BYPASS" else "MISS"
  }

  /** A transformed result is written back only when a dimension was requested. */
  predicate WritesBack(p: ResizeParams)
  {
    p.width > 0 || p.height > 0
  }

  /**
   * A write-back never targets width 0, the row that holds the original
   * image: a parsed request is written back exactly when its
   * discriminator is positive.
   */
  lemma WriteBackTargetsResizedRow(p: ResizeParams)
    requires WellFormed(p)
    ensures WritesBack(p) <==> Discriminator(p) > 0
    ensures !WritesBack(p) <==> Discriminator(p) == 0
  {
    DiscriminatorOfParsed(p);
  }

  // ---------------------------------------------------------------------
  // The cache step of the handler
  // ---------------------------------------------------------------------

  /**
   * The response comes from the cache when the client did not ask for fresh
   * content and the read gave data; a NULL column, a missing row and a
   * failed read all give no data and count as a miss.
   */
  predicate ServedFromCache(skip: bool, cachedData: Option<ImageTable.Blob>)
  {
    !skip && cachedData.Some?
  }

  /** What the cache step decides: serve the cached bytes, or fetch afresh and maybe write back. */
  datatype CacheDecision = FromCache(xCache: string) | Fresh(xCache: string, writeBack: bool)

  /**
   * The cache step of the handler: a cache hit is served with X-Cache HIT;
   * otherwise the image is fetched, the response says BYPASS when the
   * client asked for fresh content and MISS when not, and the result is
   * written back when a dimension was requested.
   */
  function CacheStep(skip: bool, cachedData: Option<ImageTable.Blob>, p: ResizeParams): (d: CacheDecision)
    ensures d.FromCache? <==> ServedFromCache(skip, cachedData)
    ensures d.FromCache? ==> d.xCache == "HIT"
    ensures d.Fresh? ==> (d.xCache == "BYPASS" <==> skip) && (d.xCache == "MISS" <==> !skip)
    ensures d.Fresh? ==> (d.writeBack <==> WritesBack(p))
  {
    if ServedFromCache(skip, cachedData) then FromCache("HIT")
    else Fresh(FreshCacheHeader(skip), WritesBack(p))
  }

  /**
   * Bypassing the cache skips only the read: whatever the cache holds, a
   * bypassed request takes the path of a miss, says BYPASS instead of
   * MISS, and is written back exactly as a miss is.
   */
  lemma BypassSkipsOnlyTheRead(p: ResizeParams, cachedData: Option<ImageTable.Blob>)
    ensures CacheStep(true, cachedData, p) == Fresh("BYPASS", CacheStep(false, None, p).writeBack)
    ensures CacheStep(false, None, p) == Fresh("MISS", WritesBack(p))
  {
  }

  /**
   * A request without dimensions is cached under width 0, so its cache read
   * returns the original_data column of the row the original write filled.
   */
  lemma NoDimensionsReadsOriginal(p: ResizeParams, rows: seq<ImageTable.Row>, url: string)
    requires WellFormed(p) && p.width == 0 && p.height == 0
    ensures Discriminator(p) == 0
    ensures ImageTable.Select(rows, url, Discriminator(p))
         == match ImageTable.Find(rows, url, 0)
            case None => ImageTable.NoRow
            case Some(r) => ImageTable.Found(r.original, r.contentType, r.format)
  {
  }

  /**
   * The write-back of a transformed response under the request's
   * discriminator serves the next identical request: its read returns the
   * encoded output with its MIME type and format.
   */
  lemma WriteBackServesNextRequest(p: ResizeParams, rows: seq<ImageTable.Row>, id: nat, now: nat, url: string,
                                   body: ImageTable.Blob, output: ImageTable.Blob, mimeType: string, outputFormat: string)
    requires WellFormed(p) && WritesBack(p)
    ensures var after := ImageTable.InsertOrReplace(rows, id, now, url, Discriminator(p), Some(body), Some(output), mimeType, outputFormat);
            && ImageTable.Select(after, url, Discriminator(p)) == ImageTable.Found(Some(output), mimeType, outputFormat)
            && ServedFromCache(false, ImageTable.Select(after, url, Discriminator(p)).data)
  {
    DiscriminatorOfParsed(p);
    ImageTable.ReadAfterWrite(rows, id, now, url, Discriminator(p), Some(body), Some(output), mimeType, outputFormat, url, Discriminator(p));
  }

  /**
   * The write of the original image feeds only requests without
   * dimensions: they read the original back, while a request with
   * dimensions reads what it read before.
   */
  lemma OriginalWriteFeedsOnlyPlainRequests(p: ResizeParams, rows: seq<ImageTable.Row>, id: nat, now: nat,
                                             url: string, data: ImageTable.Blob, contentType: string, format: string)
    requires WellFormed(p)
    ensures var after := ImageTable.InsertOrReplace(rows, id, now, url, 0, Some(data), None, contentType, format);
            && (!WritesBack(p) ==> ImageTable.Select(after, url, Discriminator(p)) == ImageTable.Found(Some(data), contentType, format))
            && (WritesBack(p) ==> ImageTable.Select(after, url, Discriminator(p)) == ImageTable.Select(rows, url, Discriminator(p)))
  {
    DiscriminatorOfParsed(p);
    ImageTable.ReadAfterWrite(rows, id, now, url, 0, Some(data), None, contentType, format, url, Discriminator(p));
  }
}
