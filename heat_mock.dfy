/**
  The request validation and artifact naming of the mock heat endpoint
  `GET /api/heat/mock?date&hour&bbox` (server/main.py): the bbox parser, the
  stable seed that keys the synthetic raster, and the response with the
  date/hour-partitioned artifact paths.

  Library calls the endpoint makes are collaborators handed in through a
  `Runtime`: float parsing, six-decimal formatting, SHA-256 and the
  `%Y-%m-%d` date check.
 */
module HeatMock {
  import opened Wrappers
  import opened PyFloat
  import opened PyStr
  import opened Bytes
  import Utf8

  /** A SHA-256 digest: 32 bytes. */
  type Digest = d: seq<byte> | |d| == 32 witness seq(32, _ => 0)

  /** The library functions the endpoint relies on. */
  datatype Runtime = Runtime(
    parseFloat: string -> Option<Float>,  // `float(s)`; None where it raises ValueError
    isDate: string -> bool,               // `datetime.strptime(s, '%Y-%m-%d')` succeeds
    format6: Float -> string,             // fixed-point text with six decimals
    sha256: seq<byte> -> Digest)          // `hashlib.sha256(m).digest()`

  /** An `HTTPException`: status code and detail text. */
  datatype HttpError = HttpError(status: nat, detail: string)

  const BadFloatsDetail := "bbox must be four comma-separated floats."
  const BadFormatDetail := "bbox format: minLng,minLat,maxLng,maxLat"
  const BadOrderDetail := "bbox is invalid: min must be smaller than max."
  const BadDateDetail := "date must match YYYY-MM-DD."

  datatype Bbox = Bbox(minLng: Float, minLat: Float, maxLng: Float, maxLat: Float)
  {
    /** The validity the bbox check is after: each minimum strictly below its maximum. */
    predicate WellOrdered()
    {
      Lt(minLng, maxLng) && Lt(minLat, maxLat)
    }
  }

  // ------------------------------------------------------------ _parse_bbox

  /** Each piece stripped and parsed as a float, in order; None if any piece fails to parse. */
  function ParsePieces(parseFloat: string -> Option<Float>, pieces: seq<string>): (r: Option<seq<Float>>)
    ensures r.Some? <==> forall i :: 0 <= i < |pieces| ==> parseFloat(Strip(pieces[i])).Some?
    ensures r.Some? ==> |r.value| == |pieces|
    ensures r.Some? ==> forall i :: 0 <= i < |pieces| ==> r.value[i] == parseFloat(Strip(pieces[i])).value
  {
    if pieces == [] then Some([])
    else
      match parseFloat(Strip(pieces[0]))
      case None => None
      case Some(v) =>
        match ParsePieces(parseFloat, pieces[1..])
        case None => None
        case Some(vs) => Some([v] + vs)
  }

  /** The first two checks of `_parse_bbox`: every piece is a float, then there are four. */
  function ParseCoordinates(parseFloat: string -> Option<Float>, raw: string): (r: Result<seq<Float>, HttpError>)
    ensures r.Ok? ==> |r.value| == 4 && |Split(',', raw)| == 4
    ensures r.Err? ==> r.error.status == 400
  {
    match ParsePieces(parseFloat, Split(',', raw))
    case None => Err(HttpError(400, BadFloatsDetail))
    case Some(values) =>
      if |values| != 4 then Err(HttpError(400, BadFormatDetail)) else Ok(values)
  }

  /** `_parse_bbox` as written: the order check is `min >= max`, which NaN never satisfies. */
  function ParseBboxAsWritten(parseFloat: string -> Option<Float>, raw: string): (r: Result<Bbox, HttpError>)
    ensures r.Err? ==> r.error.status == 400
    ensures r.Ok? ==> |Split(',', raw)| == 4
  {
    match ParseCoordinates(parseFloat, raw)
    case Err(e) => Err(e)
    case Ok(v) =>
      if Ge(v[0], v[2]) || Ge(v[1], v[3]) then Err(HttpError(400, BadOrderDetail))
      else Ok(Bbox(v[0], v[1], v[2], v[3]))
  }

  /** `_parse_bbox` with the order check it evidently intends: accept only `min < max` on both axes. */
  function ParseBbox(parseFloat: string -> Option<Float>, raw: string): (r: Result<Bbox, HttpError>)
    ensures r.Err? ==> r.error.status == 400
    ensures r.Ok? ==> r.value.WellOrdered()
  {
    match ParseCoordinates(parseFloat, raw)
    case Err(e) => Err(e)
    case Ok(v) =>
      if Lt(v[0], v[2]) && Lt(v[1], v[3]) then Ok(Bbox(v[0], v[1], v[2], v[3]))
      else Err(HttpError(400, BadOrderDetail))
  }

  /** Any piece that is not a float makes the request fail, whatever the number of pieces. */
  lemma ParseBboxRejectsUnparsable(parseFloat: string -> Option<Float>, raw: string, i: nat)
    requires i < |Split(',', raw)|
    requires parseFloat(Strip(Split(',', raw)[i])).None?
    ensures ParseBbox(parseFloat, raw) == Err(HttpError(400, BadFloatsDetail))
    ensures ParseBboxAsWritten(parseFloat, raw) == Err(HttpError(400, BadFloatsDetail))
  {
  }

  /** With every piece a float, a count other than four is the format error. */
  lemma ParseBboxNeedsFourPieces(parseFloat: string -> Option<Float>, raw: string)
    ensures ParseBbox(parseFloat, raw).Ok? ==> Count(',', raw) == 3
    ensures |Split(',', raw)| != 4 ==> ParseBbox(parseFloat, raw).Err?
    ensures |Split(',', raw)| != 4 && ParsePieces(parseFloat, Split(',', raw)).Some? ==>
      ParseBbox(parseFloat, raw) == Err(HttpError(400, BadFormatDetail))
  {
  }

  /** The bbox the parser returns: the four pieces, stripped and parsed, in input order. */
  function PiecesBbox(parseFloat: string -> Option<Float>, ps: seq<string>): Bbox
    requires |ps| == 4
    requires forall i :: 0 <= i < 4 ==> parseFloat(Strip(ps[i])).Some?
  {
    Bbox(parseFloat(Strip(ps[0])).value, parseFloat(Strip(ps[1])).value,
         parseFloat(Strip(ps[2])).value, parseFloat(Strip(ps[3])).value)
  }

  /** Exactly when the parser succeeds, and what it then returns. */
  lemma ParseBboxOkIff(parseFloat: string -> Option<Float>, raw: string)
    ensures var ps := Split(',', raw);
      ParseBbox(parseFloat, raw).Ok? <==>
        |ps| == 4 && (forall i :: 0 <= i < 4 ==> parseFloat(Strip(ps[i])).Some?)
        && PiecesBbox(parseFloat, ps).WellOrdered()
    ensures var ps := Split(',', raw);
      ParseBbox(parseFloat, raw).Ok? ==> ParseBbox(parseFloat, raw).value == PiecesBbox(parseFloat, ps)
    ensures var ps := Split(',', raw);
      |ps| == 4 && (forall i :: 0 <= i < 4 ==> parseFloat(Strip(ps[i])).Some?)
      && !PiecesBbox(parseFloat, ps).WellOrdered() ==>
        ParseBbox(parseFloat, raw) == Err(HttpError(400, BadOrderDetail))
  {
  }

  /**
    Exactly when the parser as written succeeds, and what it then returns: the
    four stripped, parsed pieces in input order, unless `>=` holds on either
    axis, which is the order error.
   */
  lemma ParseBboxAsWrittenOkIff(parseFloat: string -> Option<Float>, raw: string)
    ensures var ps := Split(',', raw);
      ParseBboxAsWritten(parseFloat, raw).Ok? <==>
        |ps| == 4 && (forall i :: 0 <= i < 4 ==> parseFloat(Strip(ps[i])).Some?)
        && var b := PiecesBbox(parseFloat, ps); !Ge(b.minLng, b.maxLng) && !Ge(b.minLat, b.maxLat)
    ensures var ps := Split(',', raw);
      ParseBboxAsWritten(parseFloat, raw).Ok? ==> ParseBboxAsWritten(parseFloat, raw).value == PiecesBbox(parseFloat, ps)
    ensures var ps := Split(',', raw);
      |ps| == 4 && (forall i :: 0 <= i < 4 ==> parseFloat(Strip(ps[i])).Some?)
      && (var b := PiecesBbox(parseFloat, ps); Ge(b.minLng, b.maxLng) || Ge(b.minLat, b.maxLat)) ==>
        ParseBboxAsWritten(parseFloat, raw) == Err(HttpError(400, BadOrderDetail))
  {
  }

  /** Whitespace around the pieces of a bbox string never changes the outcome. */
  lemma ParseBboxIgnoresPadding(parseFloat: string -> Option<Float>, ps: seq<string>, pads: seq<(string, string)>, padded: seq<string>)
    requires |ps| >= 1 && |pads| == |ps| && |padded| == |ps|
    requires forall i :: 0 <= i < |ps| ==> ',' !in ps[i]
    requires forall i :: 0 <= i < |pads| ==> AllSpace(pads[i].0) && AllSpace(pads[i].1)
    requires forall i :: 0 <= i < |padded| ==> padded[i] == pads[i].0 + ps[i] + pads[i].1
    ensures ParseBbox(parseFloat, Join(',', padded)) == ParseBbox(parseFloat, Join(',', ps))
  {
    forall i | 0 <= i < |ps|
      ensures ',' !in padded[i] && Strip(padded[i]) == Strip(ps[i])
    {
      StripIgnoresPadding(pads[i].0, ps[i], pads[i].1);
      PaddingAddsNoChar(',', pads[i].0, ps[i], pads[i].1);
    }
    SplitJoin(',', padded);
    SplitJoin(',', ps);
    var a := ParsePieces(parseFloat, padded);
    var b := ParsePieces(parseFloat, ps);
    assert a.Some? <==> b.Some?;
    if a.Some? {
      assert a.value == b.value;
    }
  }

  /** The parser as written strips each piece too: padding never changes its outcome either. */
  lemma ParseBboxAsWrittenIgnoresPadding(parseFloat: string -> Option<Float>, ps: seq<string>, pads: seq<(string, string)>, padded: seq<string>)
    requires |ps| >= 1 && |pads| == |ps| && |padded| == |ps|
    requires forall i :: 0 <= i < |ps| ==> ',' !in ps[i]
    requires forall i :: 0 <= i < |pads| ==> AllSpace(pads[i].0) && AllSpace(pads[i].1)
    requires forall i :: 0 <= i < |padded| ==> padded[i] == pads[i].0 + ps[i] + pads[i].1
    ensures ParseBboxAsWritten(parseFloat, Join(',', padded)) == ParseBboxAsWritten(parseFloat, Join(',', ps))
  {
    forall i | 0 <= i < |ps|
      ensures ',' !in padded[i] && Strip(padded[i]) == Strip(ps[i])
    {
      StripIgnoresPadding(pads[i].0, ps[i], pads[i].1);
      PaddingAddsNoChar(',', pads[i].0, ps[i], pads[i].1);
    }
    SplitJoin(',', padded);
    SplitJoin(',', ps);
    var a := ParsePieces(parseFloat, padded);
    var b := ParsePieces(parseFloat, ps);
    assert a.Some? <==> b.Some?;
    if a.Some? {
      assert a.value == b.value;
    }
  }

  /** `sep.join` of the four coordinates rendered by `show`, in bbox order. */
  function BboxText(show: Float -> string, b: Bbox): string
  {
    Join(',', [show(b.minLng), show(b.minLat), show(b.maxLng), show(b.maxLat)])
  }

  /**
    Rendering a valid bbox with a printer that `float()` reads back exactly on
    its four coordinates (and that writes no comma there) and parsing the text
    gives the bbox back.
   */
  lemma ParseBboxRoundTrip(parseFloat: string -> Option<Float>, show: Float -> string, b: Bbox)
    requires forall x | x in {b.minLng, b.minLat, b.maxLng, b.maxLat} ::
      parseFloat(Strip(show(x))) == Some(x) && ',' !in show(x)
    requires b.WellOrdered()
    ensures ParseBbox(parseFloat, BboxText(show, b)) == Ok(b)
  {
    var ps := [show(b.minLng), show(b.minLat), show(b.maxLng), show(b.maxLat)];
    assert forall i :: 0 <= i < |ps| ==> ',' !in ps[i];
    SplitJoin(',', ps);
    var vs := [b.minLng, b.minLat, b.maxLng, b.maxLat];
    forall i | 0 <= i < 4
      ensures parseFloat(Strip(ps[i])) == Some(vs[i])
    {
    }
    assert ParsePieces(parseFloat, ps).value == vs;
  }

  /**
    The as-written order check lets NaN through: `float('nan')` parses, and
    `nan >= x` is false, so `nan,nan,nan,nan` (here any text `float()` reads as
    NaN, four times) is returned as a bbox although no minimum is below its
    maximum. The corrected parser rejects it.
   */
  lemma NaNBboxPassesAsWritten(parseFloat: string -> Option<Float>, nan: string)
    requires parseFloat(nan) == Some(NaN)
    requires ',' !in nan && Strip(nan) == nan
    ensures ParseBboxAsWritten(parseFloat, Join(',', [nan, nan, nan, nan])) == Ok(Bbox(NaN, NaN, NaN, NaN))
    ensures !Bbox(NaN, NaN, NaN, NaN).WellOrdered()
    ensures ParseBbox(parseFloat, Join(',', [nan, nan, nan, nan])) == Err(HttpError(400, BadOrderDetail))
  {
    var ps := [nan, nan, nan, nan];
    SplitJoin(',', ps);
    assert ParsePieces(parseFloat, ps).value == [NaN, NaN, NaN, NaN];
  }

  /** On a bbox string none of whose pieces `float()` reads as NaN, the as-written parser and the corrected one agree. */
  lemma AsWrittenAgreesWithoutNaN(parseFloat: string -> Option<Float>, raw: string)
    requires forall i :: 0 <= i < |Split(',', raw)| ==> parseFloat(Strip(Split(',', raw)[i])) != Some(NaN)
    ensures ParseBboxAsWritten(parseFloat, raw) == ParseBbox(parseFloat, raw)
  {
  }

  // ------------------------------------------------------------ _stable_seed

  /** The canonical seed text: date, hour in decimal and the six-decimal bbox text, joined by dashes. */
  function SeedToken(format6: Float -> string, date: string, hour: int, b: Bbox): string
  {
    date + "-" + IntStr(hour) + "-" + BboxText(format6, b)
  }

  /**
    `_stable_seed`: the first eight hex digits of the SHA-256 of the UTF-8
    token, read as an integer; it is the big-endian value of the digest's
    first four bytes and so lies in [0, 16^8).
   */
  function StableSeed(rt: Runtime, date: string, hour: int, b: Bbox): (seed: nat)
    ensures seed < 0x1_0000_0000
    ensures seed == BigEndian(rt.sha256(Utf8.Encode(SeedToken(rt.format6, date, hour, b)))[..4])
  {
    var digest := rt.sha256(Utf8.Encode(SeedToken(rt.format6, date, hour, b)));
    var hex := HexDigest(digest);
    HexDigestPrefix(digest, 4);
    ParseHexDigest(digest[..4]);
    assert Pow16(8) == 0x1_0000_0000;
    ParseHex(hex[..8])
  }

  lemma ShorterBeforeDash(x: string, t: string, y: string, u: string)
    requires '-' !in y && |x| < |y|
    ensures x + "-" + t != y + "-" + u
  {
    assert (x + "-" + t)[|x|] == '-';
    assert (y + "-" + u)[|x|] == y[|x|];
  }

  /** Two texts of the form `x-t` whose heads have one length have equal heads and equal tails. */
  lemma SplitAtLength(x: string, t: string, y: string, u: string)
    requires |x| == |y|
    requires x + "-" + t == y + "-" + u
    ensures x == y && t == u
  {
    assert x == (x + "-" + t)[..|x|];
    assert y == (y + "-" + u)[..|y|];
    assert t == (x + "-" + t)[|x| + 1..];
    assert u == (y + "-" + u)[|y| + 1..];
  }

  lemma SplitAtDash(x: string, t: string, y: string, u: string)
    requires '-' !in x && '-' !in y
    requires x + "-" + t == y + "-" + u
    ensures x == y && t == u
  {
    if |x| < |y| {
      ShorterBeforeDash(x, t, y, u);
    } else if |y| < |x| {
      ShorterBeforeDash(y, u, x, t);
    } else {
      SplitAtLength(x, t, y, u);
    }
  }

  /** The seed token is the date, a dash, and the rest. */
  lemma SeedTokenShape(format6: Float -> string, d: string, h: nat, b: Bbox)
    ensures SeedToken(format6, d, h, b) == d + "-" + (DecimalStr(h) + "-" + BboxText(format6, b))
  {
  }

  /**
    The message hashed for a seed separates its inputs: for dates of one
    length (such as every `YYYY-MM-DD`) and hours 0..23, two requests hash the
    same bytes only if date, hour and six-decimal bbox text all coincide.
   */
  lemma SeedMessageSeparatesInputs(format6: Float -> string, d1: string, h1: nat, b1: Bbox, d2: string, h2: nat, b2: Bbox)
    requires |d1| == |d2|
    requires Utf8.Encode(SeedToken(format6, d1, h1, b1)) == Utf8.Encode(SeedToken(format6, d2, h2, b2))
    ensures d1 == d2 && h1 == h2 && BboxText(format6, b1) == BboxText(format6, b2)
  {
    Utf8.EncodeInjective(SeedToken(format6, d1, h1, b1), SeedToken(format6, d2, h2, b2));
    SeedTokenShape(format6, d1, h1, b1);
    SeedTokenShape(format6, d2, h2, b2);
    var x1, x2 := BboxText(format6, b1), BboxText(format6, b2);
    SplitAtLength(d1, DecimalStr(h1) + "-" + x1, d2, DecimalStr(h2) + "-" + x2);
    SplitAtDash(DecimalStr(h1), x1, DecimalStr(h2), x2);
    DecimalStrInjective(h1, h2);
  }

  /** `y-m-a-t` with dash-free `y`, `m`, `a` determines its three fields and its tail. */
  lemma SplitThreeFields(y1: string, m1: string, a1: string, t1: string, y2: string, m2: string, a2: string, t2: string)
    requires '-' !in y1 && '-' !in m1 && '-' !in a1
    requires '-' !in y2 && '-' !in m2 && '-' !in a2
    requires y1 + "-" + m1 + "-" + a1 + "-" + t1 == y2 + "-" + m2 + "-" + a2 + "-" + t2
    ensures y1 == y2 && m1 == m2 && a1 == a2 && t1 == t2
  {
    assert y1 + "-" + m1 + "-" + a1 + "-" + t1 == y1 + "-" + (m1 + "-" + (a1 + "-" + t1));
    assert y2 + "-" + m2 + "-" + a2 + "-" + t2 == y2 + "-" + (m2 + "-" + (a2 + "-" + t2));
    SplitAtDash(y1, m1 + "-" + (a1 + "-" + t1), y2, m2 + "-" + (a2 + "-" + t2));
    SplitAtDash(m1, a1 + "-" + t1, m2, a2 + "-" + t2);
    SplitAtDash(a1, t1, a2, t2);
  }

  /**
    Every date `%Y-%m-%d` accepts is three dash-free fields joined by dashes,
    whatever their lengths (`2026-2-14` as well as `2026-02-14`); for such
    dates, two requests hash the same bytes only if date, hour and six-decimal
    bbox text all coincide.
   */
  lemma SeedMessageSeparatesDates(format6: Float -> string,
                                  y1: string, m1: string, a1: string, h1: nat, b1: Bbox,
                                  y2: string, m2: string, a2: string, h2: nat, b2: Bbox)
    requires '-' !in y1 && '-' !in m1 && '-' !in a1
    requires '-' !in y2 && '-' !in m2 && '-' !in a2
    requires Utf8.Encode(SeedToken(format6, y1 + "-" + m1 + "-" + a1, h1, b1))
          == Utf8.Encode(SeedToken(format6, y2 + "-" + m2 + "-" + a2, h2, b2))
    ensures y1 + "-" + m1 + "-" + a1 == y2 + "-" + m2 + "-" + a2
    ensures h1 == h2 && BboxText(format6, b1) == BboxText(format6, b2)
  {
    var d1, d2 := y1 + "-" + m1 + "-" + a1, y2 + "-" + m2 + "-" + a2;
    Utf8.EncodeInjective(SeedToken(format6, d1, h1, b1), SeedToken(format6, d2, h2, b2));
    SeedTokenShape(format6, d1, h1, b1);
    SeedTokenShape(format6, d2, h2, b2);
    var x1, x2 := BboxText(format6, b1), BboxText(format6, b2);
    SplitThreeFields(y1, m1, a1, DecimalStr(h1) + "-" + x1, y2, m2, a2, DecimalStr(h2) + "-" + x2);
    SplitAtDash(DecimalStr(h1), x1, DecimalStr(h2), x2);
    DecimalStrInjective(h1, h2);
  }

  // ------------------------------------------------- build_mock_heat_layer

  /** A corner of the bounds: longitude, latitude. */
  datatype LngLat = LngLat(lng: Float, lat: Float)

  datatype HeatMockResponse = HeatMockResponse(
    date: string,
    hour: int,
    bbox: Bbox,
    tifPath: string,
    pngPath: string,
    bounds: (LngLat, LngLat))

  /** What one request produces: the JSON response, and the seed the raster written at its paths is drawn from. */
  datatype HeatLayer = HeatLayer(response: HeatMockResponse, seed: nat)

  /** `date.replace('-', '')`. */
  function DateFolder(date: string): (folder: string)
    ensures '-' !in folder
    ensures |folder| == |date| - Count('-', date)
  {
    Remove('-', date)
  }

  /** `/results/{date_folder}/{hour_folder}/`, the directory both artifacts share. */
  function ResultsDir(date: string, hour: nat): string
  {
    "/results/" + DateFolder(date) + "/" + ZeroPad2(hour) + "/"
  }

  const TifName := "heat_exposure.tif"
  const PngName := "heat_exposure.png"

  /**
    `build_mock_heat_layer`: the date is checked first, then the bbox; on
    success the response echoes the request and names the two artifacts in the
    date/hour directory. `hour` is in 0..23, which the query declaration enforces.
   */
  function BuildMockHeatLayer(rt: Runtime, date: string, hour: int, rawBbox: string): (r: Result<HeatLayer, HttpError>)
    requires 0 <= hour <= 23
    ensures r.Err? ==> r.error.status == 400
    ensures r.Ok? <==> rt.isDate(date) && ParseBbox(rt.parseFloat, rawBbox).Ok?
    ensures r.Ok? ==>
      var b := ParseBbox(rt.parseFloat, rawBbox).value;
      var resp := r.value.response;
      resp.date == date && resp.hour == hour && resp.bbox == b && b.WellOrdered()
      && resp.bounds == (LngLat(b.minLng, b.minLat), LngLat(b.maxLng, b.maxLat))
      && r.value.seed == StableSeed(rt, date, hour, b)
      && r.value.seed < 0x1_0000_0000
  {
    if !rt.isDate(date) then Err(HttpError(400, BadDateDetail))
    else
      match ParseBbox(rt.parseFloat, rawBbox)
      case Err(e) => Err(e)
      case Ok(b) =>
        var dir := ResultsDir(date, hour);
        Ok(HeatLayer(
          HeatMockResponse(date, hour, b, dir + TifName, dir + PngName,
                           (LngLat(b.minLng, b.minLat), LngLat(b.maxLng, b.maxLat))),
          StableSeed(rt, date, hour, b)))
  }

  /** An invalid date is reported before the bbox is looked at. */
  lemma DateCheckedBeforeBbox(rt: Runtime, date: string, hour: int, rawBbox: string)
    requires 0 <= hour <= 23
    requires !rt.isDate(date)
    ensures BuildMockHeatLayer(rt, date, hour, rawBbox) == Err(HttpError(400, BadDateDetail))
  {
  }

  /** With a valid date, the endpoint fails exactly with the bbox parser's error. */
  lemma BboxErrorPassesThrough(rt: Runtime, date: string, hour: int, rawBbox: string)
    requires 0 <= hour <= 23
    requires rt.isDate(date)
    ensures var r := BuildMockHeatLayer(rt, date, hour, rawBbox);
      r.Err? <==> ParseBbox(rt.parseFloat, rawBbox).Err?
    ensures var r := BuildMockHeatLayer(rt, date, hour, rawBbox);
      r.Err? ==> r.error == ParseBbox(rt.parseFloat, rawBbox).error
  {
  }

  /** Both artifacts sit in one directory built from the date and hour alone. */
  lemma ArtifactPathsShareDirectory(rt: Runtime, date: string, hour: int, rawBbox: string)
    requires 0 <= hour <= 23
    requires BuildMockHeatLayer(rt, date, hour, rawBbox).Ok?
    ensures var resp := BuildMockHeatLayer(rt, date, hour, rawBbox).value.response;
      var dir := resp.tifPath[..|resp.tifPath| - |TifName|];
      |resp.tifPath| == |resp.pngPath| > |TifName|
      && resp.tifPath == dir + "heat_exposure.tif" && resp.pngPath == dir + "heat_exposure.png"
      && dir[..9] == "/results/" && dir[|dir| - 1] == '/'
      && dir == "/results/" + DateFolder(date) + "/" + ZeroPad2(hour) + "/"
  {
  }

  /**
    Artifact paths do not depend on the bbox: two successful requests for the
    same date and hour name the same files, whatever their bboxes.
   */
  lemma ArtifactPathsIgnoreBbox(rt: Runtime, date: string, hour: int, bbox1: string, bbox2: string)
    requires 0 <= hour <= 23
    requires BuildMockHeatLayer(rt, date, hour, bbox1).Ok?
    requires BuildMockHeatLayer(rt, date, hour, bbox2).Ok?
    ensures BuildMockHeatLayer(rt, date, hour, bbox1).value.response.tifPath
         == BuildMockHeatLayer(rt, date, hour, bbox2).value.response.tifPath
    ensures BuildMockHeatLayer(rt, date, hour, bbox1).value.response.pngPath
         == BuildMockHeatLayer(rt, date, hour, bbox2).value.response.pngPath
  {
  }

  /**
    Dropping the dashes forgets where they were: two different dates such as
    `2026-1-11` and `2026-11-1` (both accepted by `%Y-%m-%d`, which allows
    unpadded months and days) share one date folder.
   */
  lemma DateFolderCollision(y: string, a: char, b: char, c: char)
    requires '-' !in y && a != '-' && b != '-' && c != '-'
    ensures y + "-" + [a] + "-" + [b, c] != y + "-" + [a, b] + "-" + [c]
    ensures DateFolder(y + "-" + [a] + "-" + [b, c]) == DateFolder(y + "-" + [a, b] + "-" + [c])
  {
    assert (y + "-" + [a] + "-" + [b, c])[|y| + 2] == '-';
    assert (y + "-" + [a, b] + "-" + [c])[|y| + 2] == b;
    DateFolderOfParts(y, [a], [b, c]);
    DateFolderOfParts(y, [a, b], [c]);
    assert y + [a] + [b, c] == y + [a, b] + [c];
  }

  /** `YYYY-MM-DD` with ASCII digits. */
  predicate IsoDateShape(date: string)
  {
    |date| == 10 && date[4] == '-' && date[7] == '-'
    && AllDigits(date[..4]) && AllDigits(date[5..7]) && AllDigits(date[8..])
  }

  /** Removing the two separators of `y-m-d` leaves `ymd`. */
  lemma DateFolderOfParts(y: string, m: string, d: string)
    requires '-' !in y && '-' !in m && '-' !in d
    ensures DateFolder(y + "-" + m + "-" + d) == y + m + d
  {
    RemoveAppend('-', y + "-" + m + "-", d);
    RemoveAppend('-', y + "-" + m, "-");
    RemoveAppend('-', y + "-", m);
    RemoveAppend('-', y, "-");
  }

  /**
    For a `YYYY-MM-DD` date the folder is `YYYYMMDD` (eight digits), and the
    hour folder is the two digits of the hour.
   */
  lemma IsoDateFolders(date: string, hour: nat)
    requires IsoDateShape(date)
    requires hour <= 23
    ensures DateFolder(date) == date[..4] + date[5..7] + date[8..]
    ensures |DateFolder(date)| == 8 && AllDigits(DateFolder(date))
    ensures ZeroPad2(hour) == [DigitChar(hour / 10), DigitChar(hour % 10)]
  {
    var y, m, d := date[..4], date[5..7], date[8..];
    assert date == y + "-" + m + "-" + d;
    assert '-' !in y by { assert AllDigits(y); }
    assert '-' !in m by { assert AllDigits(m); }
    assert '-' !in d by { assert AllDigits(d); }
    DateFolderOfParts(y, m, d);
    var f := y + m + d;
    assert forall k :: 0 <= k < 8 ==> f[k] == (if k < 4 then y[k] else if k < 6 then m[k - 4] else d[k - 6]);
    ZeroPad2TwoDigits(hour);
    var p := ZeroPad2(hour);
    assert p == [p[0], p[1]];
  }

  /**
    A request for `YYYY-MM-DD` and hour `h` names its artifacts
    `/results/YYYYMMDD/hh/heat_exposure.tif` and `.png`, `hh` the two digits of `h`.
   */
  lemma IsoArtifactPaths(rt: Runtime, date: string, hour: int, rawBbox: string)
    requires 0 <= hour <= 23
    requires IsoDateShape(date)
    requires BuildMockHeatLayer(rt, date, hour, rawBbox).Ok?
    ensures var resp := BuildMockHeatLayer(rt, date, hour, rawBbox).value.response;
      var dir := "/results/" + (date[..4] + date[5..7] + date[8..]) + "/" + [DigitChar(hour / 10), DigitChar(hour % 10)] + "/";
      resp.tifPath == dir + TifName && resp.pngPath == dir + PngName
  {
    var resp := BuildMockHeatLayer(rt, date, hour, rawBbox).value.response;
    assert resp.tifPath == ResultsDir(date, hour) + TifName && resp.pngPath == ResultsDir(date, hour) + PngName;
    IsoDateFolders(date, hour);
  }
}
