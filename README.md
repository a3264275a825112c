# HeatExposure mock heat API: request validation and artifact naming

This project models the request layer of the mock heat endpoint
`GET /api/heat/mock?date&hour&bbox` of the HeatExposure demo server
(`server/main.py`). It covers three parts:

- the bounding-box validator (`_parse_bbox`): split on `,`, strip each
  piece, parse each as a float, require four values, reject the bbox when
  `min >= max` on either axis (which lets NaN through; see Findings), and
  report every failure as HTTP 400. The corrected parser `HeatMock.ParseBbox`
  requires `min < max` on both axes instead;
- the stable seed (`_stable_seed`): the token `date-hour-bbox_text` with
  six-decimal coordinates, UTF-8 encoded and hashed with SHA-256, of which
  the first eight hex digits are read as an integer;
- the response of `build_mock_heat_layer`: the date is checked before the
  bbox, the artifacts go to `/results/{date without dashes}/{two-digit hour}/`,
  and the response echoes the request and gives the bbox as two corners.

The code is pure, so the model is datatypes, functions and lemmas. The
library calls the endpoint makes are not reimplemented. They are
function-valued fields of `HeatMock.Runtime`: `float()`, six-decimal
formatting, `hashlib.sha256` and `datetime.strptime(date, '%Y-%m-%d')`.
Every lemma therefore holds for any behaviour of those calls. The Python
string and number operations the endpoint relies on are modelled exactly:

- `str.split(',')`, `str.strip()` with Python's whitespace set and
  `str.replace('-', '')`;
- `str(int)` and the `02d` format;
- `hexdigest()` and `int(s, 16)`;
- `str.encode('utf-8')`.

Python floats are `PyFloat.Float`: a finite value, either infinity, or NaN.
Comparisons follow IEEE-754, so every ordered comparison with NaN is false.

Modules: `Wrappers` (Option, Result), `PyFloat`, `PyStr`, `Bytes` (bytes,
hex digest, `int(_, 16)`), `Utf8`, and `HeatMock` (the endpoint).

Three facts about the code are worth stating up front:

- The artifact path is keyed on date and hour only (server/main.py:145-151),
  so two requests for the same hour with different bboxes write the same two
  files (`HeatMock.ArtifactPathsIgnoreBbox`).
- The files are `heat_exposure.tif` and `heat_exposure.png`, written directly
  in the hour directory (server/main.py:150-151).
- The returned `bounds` is the corner pair
  `((min_lng, min_lat), (max_lng, max_lat))` (server/main.py:163), not the
  input bbox.

## Model

| member | source | states |
|---|---|---|
| `PyFloat.Lt` | server/main.py:42 | definition with no contract: Python's `<` on floats (the corrected order check); its meaning is stated by `PyFloat.GeNegatesLt` |
| `PyFloat.Ge` | server/main.py:42 | definition with no contract: Python's `>=` on floats, false whenever NaN is involved; its meaning is stated by `PyFloat.GeNegatesLt` |
| `PyFloat.GeNegatesLt` | server/main.py:42 | without NaN, `>=` is the negation of `<`; with NaN both comparisons are false |
| `PyStr.LStrip` | server/main.py:34 | the leading part it removes is all whitespace, and what remains does not start with whitespace |
| `PyStr.RStrip` | server/main.py:34 | the trailing part it removes is all whitespace, and what remains does not end with whitespace |
| `PyStr.LStripIsSuffix` | server/main.py:34 | what `lstrip` keeps is a suffix of its input |
| `PyStr.RStripIsPrefix` | server/main.py:34 | what `rstrip` keeps is a prefix of its input |
| `PyStr.Strip` | server/main.py:34 | definition with no contract: `strip()` as `rstrip` after `lstrip`; its meaning is stated by `PyStr.StripIsTrimmedSlice` |
| `PyStr.StripIsTrimmedSlice` | server/main.py:34 | `strip()` returns the slice between an all-whitespace prefix and an all-whitespace suffix, with no whitespace at either end |
| `PyStr.StripIgnoresPadding` | server/main.py:34 | whitespace added around a piece never changes its stripped form |
| `PyStr.StripUnpadded` | server/main.py:34 | a string with no whitespace at either end is left unchanged |
| `PyStr.StripIdempotent` | server/main.py:34 | stripping twice is stripping once |
| `PyStr.Split` | server/main.py:34 | `split(',')` yields one more piece than there are commas, and no piece contains a comma |
| `PyStr.Join` | server/main.py:49 | definition with no contract: `','.join`; its meaning is stated by `PyStr.JoinSplit` and `PyStr.SplitJoin` |
| `PyStr.JoinSplit` | server/main.py:34 | joining the pieces of a split with the separator gives back the input |
| `PyStr.SplitJoin` | server/main.py:49 | splitting a join of comma-free pieces gives back the pieces |
| `PyStr.Remove` | server/main.py:145 | `replace('-', '')` leaves no dash, shortens by the number of dashes, and changes nothing when there is no dash |
| `PyStr.RemoveAppend` | server/main.py:145 | dash removal distributes over concatenation |
| `PyStr.IntStr` | server/main.py:50 | definition with no contract: `f'{hour}'`, a minus sign before the decimal text for negative ints; for hours it is `PyStr.DecimalStr`, whose meaning is stated by its contract and `PyStr.DecimalRoundTrip` |
| `PyStr.DecimalStr` | server/main.py:50 | `str(n)` is a non-empty string of digits, with no leading zero, one digit exactly when n < 10 |
| `PyStr.DecimalRoundTrip` | server/main.py:50 | reading the decimal text of n back gives n |
| `PyStr.DecimalStrInjective` | server/main.py:50 | distinct hours have distinct decimal texts |
| `PyStr.ZeroPad2` | server/main.py:146 | the `02d` text is all digits and at least two long |
| `PyStr.ZeroPad2TwoDigits` | server/main.py:146 | for n < 100 (so every hour 0..23) the hour folder is exactly two digits, tens then units, reading back as n |
| `Bytes.HexDigest` | server/main.py:51 | `hexdigest()` has two lower-case hex digits per byte |
| `Bytes.ParseHex` | server/main.py:51 | `int(s, 16)` is below 16 to the power of the number of digits |
| `Bytes.HexDigestPrefix` | server/main.py:51 | the first 2k hex digits are the hex digest of the first k bytes |
| `Bytes.ParseHexDigest` | server/main.py:51 | reading a hex digest with `int(_, 16)` gives the big-endian value of the bytes |
| `Utf8.EncodeChar` | server/main.py:51 | one to four bytes per character, a single identical byte exactly for ASCII, and continuation bytes after the first |
| `Utf8.Encode` | server/main.py:51 | the encoding is at least as long as the string |
| `Utf8.DecodeEncodeChar` | server/main.py:51 | the bytes of one character decode back to it, whatever follows |
| `Utf8.DecodeEncode` | server/main.py:51 | decoding the UTF-8 encoding of a string gives the string back |
| `Utf8.EncodeInjective` | server/main.py:51 | distinct seed tokens are hashed as distinct byte strings |
| `HeatMock.ParsePieces` | server/main.py:34-36 | succeeds exactly when every stripped piece parses as a float, and then yields the parsed values in input order |
| `HeatMock.ParseCoordinates` | server/main.py:33-39 | on success there are four values from four comma-separated pieces; every failure is a 400 |
| `HeatMock.ParseBboxAsWritten` | server/main.py:32-45 | the parser as written: every failure is a 400, and success needs four pieces |
| `HeatMock.ParseBboxAsWrittenOkIff` | server/main.py:41-45 | the parser as written succeeds exactly when there are four parseable pieces and `min >= max` holds on neither axis; then the bbox is the pieces in input order; `>=` on either axis gives the order error |
| `HeatMock.ParseBbox` | server/main.py:41-45 | every failure is a 400, and every returned bbox has min < max on both axes |
| `HeatMock.ParseBboxRejectsUnparsable` | server/main.py:33-36 | any piece that does not parse gives the float error, before the count is checked |
| `HeatMock.ParseBboxNeedsFourPieces` | server/main.py:38-39 | success needs exactly three commas; a count other than four fails, with the format error when every piece parsed |
| `HeatMock.ParseBboxOkIff` | server/main.py:41-45 | success exactly when there are four parseable pieces in order min < max on both axes; then the bbox is the pieces in input order; four ordered-wrong values give the order error |
| `HeatMock.ParseBboxAsWrittenIgnoresPadding` | server/main.py:34 | whitespace around any piece of the bbox string does not change the result of the parser as written |
| `HeatMock.ParseBboxIgnoresPadding` | server/main.py:34 | whitespace around any piece of the bbox string does not change the result |
| `HeatMock.ParseBboxRoundTrip` | server/main.py:32-49 | a valid bbox rendered with a printer that writes no comma in its four coordinates and that `float()` reads back exactly on them is parsed back to itself |
| `HeatMock.NaNBboxPassesAsWritten` | server/main.py:42-43 | four NaN coordinates pass the check as written although the bbox is not ordered; the corrected parser rejects them |
| `HeatMock.AsWrittenAgreesWithoutNaN` | server/main.py:42-43 | on any bbox string none of whose stripped pieces `float()` reads as NaN, the as-written and the corrected parser give the same result |
| `HeatMock.BboxText` | server/main.py:49 | definition with no contract: the four coordinates rendered by a printer, comma-joined in bbox order; its meaning is stated by `HeatMock.ParseBboxRoundTrip` |
| `HeatMock.SeedToken` | server/main.py:50 | definition with no contract: date, dash, hour, dash, bbox text; its meaning is stated by `HeatMock.StableSeed`, `HeatMock.SeedMessageSeparatesInputs` and `HeatMock.SeedMessageSeparatesDates` |
| `HeatMock.StableSeed` | server/main.py:48-51 | the seed lies in [0, 16^8) and is the big-endian value of the first four SHA-256 bytes of the UTF-8 token |
| `HeatMock.SplitAtDash` | server/main.py:50 | the token's hour and the rest are recovered at the first dash after the date |
| `HeatMock.SeedMessageSeparatesInputs` | server/main.py:49-51 | for dates of equal length and any natural hours, equal hashed messages imply equal date, hour and six-decimal bbox text |
| `HeatMock.SeedMessageSeparatesDates` | server/main.py:49-51 | for any two dates of the `%Y-%m-%d` shape (three dash-free fields, padded or not) and any natural hours, equal hashed messages imply equal date, hour and six-decimal bbox text |
| `HeatMock.DateFolder` | server/main.py:145 | the date folder has no dash and is the date shortened by its dash count |
| `HeatMock.DateFolderOfParts` | server/main.py:145 | the folder of `y-m-d` is `ymd` for dash-free parts |
| `HeatMock.DateFolderCollision` | server/main.py:145 | two different dates such as `2026-1-11` and `2026-11-1` share one date folder |
| `HeatMock.IsoDateFolders` | server/main.py:145-146 | for `YYYY-MM-DD` the folder is the eight digits `YYYYMMDD`, and the hour folder is the hour's two digits |
| `HeatMock.BuildMockHeatLayer` | server/main.py:130-164 | the endpoint succeeds exactly when the date is valid and the bbox parses; every failure is a 400; on success it echoes date, hour and parsed bbox, returns the corners as bounds and keys the raster on the stable seed |
| `HeatMock.DateCheckedBeforeBbox` | server/main.py:136-141 | an invalid date gives the date error whatever the bbox |
| `HeatMock.BboxErrorPassesThrough` | server/main.py:141 | with a valid date, the endpoint fails exactly when the bbox parser does, with its error |
| `HeatMock.ResultsDir` | server/main.py:161-162 | definition with no contract: `/results/{date_folder}/{hour_folder}/`; its meaning is stated by `HeatMock.ArtifactPathsShareDirectory` and `HeatMock.IsoArtifactPaths` |
| `HeatMock.ArtifactPathsShareDirectory` | server/main.py:145-162 | both paths are `/results/{date_folder}/{hour_folder}/` followed by `heat_exposure.tif` and `heat_exposure.png` |
| `HeatMock.ArtifactPathsIgnoreBbox` | server/main.py:145-151 | two successful requests for the same date and hour name the same files, whatever their bboxes |
| `HeatMock.IsoArtifactPaths` | server/main.py:145-162 | for `YYYY-MM-DD` and hour h the paths are `/results/YYYYMMDD/hh/heat_exposure.{tif,png}` |

## Left out

- `_mock_heat_array` (server/main.py:54-64) is left out. It is numpy floating-point arithmetic over a library random generator. The model returns the seed that determines the raster instead.
- `_write_geotiff` and `_write_overlay_png` (server/main.py:67-127) are left out. They are file I/O through tifffile and matplotlib, and the GeoKey directory is constant data.
- `float()`, six-decimal formatting, SHA-256 and `datetime.strptime` are library calls. They are fields of `HeatMock.Runtime` and are not reimplemented.
- The FastAPI app, the static mount, the Pydantic response model and `output_dir.mkdir` are framework and filesystem plumbing. The framework enforces `0 <= hour <= 23` (server/main.py:133), so `BuildMockHeatLayer` takes it as a precondition. The framework's own error for an out-of-range hour is not modelled.
- `PyFloat.Float` identifies -0.0 with 0.0. A `-0.0` coordinate validates like `0.0`, but its six-decimal text, and so the seed, is not distinguished in the model.
- Infinite coordinates pass the order check in the code and in the model alike. Whether the JSON response can carry them is framework behaviour and is not modelled.
- `Utf8.Decode` accepts some byte strings Python's decoder rejects, such as overlong forms. It exists only to prove that the encoding is injective.
- `HeatMock.BuildMockHeatLayer` uses the corrected `HeatMock.ParseBbox`, so a NaN bbox gets the order error in the model. The code accepts it (see Findings).
- The tile index loader, route-tile matching and the multi-hour series endpoint are not in `server/main.py`, so they are not part of this model.

## Findings

| source | as written | input that shows it | evidently intended | confidence | as-written member | corrected member |
|---|---|---|---|---|---|---|
| server/main.py:42-43 | rejects the bbox only if `min_lng >= max_lng or min_lat >= max_lat`; every comparison with NaN is false, so NaN coordinates pass | `bbox=nan,nan,nan,nan`: `float('nan')` parses, and the result is returned as a bbox with no minimum below its maximum (lemma `HeatMock.NaNBboxPassesAsWritten`) | accept only `min_lng < max_lng and min_lat < max_lat`, as the error text says | not executed; high (Python's float and comparison semantics) | `HeatMock.ParseBboxAsWritten` | `HeatMock.ParseBbox` |
