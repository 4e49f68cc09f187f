# CWMS data-acquisition scripts, modelled in Dafny

This project models the parsing and translation logic of a collection of
Python scripts. The scripts fetch hydrological and meteorological data and
write it to a CWMS (Corps Water Management System) database through its
REST interface (CDA). Each script is modelled as pure functions. Downloaded
text, parsed JSON, configuration files and clock readings become
parameters. Every store call becomes a returned value, such as a list of
`Stored`/`Post` records, and nothing is sent anywhere.

Modelled scripts:

- **SHEF loader** (`shef_loader.py`, `CDAPost.py`): reads a file of `.E`
  and `.A` messages, looks each location and physical-element code up in
  a crit-file mapping, and posts the resulting time series.
  - Modules: `ShefTokenize`, `ShefCrit`, `ShefDecode`, `CdaPost`.
- **Mesonet SHEF encoder** (`meso_shef_encoder.py`): parses hourly
  Mesonet station tables, converts units, and writes wrapped `.E` SHEF
  messages per state.
  - Modules: `MesoConfig`, `MesoUnits`, `MesoIds`, `MesoParse`, `MesoEncode`.
- **Crit-file import** (`shef_critfile_import.py`): splits crit lines into
  SHEF and CWMS alias records (`CritImport`).
- **Rating import** (`rating_ini_file_import.py`, `getUSGS_ratings_CDA.py`):
  - the INI-like rating list, with Python `shlex`-style quoting (`RatingIni`);
  - the USGS rating header fields and the decision to store a rating
    (`UsgsRatings`).
- **Text-file loader** (`textfile.py`, `CdaTextFile.py`): reads a file of
  series blocks, each a `Begin Header` line, `key=value` header lines, an
  `End Header` line, a column-title line and `time,value` lines, and
  stores each block's values under its header's series name
  (`TextFiles`, `CdaTextFile`).
- **CHPS forecast loader** (`loadNwsCHPS.py`): classifies a PI-XML file by
  name and maps CHPS parameters to CWMS series (`NwsChps`).
- **NWS ACIS and IEM loaders** (`getNwsAcis.py`, `getNwsIem.py`): turn
  daily station tables into per-element series (`NwsAcis`, `NwsIem`).
- **ECCC loader** (`getECCC.py`): downloads each station's real-time
  CSV once per run of rows for that station, snaps its times to five
  minutes, and writes every non-empty reading of the stage column (in m)
  or the discharge column (in cms) to the matching series (`Eccc`).
- **LMRFC NAEFS loader** (`getLMRFC_NAEFS.py`): picks the newest forecast
  file, and maps its series to CWMS ensemble members with a noon version
  date (`Naefs`).

Shared support modules:

- `Wrappers`: Python exceptions become a `Result` with a `Fault` tag.
- `PyText`: Python string methods (`split`, `strip`, `find`, …).
- `Numbers`: `float()` parsing and fixed-point formatting over exact reals.
- `Civil`: calendar arithmetic.
- `Strptime`: the digit-field matching of `datetime.strptime`.
- `Dict`, `Ordering`: small helpers.

The main operations are paired with a property that relates them to
something other than their own definition. Examples:

- format/parse round trips (`TimeToMsRoundTrip`, `FormatFixedRoundTrip`,
  `AliasLineRoundTrip`);
- an independent reference definition (`LoopIsFresh`, `UnitLoopIsLast`,
  `WrapIsLines`);
- an invariant of a whole run (`EachPointOnce`, `OutcomesPartition`).

Where the source is defective, the model has two versions. An
as-written member reproduces the code's behaviour. A corrected member
states the evident intent and is the one the rest of the model uses. See
"## Findings".

## Model

| member | source | states |
|---|---|---|
| Civil.AddDays | src/getNwsAcis/getNwsIem.py:100-105 | stepping a calendar date by k days lands on a valid date exactly k day numbers later |
| Civil.EpochSecondsOrder | src/LPMS/shef_loader.py:110 | a later calendar day is a later epoch second |
| Civil.ShiftSeconds | src/getLMRFC_NAEFS/getLMRFC_NAEFS.py:186-192 | moving a naive time by k seconds yields a valid time exactly k epoch seconds later |
| Civil.Build | src/LPMS/shef_loader.py:102 | a date and time are built exactly when the fields form a valid time with a year in 1..9999; otherwise ValueError |
| Civil.DateRoundTrip | src/getNwsAcis/getNwsIem.py:104 | a date written as `%Y-%m-%d` parses back to the same date |
| Civil.MonthAbbrevRoundTrip | src/meso_shef_encoder/meso_shef_encoder.py:240 | each three-letter month name reads back as its month number |
| Strptime.Scan | src/LPMS/shef_loader.py:102 | a format matches exactly when the backtracking matcher, preferring the longest field first, consumes the whole text; the result has one piece per directive, and failure is ValueError |
| Strptime.Prefer | src/LPMS/shef_loader.py:102 | a directive's preferred end is used whenever the rest of the format matches from there |
| Strptime.Fallback | src/LPMS/shef_loader.py:102 | when the rest of the format fails after the preferred end, the matcher tries the directive's shorter ends |
| Strptime.ScanJoin | src/getNwsAcis/getNwsIem.py:156 | two formats laid out one after the other over a text scan to the two layouts' pieces |
| Strptime.ParseCompact | src/LPMS/shef_loader.py:102 | `%Y%m%d%H%M` yields a valid time with a year in 1..9999 and second 0, or ValueError |
| Strptime.CompactRoundTrip | src/LPMS/shef_loader.py:102 | a time written with twelve digits parses back to itself |
| Strptime.HourGivesBack | src/LPMS/shef_loader.py:102 | with only two digits left, `%H%M` takes one digit for the hour and one for the minute |
| Strptime.HourOnly | src/LPMS/shef_loader.py:102 | a ten-digit text parses as the date with hour = ninth digit and minute = tenth digit |
| Strptime.CompactHourOnly | src/LPMS/shef_loader.py:102 | `"2024011112"` parses as 2024-01-11 01:02 |
| Strptime.ParseIso | src/loadNwsCHPS/loadNwsCHPS.py:100 | `%Y-%m-%d %H:%M:%S` (or with `T`) yields a valid time with a year in 1..9999, or ValueError |
| Strptime.IsoRoundTrip | src/loadNwsCHPS/loadNwsCHPS.py:100 | a time written as `%Y-%m-%d %H:%M:%S` parses back to itself |
| Strptime.IntOf | src/getNwsAcis/getNwsIem.py:156 | `int()` of a field succeeds exactly when the text is an integer literal and yields its value; failure is ValueError |
| Strptime.Uncolon | src/getNwsAcis/getNwsIem.py:156 | a `%z` offset with `:` after the hours loses its colons; an offset of fewer than four characters is refused |
| Strptime.ZoneValue | src/getNwsAcis/getNwsIem.py:156 | a `%z` offset is strictly less than one day in either direction, or ValueError |
| Strptime.Bounded | src/getNwsAcis/getNwsIem.py:156 | an offset is accepted exactly when it is less than a day, with the sign applied |
| Strptime.ZoneSpellings | src/getNwsAcis/getNwsIem.py:156 | `+HH:MM` reads as `+HHMM`, and that is the signed hours and minutes, refused from a day on |
| Strptime.ZoneColonMismatch | src/getNwsAcis/getNwsIem.py:156 | an offset that uses a colon between hours and minutes but none before the seconds is refused |
| Strptime.ParseDayMonYear | src/meso_shef_encoder/meso_shef_encoder.py:240 | `%d%b%Y %H%M` yields a valid time with second 0, or ValueError |
| Strptime.DayMonYearRoundTrip | src/meso_shef_encoder/meso_shef_encoder.py:240 | a time written as `%d%b%Y %H%M` parses back to itself |
| CdaPost.NewTs | src/LPMS/CDAPost.py:13-17 | a new series carries the given name, office and units and holds no values |
| CdaPost.InsertValue | src/LPMS/CDAPost.py:18-19 | inserting appends exactly one `[time, value, quality]` triple at the end and keeps everything before it and the series' identity |
| CdaPost.InsertAllAppends | src/LPMS/CDAPost.py:18-19 | inserting a list of triples one at a time appends the whole list, in order, and changes nothing else |
| CdaPost.Payload | src/LPMS/CDAPost.py:26-29 | the posted payload has exactly the keys `name`, `office-id`, `units`, `values` |
| CdaPost.PayloadRoundTrip | src/LPMS/CDAPost.py:26-29 | reading a payload back yields the very series it was built from: nothing is lost or renamed |
| ShefCrit.Put | src/LPMS/shef_loader.py:83-89 | setting one attribute creates the missing dictionary levels, sets that key of that entry and leaves every other entry as it was |
| ShefCrit.ParseAttrs | src/LPMS/shef_loader.py:90-91 | the `Key=Value` segments after the first `;` parse exactly when every segment holds `=`, else IndexError; pair `i` is the text before segment `i`'s first `=` and the text between its first and second `=` |
| ShefCrit.ParseCritLine | src/LPMS/shef_loader.py:78-82 | an empty line raises IndexError; a line starting with `#`, blank or newline is skipped; otherwise, with the last character dropped, a key before `=` that does not have four dotted parts is a ValueError; with four parts the line is read exactly when it holds `=` and every further `;` segment holds `=` (IndexError otherwise), giving location, element and version from the key's first three parts, the path up to the first `;` after `=`, and `ParseAttrs` of the further segments |
| ShefCrit.PutAll | src/LPMS/shef_loader.py:90-91 | after storing a line's attributes, each key of the entry holds the value of the last pair with that key, or its earlier value when no pair has it; other entries are unchanged |
| ShefCrit.ApplyLine | src/LPMS/shef_loader.py:83-91 | a stored line leaves its entry present with a `Path` and every other entry unchanged |
| ShefCrit.LoadKeepsPaths | src/LPMS/shef_loader.py:74-92 | whatever the file holds, every entry the loader creates carries a `Path` |
| ShefCrit.LoadSplit | src/LPMS/shef_loader.py:78-92 | loading a file in two parts is loading the first part and continuing with the second; an error in the first part aborts the load |
| ShefCrit.SkippedLine | src/LPMS/shef_loader.py:79 | a comment, indented or empty line changes nothing |
| ShefCrit.LastLineWins | src/LPMS/shef_loader.py:83-91 | a later line for the same location, element and version replaces its `Path` (unless its own attributes set `Path`) and leaves every other entry as before |
| ShefCrit.PutAllKeeps | src/LPMS/shef_loader.py:90-91 | attributes with other keys keep an attribute's earlier value |
| ShefCrit.CritLineRoundTrip | src/LPMS/shef_loader.py:78-91 | a line written as `LOC.PE.VER.Q=path;key=value` with no separator inside its parts reads back as exactly that location, element, version, path and attribute pair |
| ShefTokenize.Closed | src/LPMS/shef_loader.py:131-132 | closing the scan appends the open message exactly when there is one |
| ShefTokenize.KindOfHeader | src/LPMS/shef_loader.py:130 | each of the five header keys begins with `.E`, `.A` or `.B`, and only `.B` begins with `.B` |
| ShefTokenize.PrefixKind | src/LPMS/shef_loader.py:130-133 | a line starting with a header key opens a message of that key's kind |
| ShefTokenize.ScanWellScanned | src/LPMS/shef_loader.py:128-144 | the line loop keeps every message, closed or open, starting with `.E`, `.A` or `.B`, whatever the input |
| ShefTokenize.TokenizeMessages | src/LPMS/shef_loader.py:126-146 | every message handed to the decoders is a `.E`, `.A` or `.B` message |
| ShefTokenize.HeaderOpens | src/LPMS/shef_loader.py:130-133 | a header line with no message open opens that message |
| ShefTokenize.BlankCloses | src/LPMS/shef_loader.py:141-144 | a blank line closes an open `.E`/`.A` message |
| ShefTokenize.HeaderThenBlank | src/LPMS/shef_loader.py:128-144 | a header line followed by a blank line contributes exactly that message |
| ShefTokenize.BlankSeparatedScan | src/LPMS/shef_loader.py:128-144 | every message closed by a blank line reaches the decoders, in file order |
| ShefTokenize.BlankSeparatedTokenize | src/LPMS/shef_loader.py:126-146 | a product of one-line messages each followed by a blank line yields exactly those messages |
| ShefTokenize.LastMessageDropped | src/LPMS/shef_loader.py:128-146 | as written, a message on the product's last line, with no line after it, is never decoded |
| ShefTokenize.TokenizeAllKeepsLast | src/LPMS/shef_loader.py:128-146 | the corrected tokenizer also keeps the message still open at the end, and agrees with the loader when the product ends on a blank line |
| ShefDecode.NwsTzToCdaTz | src/LPMS/shef_loader.py:94-99 | a two-letter zone gets `T` appended, any other zone but `Z` is kept, so no result is two letters long |
| ShefDecode.NwsTzIdempotent | src/LPMS/shef_loader.py:94-99 | converting a zone twice is converting it once |
| ShefDecode.KnownZones | src/LPMS/shef_loader.py:94-99 | a converted zone is in the fixed offset table exactly when it is one of the SHEF codes for UTC or US Central/Eastern standard or daylight time |
| ShefDecode.TimeToMs | src/LPMS/shef_loader.py:100-112 | the conversion succeeds exactly when `%Y%m%d%H%M` parses and the zone is in the offset table; a bad time raises ValueError, an unknown zone leaves `hectime` unbound; a result is a whole minute |
| ShefDecode.TimeToMsRoundTrip | src/LPMS/shef_loader.py:100-112 | a minute written as `%Y%m%d%H%M` converts back to that minute's epoch milliseconds plus the zone's fixed offset |
| ShefDecode.ZoneShift | src/LPMS/shef_loader.py:108-110 | the same wall-clock text is six hours later in CST than in UTC and one hour earlier in CDT than in CST |
| ShefDecode.Increment | src/LPMS/shef_loader.py:26-32 | an interval shorter than three characters raises IndexError; a step exists only for the units `H`, `M`, `D` and is a whole number of minutes |
| ShefDecode.IncrementOf | src/LPMS/shef_loader.py:26-32 | `DI` + unit + count is count times one hour, minute or day in milliseconds |
| ShefDecode.FromInterval | src/LPMS/shef_loader.py:33-35 | the chunks kept are a suffix of the input starting at the first chunk beginning with `DI`, and every dropped chunk does not begin with `DI` |
| ShefDecode.DataChunks | src/LPMS/shef_loader.py:33-36 | failure is IndexError (no `DI` chunk); on success the first chunk is replaced and the others are the chunks from the interval field on |
| ShefDecode.ParseValues | src/LPMS/shef_loader.py:37-39 | each non-empty chunk is parsed as a float, in order, one value per chunk; failure is ValueError |
| ShefDecode.ParseValuesOk | src/LPMS/shef_loader.py:37-39 | decoding fails exactly when some non-empty chunk is not a number |
| ShefDecode.Emit | src/LPMS/shef_loader.py:37-40 | the k-th point is the k-th non-empty chunk's number at start plus k increments, quality 0 |
| ShefDecode.Lookup | src/LPMS/shef_loader.py:41-47 | an unknown location, element or version yields no series; a known entry yields its `Path` and `Units` around the values, and a missing attribute raises KeyError |
| ShefDecode.EVersion | src/LPMS/shef_loader.py:18-21 | the version is characters `[-4:-1]` of a field of at least five characters, else `RZZ`; it is always three characters |
| ShefDecode.StartTextAsWritten | src/LPMS/shef_loader.py:12 | the start text is the date word joined to whatever follows `DH` in the time word |
| ShefDecode.HourOnlyStartAsWritten | src/LPMS/shef_loader.py:12 | as written, `.E LOC 20240111 Z DH12/...` starts at 2024-01-11 01:02, not at noon |
| ShefDecode.StartText | src/LPMS/shef_loader.py:12 | the corrected start text completes an hour-only `DHhh` with `00` minutes and is otherwise the loader's text |
| ShefDecode.HourOnlyStart | src/LPMS/shef_loader.py:12 | with the correction, a date word and a `DHhh` word read back as that hour, minute 0 |
| ShefDecode.ParseEAt | src/LPMS/shef_loader.py:6-47 | fewer than five words raise IndexError; the result is Ok(d) exactly when `EDecoded` holds of d: the criteria lookup of the location, the element field's first two letters and its version, with the data chunks laid out from the start time read in the message's zone, one interval apart; a decoded series is numbers of quality 0 on whole minutes, evenly spaced |
| ShefDecode.EValues | src/LPMS/shef_loader.py:32-40 | the values run from the start time one increment apart, on whole minutes, quality 0 |
| ShefDecode.EmitSpaced | src/LPMS/shef_loader.py:37-40 | started on a whole minute with a whole-minute step, the value loop stays on whole minutes exactly one step apart |
| ShefDecode.LookupEven | src/LPMS/shef_loader.py:41-47 | the criteria lookup passes the decoded values on unchanged or drops them |
| ShefDecode.PeFieldAsWritten | src/LPMS/shef_loader.py:13-16 | as written, the element field index is 1 exactly when `/DC` sits at position 0 |
| ShefDecode.PeFieldAlwaysThird | src/LPMS/shef_loader.py:13-16 | every real message begins with `.`, so the loader always reads the element from the third field, even without a `/DC` field |
| ShefDecode.PeField | src/LPMS/shef_loader.py:13-16 | the intended element field follows `/DC` exactly when the message has one |
| ShefDecode.PeFieldNoCreationDate | src/LPMS/shef_loader.py:13-17 | without `/DC` the intended element is the field right after the date/time word |
| ShefDecode.ParseEAsWritten | src/LPMS/shef_loader.py:6-47 | `Parse_E` as written fails with IndexError on a message of fewer than five words, and returns a series exactly when it is the decoding (`EDecoded`) with the element in the field `PeFieldAsWritten` picks and the as-written start text |
| ShefDecode.ParseE | src/LPMS/shef_loader.py:6-47 | the corrected `Parse_E` fails with IndexError on a message of fewer than five words, and returns a series exactly when it is the decoding (`EDecoded`) with the element in the field `PeField` picks and the start text with an hour-only clock completed |
| ShefDecode.LastPair | src/LPMS/shef_loader.py:57-58 | the pair loop succeeds exactly when every field holds two words and yields the last field's pair; no field leaves `code` unbound, a bad field raises ValueError |
| ShefDecode.ReadA | src/LPMS/shef_loader.py:49-58 | fewer than two words raise IndexError; an unknown location yields nothing; for a known location it succeeds exactly when the time and the last code/value pair can be read (`AReadable`), and the reading is the location, that time and that pair (`ARead`) |
| ShefDecode.SplitCode | src/LPMS/shef_loader.py:61-64 | a longer code splits into its first two letters and the rest; a code of at most two letters gets version `RZZ` |
| ShefDecode.ALookupAsWritten | src/LPMS/shef_loader.py:59-69 | as written, the lookup yields at most one series |
| ShefDecode.VersionedCodeIgnored | src/LPMS/shef_loader.py:60-62 | as written, a code with a version (`HGIRZ`) is dropped whenever the table keys elements by two letters, where the intended lookup finds its series |
| ShefDecode.ALookup | src/LPMS/shef_loader.py:59-69 | the intended lookup splits the code, yields nothing for an unknown element or version, the one-value series for a complete entry, KeyError for an incomplete one |
| ShefDecode.ParseAAsWritten | src/LPMS/shef_loader.py:48-70 | an unknown location yields no series, and at most one series ever; for a known location the call succeeds only when the message reads (`AReadable`), and when it reads the result is exactly the as-written lookup of the reading built from the message's time and last `/` pair |
| ShefDecode.ParseA | src/LPMS/shef_loader.py:48-70 | an unknown location yields nothing; for a known location the call succeeds only when the message reads (`AReadable`), and when it reads the result is exactly `ALookup` of the reading built from `TimeToMs` of the date and clock and `LastPair` of the `/` fields; a series holds one value, kept as the text read, with quality 0 |
| ShefDecode.DecodeWith | src/LPMS/shef_loader.py:146-153 | `.E` and `.A` messages go to their decoders, `.B` decodes to nothing, any other message is skipped |
| ShefDecode.Deliver | src/LPMS/shef_loader.py:154-158 | an empty path stores nothing; otherwise the path's series is created on first sight in the series' units and the values are appended, every other series unchanged |
| ShefDecode.Appended | src/LPMS/shef_loader.py:155-158 | the delivered series holds the earlier values followed by the new ones and keeps its name, office and units |
| ShefDecode.DeliverAll | src/LPMS/shef_loader.py:159-166 | delivering a list keeps every series filed under its own name in office `LRL` |
| ShefDecode.DeliverAllGathers | src/LPMS/shef_loader.py:159-166 | after delivering a list, a path is stored exactly when it was stored or named, and holds its earlier values followed by all points named for it, in order |
| ShefDecode.DeliverStep | src/LPMS/shef_loader.py:154-158 | one delivery, seen from any path: it appears when named and gains the values named for it |
| ShefDecode.Paths | src/LPMS/shef_loader.py:159-161 | the paths of a list are exactly the paths its series name |
| ShefDecode.AbsorbAsWritten | src/LPMS/shef_loader.py:145-166 | as written, a `.E` or skipped message leaves `ts_array` as it was |
| ShefDecode.Contribution | src/LPMS/shef_loader.py:146-153 | a `.E` message contributes its series, a `.A` message its list, other messages nothing |
| ShefDecode.APointRepeated | src/LPMS/shef_loader.py:145-166 | as written, a `.A` value is stored a second time after a later `.E` message; the intended loop stores it once |
| ShefDecode.ProcessBlocks | src/LPMS/shef_loader.py:146-167 | the intended block loop keeps every series filed under its name |
| ShefDecode.ProcessBlocksAsWritten | src/LPMS/shef_loader.py:145-167 | the block loop as written keeps every series filed under its name |
| ShefDecode.Outcomes | src/LPMS/shef_loader.py:146-153 | every message decodes to one outcome, or the first error aborts |
| ShefDecode.DeliverAllAppend | src/LPMS/shef_loader.py:146-166 | delivering two lists is delivering the first, then the second |
| ShefDecode.ProcessIsDelivery | src/LPMS/shef_loader.py:146-167 | the intended loop succeeds exactly when every message decodes, and then stores exactly the delivery of all their series |
| ShefDecode.EachPointOnce | src/LPMS/shef_loader.py:146-167 | for every path, the posted series holds exactly the points decoded for it, each once and in message order |
| ShefDecode.ProcessShefAsWritten | src/LPMS/shef_loader.py:121-167 | `process_shef` as written keeps every series filed under its own name in office `LRL` |
| ShefDecode.ProcessShef | src/LPMS/shef_loader.py:121-167 | the corrected `process_shef` keeps every series filed under its own name in office `LRL` |
| MesoConfig.ShefParam | src/meso_shef_encoder/meso_shef_encoder.py:41-49 | a column maps to the SHEF code of the first cross-reference entry whose USACE name it contains, and to nothing exactly when it contains none of them |
| MesoConfig.FirstMatch | src/meso_shef_encoder/meso_shef_encoder.py:584-589 | a first-match scan over an ordered table: nothing exactly when no key from the start position matches, else the value of the earliest matching key |
| MesoConfig.HourlyShef | src/meso_shef_encoder/meso_shef_encoder.py:441 | every element chosen has `hrly` among its modifications |
| MesoConfig.NamesForEqual | src/meso_shef_encoder/meso_shef_encoder.py:442 | with two-letter codes throughout, `p in v` is equality, so each code picks the USACE names mapped exactly to it |
| MesoConfig.HourlyElements | src/meso_shef_encoder/meso_shef_encoder.py:50-57 | the elements marked `hrly` are `PP` and `RW`, in table order |
| MesoConfig.HourlyColumns | src/meso_shef_encoder/meso_shef_encoder.py:440-443 | `getHourly` yields `PP`, `RW` and the columns `Precip`, `Irrad` |
| MesoUnits.ToEnglish | src/meso_shef_encoder/meso_shef_encoder.py:355-378 | text that is not a number, and -9999, give `('-9999', '')`; otherwise millimetres become inches, km/h mph and Celsius Fahrenheit, any other unit keeps the number and the unit |
| MesoUnits.ToMetric | src/meso_shef_encoder/meso_shef_encoder.py:381-406 | text that is not a number, and -9999, give `('-9999', '')`; otherwise inches become millimetres, Fahrenheit Celsius and langley/min W/m^2, any other unit keeps the number and the unit |
| MesoUnits.EnglishThenMetric | src/meso_shef_encoder/meso_shef_encoder.py:355-406 | converting millimetres or Celsius to English units and back gives the number and unit started from |
| MesoUnits.MetricThenEnglish | src/meso_shef_encoder/meso_shef_encoder.py:355-406 | converting inches or Fahrenheit to metric units and back gives the number and unit started from |
| MesoUnits.SpeedStaysEnglish | src/meso_shef_encoder/meso_shef_encoder.py:381-406 | mph has no metric conversion, so a converted speed is kept as it is |
| MesoUnits.SentinelNotInverted | src/meso_shef_encoder/meso_shef_encoder.py:355-406 | a converted value that lands on -9999 is read back as missing |
| MesoIds.GetIdXref | src/meso_shef_encoder/meso_shef_encoder.py:166-177 | loading succeeds exactly when every line that is neither a comment nor blank holds `\|`; failure is IndexError |
| MesoIds.BlankLineFails | src/meso_shef_encoder/meso_shef_encoder.py:171-175 | an empty line is not all whitespace in Python, so it makes the load fail |
| MesoIds.XrefKeys | src/meso_shef_encoder/meso_shef_encoder.py:171-176 | the loaded table holds exactly the ids of the kept lines |
| MesoIds.XrefLast | src/meso_shef_encoder/meso_shef_encoder.py:171-176 | each further line adds at most its own id to the table |
| MesoIds.GetShefId | src/meso_shef_encoder/meso_shef_encoder.py:323-345 | a five-character id is upper-cased; else a cross-referenced id gives its NWS id upper-cased; else an id of at most eight characters is used upper-cased, and a longer one gives nothing |
| MesoIds.GenShefId | src/meso_shef_encoder/meso_shef_encoder.py:348-352 | the generated id is the first eight characters, upper-cased |
| MesoIds.ResolveShefId | src/meso_shef_encoder/meso_shef_encoder.py:323-352 | a non-empty id always resolves to a non-empty SHEF id, and an id without a cross reference resolves to an upper-cased prefix of itself |
| MesoIds.AbbrevHolding | src/meso_shef_encoder/meso_shef_encoder.py:434-436 | true exactly when some state's abbreviation contains the text |
| MesoIds.GetState | src/meso_shef_encoder/meso_shef_encoder.py:428-437 | a five-character SHEF id with a known suffix gives that state; else the id's first two letters upper-cased when some abbreviation contains them; else `MSG` |
| MesoIds.AddDpths | src/meso_shef_encoder/meso_shef_encoder.py:311-320 | each column gets the depth suffix of the field in the same position; a column row longer than the depth row raises IndexError |
| MesoIds.DepthSplitsBack | src/meso_shef_encoder/meso_shef_encoder.py:311-320 | splitting a suffixed column name at `_` gives back the column and its depth |
| MesoIds.OutNameGen | src/meso_shef_encoder/meso_shef_encoder.py:415-425 | a name is made exactly when no name was given or the given name has an extension; it starts with the state and `_`, and a generated one ends in `.txt` |
| MesoIds.OutNamesDistinct | src/meso_shef_encoder/meso_shef_encoder.py:415-425 | files numbered differently get different names |
| MesoParse.Sample | src/meso_shef_encoder/meso_shef_encoder.py:251-254 | a numeric sample adds its value to the sum and one to the count; any other text leaves the accumulator unchanged |
| MesoParse.HourValue | src/meso_shef_encoder/meso_shef_encoder.py:250-261 | the top-of-hour value is the sum exactly when the field is non-empty and the twelfth sample has arrived, and is `-9999` otherwise |
| MesoParse.SampleAllCounts | src/meso_shef_encoder/meso_shef_encoder.py:294-299 | after a run of five-minute rows the accumulator holds the sum and the number of the numeric samples |
| MesoParse.TwelveSamples | src/meso_shef_encoder/meso_shef_encoder.py:250-299 | from a reset, an hour's sub-hourly fields followed by the top-of-hour field report the sum of the numbers among them (`HourTotal`) when the top-of-hour field is non-empty and there are exactly twelve numbers, and `-9999` otherwise |
| MesoParse.Updated | src/meso_shef_encoder/meso_shef_encoder.py:277-284 | storing a value sets that time, keeps every other time of the column, and a new column starts in the value's unit |
| MesoParse.Store | src/meso_shef_encoder/meso_shef_encoder.py:276-290 | a station already stored keeps the station list; a new one is added at the end |
| MesoParse.StoreValueAt | src/meso_shef_encoder/meso_shef_encoder.py:276-290 | after storing, the station's column reads the value at that time, and every other station, column or time reads as before |
| MesoParse.StoreGet | src/meso_shef_encoder/meso_shef_encoder.py:276-290 | after storing, the station's column holds the value at that time |
| MesoParse.StoreGood | src/meso_shef_encoder/meso_shef_encoder.py:276-290 | storing a non-empty value of a mapped column keeps stations and columns unique and every stored value non-empty |
| MesoParse.HourlyColsAgree | src/meso_shef_encoder/meso_shef_encoder.py:197-199 | the accumulated columns are the ones `getHourly` names |
| MesoParse.Start | src/meso_shef_encoder/meso_shef_encoder.py:194-199 | parsing starts with no data and an accumulator for each hourly column |
| MesoParse.BRow | src/meso_shef_encoder/meso_shef_encoder.py:206-222 | a `B` row sets up a station exactly when it has at least three fields; its id is the third field and its depth row the whole row |
| MesoParse.SubHour | src/meso_shef_encoder/meso_shef_encoder.py:294-299 | a row off the hour fails with IndexError exactly when it is too short for an hourly column; otherwise each hourly column's accumulator has taken, in order, every field of the row under a column of that name |
| MesoParse.StoreCell | src/meso_shef_encoder/meso_shef_encoder.py:267-290 | a column no cross-reference entry matches raises IndexError (`sP[0]`); otherwise the converted value, when non-empty, is stored at the station, column and time, every other station, column or time reads as before, and the data stays well formed |
| MesoParse.TopColumn | src/meso_shef_encoder/meso_shef_encoder.py:243-290 | one column of a top-of-hour row succeeds exactly when `ColumnOk` holds (a field and a unit, and a SHEF element for a non-empty report past the second column other than `UTC`); no units row raises UnboundName, any other failure is IndexError; the column's accumulator is reset if it is hourly; the converted report is stored at that time when non-empty, and nothing else changes |
| MesoParse.TopHour | src/meso_shef_encoder/meso_shef_encoder.py:243-290 | a whole top-of-hour row resets the accumulator of each hourly column it names and no other, needs a field and a unit for every column, and changes no value outside its own columns at its time |
| MesoParse.TopHourOk | src/meso_shef_encoder/meso_shef_encoder.py:243-290 | the columns of a top-of-hour row are read exactly when each column is `ColumnOk` with the sums as the earlier columns left them, and then the sums are those with every hourly column of the row reset |
| MesoParse.TopHourStores | src/meso_shef_encoder/meso_shef_encoder.py:243-290 | when every column of the row is `ColumnOk`, the row is read, and a column named once holds at the row's time the converted report when one is stored and the earlier value otherwise |
| MesoParse.DataRow | src/meso_shef_encoder/meso_shef_encoder.py:236-299 | a data row keeps the station, columns and units and keeps the data well formed; `SubRowSamples` and `TopRowStores` state what it does off and on the hour |
| MesoParse.TopRowOk | src/meso_shef_encoder/meso_shef_encoder.py:241-290 | a top-of-hour data row in a ready state is read exactly when all its columns can be (`TopRowReadable`), and then only the stored data changes and the hourly columns the row names are reset |
| MesoParse.ReadableWhenNamed | src/meso_shef_encoder/meso_shef_encoder.py:243-290 | a top-of-hour row with a field and a unit for every column, where every stored column names a SHEF element, can be read |
| MesoParse.SubRowSamples | src/meso_shef_encoder/meso_shef_encoder.py:292-299 | a row off the hour stores nothing, fails only when too short for an hourly column, and feeds each hourly column its fields |
| MesoParse.TopRowStores | src/meso_shef_encoder/meso_shef_encoder.py:241-290 | a readable row on the hour is read; for a column named once it stores the converted report at the row's time (or leaves the earlier value), and it resets exactly the hourly columns it names |
| MesoParse.Step | src/meso_shef_encoder/meso_shef_encoder.py:202-299 | an empty row changes nothing; a `B` row sets the station exactly when it has three fields; a `C` row sets the columns to the row with the station's depths added, failing exactly without a station or with too few depths; a `Units` row sets the units; a row whose first field is all digits is a data row; the hourly columns and well-formed data are kept |
| MesoParse.Parse | src/meso_shef_encoder/meso_shef_encoder.py:190-300 | the parsed data has unique stations and columns, every column maps to a SHEF code, and every stored value is non-empty |
| MesoParse.ParseFromAppend | src/meso_shef_encoder/meso_shef_encoder.py:202-300 | parsing rows `a + b` is parsing `a` and then `b` from where it stopped; a failure in `a` is the result |
| MesoParse.ParseSplit | src/meso_shef_encoder/meso_shef_encoder.py:190-300 | parsing a table split in two is parsing its first part from the start and continuing with the second |
| MesoParse.OffRow | src/meso_shef_encoder/meso_shef_encoder.py:292-299 | one timed row off the hour changes nothing but the hourly column's accumulator, which takes the row's field |
| MesoParse.SubRows | src/meso_shef_encoder/meso_shef_encoder.py:292-299 | a run of rows off the hour leaves station, columns, units and data as they were, and each hourly column's accumulator has taken its column's fields in order |
| MesoParse.SubRowsParse | src/meso_shef_encoder/meso_shef_encoder.py:292-298 | rows off the hour in a ready state are read exactly when each has a field for every hourly column, and they change nothing but the hourly sums |
| MesoParse.HourReads | src/meso_shef_encoder/meso_shef_encoder.py:236-298 | an hour is read when its rows off the hour fit the hourly columns and its top-of-hour row has a field and unit for every column and a SHEF element for every stored column |
| MesoParse.HeaderReady | src/meso_shef_encoder/meso_shef_encoder.py:206-233 | a station's `B`, `C` and `Units` rows make the state ready: that station, the columns with their depths, and those units, with sums and data unchanged |
| MesoParse.HourStored | src/meso_shef_encoder/meso_shef_encoder.py:241-299 | after an hour of sub-hourly rows and its top-of-hour row that is read (`HourReads` gives when), an hourly column (reset before the hour) is reset again and holds, at the hour, the converted `HourTotal` of its fields when non-empty |
| MesoParse.FirstHourStored | src/meso_shef_encoder/meso_shef_encoder.py:196-299 | from the start of a file, a station's header rows, rows off the hour and a top-of-hour row are read, and the parsed table holds at that hour, under the station and an hourly column named once, the converted hourly total of the column's fields unless it is empty |
| MesoParse.BRowKeepsSums | src/meso_shef_encoder/meso_shef_encoder.py:206-222 | a `B` row switches station without touching the hourly sums |
| MesoEncode.DigitsOf | src/meso_shef_encoder/meso_shef_encoder.py:627-628 | the digits kept are digits, in order, and a text of digits is kept whole |
| MesoEncode.GetDepth | src/meso_shef_encoder/meso_shef_encoder.py:625-634 | a column without `_` raises IndexError; otherwise the depth is the value of the digits after `_`, or none when there are no digits |
| MesoEncode.DepthOfColumn | src/meso_shef_encoder/meso_shef_encoder.py:311-320 | a column named with a digit depth gives that depth back |
| MesoEncode.ValRounder | src/meso_shef_encoder/meso_shef_encoder.py:651-656 | a bad rounding code raises ValueError; otherwise the text reads back as the value rounded half away from zero to some number of places |
| MesoEncode.ApplyMods | src/meso_shef_encoder/meso_shef_encoder.py:603-622 | without a vector or rounding modification the value gets the default two-decimal text; failures are IndexError or ValueError |
| MesoEncode.ValueMod | src/meso_shef_encoder/meso_shef_encoder.py:590-622 | the missing mark `M` becomes `-9999`; other text that is not a number gives nothing; failures are IndexError or ValueError |
| MesoEncode.DefaultReadsBack | src/meso_shef_encoder/meso_shef_encoder.py:622 | the default `{:>7.2f}` text reads back as the value rounded half-even to two places, within 0.005 of it |
| MesoEncode.MissingReadsBack | src/meso_shef_encoder/meso_shef_encoder.py:603-622 | with the correction, every modification list writes -9999 as a text that reads back as -9999 |
| MesoEncode.MissingWrittenAsMissing | src/meso_shef_encoder/meso_shef_encoder.py:590-622 | with the correction, a missing value and the number -9999 are written as a text that reads back as -9999, for every element |
| MesoEncode.VectorShape | src/meso_shef_encoder/meso_shef_encoder.py:606-616 | a vector value is the sign, the depth and the value in thousands to four decimals with the replaced `0.` dropping the last whole zero digit |
| MesoEncode.VectorDropsDigit | src/meso_shef_encoder/meso_shef_encoder.py:611-613 | 10500 at depth 4 is written `41.5000`: `replace('0.', '.')` also removes a zero that is not a leading zero |
| MesoEncode.MissingVector | src/meso_shef_encoder/meso_shef_encoder.py:606-616 | -9999 at depth 4 is written as the vector `-49.9990` |
| MesoEncode.MissingSoilTemperatureAsWritten | src/meso_shef_encoder/meso_shef_encoder.py:590-616 | as written, a soil temperature of `-9999` at four inches is coded as the vector `-49.9990` |
| MesoEncode.MissingSoilTemperatureCorrected | src/meso_shef_encoder/meso_shef_encoder.py:590-616 | with the correction, the same value is coded `-9999` |
| MesoEncode.VectorModFirst | src/meso_shef_encoder/meso_shef_encoder.py:604-616 | for soil temperature the vector modification comes first and returns before the English conversion is looked at |
| MesoEncode.WindDirectionWhole | src/meso_shef_encoder/meso_shef_encoder.py:603-619 | wind direction is rounded to whole degrees half away from zero, and the text reads back within 0.5 of the value |
| MesoEncode.RoundCodeZero | src/meso_shef_encoder/meso_shef_encoder.py:655 | the code `R0` asks for zero places |
| MesoEncode.PlainElements | src/meso_shef_encoder/meso_shef_encoder.py:603-622 | humidity, snow depth, wind speed, air temperature, precipitation and solar radiation get the default two-decimal text |
| MesoEncode.WrapIsLines | src/meso_shef_encoder/meso_shef_encoder.py:549-567 | the `lLen` loop writes exactly the greedy lines of `.E1` values joined by `/ `, each line as long as its cap allows |
| MesoEncode.LinesFlatten | src/meso_shef_encoder/meso_shef_encoder.py:549-567 | the lines hold every value once, in order |
| MesoEncode.LinesBounded | src/meso_shef_encoder/meso_shef_encoder.py:549-567 | every line holds a value; a line of several values is shorter than its cap; and the next line's first value would not have fitted |
| MesoEncode.WrapStepLines | src/meso_shef_encoder/meso_shef_encoder.py:556-567 | one loop turn continues the line when the value fits and starts a new `.E1` line when it does not |
| MesoEncode.GetDescript | src/meso_shef_encoder/meso_shef_encoder.py:637-648 | the description is the element's text, the unit and `)`, with the depth for vector elements; an unknown column is a KeyError and a vector column without depth an IndexError |
| MesoEncode.UnitDecl | src/meso_shef_encoder/meso_shef_encoder.py:539-545 | English units declare `/DUE`, percent and degrees declare nothing, everything else `/DUS` |
| MesoEncode.PeCode | src/meso_shef_encoder/meso_shef_encoder.py:531-535 | the code is the element followed by `HRZ` for the hourly elements and `IRZ` otherwise |
| MesoEncode.StampFields | src/meso_shef_encoder/meso_shef_encoder.py:515-517 | the `.E` date is `%y%m%d` and the time `%H%M` of the earliest time |
| MesoEncode.ValueTexts | src/meso_shef_encoder/meso_shef_encoder.py:550-555 | the values are written exactly when every non-empty one converts to a text |
| MesoEncode.ValueTextsAll | src/meso_shef_encoder/meso_shef_encoder.py:550-555 | each stored value is written once, in time order, as its modified text |
| MesoEncode.ELine | src/meso_shef_encoder/meso_shef_encoder.py:536-546 | the `.E` line starts with `.E ` and the SHEF id and ends with the element code and `/DIH1` |
| MesoEncode.ParamText | src/meso_shef_encoder/meso_shef_encoder.py:511-568 | a column without values writes nothing, a column without SHEF element a blank section, and otherwise the description, the `.E` line from the earliest time, and the wrapped values in time order |
| MesoEncode.SiteText | src/meso_shef_encoder/meso_shef_encoder.py:507-568 | a site is written exactly when each of its columns is |
| MesoEncode.SiteTexts | src/meso_shef_encoder/meso_shef_encoder.py:501-568 | the sites are written exactly when each is, one text per site |
| MesoEncode.StateSites | src/meso_shef_encoder/meso_shef_encoder.py:498 | the sites chosen are exactly the stored sites of the state |
| MesoEncode.GatherGrouped | src/meso_shef_encoder/meso_shef_encoder.py:501-505 | the counting loop keeps every site once, in order, closing bodies of the right size |
| MesoEncode.BodiesShape | src/meso_shef_encoder/meso_shef_encoder.py:495-570 | the bodies hold every site once, in order; the first holds 60 sites and every later closed body 61, because the counter restarts at 0 with a site already in the new body |
| MesoEncode.StateName | src/meso_shef_encoder/meso_shef_encoder.py:477-480 | the state's name is found exactly when some entry has it as abbreviation or name |
| MesoEncode.Header | src/meso_shef_encoder/meso_shef_encoder.py:476-488 | the header starts with `\nSRUS83 KKRF ` and ends with the state's name and `Mesonet Data` |
| MesoEncode.ConcatFlatten | src/meso_shef_encoder/meso_shef_encoder.py:501-569 | joining the bodies joins all site texts |
| MesoEncode.Messages | src/meso_shef_encoder/meso_shef_encoder.py:468-472 | each message is the header, one body and the footer |
| MesoEncode.MakeShef | src/meso_shef_encoder/meso_shef_encoder.py:456-473 | no message list exactly when the state is unknown; otherwise at least one message, each framed by header and footer, and failure exactly when some site fails |
| MesoEncode.MessagesHoldSites | src/meso_shef_encoder/meso_shef_encoder.py:456-570 | the messages together hold every site text of the state once, in order, between header and footer |
| MesoEncode.MakeShefMessages | src/meso_shef_encoder/meso_shef_encoder.py:456-570 | a successful run frames the grouped site texts of the state |
| CritImport.LineRun | src/CRITfile_import/shef_critfile_import.py:116 | `.+` takes the longest run without a newline at the start of the text |
| CritImport.Groups | src/CRITfile_import/shef_critfile_import.py:116 | a match has three non-empty groups — no `=` in the first, no `;` in the second, no newline in the third — and the line starts with them joined by `=` and `;` |
| CritImport.GroupsOfParts | src/CRITfile_import/shef_critfile_import.py:116 | a text built as `a=t;b` with such parts matches with exactly those groups |
| CritImport.ParseAliasLine | src/CRITfile_import/shef_critfile_import.py:110-128 | comment and blank lines give nothing; any other line gives an entry exactly when the stripped line matches; an alias always joins two parts with `:` |
| CritImport.ParseOfGroups | src/CRITfile_import/shef_critfile_import.py:116-128 | the entry is the stripped first and third group joined by `:` and the stripped second group as the time-series id |
| CritImport.AliasLineRoundTrip | src/CRITfile_import/shef_critfile_import.py:110-128 | a line written as `alias=tsid;alias2` parses back to the alias `alias:alias2` and that time-series id |
| CritImport.ParseCritFile | src/CRITfile_import/shef_critfile_import.py:94-130 | each line gives at most one entry |
| CritImport.ParseCritFileAppend | src/CRITfile_import/shef_critfile_import.py:108-130 | lines are parsed independently: parsing two parts of a file one after the other gives the two entry lists joined, in order |
| CritImport.ParseCritFileOne | src/CRITfile_import/shef_critfile_import.py:110-128 | a single line gives its own entry or nothing |
| RatingIni.ParseIniLine | src/get_USGS_rating/rating_ini_file_import.py:59-99 | a line with a quote after its first character goes through the quote scanner; otherwise a line with a tab after its first character splits into one field per tab plus one; otherwise it splits on whitespace |
| RatingIni.LeadingQuoteKept | src/get_USGS_rating/rating_ini_file_import.py:63 | `find(...) > 0` misses a quote in the first position, so such a line is split on whitespace with the quote kept |
| RatingIni.ScanAppend | src/get_USGS_rating/rating_ini_file_import.py:71-85 | scanning a line in two parts is scanning it whole |
| RatingIni.BackslashCount | src/get_USGS_rating/rating_ini_file_import.py:72-75 | the scanner keeps one backslash of each pair, an odd one leaving the escape flag set |
| RatingIni.BackslashesHalved | src/get_USGS_rating/rating_ini_file_import.py:72-75 | from the start, the output holds half the line's backslashes, rounded down |
| RatingIni.EscapeIgnored | src/get_USGS_rating/rating_ini_file_import.py:72-85 | the escape flag changes nothing but the handling of the next backslash |
| RatingIni.ScanPlain | src/get_USGS_rating/rating_ini_file_import.py:71-85 | outside quotes, text without quotes or backslashes is copied unchanged |
| RatingIni.ScanQuoted | src/get_USGS_rating/rating_ini_file_import.py:76-85 | inside a quote, whitespace is replaced by the placeholder and everything else is copied |
| RatingIni.Hide | src/get_USGS_rating/rating_ini_file_import.py:83-84 | whitespace becomes `chr(0)`, position for position, and every other character is kept |
| RatingIni.QuotedField | src/get_USGS_rating/rating_ini_file_import.py:63-88 | a word followed by a quoted text gives the word and the quoted text without quotes, its spaces kept |
| RatingIni.QuotedFields | src/get_USGS_rating/rating_ini_file_import.py:86-88 | the placeholders in each field are turned back into spaces |
| RatingIni.CleanIniLine | src/get_USGS_rating/rating_ini_file_import.py:133-137 | the cleaned line holds no `#`; a line without `#` is only cut and stripped |
| RatingIni.IniStep | src/get_USGS_rating/rating_ini_file_import.py:132-155 | one line adds at most one update, keeps the earlier ones, and an added update is tagged `USGS-CORR`, `USGS-BASE` or `USGS-EXSA`; failures are KeyError or IndexError |
| RatingIni.SettingLine | src/get_USGS_rating/rating_ini_file_import.py:139-142 | a `key=value` line sets the parameter only for the five keywords and never adds an update |
| RatingIni.RatingLine | src/get_USGS_rating/rating_ini_file_import.py:143-155 | a store line keeps the parameters and adds at most one update, tagged with its rating type's discriminator |
| RatingIni.IniRun | src/get_USGS_rating/rating_ini_file_import.py:132-155 | each line adds at most one update |
| RatingIni.KeywordSet | src/get_USGS_rating/rating_ini_file_import.py:139-142 | a keyword line `k=v` sets that keyword to `v` and changes nothing else |
| RatingIni.StoreUpdate | src/get_USGS_rating/rating_ini_file_import.py:144-155 | a store line holding its marker adds the update of the named specification with `$localid` replaced, the office and the type's tag; a missing specification or `localid` is a KeyError |
| RatingIni.CommentIgnored | src/get_USGS_rating/rating_ini_file_import.py:133-138 | a comment line changes nothing |
| RatingIni.Described | src/get_USGS_rating/rating_ini_file_import.py:111-115 | the description always contains the tag: an existing description already holding it is kept, one without it gets a space and the tag appended, and a specification without a description gets the tag alone |
| RatingIni.DescribedIdempotent | src/get_USGS_rating/rating_ini_file_import.py:111-115 | tagging a description twice is tagging it once |
| RatingIni.UpdateSpec | src/get_USGS_rating/rating_ini_file_import.py:104-115 | the updated specification has source agency USGS, is active, auto-updated and auto-activated, has no effective dates and carries the tagged description |
| RatingIni.UpdateSpecIdempotent | src/get_USGS_rating/rating_ini_file_import.py:104-115 | updating an updated specification again with the same tag changes nothing |
| UsgsRatings.ConvertTz | src/get_USGS_rating/getUSGS_ratings_CDA.py:106-115 | each pair of US standard/daylight abbreviations maps to its region's zone name, `UTC`/`GMT` to `UTC`, and any other text is kept |
| UsgsRatings.ConvertTzIdempotent | src/get_USGS_rating/getUSGS_ratings_CDA.py:106-115 | converting a zone twice is converting it once |
| UsgsRatings.FirstStarting | src/get_USGS_rating/getUSGS_ratings_CDA.py:118 | `.iloc[0,0]` of the lines with a prefix is the first such line; with none it raises IndexError |
| UsgsRatings.UnquoteClean | src/get_USGS_rating/getUSGS_ratings_CDA.py:119 | no double quote is left after `replace('"', '')` |
| UsgsRatings.FirstWord | src/get_USGS_rating/getUSGS_ratings_CDA.py:119 | the first word exists exactly when the text holds a word, and is non-empty |
| UsgsRatings.UsgsTz | src/get_USGS_rating/getUSGS_ratings_CDA.py:117-121 | the zone is a converted zone name or unquoted text; a missing station line or zone word raises IndexError |
| UsgsRatings.FirstStartingAt | src/get_USGS_rating/getUSGS_ratings_CDA.py:118 | the line `iloc[0,0]` takes is the first line carrying the prefix |
| UsgsRatings.UsgsTzOfStation | src/get_USGS_rating/getUSGS_ratings_CDA.py:117-121 | with the first station line given, the zone is `ConvertTz` of the first word after `TIME_ZONE=` on it with its quotes removed, and IndexError exactly when that line has no `TIME_ZONE=` or no word after it |
| UsgsRatings.UsgsTzNoStation | src/get_USGS_rating/getUSGS_ratings_CDA.py:118 | without a `# //STATION AGENCY=` line the zone lookup raises IndexError |
| UsgsRatings.UnquoteWord | src/get_USGS_rating/getUSGS_ratings_CDA.py:119 | removing the double quotes from a quoted word without inner quotes gives the bare word |
| UsgsRatings.CentralStationTz | src/get_USGS_rating/getUSGS_ratings_CDA.py:117-121 | a station line with `TIME_ZONE="CST"` gives the zone `US/Central` |
| UsgsRatings.Tokens | src/get_USGS_rating/getUSGS_ratings_CDA.py:125-127 | each line with one of the prefixes yields its `BEGIN=` token, and every other line none |
| UsgsRatings.LastDigits | src/get_USGS_rating/getUSGS_ratings_CDA.py:126-129 | the date found is all digits, and an error comes from some line's token |
| UsgsRatings.LastDigitsFails | src/get_USGS_rating/getUSGS_ratings_CDA.py:126-128 | the loop fails exactly when some prefixed line has no token |
| UsgsRatings.LastDigitsLast | src/get_USGS_rating/getUSGS_ratings_CDA.py:126-129 | the date is the last all-digit token, and none exactly when no token is all digits |
| UsgsRatings.BeginDate | src/get_USGS_rating/getUSGS_ratings_CDA.py:123-129 | the date found is all digits; failure is IndexError |
| UsgsRatings.BeginDateFails | src/get_USGS_rating/getUSGS_ratings_CDA.py:123-129 | `get_begin_with_date` raises exactly when some prefixed line lacks a `BEGIN=` word |
| UsgsRatings.BeginDateLast | src/get_USGS_rating/getUSGS_ratings_CDA.py:123-129 | the date is the token of the last prefixed line whose token is all digits, and none when there is no such line |
| UsgsRatings.ShiftedDate | src/get_USGS_rating/getUSGS_ratings_CDA.py:135-137 | a missing `RATING SHIFTED=` line or value raises IndexError |
| UsgsRatings.ShiftedDateOf | src/get_USGS_rating/getUSGS_ratings_CDA.py:134-137 | with the first `RATING SHIFTED=` line given, the date text is the first word after its first `=` with quotes removed, and IndexError exactly when there is no such word |
| UsgsRatings.RetrievedDate | src/get_USGS_rating/getUSGS_ratings_CDA.py:146-147 | a missing `RETRIEVED:` line raises IndexError |
| UsgsRatings.RetrievedDateOf | src/get_USGS_rating/getUSGS_ratings_CDA.py:146-147 | with the first `RETRIEVED:` line given, the date text is what follows its first `RETRIEVED: ` up to any second one, and IndexError exactly when the line has no `RETRIEVED: ` |
| UsgsRatings.EffectiveDate | src/get_USGS_rating/getUSGS_ratings_CDA.py:131-151 | the date text comes with the station's zone; EXSA uses the shifted date; BASE and CORR use their last `BEGIN=` date and fall back on the retrieval date; failures are IndexError |
| UsgsRatings.RatingTypeOf | src/get_USGS_rating/getUSGS_ratings_CDA.py:65-66 | a later tag overrides an earlier one: `USGS-BASE` wins, then `USGS-CORR`, then `USGS-EXSA`, and no tag gives no type |
| UsgsRatings.TaggedSpecs | src/get_USGS_rating/getUSGS_ratings_CDA.py:60-71 | every kept specification is active, auto-updating, described and tagged with its type |
| UsgsRatings.TaggedSpecsKeeps | src/get_USGS_rating/getUSGS_ratings_CDA.py:60-71 | a specification is kept exactly when it is active, auto-updating and carries a USGS tag in its description |
| UsgsRatings.DescribedIsTagged | src/get_USGS_rating/rating_ini_file_import.py:111-115 | a description tagged by the ini import is picked up by the ratings update with the matching type |
| UsgsRatings.RowOutcome | src/get_USGS_rating/getUSGS_ratings_CDA.py:172-230 | a rating is left alone exactly when it was fetched, not empty, its effective date parses and equals the stored one or is one hour behind it, and never when CWMS has no date (a new specification); it is saved exactly when fetched, dated, not the same and the store succeeds; a fetch error is reported exactly when the fetch fails |
| UsgsRatings.SameDateDifference | src/get_USGS_rating/getUSGS_ratings_CDA.py:200 | the dates count as the same exactly when they differ by zero or one hour |
| UsgsRatings.NewSpecStored | src/get_USGS_rating/getUSGS_ratings_CDA.py:249-262 | a specification without a CWMS effective date is saved whenever its USGS rating is fetched, dated and stored |
| UsgsRatings.OutcomesPartition | src/get_USGS_rating/getUSGS_ratings_CDA.py:162-235 | every rating ends in exactly one of the six tallies |
| TextFiles.Make | src/csvTimeSeriesToCDA/textfile.py:2-9 | lines given directly are kept as they are; lines read from a file lose their trailing carriage returns and line feeds, and nothing else; with neither source the constructor fails with a value error, and only then |
| TextFiles.ReadBack | src/csvTimeSeriesToCDA/textfile.py:5-7 | a line written with a newline and read back from a file is the original line |
| TextFiles.FindLine | src/csvTimeSeriesToCDA/textfile.py:11-15 | `-1` exactly when the entry is not a line of the file; otherwise the index of its first occurrence |
| TextFiles.Subset | src/csvTimeSeriesToCDA/textfile.py:17-18 | for in-range bounds, the lines from `start` up to but not including `end` |
| TextFiles.SubsetAsTextFile | src/csvTimeSeriesToCDA/textfile.py:20-21 | for in-range bounds, a file holding the lines from `start` through `end` inclusive, beginning with line `start` and ending with line `end` |
| TextFiles.FindBeginningWith | src/csvTimeSeriesToCDA/textfile.py:23-27 | `-1` exactly when no line starts with the text; otherwise the first line that does |
| TextFiles.GetValue | src/csvTimeSeriesToCDA/textfile.py:29-43 | the value is what follows `text=` on the first line that starts with it, and is empty when there is no such line |
| TextFiles.GetValueRoundTrip | src/csvTimeSeriesToCDA/textfile.py:29-43 | a `key=value` line placed first is read back as that value |
| TextFiles.Len | src/csvTimeSeriesToCDA/textfile.py:45-46 | the length of a file is its number of lines |
| TextFiles.FindAll | src/csvTimeSeriesToCDA/textfile.py:48-49 | the indices are strictly increasing, each names a line equal to the entry, and every such line is listed |
| TextFiles.FindAllStartsWithFind | src/csvTimeSeriesToCDA/textfile.py:11-15 | `find_all` is empty exactly when `find` reports `-1`, and otherwise its first index is the one `find` returns |
| CdaTextFile.ValuePoint | src/csvTimeSeriesToCDA/CdaTextFile.py:48-54 | a value line is accepted exactly when it has two comma fields, a readable time and a readable number; the point has that time and value with quality 0; any other line is a value error |
| CdaTextFile.Points | src/csvTimeSeriesToCDA/CdaTextFile.py:47-56 | all lines are read or the whole read fails; on success there is one point per line, in order, each with quality 0 |
| CdaTextFile.GetTsValues | src/csvTimeSeriesToCDA/CdaTextFile.py:41-56 | without an `End Header` line there are no values; otherwise the read succeeds exactly when every line from two past that line is a value line, and value `i` is the point of line `i` from there; any failure is a value error |
| CdaTextFile.ValuesAfterTitles | src/csvTimeSeriesToCDA/CdaTextFile.py:43-47 | the number of values is the number of lines after the `End Header` line and the title line that follows it |
| CdaTextFile.ReadTs | src/csvTimeSeriesToCDA/CdaTextFile.py:59-78 | a block is read exactly when its time zone is `gmt` in any letter case and its values read; the series then carries the block's ID, office, units and values; otherwise it is a value error |
| CdaTextFile.NoTimezoneRefused | src/csvTimeSeriesToCDA/CdaTextFile.py:65-69 | a block with no `timezone=` line is refused, since the missing value is not `gmt` |
| CdaTextFile.GmtAnyCase | src/csvTimeSeriesToCDA/CdaTextFile.py:68-69 | `GMT`, `gmt` and `Gmt` are all accepted; acceptance then depends only on the values |
| CdaTextFile.Blocks | src/csvTimeSeriesToCDA/CdaTextFile.py:21-29 | there is one block per `Begin Header` line |
| CdaTextFile.BlockLines | src/csvTimeSeriesToCDA/CdaTextFile.py:21-29 | block `i` is the lines from its `Begin Header` up to, not including, the next one (or to the end of the file) |
| CdaTextFile.BlockMarkers | src/csvTimeSeriesToCDA/CdaTextFile.py:21-29 | every block starts with `Begin Header` and holds no other `Begin Header` line |
| CdaTextFile.BlocksCover | src/csvTimeSeriesToCDA/CdaTextFile.py:21-29 | the blocks, joined, are exactly the file from the first `Begin Header` on: no line is lost or repeated |
| CdaTextFile.BlocksNone | src/csvTimeSeriesToCDA/CdaTextFile.py:21-28 | there are no blocks exactly when the file has no `Begin Header` line; lines before the first one belong to no block |
| CdaTextFile.Collect | src/csvTimeSeriesToCDA/CdaTextFile.py:28-38 | the walk succeeds exactly when every block reads; each block is either kept (it has values) or counted as an error, so kept plus errors is the number of blocks |
| CdaTextFile.TimeSeriesList | src/csvTimeSeriesToCDA/CdaTextFile.py:13-38 | the list succeeds exactly when every block reads; it is then `Kept`: the series of the blocks, in file order, that have values |
| CdaTextFile.CollectKept | src/csvTimeSeriesToCDA/CdaTextFile.py:28-38 | a successful walk over blocks returns the kept series (the reads with values, in order) and the number of reads without values |
| CdaTextFile.KeptSnoc | src/csvTimeSeriesToCDA/CdaTextFile.py:28-38 | one more block adds its series at the end when it has values, and nothing otherwise |
| Eccc.Diffs | src/getECCC/getECCC.py:101-104 | there is no difference for the first row; every later row's difference is its time minus the time of the row before |
| Eccc.EvenOnlyWhenEmpty | src/getECCC/getECCC.py:97-107 | the five-minute check passes exactly when the column is empty, because the first row's missing difference is never a multiple of five |
| Eccc.Snap | src/getECCC/getECCC.py:128-130 | a rounded time is a multiple of five minutes, at most two and a half minutes from the original, and a time already on the grid is unchanged |
| Eccc.SnapNearest | src/getECCC/getECCC.py:128-130 | no multiple of five minutes is closer to the original time than the rounded one |
| Eccc.SnapIdempotent | src/getECCC/getECCC.py:128-130 | rounding a rounded time changes nothing |
| Eccc.SnapMonotone | src/getECCC/getECCC.py:128-130 | rounding keeps times in order |
| Eccc.Times | src/getECCC/getECCC.py:101 | the time column holds each row's time, in row order |
| Eccc.ShiftToFive | src/getECCC/getECCC.py:109-134 | each row keeps its readings; its time lands on the five-minute grid within two and a half minutes of the original |
| Eccc.ColumnObs | src/getECCC/getECCC.py:153-160 | each kept pair comes from a row that had that time and value, every row with a value is kept, and the column is empty exactly when no row has a value |
| Eccc.Shifted | src/getECCC/getECCC.py:146-152 | each row keeps its readings; when snapping its time lands on the grid within two and a half minutes, and otherwise it is unchanged |
| Eccc.StationData | src/getECCC/getECCC.py:136-164 | there are no columns exactly when the download failed or came back empty; otherwise the stage and discharge columns are the snapped rows' values with blanks dropped |
| Eccc.ColumnTraced | src/getECCC/getECCC.py:146-160 | every stored observation traces back to a downloaded row with that value, moved by at most the rounding; every downloaded value appears in the column |
| Eccc.DataUrl | src/getECCC/getECCC.py:138 | the URL is under the province and frequency directory of the hydrometric data mart and names the frequency's `_hydrometric.csv` file |
| Eccc.RowWrites | src/getECCC/getECCC.py:196-215 | a series stores at most once, and exactly when its station has data and its column is not empty: discharge in cms for `Flow`, stage in m for `Stage` or `Elev`, quality 0 |
| Eccc.LoopFrom | src/getECCC/getECCC.py:180-216 | the loop fetches at most once per row |
| Eccc.Loop | src/getECCC/getECCC.py:180-216 | the loop fetches at most once per row, and the first row's station is always fetched first |
| Eccc.FetchPerRun | src/getECCC/getECCC.py:191-195 | the loop fetches exactly once per run of consecutive rows for the same station |
| Eccc.FreshWrites | src/getECCC/getECCC.py:187-215 | the reference loop, in which every row fetches its own data, stores at most once per row |
| Eccc.CachingTransparent | src/getECCC/getECCC.py:184-216 | reusing the last station's data gives the same stores as fetching every row afresh, provided a station keeps its province from one row to the next |
| Eccc.LoopIsFresh | src/getECCC/getECCC.py:180-216 | the loop stores exactly what the fetch-every-row reference stores, and fetches once per run of rows for a station |
| Naefs.Candidates | src/getLMRFC_NAEFS/getLMRFC_NAEFS.py:74-77 | the candidates are exactly the links whose address contains `HECRAS_NAEFS_pixml_export` and ends in `.gz` |
| Naefs.HrefKey | src/getLMRFC_NAEFS/getLMRFC_NAEFS.py:63-66 | a link whose version number cannot be read is a value error |
| Naefs.KeyAfter | src/getLMRFC_NAEFS/getLMRFC_NAEFS.py:63-66 | reading the fourteen characters one past the query text fails only with a value error |
| Naefs.HrefKeyOfStamp | src/getLMRFC_NAEFS/getLMRFC_NAEFS.py:63-66 | for a file name `…HECRAS_NAEFS_pixml_export_<14 digits>…` the key is the number those fourteen digits spell |
| Naefs.KeyAfterStamp | src/getLMRFC_NAEFS/getLMRFC_NAEFS.py:64-65 | the number is read from the fourteen characters after the first occurrence of the query and one separator |
| Naefs.FirstMax | src/getLMRFC_NAEFS/getLMRFC_NAEFS.py:81 | `max` picks an index whose key is at least every other key and strictly greater than every key before it: the first of the largest |
| Naefs.Newest | src/getLMRFC_NAEFS/getLMRFC_NAEFS.py:81 | the choice succeeds exactly when every candidate's key reads; it is then the first candidate with the largest key, and otherwise the error of one candidate that failed |
| Naefs.PickBy | src/getLMRFC_NAEFS/getLMRFC_NAEFS.py:76-87 | with no candidate the script exits; a chosen link is a candidate whose key is at least every candidate's key; a failure comes from some candidate's key |
| Naefs.Latest | src/getLMRFC_NAEFS/getLMRFC_NAEFS.py:63-87 | the script exits exactly when there is no candidate; the chosen file is a candidate; any other failure is a value error |
| Naefs.FileUrl | src/getLMRFC_NAEFS/getLMRFC_NAEFS.py:90 | the file address is the listing page's address followed by the link |
| Naefs.EventPoint | src/getLMRFC_NAEFS/getLMRFC_NAEFS.py:199-218 | an event is read exactly when its date and time parse; a value equal to the series' missing marker is stored as the CWMS missing value with quality 5, and any other value is stored as it was read with quality 0 |
| Naefs.EventTimeReadBack | src/getLMRFC_NAEFS/getLMRFC_NAEFS.py:202-218 | an event whose date and time were written from a moment is stored at that moment, marked `+0000` |
| Naefs.VersionDate | src/getLMRFC_NAEFS/getLMRFC_NAEFS.py:185-192 | the version date is read exactly when the creation date and time parse; it is noon UTC of the creation day |
| Naefs.NoonOf | src/getLMRFC_NAEFS/getLMRFC_NAEFS.py:187-192 | the text is the creation day followed by `T12:00:00+0000` |
| Naefs.NoonText | src/getLMRFC_NAEFS/getLMRFC_NAEFS.py:192 | noon of a day is written as the day followed by `T12:00:00` |
| Naefs.StampReadBack | src/getLMRFC_NAEFS/getLMRFC_NAEFS.py:185-186 | a creation date and time written from a moment parse back to that moment |
| Naefs.VersionDateOfDay | src/getLMRFC_NAEFS/getLMRFC_NAEFS.py:185-192 | a creation stamp written from any moment gives noon UTC of that moment's day |
| Naefs.VersionDateOnHost | src/getLMRFC_NAEFS/getLMRFC_NAEFS.py:185-192 | the version date as computed on a host whose local offset is `hostOffset`: a parse failure is a value error, and otherwise it is that host's noon, converted to UTC |
| Naefs.HostNoonOf | src/getLMRFC_NAEFS/getLMRFC_NAEFS.py:187-192 | the text is a `+0000` timestamp whose instant is local noon minus the host's offset |
| Naefs.UtcHostVersionDate | src/getLMRFC_NAEFS/getLMRFC_NAEFS.py:185-192 | on a host that keeps UTC, the version date is the modelled noon UTC |
| Naefs.UtcHostNoon | src/getLMRFC_NAEFS/getLMRFC_NAEFS.py:191-192 | at offset zero, host noon is noon UTC |
| Naefs.CentralHostVersionDate | src/getLMRFC_NAEFS/getLMRFC_NAEFS.py:186-192 | on a host six hours behind UTC, every version date comes out as 18:00 UTC of the creation day, never the intended noon |
| Naefs.CentralHostNoon | src/getLMRFC_NAEFS/getLMRFC_NAEFS.py:191-192 | at six hours behind UTC, host noon is written as 18:00 UTC |
| Naefs.Key | src/getLMRFC_NAEFS/getLMRFC_NAEFS.py:175-179 | a header is read exactly when it has a location, parameter, units and missing value; the key is its location and parameter; a missing element is an attribute error |
| Naefs.FindSeries | src/getLMRFC_NAEFS/getLMRFC_NAEFS.py:173-181 | the series used is the first whose location and parameter equal the row's upper-cased ones, after every earlier header has been read; there is none exactly when all headers read and none matches; an unreadable header before the match is an attribute error |
| Naefs.LaterSeriesIgnored | src/getLMRFC_NAEFS/getLMRFC_NAEFS.py:233 | once a row has found its series, series after it in the file change nothing |
| Naefs.LoadRow | src/getLMRFC_NAEFS/getLMRFC_NAEFS.py:164-237 | with no series at all the final test reads an unbound name; otherwise a row warns exactly when it stores nothing, and what it stores comes from the series that matched |
| Naefs.StoreSeries | src/getLMRFC_NAEFS/getLMRFC_NAEFS.py:183-224 | what is stored is the matching series' events under the row's time series, units and version date; an unreadable creation stamp is a value error |
| Naefs.CreationStamp | src/getLMRFC_NAEFS/getLMRFC_NAEFS.py:259-268 | the stamp is that of the first header with both a creation date and a creation time; with none, the log line reads an unbound name |
| Naefs.LoadRows | src/getLMRFC_NAEFS/getLMRFC_NAEFS.py:271-272 | the rows load exactly when each loads on its own, one outcome per row, in order |
| Naefs.Run | src/getLMRFC_NAEFS/getLMRFC_NAEFS.py:240-277 | with no candidate file the script exits; otherwise the file fetched is a candidate, a creation stamp was found, and every row's outcome is its own load with that stamp |
| NwsAcis.StoredColumns | src/getNwsAcis/getNwsAcis.py:135 | the store loop walks element columns in order starting at the first; as written it stops one short of the last element |
| NwsAcis.StoredElements | src/getNwsAcis/getNwsAcis.py:38-62 | as written the observed temperature `obst` is never stored; corrected, every requested element is stored and each has a series id and a unit in the mappings |
| NwsAcis.Screen | src/getNwsAcis/getNwsAcis.py:152 | the screened text is no longer than the original, keeps only digits and points (and, corrected, minus signs), and leaves text made only of those characters unchanged |
| NwsAcis.ScreenAppend | src/getNwsAcis/getNwsAcis.py:152 | screening works character by character: screening a joined text joins the screened parts |
| NwsAcis.ScreenIdempotent | src/getNwsAcis/getNwsAcis.py:152 | screening twice is the same as screening once |
| NwsAcis.CleanCell | src/getNwsAcis/getNwsAcis.py:146-152 | a cell is dropped exactly when it is `M`; a trace `T` becomes `0.001`; what remains holds only kept characters; a plain reading passes through unchanged |
| NwsAcis.SignScreenedOut | src/getNwsAcis/getNwsAcis.py:152 | as written a negative reading such as `-5` is stored as its magnitude `5` |
| NwsAcis.PendingUnsigned | src/getNwsAcis/getNwsAcis.py:150-152 | as written a pending multi-day total `S` is stored as the digits of the missing value without its sign, not as the missing value |
| NwsAcis.SignKept | src/getNwsAcis/getNwsAcis.py:150-152 | corrected, a negative reading keeps its sign, and a flag letter after a value is still screened out |
| NwsAcis.RowTime | src/getNwsAcis/getNwsAcis.py:133 | a row's time is read exactly when its date parses; otherwise it is a value error |
| NwsAcis.RowTimeOrder | src/getNwsAcis/getNwsAcis.py:133 | later dates give later times, whatever the offset |
| NwsAcis.ColumnPoints | src/getNwsAcis/getNwsAcis.py:140-152 | every stored point comes from a row whose cell was not `M`, with that row's time, the cleaned cell and quality 0; every such row is stored |
| NwsAcis.AscendingCons | src/getNwsAcis/getNwsAcis.py:140-146 | a point earlier than every point of an ascending list keeps it ascending when put in front |
| NwsAcis.ColumnPointsOrdered | src/getNwsAcis/getNwsAcis.py:140-146 | rows in date order give a series in time order: dropping missing days keeps the order |
| NwsAcis.Column | src/getNwsAcis/getNwsAcis.py:140 | a column holds one cell per row, the row's cell at that position |
| NwsAcis.ElementSeries | src/getNwsAcis/getNwsAcis.py:137-157 | an element's series is named `<location>.<mapped id>`, carries the mapped unit, has at most one point per row and every point has quality 0 |
| NwsAcis.RowStart | src/getNwsAcis/getNwsAcis.py:131-133 | a row's time is that of its first cell; a row with no cells is a value error |
| NwsAcis.LocationSeries | src/getNwsAcis/getNwsAcis.py:128-160 | no `data` is a key error and a row of the wrong width a value error; a location is read exactly when its rows are well shaped and every date parses; it then gives one correctly named, correctly unitted series per stored element |
| NwsAcis.ObservedIdLength | src/getNwsAcis/getNwsAcis.py:50-55 | only the observed temperature maps to its own series id |
| NwsAcis.ObservedTemperature | src/getNwsAcis/getNwsAcis.py:135 | as written no location ever produces the observed temperature series; corrected, it is the sixth and last series |
| NwsAcis.Run | src/getNwsAcis/getNwsAcis.py:112-165 | the locations reported as failed are exactly those whose data could not be read |
| NwsIem.FindFirstValue | src/getNwsAcis/getNwsIem.py:16-21 | nothing is found exactly when no record has a non-null value for the key; otherwise the result is the timestamp and value of the first record that has one, and a key error when that record has no timestamp field |
| NwsIem.LaterRecordsIgnored | src/getNwsAcis/getNwsIem.py:16-21 | once a record with the key is present, records appended after it change nothing |
| NwsIem.Network | src/getNwsAcis/getNwsIem.py:130 | the network requested is always a `_COOP` network |
| NwsIem.NetworkOfState | src/getNwsAcis/getNwsIem.py:130 | the state prefix before the first `_` is kept and whatever followed it becomes `_COOP`; a bare state gains `_COOP` |
| NwsIem.NetworkIdempotent | src/getNwsAcis/getNwsIem.py:130 | naming the cooperative network of a cooperative network changes nothing |
| NwsIem.DateList | src/getNwsAcis/getNwsIem.py:97-104 | the list has `days_back + 1` days (none for a negative count), starting `days_back` days before today, one day apart |
| NwsIem.DaysBefore | src/getNwsAcis/getNwsIem.py:98 | the day `k` days before today is a valid day exactly `k` days earlier |
| NwsIem.DateListSpan | src/getNwsAcis/getNwsIem.py:101-104 | the list ends today and its days follow one another without a gap |
| NwsIem.UnitLoop | src/getNwsAcis/getNwsIem.py:158-160 | the unit after the loop is either the one held before it or one of the mapped units |
| NwsIem.LastUnit | src/getNwsAcis/getNwsIem.py:158-160 | reference: there is no unit exactly when no unit key occurs in the id; otherwise it is the unit of the last key that occurs |
| NwsIem.UnitLoopIsLast | src/getNwsAcis/getNwsIem.py:158-160 | the loop leaves the unit of the last matching key, and leaves the earlier unit untouched when no key matches |
| NwsIem.LastUnitCons | src/getNwsAcis/getNwsIem.py:158-160 | a later match overrides an earlier one |
| NwsIem.Units | src/getNwsAcis/getNwsIem.py:63-68 | a series' unit is the unit of the last unit key its id contains |
| NwsIem.NoStraddle | src/getNwsAcis/getNwsIem.py:157-159 | a key without a `.` found in `<location>.<id>` lies wholly in the location or wholly in the id |
| NwsIem.LastUnitAt | src/getNwsAcis/getNwsIem.py:158-160 | when key `i` matches and no later key does, the unit is that of key `i` |
| NwsIem.UnitOfParameter | src/getNwsAcis/getNwsIem.py:157-160 | an id that starts with a key, for a location that contains none, takes that key's unit when every later key is ruled out |
| NwsIem.FrostUnits | src/getNwsAcis/getNwsIem.py:53-68 | frost depth is stored in inches |
| NwsIem.ThawedUnits | src/getNwsAcis/getNwsIem.py:53-68 | thawed frost depth is stored in inches |
| NwsIem.IceCoverUnits | src/getNwsAcis/getNwsIem.py:53-68 | ice cover is stored in percent |
| NwsIem.IceDepthUnits | src/getNwsAcis/getNwsIem.py:53-68 | ice depth is stored in inches |
| NwsIem.WindDirectionUnits | src/getNwsAcis/getNwsIem.py:53-68 | wind direction is stored in degrees |
| NwsIem.WindSpeedUnits | src/getNwsAcis/getNwsIem.py:53-68 | wind speed is stored in miles per hour |
| NwsIem.WaterTemperatureUnits | src/getNwsAcis/getNwsIem.py:53-68 | water temperature is stored in degrees Fahrenheit |
| NwsIem.ParseValidTime | src/getNwsAcis/getNwsIem.py:156 | a timestamp that does not fit `%Y-%m-%dT%H:%M%z` is a value error |
| NwsIem.ValidTimeReadBack | src/getNwsAcis/getNwsIem.py:156 | a minute-precision time written with any zone spelling reads back as that time less the zone's offset; a zone out of range is a value error |
| NwsIem.ValidParse | src/getNwsAcis/getNwsIem.py:156 | any sixteen characters laid out as date, `T`, hours and minutes, followed by a zone, read as that clock time less the zone's offset |
| NwsIem.ValidTimeScan | src/getNwsAcis/getNwsIem.py:156 | a timestamp laid out field by field is split by the scanner into exactly those fields |
| NwsIem.ZoneShift | src/getNwsAcis/getNwsIem.py:156 | the same clock time under zone `z` is the UTC reading minus `z`'s offset |
| NwsIem.KeyStore | src/getNwsAcis/getNwsIem.py:151-173 | a stored point carries the first non-null reading of its code, at the time its timestamp gives, under `<location>.<id>` and that id's unit; failures are key, value or unbound-name errors |
| NwsIem.GatherPartial | src/getNwsAcis/getNwsIem.py:146-175 | at most one point per step; a reported failure is the failure of one of the steps |
| NwsIem.GatherPartialFrom | src/getNwsAcis/getNwsIem.py:151-173 | every gathered point is the result of one of the steps |
| NwsIem.KeyStores | src/getNwsAcis/getNwsIem.py:146-175 | a day stores at most one point per mapped code, and a failure that ends it is a key, value or unbound-name error |
| NwsIem.StoredIsFirst | src/getNwsAcis/getNwsIem.py:151-168 | each point stored on a day is its code's own first reading |
| NwsIem.DayStores | src/getNwsAcis/getNwsIem.py:148-151 | an empty data list stores nothing; a day stores at most one point per mapped code |
| NwsIem.LocationStores | src/getNwsAcis/getNwsIem.py:134-175 | a location stores at most one point per day and mapped code |
| NwsIem.StopsAtMissingData | src/getNwsAcis/getNwsIem.py:144-145 | a response without `data` ends the location: nothing after it is stored |
| NwsChps.MappedKinds | src/loadNwsCHPS/loadNwsCHPS.py:162-169 | among the mapped codes, exactly `RAIM` and `MAP` become precipitation parameters and exactly `SQIN` and `QINE` become flow parameters |
| NwsChps.ParseLocParam | src/loadNwsCHPS/loadNwsCHPS.py:33-53 | the NWS id is the location's first five characters (`BoundaryDiversion` whole); a flow parameter becomes `Flow-Local`, `Flow-Out` or `Flow-In` when `LOC`, `OUT` or `IN` occurs past the fifth character, checked in that order of precedence; `-Non_contrib` is appended when `NON` occurs in a location longer than five |
| NwsChps.FlowRenamed | src/loadNwsCHPS/loadNwsCHPS.py:40-47 | every renamed flow parameter is still a flow parameter |
| NwsChps.ShortLocationKeepsParam | src/loadNwsCHPS/loadNwsCHPS.py:33-53 | a location of at most five characters is its own NWS id and leaves the parameter unchanged |
| NwsChps.FirstAlias | src/loadNwsCHPS/loadNwsCHPS.py:22 | the row found is the first whose NWS id matches, and there is none exactly when no row matches |
| NwsChps.CreateTsId | src/loadNwsCHPS/loadNwsCHPS.py:20-31 | the id is built exactly when some alias row has the NWS id (otherwise an index error), on the location of the first such row |
| NwsChps.TsIdFields | src/loadNwsCHPS/loadNwsCHPS.py:23-30 | the id has six parts: location, parameter, `Total` for precipitation and `Inst` otherwise, `6Hours`, a duration of `6Hours` for totals and `0` otherwise, and the version |
| NwsChps.ChpsAliasId | src/loadNwsCHPS/loadNwsCHPS.py:208 | dropping the last five characters turns `X_CHPS` into `X`, and leaves nothing of an id of five characters or fewer |
| NwsChps.UpdateAliases | src/loadNwsCHPS/loadNwsCHPS.py:199-209 | the table keeps its rows and locations; a location with no CHPS alias keeps its row, and one with an alias takes the alias without its `_CHPS` suffix |
| NwsChps.UpdateOnce | src/loadNwsCHPS/loadNwsCHPS.py:209 | applying the CHPS aliases twice changes nothing more |
| NwsChps.KeptFrom | src/loadNwsCHPS/loadNwsCHPS.py:211-218 | the rows kept from a point on are exactly the rows from there that are not duplicated sub-locations |
| NwsChps.DropSubLocations | src/loadNwsCHPS/loadNwsCHPS.py:211-218 | exactly the rows that are not sub-locations (a `-` in the name) sharing their NWS id with another row are kept |
| NwsChps.OtherRowDropped | src/loadNwsCHPS/loadNwsCHPS.py:212-218 | a sub-location whose NWS id another row shares is dropped |
| NwsChps.BaseLocationChosen | src/loadNwsCHPS/loadNwsCHPS.py:211-218 | when a base location shares its NWS id only with sub-locations, the series id is built on the base location |
| NwsChps.EventPoint | src/loadNwsCHPS/loadNwsCHPS.py:96-109 | an event is read exactly when its date and time parse; a value equal to the missing marker becomes the CWMS missing value with quality 5; any other value is kept with quality 0 |
| NwsChps.EventTimeReadBack | src/loadNwsCHPS/loadNwsCHPS.py:97-100 | an event whose date and time were written from a moment is stored at that moment |
| NwsChps.ReadHeader | src/loadNwsCHPS/loadNwsCHPS.py:69-73 | a header is read exactly when it has a location, parameter, units and missing value; otherwise an attribute error |
| NwsChps.Payload | src/loadNwsCHPS/loadNwsCHPS.py:88-120 | a series is stored exactly when its id can be built and every event reads; it then has one point per event, the file's units and the run's version date |
| NwsChps.StepAsWritten | src/loadNwsCHPS/loadNwsCHPS.py:68-124 | as written, a series fails exactly when its header is unreadable, or its code is unknown and no earlier series set the parameter; otherwise an unknown code reuses the previous series' parameter |
| NwsChps.LoadAsWritten | src/loadNwsCHPS/loadNwsCHPS.py:55-126 | as written, at most one store per series, each under the run's version date |
| NwsChps.UnknownFirstAsWritten | src/loadNwsCHPS/loadNwsCHPS.py:74-85 | as written, an unknown code in the first series stops the load with an unbound-name error |
| NwsChps.NonContribAppends | src/loadNwsCHPS/loadNwsCHPS.py:50-51 | a location with `NON` and no `IN`, `OUT` or `LOC` past the fifth character only appends the non-contributing suffix |
| NwsChps.UnknownAfterMappedAsWritten | src/loadNwsCHPS/loadNwsCHPS.py:74-85 | as written, an unknown code after a mapped series is stored under the previous series' parameter; at a non-contributing location the suffix is appended twice |
| NwsChps.Step | src/loadNwsCHPS/loadNwsCHPS.py:68-124 | corrected, a series fails only on an unreadable header; it stores only with a mapped code, under the id built from its own location and parameter |
| NwsChps.Load | src/loadNwsCHPS/loadNwsCHPS.py:55-126 | corrected, the load succeeds exactly when every header reads, and every stored series comes from one series of the file |
| NwsChps.LoadAppend | src/loadNwsCHPS/loadNwsCHPS.py:68-124 | corrected, series are independent: loading two lists together stores what loading each would |
| NwsChps.UnknownSkipped | src/loadNwsCHPS/loadNwsCHPS.py:74-77 | corrected, a series with an unknown code changes nothing, wherever it stands |
| NwsChps.ParseStamp | src/loadNwsCHPS/loadNwsCHPS.py:225-227 | a parsed file stamp is a valid time in years 1 to 9999; anything else is a value error |
| NwsChps.FormatStamp | src/loadNwsCHPS/loadNwsCHPS.py:226 | a stamp is fourteen characters |
| NwsChps.StampRoundTrip | src/loadNwsCHPS/loadNwsCHPS.py:225-227 | a stamp written from a time parses back to that time |
| NwsChps.BaseName | src/loadNwsCHPS/loadNwsCHPS.py:228-239 | the base name is found exactly when the file name contains the marker; otherwise an index error |
| NwsChps.SplitCount | src/loadNwsCHPS/loadNwsCHPS.py:225 | splitting gives a second field exactly when the separator occurs |
| NwsChps.MainVersionDate | src/loadNwsCHPS/loadNwsCHPS.py:241-242 | the version date is twenty-four characters ending in `.000Z` |
| NwsChps.Classify | src/loadNwsCHPS/loadNwsCHPS.py:225-246 | a name without a `.` is an index error; the file time is the stamp after the first `.`; a version date is set exactly when the name contains neither `auto` nor `CRF`; the version and text key follow the `auto`, `CRF` or main branch |
| NwsChps.RunTimesReadBack | src/loadNwsCHPS/loadNwsCHPS.py:241-257 | the run time logged reads back as the file time, and the version date reads back as 01:11 on the file's day |
| NwsChps.ClassifyTimes | src/loadNwsCHPS/loadNwsCHPS.py:225-246 | the file time is valid, the run text is its ISO form, and a version date is the main-run date of that time |
| NwsChps.MainVersionReadBack | src/loadNwsCHPS/loadNwsCHPS.py:241-242 | the main-run version date is 01:11:00 on the file's day |
| NwsChps.ProgramAsWritten | src/loadNwsCHPS/loadNwsCHPS.py:199-252 | as written: a file name that cannot be classified fails; otherwise everything stored carries the run's version date, at most one store per series |
| NwsChps.ProgramUnknownFirstAsWritten | src/loadNwsCHPS/loadNwsCHPS.py:74-85 | as written, a file whose first series has an unknown code stores nothing |
| NwsChps.Program | src/loadNwsCHPS/loadNwsCHPS.py:199-252 | corrected loader: the same run classification and version date, with series of unknown code skipped |
| PyText.Find | src/LPMS/shef_loader.py:13 | `str.find`: `-1` exactly when the text does not occur; otherwise the index of its first occurrence |
| PyText.SplitJoin | src/LPMS/shef_loader.py:17 | joining the pieces of a split with the separator gives back the original text |
| PyText.SplitCharCount | src/LPMS/shef_loader.py:17 | splitting on a character gives one more piece than there are occurrences of it |
| PyText.Split | src/LPMS/shef_loader.py:17 | a split has at least one piece and no piece contains the separator |
| PyText.UpperIdempotent | src/getLMRFC_NAEFS/getLMRFC_NAEFS.py:166-168 | upper-casing twice is upper-casing once |
| Numbers.NatDigitsRoundTrip | src/meso_shef_encoder/meso_shef_encoder.py:627-630 | the decimal digits written for a number read back as that number |
| Numbers.DigitsInt | src/meso_shef_encoder/meso_shef_encoder.py:627-630 | `int()` of a string of digits is its decimal value |
| Numbers.IntRoundTrip | src/meso_shef_encoder/meso_shef_encoder.py:627-630 | `int(str(i))` is `i` for every integer, negative ones included |
| Numbers.RoundNonNeg | src/meso_shef_encoder/meso_shef_encoder.py:651-656 | rounding moves a value by at most one half; a tie goes up under half-away-from-zero and to the even neighbour under half-even |
| Numbers.RoundedValueClose | src/meso_shef_encoder/meso_shef_encoder.py:651-656 | a value rounded to `p` places is within half a unit in the last place and keeps the sign of the original |
| Numbers.FormatFixedRoundTrip | src/meso_shef_encoder/meso_shef_encoder.py:612-622 | reading back a fixed-point text with `float()` gives exactly the value rounded to `p` places |

## Left out

- Network, database and file I/O: every HTTP request, CDA store or delete call, file read or write, `pandas` frame operation that only moves data, logger call and `print`. Downloaded content and file text are parameters, and store calls are returned as values.
- Command-line argument parsing, environment variables, API keys and the `__main__` drivers.
- Strptime.Scan: `datetime.strptime` is modelled only for the directives the scripts use (`%Y %m %d %H %M %S %b %z`, literal characters and white space). Other directives are not modelled, and `%b` matches English month names only, whereas Python follows the host locale.
- Naefs.EventPoint: `pd.to_datetime` accepts many layouts, but the model accepts only `YYYY-MM-DD HH:MM:SS`, the layout the PI-XML events carry.
- NwsChps.EventPoint: `pd.to_datetime`/`strptime` leniency is modelled only for the `YYYY-MM-DD HH:MM:SS` layout of the event fields.
- NwsAcis.RowTime: only the ISO date layout ACIS returns is accepted, not everything `pd.to_datetime` accepts. `hourOffset` is an integer, whereas getNwsAcis.py:26 reads it with `float(...)`, so fractional hour offsets are not modelled.
- ShefDecode.TimeToMs: the epoch difference is taken on the calendar, which is what shef_loader.py:110 computes on a host whose local zone is UTC. On a host with daylight-saving time, `t.timestamp() - epoch.timestamp()` falls 3600 s short for summer times. That host dependence is not modelled.
- Naefs.VersionDate: assumes a host whose local zone is UTC. Naefs.VersionDateOnHost is the general model with the host offset as a parameter; the discrepancy is logged under "## Findings".
- CdaTextFile.ValuePoint: the row time is read by a `parseTime` parameter, because CdaTextFile.py reads it with `strptime` and then the host-local `timestamp()`.
- PyText.Upper: only ASCII letters are case-mapped, while Python's `str.upper` maps all of Unicode. The same holds for `PyText.Lower`.
- PyText.IsSpace: only ASCII whitespace counts, whereas Python's `str.isspace`/`str.split()` also treat the Unicode separators as whitespace.
- PyText.IsDigits: only the ASCII digits `0`-`9` count, whereas Python's `str.isdigit` (used on the first field of a row in meso_shef_encoder.py and on the BEGIN= token in getUSGS_ratings_CDA.py) accepts every Unicode digit.
- Numbers.ParseFloat: `float()` is modelled for decimal literals with sign, fraction and exponent. `inf`, `nan`, hexadecimal forms and `_` digit separators are not accepted.
- Floating-point rounding: values are exact reals. Formatting rounds half to even on the exact value, whereas Python rounds the nearest binary double, so ties that are not exact in binary may round differently.
- Eccc.StationData: the CSV column is chosen by a flag, whereas getECCC.py:157 selects it by the literal header `Discharge / DÃ©bit (cms)`. A download whose header differs therefore fails in the source but is not modelled.
- Eccc: exceptions from the store call, and the `try` around it, are not modelled because the store is not modelled.
- NwsIem.KeyStore: a series id without a unit ends the day with UnboundName, whereas in getNwsIem.py:161-173 the inner `try` catches that and goes on with the next code. Every id built from the mapping contains a unit key (`UnitOfParameter`), so the case does not arise with the shipped tables.
- NwsIem: a stale `units` value left over from an earlier code is not modelled, for the same reason.
- ShefDecode: `Parse_B` returns an empty result in the source and is modelled as returning nothing. `.B` messages store no data.
- Eccc and Naefs: the database queries `get_CMWS_TS_Loc_Data` (getECCC.py) and `get_CWMS_TS_Loc_Data` (getLMRFC_NAEFS.py), and the store wrapper `CWMS_writeData`, are left out. Their group and alias tables are parameters of `Loop` and `LoadRow`.
- UsgsRatings: `convert_usgs_rating_df`, `get_location_aliases` and `get_usgs_updated_ratings` are left out because they only reshape downloaded frames or query the network. Their results are parameters.
- RatingIni: the two store calls of `update_rating_spec` (`get_rating_spec`, `store_rating_spec`) are left out. What it changes in the specification (source agency, active, auto-update and auto-activate flags, the dropped effective dates and the description) is modelled by `RatingIni.UpdateSpec` and `RatingIni.Described`.
- CritImport: `import_critfile_to_ts_group` and `create_df` are left out because they only build frames and call the store.
- MesoEncode: the `main` driver, `procVars` and `toFile` are left out. The driver loops over input files and the other two write output files.
- MesoParse: `system_vars`, `user_args`, `check_var`, `fileExists` and `getDataFile` are left out because they read the command line, the environment and files. The input table and the id cross-reference are parameters.
- MesoParse: `getId`, `isDigit`, `sDate` and `footer` have no members of their own. They are folded into `BRow`, `ParseFloat`, `ParamText` and `Footer`.
- ShefDecode: `UnixTime2TimeString` is left out because no modelled path calls it.
- NwsChps: `store_standard_text` is left out because it only stores a text blob.
- Concurrency and retries: none of the scripts is concurrent, and network retries are not modelled.

## Findings

| source | as written | input that shows it | evidently intended | confidence | as-written member | corrected member |
|---|---|---|---|---|---|---|
| src/LPMS/shef_loader.py:13-16 | `if block.find('/DC'):` treats -1 (not found) as true, so the PE code is always taken from the third slash field | `.E LOC 20240111 Z DH12/HG/DIH01/1.0` (no `/DC`) reads `DIH01` as the PE code | third field only when a `/DC` creation date is present | high, not executed | ShefDecode.PeFieldAsWritten | ShefDecode.PeField |
| src/LPMS/shef_loader.py:59-64 | `.A` looks up the whole code, type and source included, in the crit entry before splitting off the PE code | `.A LOC 20240111 Z DH1200/HGIRZ 5.0` with a crit entry for `LOC.HG` is ignored | look up the two-letter PE code | medium, not executed | ShefDecode.VersionedCodeIgnored | ShefDecode.ALookup |
| src/LPMS/shef_loader.py:145-166 | `ts_array` is never cleared between messages, so `.A` points are posted again with every later message | an `.A` message followed by an `.E` message | each decoded point delivered once | high, not executed | ShefDecode.APointRepeated | ShefDecode.EachPointOnce |
| src/LPMS/shef_loader.py:128-146 | the message still open when the lines run out is never appended | a file whose last line is a `.E` message with no blank line after it | keep the last message | high, not executed | ShefTokenize.LastMessageDropped | ShefTokenize.TokenizeAllKeepsLast |
| src/LPMS/shef_loader.py:12 | the start time is `date + DH-digits`, parsed with `%Y%m%d%H%M`; an hour-only `DH12` gives ten digits, which `strptime` reads as hour 1, minute 2 | `.E LOC 20240111 Z DH12/HG/DIH01/1.0` starts at 01:02 | 12:00 | high, not executed | ShefDecode.HourOnlyStartAsWritten | ShefDecode.HourOnlyStart |
| src/meso_shef_encoder/meso_shef_encoder.py:590-616 | the missing marker is compared with `'M'`, but the parser stores `'-9999'`, so a missing soil value is vector-coded | soil temperature `-9999` at 4 inches is written `-49.9990` | write the missing value `-9999` | high, not executed | MesoEncode.MissingSoilTemperatureAsWritten | MesoEncode.MissingSoilTemperatureCorrected |
| src/loadNwsCHPS/loadNwsCHPS.py:74-85 | an unknown CHPS parameter code leaves `usace_parameterId` unbound on the first series and stale on later ones | a first series with an unknown parameter code raises UnboundLocalError; after a mapped series it is stored under the previous parameter | skip the unknown series | high, not executed | NwsChps.ProgramUnknownFirstAsWritten | NwsChps.UnknownSkipped |
| src/getNwsAcis/getNwsAcis.py:152 | the regex `[^0-9\.]` also strips the minus sign | a minimum temperature of `-5` is stored as `5` | strip only flag letters | high, not executed | NwsAcis.SignScreenedOut | NwsAcis.SignKept |
| src/getNwsAcis/getNwsAcis.py:135 | `cols[1:-1]` skips the last column as well as the date | any station: the observed temperature `obst` is never stored | skip only the date column | medium, not executed | NwsAcis.ObservedTemperature | NwsAcis.StoredElements |
| src/getLMRFC_NAEFS/getLMRFC_NAEFS.py:186-192 | `.astimezone(UTC)` on a naive datetime reads it as host local time | any creation date on a host in US Central standard time gives a version date of `18:00:00+0000` | noon UTC on the creation day | medium, not executed | Naefs.CentralHostVersionDate | Naefs.UtcHostVersionDate |
