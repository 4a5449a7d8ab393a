# RaceRoom leaderboard export, modelled in Dafny

`raceroom.py` fetches one driver's results from the RaceRoom online
leaderboard for every track layout and car class in the game's reference
data, and writes them, one sheet per car, to a spreadsheet. The model covers
the logic between the two ends:

- **lap times** (`lap_time.dfy`): the text `"1m 23.456s"` is cut on `s` and
  `m ` (`LapTime.LapTimeParts`, raceroom.py:112 and 117), then converted to
  `minutes * 60 + seconds` and rendered with three decimals and a comma
  (`get_lap_time_sec`, raceroom.py:54-58). `LapTime.ParseLapTime` gives the
  number and `LapTime.ConvertLapTime` its text. `LapTime.LapTimeValue` and
  `LapTime.LapTimeSec` model the two branches of `get_lap_time_sec`, and
  `LapTime.ParseDecimal` models its `float()` calls; their contracts are the
  lemmas `ConvertMinutes`, `ConvertSeconds`, `ConvertIsFormatted` and
  `FixedPointRoundTrip`. Times are whole numbers of thousandths, so the
  arithmetic and the rendering are exact.
- **reference data** (`game_data.dfy`): the parsed `r3e-data.json` is a
  `GameData` value. It gives car and class names (`GameData.GetCarName` for
  `get_car_name`, raceroom.py:61-66, stated by `CarClassName`,
  `CarClassWithoutPrefix` and `CarNumberName`), layout display names
  `"<track> - <layout>"` (`GameData.GetTrackName` for `get_track_name`,
  raceroom.py:69-73, stated by `TrackNamesAgree`), and the sorted list of
  every layout (`get_all_tracks`, a method with the source's two nested
  loops over a dictionary that it updates).
- **leaderboard fetching** (`leaderboard.dfy`): the endpoint is a function
  from a URL and a request number to an answer (`HttpError` or a page of
  entries). `get_json` retries failed requests. `get_data` takes the record
  from the first entry and scans for the driver, then returns a row, returns
  `[]`, or retries. Each loop is a `while true` method proved equal to a
  recursive function (`JsonFrom`, `DataFrom`).
- **writing a sheet** (`sheet.dfy`): the spreadsheet calls of `save_data`
  are a log of `Write(range, values)`. There is one header write, then one
  row per track with a result, numbered by the counter `n`.
- `strings.dfy` holds Python's `str.split` (`Strings.Split`, for the calls at
  raceroom.py:63, 112 and 117, stated by `SplitJoin` and `SplitPiecesFree`),
  `str(int)` and string order;
  `wrappers.dfy` holds `Option`.

Exceptions are values: `Failure` is `TooManyErrors(stage, car, track)` for
an exhausted retry loop, or `MalformedLapTime` when the model's decimal
reader rejects a time (it accepts less than Python's `float()`; see Left
out). An unknown car makes `save_data` end with `UnknownCar`.

When the driver appears more than once in a leaderboard, the loop at
raceroom.py:114-119 overwrites `rank` and `lap_time` on every match, so the
last match counts (`Leaderboard.ScanMatchedIsLast`).

## Model

| member | source | states |
|---|---|---|
| Strings.NatToStringRoundTrip | raceroom.py:80 | reading back the decimal text of `str(n)` gives `n` |
| Strings.IntToStringInjective | raceroom.py:66 | different ids give different `str(car_id)` keys |
| Strings.SplitJoin | raceroom.py:112 | joining the pieces of `s.split(sep)` with `sep` gives back `s` |
| Strings.SplitPiecesFree | raceroom.py:112 | `s.split(sep)` cuts at every occurrence: no piece contains the separator |
| Strings.SplitAbsent | raceroom.py:63 | a text where the separator does not occur splits into itself alone |
| Strings.HasMinimum | raceroom.py:23 | every non-empty set of names has a least one in Python's string order, so a sort can pick it |
| Strings.LessTotal | raceroom.py:23 | of two different names, one is before the other |
| LapTime.Format | raceroom.py:56-58 | the text ends in a comma and three digits, with digits before the comma |
| LapTime.FormatParts | raceroom.py:56-58 | the text is the whole seconds, a comma, and the three decimals of the time |
| LapTime.FixedPointRoundTrip | raceroom.py:56 | reading back the `'{:.3f}'` rendering gives exactly the same number of thousandths |
| LapTime.FormatRoundTrip | raceroom.py:56-58 | putting the decimal point back and reading the text gives the time back |
| LapTime.FormatInjective | raceroom.py:56-58 | different times are written differently |
| LapTime.ConvertMinutes | raceroom.py:54-56 | `"<M>m <S>.<fff>s"` reads as `(M * 60 + S)` seconds and `fff` thousandths, and is written as that time's text |
| LapTime.ConvertSeconds | raceroom.py:57-58 | `"<S>.<fff>s"` reads as `S` seconds and `fff` thousandths, and is written as that time's text |
| LapTime.ConvertExample | raceroom.py:111-113 | `"1m 23.456s"` is written `"83,456"` and `"45.100s"` is written `"45,100"` |
| GameData.TrackByKey | raceroom.py:71 | a found track is the value stored under that key, and nothing is found exactly when no key matches |
| GameData.TrackByKeyFinds | raceroom.py:71 | with unique keys, looking up a key gives its own value |
| GameData.CarClassName | raceroom.py:62-64 | `"class-<k>"` is looked up under `<k>` among the classes |
| GameData.CarNumberName | raceroom.py:65-66 | a car number finds the name stored under `str(car_id)`, and no entry stored under another number's text affects its lookup |
| GameData.CarClassWithoutPrefix | raceroom.py:62-64 | a class id without `class-` has no name (the script's `IndexError`) |
| GameData.TrackNamesAgree | raceroom.py:69-73 | on consistent data, `get_track_name` of every id in the track list gives the display name it is listed under |
| GameData.SortByName | raceroom.py:23 | the result is strictly ascending by name, every pair is an item of the dictionary, and every key appears |
| GameData.GetAllTracks | raceroom.py:16-23 | the result is strictly ascending and holds exactly the items of the dictionary the updates build |
| GameData.MapOfLastWins | raceroom.py:19-22 | the dictionary maps a name to an id exactly when some update wrote that pair and no later update wrote that name |
| GameData.MapOfKeys | raceroom.py:22 | a name is in the dictionary exactly when some update wrote it |
| GameData.EveryLayoutListed | raceroom.py:19-22 | every layout of every track is listed: its display name is a key of the dictionary |
| GameData.DisplayEntryOrigin | raceroom.py:19-22 | every update is `"<track> - <layout>"` of a layout of some track, with that layout's id |
| Leaderboard.ExhaustedMessage | raceroom.py:86-88 | the message exists exactly when both the car lookup and the track lookup succeed; otherwise the lookup raises first |
| Leaderboard.JsonFrom | raceroom.py:76-91 | it sends at most `MAX_ERRORS + 2 - errors` requests; each failed request adds one error; giving up leaves the counter at `MAX_ERRORS + 1` |
| Leaderboard.GetJson | raceroom.py:76-91 | the loop computes `JsonFrom` from a zero counter and sends between 1 and `MAX_ERRORS + 2` requests |
| Leaderboard.JsonFailsIffAllFail | raceroom.py:82-91 | `get_json` raises exactly when every request it may send fails |
| Leaderboard.JsonFetchedIsFirstGoodPage | raceroom.py:81-83 | the page returned answers the last request, and every request before it failed |
| Leaderboard.ScanEntries | raceroom.py:114-119 | the loop computes `Scan`, and its counter ends at `len(context)` unless a time raised |
| Leaderboard.BadTimeStays | raceroom.py:117-118 | once a time has raised, the rest of the list does not change the outcome |
| Leaderboard.ScanMatchedIsLast | raceroom.py:114-119 | a match is the driver's last entry: its 1-based position, its converted time, and no driver entry after it |
| Leaderboard.ScanNoMatchIff | raceroom.py:114-120 | the scan finds nothing exactly when no entry is the driver's |
| Leaderboard.ScanBadTimeIff | raceroom.py:116-118 | the scan raises exactly when one of the driver's times does not convert |
| Leaderboard.ReadPage | raceroom.py:103-128 | one pass of the loop body computes `Attempt` |
| Leaderboard.AttemptRow | raceroom.py:111-128 | a row holds the converted time of `context[0]`, `1 <= rank <= total == len(context)`, and the time of the driver's last entry at `rank` |
| Leaderboard.AttemptRetryIff | raceroom.py:104-124 | a pass retries exactly for a finished car with an empty list on any track but 10274, or with a list without the driver |
| Leaderboard.AttemptNoEntryIff | raceroom.py:104-126 | a pass returns `[]` exactly for an empty list on track 10274 or for an unfinished car, or for a list without the driver for an unfinished car |
| Leaderboard.AttemptMalformedIff | raceroom.py:111-118 | a pass raises exactly when the record's time or one of the driver's times does not convert |
| Leaderboard.DataFrom | raceroom.py:94-128 | `get_json` is called at most `MAX_ERRORS + 1 - errors` times; the cursor never moves back; the counter never decreases and never passes `MAX_ERRORS + 1` |
| Leaderboard.GetData | raceroom.py:94-128 | the loop computes `DataFrom` from a zero counter |
| Leaderboard.DataRetryCount | raceroom.py:97-124 | each retried pass adds exactly one error: a call that gives up made `MAX_ERRORS + 1` passes, and any other call retried every pass but its last |
| Leaderboard.DataOutcomeFromLastPage | raceroom.py:102-128 | a returned row or `[]` is what the pass over the page of the call's last request gave |
| Leaderboard.DataRowBounds | raceroom.py:111-128 | a returned row has `1 <= rank <= total`, where `total` is the length of an answered page, `wr` its first entry's time, and the driver's entry at `rank` |
| Leaderboard.EmptyForeverExhausts | raceroom.py:97-110 | for a finished car off track 10274, an endpoint that always answers `[]` makes `get_data` call `get_json` `MAX_ERRORS + 1` times and then raise |
| Leaderboard.ExcludedTrackEmpty | raceroom.py:104-106 | on track 10274 an empty list returns `[]` after one request, with no error counted |
| Leaderboard.DataRequestBound | raceroom.py:94-102 | a `get_data` call sends at most `MAX_ERRORS + 2` requests for each `get_json` call it makes |
| Leaderboard.SecondPlaceExample | raceroom.py:111-128 | a page with the record at 1:00.000 and the driver second at 1:01.000 gives the row `[60,000, 61,000, 2, 2]` |
| Sheet.Cells | raceroom.py:140 | a row gives four cells: the record and the driver's time as their three-decimal texts, then the rank and the total; `[]` gives none |
| Sheet.RowsFrom | raceroom.py:139-146 | the loop writes at most one row per remaining track |
| Sheet.SaveData | raceroom.py:131-146 | the method computes `SaveFrom` |
| Sheet.CellRangeInjective | raceroom.py:142 | different row numbers name different ranges of a sheet |
| Sheet.RowsNumbered | raceroom.py:138-145 | the rows written from counter `n` go to `A{n+1}`, `A{n+2}`, … in turn; each has six cells and its own number first |
| Sheet.RowsHoldResults | raceroom.py:140-143 | every row written holds two time texts, then a rank between 1 and the total; `Sheet.RowsFromTracks` says which texts |
| Sheet.RowsFromTracks | raceroom.py:139-143 | the `k`-th row written is `[n + k, track name] + get_data(track)` for a track whose result is a row, tracks taken in list order, each at most once |
| Sheet.NoEntrySkipped | raceroom.py:140-141 | a track for which `get_data` returns `[]` writes nothing and leaves `n` unchanged |
| Sheet.SaveLayout | raceroom.py:131-145 | an unknown car writes nothing; otherwise the header goes to `A1` and the `k`-th row to `A{k+1}` with `k` in front, with at most one row per track |
| Sheet.SaveRangesDistinct | raceroom.py:136-145 | no two writes of one `save_data` call target the same range |

## Left out

- HTTP and JSON (raceroom.py:79-83, 103): `requests.get`, the headers and `json.loads` are not modelled. The endpoint is the `Server` function, and a page is its list of `(driver name, lap-time text)` entries. A missing `context`/`c`/`results` key is not modelled.
- Google sign-in and the Sheets service (raceroom.py:39-51, 133-137, 142-143): external SDKs. Each `values().update` call is one `Write` in a log; the service's answers are not modelled.
- Reading `r3e-data.json` (raceroom.py:11-13): file I/O. The parsed document is a `GameData` value, and `TRACKS` is a parameter of `Sheet.SaveData` (`GameData.GetAllTracks` computes it).
- `sleep`, `print`, `save_all_cars`, `main`, `CAR_IDS`, `SCOPES` and `SPREADSHEET_ID` (raceroom.py:26-27, 32, 36, 90, 108, 122, 144, 146, 149-159): timing, console output and drivers with no logic.
- LapTime.ParseDecimal: accepts only plain decimals `[digits][.digits]` with at most three decimals. Python's `float()` also accepts signs, exponents, `inf`/`nan`, underscores, surrounding blanks, non-ASCII Unicode digits, and more decimals rounded by `'{:.3f}'`. The model treats those texts as `MalformedLapTime`.
- LapTime.LapTimeSec: binary floating point is not modelled. `float(m) * 60 + float(s)` is computed exactly in thousandths. `'{:.3f}'` prints the same digits as long as the accumulated float error stays below half a thousandth, which holds for lap times of realistic size but not for arbitrarily large values.
- Repeated keys in the `tracks` object of `r3e-data.json` (raceroom.py:19) are not modelled. `json.load` keeps one entry per key (in the first key's position, with the last value), while the model visits every listed entry.
- Leaderboard.GetData: a row carries its two times as thousandths. The texts the script returns are `LapTime.Format` of them (`LapTime.ConvertIsFormatted`), and `Sheet.Cells` writes those texts.
- Leaderboard.ExhaustedMessage: the exception's text is separate from `Failure`, which records the stage, car and track. The `KeyError` from a failed name lookup is the `None` case of the message.
