/**
  Writing one car's results to its sheet (`save_data` in raceroom.py).

  The spreadsheet service is not modelled: the calls `save_data` makes to
  it are collected, in order, as a log of `Write`s (a range and the row of
  values sent there). Authentication, the service's answers and the pause
  after each row are left out.
 */
module Sheet {
  import opened Wrappers
  import opened Strings
  import opened LapTime
  import opened GameData
  import opened Leaderboard

  /** A value sent to the sheet: a number or a text. */
  datatype Cell = Num(n: int) | Text(text: string)

  /** The first row of every sheet. */
  const HEADER: seq<Cell> := [Text("N\U{00B0}"), Text("Nom du circuit"), Text("World record"),
                              Text("Mon temps"), Text("Classement"), Text("Total")]

  /** One `values().update` call: the range written and the single row of values written there. */
  datatype Write = Write(range: string, values: seq<Cell>)

  /** The range `f'{car_name}!A{row}'`. */
  function CellRange(sheet: string, row: nat): string {
    sheet + "!A" + NatToString(row)
  }

  /** The list `get_data` returned, as the cells it becomes: four for a row, none for `[]`. */
  function Cells(o: DataOutcome): (c: seq<Cell>)
    ensures |c| == if o.Row? then 4 else 0
    ensures o.Row? ==> c[0] == Text(Format(o.wr)) && c[1] == Text(Format(o.lapTime))
    ensures o.Row? ==> c[2] == Num(o.rank) && c[3] == Num(o.total)
  {
    if o.Row? then [Text(Format(o.wr)), Text(Format(o.lapTime)), Num(o.rank), Num(o.total)] else []
  }

  /** How `save_data` ended: every track done, an exception from `get_data`, or an unknown car. */
  datatype SaveOutcome = Saved | Aborted(failure: Failure) | UnknownCar

  /** The writes a `save_data` call made, how it ended, and where the request cursor is afterwards. */
  datatype SaveRun = SaveRun(writes: seq<Write>, outcome: SaveOutcome, next: nat)

  /**
    The `for t in TRACKS` loop from track `i` on, with the counter at `n`:
    each track's result is prefixed with `n` and the track's name, and
    written to row `n + 1` when it has as many cells as the header.
   */
  function RowsFrom(server: Server, sheet: string, tracks: seq<(string, int)>, car: CarId, i: nat, n: nat, next: nat): (run: SaveRun)
    requires i <= |tracks|
    ensures |run.writes| <= |tracks| - i
    ensures !run.outcome.UnknownCar?
    decreases |tracks| - i
  {
    if i == |tracks| then SaveRun([], Saved, next)
    else
      var got := DataFrom(server, tracks[i].1, car, RequestUrl(tracks[i].1, car), next, 0);
      if got.outcome.DataFailed? then SaveRun([], Aborted(got.outcome.failure), got.next)
      else
        var row := [Num(n), Text(tracks[i].0)] + Cells(got.outcome);
        if |row| == |HEADER| then
          var rest := RowsFrom(server, sheet, tracks, car, i + 1, n + 1, got.next);
          rest.(writes := [Write(CellRange(sheet, n + 1), row)] + rest.writes)
        else RowsFrom(server, sheet, tracks, car, i + 1, n, got.next)
  }

  /** `save_data` over the list of tracks `tracks` (the script's `TRACKS`). */
  function SaveFrom(data: GameData, server: Server, car: CarId, tracks: seq<(string, int)>, next: nat): SaveRun {
    match GetCarName(data, car)
    case None => SaveRun([], UnknownCar, next)
    case Some(sheet) =>
      var rows := RowsFrom(server, sheet, tracks, car, 0, 1, next);
      rows.(writes := [Write(CellRange(sheet, 1), HEADER)] + rows.writes)
  }

  /** `save_data`. */
  method SaveData(data: GameData, server: Server, car: CarId, tracks: seq<(string, int)>, next: nat) returns (run: SaveRun)
    ensures run == SaveFrom(data, server, car, tracks, next)
  {
    // Folded to keep the proof small: the steps below use these definitions only through their contracts and lemmas.
    hide DataFrom;
    hide Cells;
    hide RequestUrl;
    hide CellRange;
    hide Format;
    var carName := GetCarName(data, car);
    if carName.None? {
      return SaveRun([], UnknownCar, next);
    }
    var sheet := carName.value;
    var writes := [Write(CellRange(sheet, 1), HEADER)];
    var n := 1;
    var k := next;
    var i := 0;
    while i < |tracks|
      invariant i <= |tracks|
      invariant var rest := RowsFrom(server, sheet, tracks, car, i, n, k);
        SaveFrom(data, server, car, tracks, next) == rest.(writes := writes + rest.writes)
      decreases |tracks| - i
    {
      var got := GetData(server, tracks[i].1, car, k);
      if got.outcome.DataFailed? {
        assert writes + [] == writes;
        return SaveRun(writes, Aborted(got.outcome.failure), got.next);
      }
      var row := [Num(n), Text(tracks[i].0)] + Cells(got.outcome);
      if |row| == |HEADER| {
        var rest := RowsFrom(server, sheet, tracks, car, i + 1, n + 1, got.next);
        assert writes + ([Write(CellRange(sheet, n + 1), row)] + rest.writes)
            == (writes + [Write(CellRange(sheet, n + 1), row)]) + rest.writes;
        writes := writes + [Write(CellRange(sheet, n + 1), row)];
        n := n + 1;
      }
      k := got.next;
      i := i + 1;
    }
    assert writes + [] == writes;
    return SaveRun(writes, Saved, k);
  }

  // ---------------------------------------------------------------------------
  // Properties
  // ---------------------------------------------------------------------------

  /** Different rows of one sheet are different ranges. */
  lemma CellRangeInjective(sheet: string, a: nat, b: nat)
    requires CellRange(sheet, a) == CellRange(sheet, b)
    ensures a == b
  {
    var p := sheet + "!A";
    assert CellRange(sheet, a)[|p|..] == NatToString(a);
    assert CellRange(sheet, b)[|p|..] == NatToString(b);
    NatToStringInjective(a, b);
  }

  /** `writes` are full rows with their numbers in front, written from row `n + 1` on, one after another. */
  predicate Numbered(writes: seq<Write>, sheet: string, n: nat) {
    forall k :: 0 <= k < |writes| ==>
      && writes[k].range == CellRange(sheet, n + k + 1)
      && |writes[k].values| == |HEADER|
      && writes[k].values[0] == Num(n + k)
  }

  /** A row numbered `n` in front of rows numbered from `n + 1` on. */
  lemma NumberedCons(w: Write, rest: seq<Write>, sheet: string, n: nat)
    requires Numbered(rest, sheet, n + 1)
    requires w.range == CellRange(sheet, n + 1) && |w.values| == |HEADER| && w.values[0] == Num(n)
    ensures Numbered([w] + rest, sheet, n)
  {
    var all := [w] + rest;
    forall k | 0 < k < |all|
      ensures all[k].range == CellRange(sheet, n + k + 1)
      ensures |all[k].values| == |HEADER| && all[k].values[0] == Num(n + k)
    {
      assert all[k] == rest[k - 1];
    }
  }

  /**
    The rows are written one after another from row `n + 1` on, each a
    full row of the header's width whose first cell is its number.
   */
  lemma {:induction false} RowsNumbered(server: Server, sheet: string, tracks: seq<(string, int)>, car: CarId, i: nat, n: nat, next: nat)
    requires i <= |tracks|
    ensures Numbered(RowsFrom(server, sheet, tracks, car, i, n, next).writes, sheet, n)
    decreases |tracks| - i
  {
    // Folded to keep the proof small: the steps below use these definitions only through their contracts and lemmas.
    hide DataFrom;
    hide Cells;
    hide RequestUrl;
    hide CellRange;
    hide Format;
    if i < |tracks| {
      var run := RowsFrom(server, sheet, tracks, car, i, n, next);
      var got := DataFrom(server, tracks[i].1, car, RequestUrl(tracks[i].1, car), next, 0);
      if !got.outcome.DataFailed? {
        var row := [Num(n), Text(tracks[i].0)] + Cells(got.outcome);
        if |row| == |HEADER| {
          RowsNumbered(server, sheet, tracks, car, i + 1, n + 1, got.next);
          var rest := RowsFrom(server, sheet, tracks, car, i + 1, n + 1, got.next);
          NumberedCons(Write(CellRange(sheet, n + 1), row), rest.writes, sheet, n);
        } else {
          RowsNumbered(server, sheet, tracks, car, i + 1, n, got.next);
          assert run == RowsFrom(server, sheet, tracks, car, i + 1, n, got.next);
        }
      }
    }
  }

  /** Every write in `writes` is a row of six cells: two texts, then a rank between 1 and a total. */
  predicate HoldResults(writes: seq<Write>) {
    forall k :: 0 <= k < |writes| ==>
      && |writes[k].values| == 6
      && writes[k].values[2].Text? && writes[k].values[3].Text?
      && writes[k].values[4].Num? && writes[k].values[5].Num?
      && 1 <= writes[k].values[4].n <= writes[k].values[5].n
  }

  /** A row holding a result in front of rows holding results. */
  lemma HoldResultsCons(w: Write, rest: seq<Write>)
    requires HoldResults(rest)
    requires |w.values| == 6 && w.values[2].Text? && w.values[3].Text?
    requires w.values[4].Num? && w.values[5].Num? && 1 <= w.values[4].n <= w.values[5].n
    ensures HoldResults([w] + rest)
  {
    var all := [w] + rest;
    assert forall k :: 0 < k < |all| ==> all[k] == rest[k - 1];
  }

  /**
    Every row written holds a result of `get_data`: the two times as
    texts, then a rank between 1 and the number of entries.
   */
  lemma {:induction false} RowsHoldResults(server: Server, sheet: string, tracks: seq<(string, int)>, car: CarId, i: nat, n: nat, next: nat)
    requires i <= |tracks|
    ensures HoldResults(RowsFrom(server, sheet, tracks, car, i, n, next).writes)
    decreases |tracks| - i
  {
    // Folded to keep the proof small: the steps below use these definitions only through their contracts and lemmas.
    hide DataFrom;
    hide Cells;
    hide RequestUrl;
    hide CellRange;
    hide Format;
    if i < |tracks| {
      var run := RowsFrom(server, sheet, tracks, car, i, n, next);
      var url := RequestUrl(tracks[i].1, car);
      var got := DataFrom(server, tracks[i].1, car, url, next, 0);
      if !got.outcome.DataFailed? {
        var row := [Num(n), Text(tracks[i].0)] + Cells(got.outcome);
        if |row| == |HEADER| {
          assert got.outcome.Row?;
          DataRowBounds(server, tracks[i].1, car, url, next, got);
          RowsHoldResults(server, sheet, tracks, car, i + 1, n + 1, got.next);
          var rest := RowsFrom(server, sheet, tracks, car, i + 1, n + 1, got.next);
          HoldResultsCons(Write(CellRange(sheet, n + 1), row), rest.writes);
        } else {
          RowsHoldResults(server, sheet, tracks, car, i + 1, n, got.next);
          assert run == RowsFrom(server, sheet, tracks, car, i + 1, n, got.next);
        }
      }
    }
  }

  /** The result of `get_data` for track `j` of `tracks` when that call starts at request `p`. */
  ghost function ResultAt(server: Server, tracks: seq<(string, int)>, car: CarId, j: nat, p: nat): DataOutcome
    requires j < |tracks|
  {
    DataFrom(server, tracks[j].1, car, RequestUrl(tracks[j].1, car), p, 0).outcome
  }

  /**
    Where the rows `RowsFrom` writes come from: for each, the index of its
    track and the request number at which that track's `get_data` started.
   */
  ghost function RowSources(server: Server, tracks: seq<(string, int)>, car: CarId, i: nat, next: nat): seq<(nat, nat)>
    requires i <= |tracks|
    decreases |tracks| - i
  {
    if i == |tracks| then []
    else
      var got := DataFrom(server, tracks[i].1, car, RequestUrl(tracks[i].1, car), next, 0);
      if got.outcome.DataFailed? then []
      else if got.outcome.Row? then [(i, next)] + RowSources(server, tracks, car, i + 1, got.next)
      else RowSources(server, tracks, car, i + 1, got.next)
  }

  /**
    The `k`-th of `writes` holds `[n + k, name] + result` for the track
    `src[k]` names, whose `get_data` result is a row; the tracks come from
    `tracks[i..]`, each at most once and in list order.
   */
  ghost predicate FromTracks(server: Server, tracks: seq<(string, int)>, car: CarId, writes: seq<Write>,
                             src: seq<(nat, nat)>, i: nat, n: nat) {
    && |src| == |writes|
    && (forall k, l :: 0 <= k < l < |src| ==> src[k].0 < src[l].0)
    && forall k :: 0 <= k < |src| ==>
         i <= src[k].0 && RowOf(server, tracks, car, writes[k].values, src[k].0, src[k].1, n + k)
  }

  /** `values` is row number `m`: the name of track `j`, then its `get_data` row started at request `p`. */
  ghost predicate RowOf(server: Server, tracks: seq<(string, int)>, car: CarId, values: seq<Cell>, j: nat, p: nat, m: nat) {
    && j < |tracks|
    && ResultAt(server, tracks, car, j, p).Row?
    && values == [Num(m), Text(tracks[j].0)] + Cells(ResultAt(server, tracks, car, j, p))
  }

  /** A row for track `i` in front of rows for later tracks. */
  lemma FromTracksCons(server: Server, tracks: seq<(string, int)>, car: CarId, w: Write, writes: seq<Write>,
                       src: seq<(nat, nat)>, i: nat, n: nat, next: nat)
    requires i < |tracks|
    requires FromTracks(server, tracks, car, writes, src, i + 1, n + 1)
    requires RowOf(server, tracks, car, w.values, i, next, n)
    ensures FromTracks(server, tracks, car, [w] + writes, [(i, next)] + src, i, n)
  {
    // Folded to keep the proof small: the steps below use these definitions only through their contracts and lemmas.
    hide RowOf;
    var ws, ss := [w] + writes, [(i, next)] + src;
    forall k | 0 < k < |ss|
      ensures i <= ss[k].0 && RowOf(server, tracks, car, ws[k].values, ss[k].0, ss[k].1, n + k)
    {
      assert ss[k] == src[k - 1] && ws[k] == writes[k - 1];
    }
    forall k, l | 0 <= k < l < |ss|
      ensures ss[k].0 < ss[l].0
    {
      assert ss[l] == src[l - 1];
      if k > 0 { assert ss[k] == src[k - 1]; }
    }
  }

  /**
    Every row written is `[n, track name] + get_data(...)` for a track whose
    result is a row, the tracks taken in list order, each at most once.
   */
  lemma {:induction false} RowsFromTracks(server: Server, sheet: string, tracks: seq<(string, int)>, car: CarId, i: nat, n: nat, next: nat)
    requires i <= |tracks|
    ensures FromTracks(server, tracks, car, RowsFrom(server, sheet, tracks, car, i, n, next).writes,
                       RowSources(server, tracks, car, i, next), i, n)
    decreases |tracks| - i
  {
    // Folded to keep the proof small: the steps below use these definitions only through their contracts and lemmas.
    hide DataFrom;
    hide Cells;
    hide RequestUrl;
    hide CellRange;
    hide Format;
    if i < |tracks| {
      var run := RowsFrom(server, sheet, tracks, car, i, n, next);
      var got := DataFrom(server, tracks[i].1, car, RequestUrl(tracks[i].1, car), next, 0);
      if !got.outcome.DataFailed? {
        var row := [Num(n), Text(tracks[i].0)] + Cells(got.outcome);
        if got.outcome.Row? {
          assert |row| == |HEADER|;
          RowsFromTracks(server, sheet, tracks, car, i + 1, n + 1, got.next);
          var rest := RowsFrom(server, sheet, tracks, car, i + 1, n + 1, got.next);
          FromTracksCons(server, tracks, car, Write(CellRange(sheet, n + 1), row), rest.writes,
                         RowSources(server, tracks, car, i + 1, got.next), i, n, next);
        } else {
          assert |row| != |HEADER|;
          RowsFromTracks(server, sheet, tracks, car, i + 1, n, got.next);
        }
      }
    }
  }

  /** A track for which `get_data` returns `[]` writes nothing and leaves the counter where it was. */
  lemma NoEntrySkipped(server: Server, sheet: string, tracks: seq<(string, int)>, car: CarId, i: nat, n: nat, next: nat)
    requires i < |tracks|
    requires DataFrom(server, tracks[i].1, car, RequestUrl(tracks[i].1, car), next, 0).outcome.NoEntry?
    ensures RowsFrom(server, sheet, tracks, car, i, n, next)
         == RowsFrom(server, sheet, tracks, car, i + 1, n, DataFrom(server, tracks[i].1, car, RequestUrl(tracks[i].1, car), next, 0).next)
  {
    // Folded to keep the proof small: the steps below use these definitions only through their contracts and lemmas.
    hide DataFrom;
    hide RequestUrl;
  }

  /** No two writes of a `save_data` call target the same range. */
  lemma SaveRangesDistinct(data: GameData, server: Server, car: CarId, tracks: seq<(string, int)>, next: nat)
    ensures var writes := SaveFrom(data, server, car, tracks, next).writes;
      forall k, l :: 0 <= k < l < |writes| ==> writes[k].range != writes[l].range
  {
    // Folded to keep the proof small: the steps below use these definitions only through their contracts and lemmas.
    hide RowsFrom;
    hide CellRange;
    var run := SaveFrom(data, server, car, tracks, next);
    if GetCarName(data, car).Some? {
      var sheet := GetCarName(data, car).value;
      SaveLayout(data, server, car, tracks, next);
      forall k, l | 0 <= k < l < |run.writes|
        ensures run.writes[k].range != run.writes[l].range
      {
        if run.writes[k].range == run.writes[l].range {
          CellRangeInjective(sheet, k + 1, l + 1);
        }
      }
    }
  }

  /**
    An unknown car writes nothing. Otherwise the header goes to `A1` and
    the `k`-th result row to `A{k + 1}` with `k` in its first cell, at
    most one row per track.
   */
  lemma SaveLayout(data: GameData, server: Server, car: CarId, tracks: seq<(string, int)>, next: nat)
    ensures var run := SaveFrom(data, server, car, tracks, next);
      match GetCarName(data, car)
      case None => run.writes == [] && run.outcome == UnknownCar
      case Some(sheet) =>
        && 1 <= |run.writes| <= |tracks| + 1
        && run.writes[0] == Write(CellRange(sheet, 1), HEADER)
        && forall k :: 1 <= k < |run.writes| ==>
             && run.writes[k].range == CellRange(sheet, k + 1)
             && |run.writes[k].values| == |HEADER|
             && run.writes[k].values[0] == Num(k)
  {
    // Folded to keep the proof small: the steps below use these definitions only through their contracts and lemmas.
    hide RowsFrom;
    if GetCarName(data, car).Some? {
      var sheet := GetCarName(data, car).value;
      RowsNumbered(server, sheet, tracks, car, 0, 1, next);
      var rows := RowsFrom(server, sheet, tracks, car, 0, 1, next);
      var run := SaveFrom(data, server, car, tracks, next);
      assert run.writes == [Write(CellRange(sheet, 1), HEADER)] + rows.writes;
      forall k | 1 <= k < |run.writes|
        ensures run.writes[k].range == CellRange(sheet, k + 1)
        ensures |run.writes[k].values| == |HEADER| && run.writes[k].values[0] == Num(k)
      {
        assert run.writes[k] == rows.writes[k - 1];
      }
    }
  }
}
