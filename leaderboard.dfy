/**
  Fetching a leaderboard and extracting the driver's result from it
  (`get_json` and `get_data` in raceroom.py).

  The HTTP endpoint is a `Server`: the answer to the `k`-th request the
  run sends, given its URL. Requests are numbered by a cursor that every
  operation takes as `next` and hands back advanced past the requests it
  sent, so a run of the script is a walk along one sequence of answers.
  Exceptions become `Failure` values; `sleep` between retries is dropped.
 */
module Leaderboard {
  import opened Wrappers
  import opened Strings
  import opened LapTime
  import opened GameData

  /** A retry loop gives up once its error counter exceeds this. */
  const MAX_ERRORS: nat := 30
  /** Page size asked of the endpoint. */
  const COUNT: nat := 1500
  /** The track whose empty leaderboard is accepted as final for every car. */
  const EXCLUDED_TRACK: int := 10274
  /** The driver whose rank and time are looked for. */
  const DRIVER: string := "Mathieu Blanchard"
  /** The cars whose driver entry must eventually show up, so its absence is retried. */
  const FINISHED_CLASSES: set<CarId> := {CarNumber(10914), CarNumber(5051), CarNumber(11342)}

  /** One element of `context.c.results`: the driver's name and the raw lap-time text. */
  datatype Entry = Entry(driver: string, laptime: string)

  /** What one GET returns: a status for which `page.ok` is false (400 or above), or a page whose results are listed in rank order. */
  datatype Response = HttpError | HttpOk(results: seq<Entry>)

  /** The endpoint: the answer to the request numbered `k`, sent to `url`. */
  type Server = (string, nat) -> Response

  /** `str(car_id)`: a class id is sent as it is, a car number in decimal. */
  function CarParam(car: CarId): string {
    match car
    case CarNumber(n) => IntToString(n)
    case CarClass(text) => text
  }

  /** The listing URL `get_json` requests. */
  function RequestUrl(track: int, car: CarId): string {
    "https://game.raceroom.com/leaderboard/listing/0?start=0&count=" + NatToString(COUNT)
      + "&track=" + IntToString(track) + "&car_class=" + CarParam(car)
  }

  /** Which retry loop gave up: the request loop (`file`) or the extraction loop (`data`). */
  datatype Stage = File | Data

  /** Why a call ends in an exception. */
  datatype Failure =
    | TooManyErrors(stage: Stage, car: CarId, track: int)
    | MalformedLapTime

  /**
    The text of the exception a loop raises when it gives up. Building it
    looks up the car's and the track's names; when either lookup fails the
    script raises that lookup's `KeyError` instead, here `None`.
   */
  function ExhaustedMessage(data: GameData, stage: Stage, car: CarId, track: int): (m: Option<string>)
    ensures m.Some? <==> GetCarName(data, car).Some? && GetTrackName(data, track).Some?
  {
    match GetCarName(data, car)
    case None => None
    case Some(carName) =>
      match GetTrackName(data, track)
      case None => None
      case Some(trackName) =>
        Some("Too many errors while getting the " + (if stage == File then "file" else "data")
          + " | car = " + carName + " | track = " + trackName)
  }

  // ---------------------------------------------------------------------------
  // get_json
  // ---------------------------------------------------------------------------

  datatype Fetched = Fetched(results: seq<Entry>) | FetchFailed(failure: Failure)

  /** How a `get_json` call ended, where the request cursor is afterwards, and its final error count. */
  datatype JsonRun = JsonRun(result: Fetched, next: nat, errors: nat)

  /**
    `get_json` resumed with `errors` failures counted and the next request
    numbered `next`: send a request; a good page is returned; a failure
    either raises (counter already past the bound) or is counted and retried.
   */
  function JsonFrom(server: Server, track: int, car: CarId, url: string, next: nat, errors: nat): (run: JsonRun)
    requires errors <= MAX_ERRORS + 1
    ensures next < run.next <= next + (MAX_ERRORS + 2 - errors)
    ensures run.errors == errors + (run.next - next - 1)
    ensures run.result.FetchFailed? ==> run.errors == MAX_ERRORS + 1
    decreases MAX_ERRORS + 1 - errors
  {
    match server(url, next)
    case HttpOk(results) => JsonRun(Fetched(results), next + 1, errors)
    case HttpError =>
      if errors > MAX_ERRORS then JsonRun(FetchFailed(TooManyErrors(File, car, track)), next + 1, errors)
      else JsonFrom(server, track, car, url, next + 1, errors + 1)
  }

  /** `get_json`. */
  method GetJson(server: Server, track: int, car: CarId, next: nat) returns (run: JsonRun)
    ensures run == JsonFrom(server, track, car, RequestUrl(track, car), next, 0)
    ensures next < run.next <= next + MAX_ERRORS + 2
  {
    var url := RequestUrl(track, car);
    var errors := 0;
    var k := next;
    while true
      invariant errors <= MAX_ERRORS + 1
      invariant k == next + errors
      invariant JsonFrom(server, track, car, url, k, errors) == JsonFrom(server, track, car, url, next, 0)
      decreases MAX_ERRORS + 1 - errors
    {
      var page := server(url, k);
      if page.HttpOk? {
        return JsonRun(Fetched(page.results), k + 1, errors);
      }
      if errors > MAX_ERRORS {
        return JsonRun(FetchFailed(TooManyErrors(File, car, track)), k + 1, errors);
      }
      errors := errors + 1;
      k := k + 1;
    }
  }

  /**
    `get_json` gives up exactly when every request it is allowed
    (`MAX_ERRORS + 2` of them from a fresh counter) fails.
   */
  lemma {:induction false} JsonFailsIffAllFail(server: Server, track: int, car: CarId, url: string, next: nat, errors: nat)
    requires errors <= MAX_ERRORS + 1
    ensures JsonFrom(server, track, car, url, next, errors).result.FetchFailed?
        <==> forall k :: next <= k < next + (MAX_ERRORS + 2 - errors) ==> server(url, k).HttpError?
    decreases MAX_ERRORS + 1 - errors
  {
    if server(url, next).HttpError? && errors <= MAX_ERRORS {
      JsonFailsIffAllFail(server, track, car, url, next + 1, errors + 1);
    }
  }

  /** A page `get_json` returns is the answer to its last request, and every request before it failed. */
  lemma {:induction false} JsonFetchedIsFirstGoodPage(server: Server, track: int, car: CarId, url: string, next: nat, errors: nat)
    requires errors <= MAX_ERRORS + 1
    requires JsonFrom(server, track, car, url, next, errors).result.Fetched?
    ensures var run := JsonFrom(server, track, car, url, next, errors);
      && server(url, run.next - 1) == HttpOk(run.result.results)
      && forall k :: next <= k < run.next - 1 ==> server(url, k).HttpError?
    decreases MAX_ERRORS + 1 - errors
  {
    if server(url, next).HttpError? {
      JsonFetchedIsFirstGoodPage(server, track, car, url, next + 1, errors + 1);
    }
  }

  // ---------------------------------------------------------------------------
  // The scan of the results in get_data
  // ---------------------------------------------------------------------------

  /** The outcome of the `for c in context` loop. */
  datatype ScanResult = NoMatch | Matched(lapTime: nat, rank: nat) | BadTime

  /**
    The scan over the first `n` entries of `context`, one entry at a time
    from the front: an entry of the driver overwrites the time and the rank
    (its 1-based position); a time that does not convert raises.
   */
  function ScanUpTo(context: seq<Entry>, n: nat): ScanResult
    requires n <= |context|
  {
    if n == 0 then NoMatch
    else
      var before := ScanUpTo(context, n - 1);
      var c := context[n - 1];
      if before.BadTime? then BadTime
      else if c.driver == DRIVER then
        match ParseLapTime(c.laptime)
        case None => BadTime
        case Some(t) => Matched(t, n)
      else before
  }

  /** The scan over the whole list. */
  function Scan(context: seq<Entry>): ScanResult {
    ScanUpTo(context, |context|)
  }

  /** The loop itself, counting the entries it visits. */
  method ScanEntries(context: seq<Entry>) returns (r: ScanResult, total: nat)
    ensures r == Scan(context)
    ensures r.BadTime? || total == |context|
  {
    var lapTime := 0;
    var rank: Option<nat> := None;
    var i := 0;
    while i < |context|
      invariant 0 <= i <= |context|
      invariant ScanUpTo(context, i) == if rank.None? then NoMatch else Matched(lapTime, rank.value)
    {
      var c := context[i];
      i := i + 1;
      if c.driver == DRIVER {
        var t := ParseLapTime(c.laptime);
        if t.None? {
          BadTimeStays(context, i);
          return BadTime, i;
        }
        lapTime, rank := t.value, Some(i);
      }
    }
    r := if rank.None? then NoMatch else Matched(lapTime, rank.value);
    total := i;
  }

  /** Once the scan has raised, the rest of the list does not matter. */
  lemma {:induction false} BadTimeStays(context: seq<Entry>, i: nat)
    requires i <= |context|
    requires ScanUpTo(context, i).BadTime?
    ensures Scan(context).BadTime?
    decreases |context| - i
  {
    if i < |context| {
      BadTimeStays(context, i + 1);
    }
  }

  /**
    A match is the driver's LAST entry: its rank is its 1-based position, its
    time is that entry's converted time, and no entry after it is the driver's.
   */
  lemma {:induction false} ScanMatchedIsLast(context: seq<Entry>, n: nat)
    requires n <= |context|
    requires ScanUpTo(context, n).Matched?
    ensures var m := ScanUpTo(context, n);
      && 1 <= m.rank <= n
      && context[m.rank - 1].driver == DRIVER
      && ParseLapTime(context[m.rank - 1].laptime) == Some(m.lapTime)
      && forall j :: m.rank <= j < n ==> context[j].driver != DRIVER
  {
    var before := ScanUpTo(context, n - 1);
    if context[n - 1].driver == DRIVER {
      var t := ParseLapTime(context[n - 1].laptime);
      assert !before.BadTime? && t.Some?;
      assert ScanUpTo(context, n) == Matched(t.value, n);
    } else {
      assert ScanUpTo(context, n) == before;
      ScanMatchedIsLast(context, n - 1);
    }
  }

  /** The scan finds nothing exactly when no entry is the driver's. */
  lemma {:induction false} ScanNoMatchIff(context: seq<Entry>, n: nat)
    requires n <= |context|
    ensures ScanUpTo(context, n).NoMatch? <==> forall j :: 0 <= j < n ==> context[j].driver != DRIVER
  {
    if n > 0 {
      ScanNoMatchIff(context, n - 1);
    }
  }

  /** The scan raises exactly when one of the driver's entries has a time that does not convert. */
  lemma {:induction false} ScanBadTimeIff(context: seq<Entry>, n: nat)
    requires n <= |context|
    ensures ScanUpTo(context, n).BadTime?
        <==> exists j :: 0 <= j < n && context[j].driver == DRIVER && ParseLapTime(context[j].laptime).None?
  {
    if n > 0 {
      ScanBadTimeIff(context, n - 1);
    }
  }

  // ---------------------------------------------------------------------------
  // get_data
  // ---------------------------------------------------------------------------

  /**
    What `get_data` returns: `[wr, lap_time, rank, i]`, `[]`, or an exception.
    The two times are carried in thousandths; the texts the script returns
    are their `Format` (see `LapTime.ConvertIsFormatted`).
   */
  datatype DataOutcome =
    | Row(wr: nat, lapTime: nat, rank: nat, total: nat)
    | NoEntry
    | DataFailed(failure: Failure)

  /** One pass of the `get_data` loop ends the call or asks for another pass. */
  datatype Step = Done(outcome: DataOutcome) | Retry

  /** One pass of the `get_data` loop after `get_json` has returned the list `results`. */
  function Attempt(results: seq<Entry>, track: int, car: CarId): Step {
    if |results| == 0 then
      if track == EXCLUDED_TRACK || car !in FINISHED_CLASSES then Done(NoEntry) else Retry
    else
      match ParseLapTime(results[0].laptime)
      case None => Done(DataFailed(MalformedLapTime))
      case Some(wr) =>
        match Scan(results)
        case BadTime => Done(DataFailed(MalformedLapTime))
        case NoMatch => if car in FINISHED_CLASSES then Retry else Done(NoEntry)
        case Matched(lapTime, rank) => Done(Row(wr, lapTime, rank, |results|))
  }

  /**
    How a `get_data` call ended, where the request cursor is afterwards,
    how many times it called `get_json`, and its final error count.
   */
  datatype DataRun = DataRun(outcome: DataOutcome, next: nat, calls: nat, errors: nat)

  /** `get_data` resumed with `errors` retries counted and the next request numbered `next`. */
  function DataFrom(server: Server, track: int, car: CarId, url: string, next: nat, errors: nat): (run: DataRun)
    requires errors <= MAX_ERRORS + 1
    ensures run.calls <= MAX_ERRORS + 1 - errors
    ensures next <= run.next
    ensures errors <= run.errors <= MAX_ERRORS + 1
    decreases MAX_ERRORS + 1 - errors
  {
    if errors > MAX_ERRORS then DataRun(DataFailed(TooManyErrors(Data, car, track)), next, 0, errors)
    else
      var fetched := JsonFrom(server, track, car, url, next, 0);
      match fetched.result
      case FetchFailed(f) => DataRun(DataFailed(f), fetched.next, 1, errors)
      case Fetched(results) =>
        match Attempt(results, track, car)
        case Done(outcome) => DataRun(outcome, fetched.next, 1, errors)
        case Retry =>
          var rest := DataFrom(server, track, car, url, fetched.next, errors + 1);
          rest.(calls := rest.calls + 1)
  }

  /** The body of the `get_data` loop after `get_json` has returned the list `context`. */
  method ReadPage(context: seq<Entry>, track: int, car: CarId) returns (step: Step)
    ensures step == Attempt(context, track, car)
  {
    // Folded to keep the proof small: the steps below use these definitions only through their contracts and lemmas.
    hide ParseLapTime;
    hide Scan;
    if |context| == 0 {
      if track == EXCLUDED_TRACK || car !in FINISHED_CLASSES {
        return Done(NoEntry);
      }
      return Retry;
    }
    var wr := ParseLapTime(context[0].laptime);
    if wr.None? {
      return Done(DataFailed(MalformedLapTime));
    }
    var scan, total := ScanEntries(context);
    if scan.BadTime? {
      return Done(DataFailed(MalformedLapTime));
    }
    if scan.NoMatch? {
      if car in FINISHED_CLASSES {
        return Retry;
      }
      return Done(NoEntry);
    }
    return Done(Row(wr.value, scan.lapTime, scan.rank, total));
  }

  /** One pass of `get_data` resumed at `next` with `errors` retries counted, case by case. */
  lemma DataFromPass(server: Server, track: int, car: CarId, url: string, next: nat, errors: nat)
    requires errors <= MAX_ERRORS
    ensures var fetched := JsonFrom(server, track, car, url, next, 0);
      fetched.result.FetchFailed? ==>
        DataFrom(server, track, car, url, next, errors) == DataRun(DataFailed(fetched.result.failure), fetched.next, 1, errors)
    ensures var fetched := JsonFrom(server, track, car, url, next, 0);
      fetched.result.Fetched? && Attempt(fetched.result.results, track, car).Done? ==>
        DataFrom(server, track, car, url, next, errors)
        == DataRun(Attempt(fetched.result.results, track, car).outcome, fetched.next, 1, errors)
    ensures var fetched := JsonFrom(server, track, car, url, next, 0);
      fetched.result.Fetched? && Attempt(fetched.result.results, track, car).Retry? ==>
        var rest := DataFrom(server, track, car, url, fetched.next, errors + 1);
        DataFrom(server, track, car, url, next, errors) == rest.(calls := rest.calls + 1)
  {
    // Folded to keep the proof small: the steps below use these definitions only through their contracts and lemmas.
    hide Attempt;
    hide JsonFrom;
  }

  /** Past the retry bound, `get_data` raises without another request. */
  lemma DataFromExhausted(server: Server, track: int, car: CarId, url: string, next: nat, errors: nat)
    requires MAX_ERRORS < errors <= MAX_ERRORS + 1
    ensures DataFrom(server, track, car, url, next, errors) == DataRun(DataFailed(TooManyErrors(Data, car, track)), next, 0, errors)
  {
  }

  /** `get_data`. */
  method GetData(server: Server, track: int, car: CarId, next: nat) returns (run: DataRun)
    ensures run == DataFrom(server, track, car, RequestUrl(track, car), next, 0)
  {
    // Folded to keep the proof small: the steps below use these definitions only through their contracts and lemmas.
    hide Attempt;
    hide JsonFrom;
    hide RequestUrl;
    hide DataFrom;
    var url := RequestUrl(track, car);
    var errors := 0;
    var k := next;
    while true
      invariant errors <= MAX_ERRORS + 1
      invariant var rest := DataFrom(server, track, car, url, k, errors);
        DataFrom(server, track, car, url, next, 0) == rest.(calls := rest.calls + errors)
      decreases MAX_ERRORS + 1 - errors
    {
      if errors > MAX_ERRORS {
        DataFromExhausted(server, track, car, url, k, errors);
        return DataRun(DataFailed(TooManyErrors(Data, car, track)), k, errors, errors);
      }
      var fetched := GetJson(server, track, car, k);
      DataFromPass(server, track, car, url, k, errors);
      if fetched.result.FetchFailed? {
        return DataRun(DataFailed(fetched.result.failure), fetched.next, errors + 1, errors);
      }
      var step := ReadPage(fetched.result.results, track, car);
      if step.Done? {
        return DataRun(step.outcome, fetched.next, errors + 1, errors);
      }
      errors := errors + 1;
      k := fetched.next;
    }
  }

  // ---------------------------------------------------------------------------
  // Properties of one pass
  // ---------------------------------------------------------------------------

  /**
    A row is `[wr, lap_time, rank, total]` where `wr` is the converted time
    of the first entry, `total` is the number of entries, and `rank` and
    `lap_time` come from the driver's last entry.
   */
  lemma AttemptRow(results: seq<Entry>, track: int, car: CarId)
    requires Attempt(results, track, car).Done? && Attempt(results, track, car).outcome.Row?
    ensures var row := Attempt(results, track, car).outcome;
      && |results| > 0
      && ParseLapTime(results[0].laptime) == Some(row.wr)
      && row.total == |results|
      && 1 <= row.rank <= row.total
      && results[row.rank - 1].driver == DRIVER
      && ParseLapTime(results[row.rank - 1].laptime) == Some(row.lapTime)
      && forall j :: row.rank <= j < |results| ==> results[j].driver != DRIVER
  {
    ScanMatchedIsLast(results, |results|);
  }

  /**
    A pass is retried exactly for a finished car whose list is empty (on any
    track but the excluded one) or lists everyone but the driver.
   */
  lemma AttemptRetryIff(results: seq<Entry>, track: int, car: CarId)
    ensures Attempt(results, track, car) == Retry
        <==> car in FINISHED_CLASSES
             && ((|results| == 0 && track != EXCLUDED_TRACK)
                 || (|results| > 0 && ParseLapTime(results[0].laptime).Some?
                     && forall j :: 0 <= j < |results| ==> results[j].driver != DRIVER))
  {
    ScanNoMatchIff(results, |results|);
  }

  /**
    A pass returns `[]` exactly for an empty list on the excluded track or
    for an unfinished car, or for a non-empty list without the driver for an
    unfinished car.
   */
  lemma AttemptNoEntryIff(results: seq<Entry>, track: int, car: CarId)
    ensures Attempt(results, track, car) == Done(NoEntry)
        <==> (|results| == 0 && (track == EXCLUDED_TRACK || car !in FINISHED_CLASSES))
             || (|results| > 0 && car !in FINISHED_CLASSES && ParseLapTime(results[0].laptime).Some?
                 && forall j :: 0 <= j < |results| ==> results[j].driver != DRIVER)
  {
    ScanNoMatchIff(results, |results|);
  }

  /** A pass raises exactly when the record's time or one of the driver's times does not convert. */
  lemma AttemptMalformedIff(results: seq<Entry>, track: int, car: CarId)
    ensures Attempt(results, track, car) == Done(DataFailed(MalformedLapTime))
        <==> |results| > 0
             && (ParseLapTime(results[0].laptime).None?
                 || exists j :: 0 <= j < |results| && results[j].driver == DRIVER && ParseLapTime(results[j].laptime).None?)
  {
    ScanBadTimeIff(results, |results|);
  }

  // ---------------------------------------------------------------------------
  // Properties of a whole get_data call
  // ---------------------------------------------------------------------------

  /**
    The error counter grows by exactly one per retried pass: a call that
    gives up has retried `MAX_ERRORS + 1` passes (one per `get_json` call);
    any other call retried all its passes but the last.
   */
  lemma {:induction false} DataRetryCount(server: Server, track: int, car: CarId, url: string, next: nat, errors: nat)
    requires errors <= MAX_ERRORS + 1
    ensures var run := DataFrom(server, track, car, url, next, errors);
      || (run.errors == MAX_ERRORS + 1 && run.errors == errors + run.calls
          && run.outcome == DataFailed(TooManyErrors(Data, car, track)))
      || (run.errors <= MAX_ERRORS && run.errors + 1 == errors + run.calls)
    decreases MAX_ERRORS + 1 - errors
  {
    // Folded to keep the proof small: the steps below use these definitions only through their contracts and lemmas.
    hide Attempt;
    hide DataFrom;
    if errors <= MAX_ERRORS {
      DataFromPass(server, track, car, url, next, errors);
      var fetched := JsonFrom(server, track, car, url, next, 0);
      if fetched.result.Fetched? && Attempt(fetched.result.results, track, car) == Retry {
        DataRetryCount(server, track, car, url, fetched.next, errors + 1);
      }
    } else {
      DataFromExhausted(server, track, car, url, next, errors);
    }
  }

  /** A returned row or `[]` is what the pass over the page of the call's last request gave. */
  lemma {:induction false} DataOutcomeFromLastPage(server: Server, track: int, car: CarId, url: string, next: nat, errors: nat)
    requires errors <= MAX_ERRORS + 1
    requires DataFrom(server, track, car, url, next, errors).outcome.Row?
          || DataFrom(server, track, car, url, next, errors).outcome.NoEntry?
    ensures var run := DataFrom(server, track, car, url, next, errors);
      && next < run.next
      && server(url, run.next - 1).HttpOk?
      && Attempt(server(url, run.next - 1).results, track, car) == Done(run.outcome)
    decreases MAX_ERRORS + 1 - errors
  {
    // Folded to keep the proof small: the steps below use these definitions only through their contracts and lemmas.
    hide Attempt;
    hide DataFrom;
    hide JsonFrom;
    if errors > MAX_ERRORS {
      DataFromExhausted(server, track, car, url, next, errors);
      return;
    }
    DataFromPass(server, track, car, url, next, errors);
    var run := DataFrom(server, track, car, url, next, errors);
    var fetched := JsonFrom(server, track, car, url, next, 0);
    if fetched.result.Fetched? {
      var results := fetched.result.results;
      JsonFetchedIsFirstGoodPage(server, track, car, url, next, 0);
      var step := Attempt(results, track, car);
      if step == Retry {
        DataOutcomeFromLastPage(server, track, car, url, fetched.next, errors + 1);
        var rest := DataFrom(server, track, car, url, fetched.next, errors + 1);
        assert run.next == rest.next && run.outcome == rest.outcome;
      } else {
        assert run.next == fetched.next && Done(run.outcome) == step;
      }
    }
  }

  /**
    Every `[wr, lap_time, rank, total]` `get_data` returns has
    `1 <= rank <= total`, with `total` the length of a page the endpoint
    answered and `wr` the converted time of that page's first entry.
   */
  lemma DataRowBounds(server: Server, track: int, car: CarId, url: string, next: nat, run: DataRun)
    requires run == DataFrom(server, track, car, url, next, 0) && run.outcome.Row?
    ensures run.next > next && server(url, run.next - 1).HttpOk?
    ensures var page := server(url, run.next - 1).results;
      && 1 <= run.outcome.rank <= run.outcome.total == |page|
      && ParseLapTime(page[0].laptime) == Some(run.outcome.wr)
      && page[run.outcome.rank - 1].driver == DRIVER
      && ParseLapTime(page[run.outcome.rank - 1].laptime) == Some(run.outcome.lapTime)
  {
    // Folded to keep the proof small: the steps below use these definitions only through their contracts and lemmas.
    hide Attempt;
    DataOutcomeFromLastPage(server, track, car, url, next, 0);
    AttemptRow(server(url, run.next - 1).results, track, car);
  }

  /**
    For a finished car on an ordinary track, an endpoint that keeps answering
    with an empty list makes `get_data` call `get_json` `MAX_ERRORS + 1`
    times, one request each, and then give up.
   */
  lemma {:induction false} EmptyForeverExhausts(server: Server, track: int, car: CarId, url: string, next: nat, errors: nat)
    requires errors <= MAX_ERRORS + 1
    requires car in FINISHED_CLASSES && track != EXCLUDED_TRACK
    requires forall k :: server(url, k) == HttpOk([])
    ensures DataFrom(server, track, car, url, next, errors)
         == DataRun(DataFailed(TooManyErrors(Data, car, track)),
                    next + (MAX_ERRORS + 1 - errors), MAX_ERRORS + 1 - errors, MAX_ERRORS + 1)
    decreases MAX_ERRORS + 1 - errors
  {
    if errors <= MAX_ERRORS {
      assert JsonFrom(server, track, car, url, next, 0) == JsonRun(Fetched([]), next + 1, 0);
      EmptyForeverExhausts(server, track, car, url, next + 1, errors + 1);
    }
  }

  /** On the excluded track an empty list is final at once: one request, no error counted. */
  lemma ExcludedTrackEmpty(server: Server, car: CarId, url: string, next: nat)
    requires server(url, next) == HttpOk([])
    ensures DataFrom(server, EXCLUDED_TRACK, car, url, next, 0) == DataRun(NoEntry, next + 1, 1, 0)
  {
    assert JsonFrom(server, EXCLUDED_TRACK, car, url, next, 0) == JsonRun(Fetched([]), next + 1, 0);
  }

  /**
    Every `get_json` call sends at most `MAX_ERRORS + 2` requests, so a
    `get_data` call sends at most that many per `get_json` call.
   */
  lemma {:induction false} DataRequestBound(server: Server, track: int, car: CarId, url: string, next: nat, errors: nat)
    requires errors <= MAX_ERRORS + 1
    ensures var run := DataFrom(server, track, car, url, next, errors);
      run.next - next <= run.calls * (MAX_ERRORS + 2)
    decreases MAX_ERRORS + 1 - errors
  {
    // Folded to keep the proof small: the steps below use these definitions only through their contracts and lemmas.
    hide Attempt;
    hide DataFrom;
    if errors <= MAX_ERRORS {
      DataFromPass(server, track, car, url, next, errors);
      var fetched := JsonFrom(server, track, car, url, next, 0);
      if fetched.result.Fetched? && Attempt(fetched.result.results, track, car) == Retry {
        DataRequestBound(server, track, car, url, fetched.next, errors + 1);
      }
    } else {
      DataFromExhausted(server, track, car, url, next, errors);
    }
  }

  /**
    A page where someone else holds the record in 1:00.000 and the driver is
    second in 1:01.000 gives the row `[60,000, 61,000, 2, 2]`.
   */
  lemma SecondPlaceExample(track: int, car: CarId)
    ensures Attempt([Entry("Alice", "1m 00.000s"), Entry(DRIVER, "1m 01.000s")], track, car)
         == Done(Row(60000, 61000, 2, 2))
  {
    MinuteTimes();
    var page := [Entry("Alice", "1m 00.000s"), Entry(DRIVER, "1m 01.000s")];
    assert ScanUpTo(page, 1) == NoMatch;
  }
}
