/**
 * The per-rider reduction in `ImportRider` (zp/zp.go): one pass over the
 * rider's events that counts rides and races in trailing windows, keeps
 * running maxima of `wkg_ftp`, and remembers the latest event and race.
 */
module Aggregate {
  import opened Wrappers
  import opened Dates
  import opened Events

  /** Go's `Rider` record; dates are Unix seconds, ZeroTime when unset. */
  datatype Rider = Rider(
    name: string,
    zwid: int,
    latestEventDate: int,
    rides: nat,
    races: nat,
    races90: nat,
    races30: nat,
    ftp90: real,
    ftp60: real,
    ftp30: real,
    latestRace: string,
    latestRaceDate: int,
    latestEvent: string,
    latestRaceAvgWkg: real,
    latestRaceWkgFtp: real)

  /** The zero `Rider` with only its id set. */
  function EmptyRider(zwid: int): Rider {
    Rider("", zwid, ZeroTime, 0, 0, 0, 0, 0.0, 0.0, 0.0, "", ZeroTime, "", 0.0, 0.0)
  }

  /** The import stops at the first event whose ratios cannot be read. */
  datatype Abort = Abort(index: nat, error: RatioError)

  // ---------------------------------------------------------------------
  // Reference definitions of each accumulator, one per field
  // ---------------------------------------------------------------------

  predicate InWindow(now: int, e: Event, days: int) {
    DaysAgo(now, e.date) <= days
  }

  /** Whether `e` adds one to a counter over `days` (races only, or all events). */
  predicate Counted(now: int, e: Event, days: int, racesOnly: bool) {
    InWindow(now, e, days) && (e.isRace || !racesOnly)
  }

  /** How many events of `evs` a counter over `days` admits. */
  function Count(evs: seq<Event>, now: int, days: int, racesOnly: bool): (n: nat)
    ensures n <= |evs|
    decreases |evs|
  {
    if evs == [] then 0
    else
      Count(evs[..|evs| - 1], now, days, racesOnly)
      + (if Counted(now, evs[|evs| - 1], days, racesOnly) then 1 else 0)
  }

  /**
   * The largest `wkg_ftp` among events in the window, or 0 when there is
   * none or none is positive.
   */
  function MaxFtp(evs: seq<Event>, now: int, days: int): (m: real)
    ensures m >= 0.0
    decreases |evs|
  {
    if evs == [] then 0.0
    else
      var k := |evs| - 1;
      var m := MaxFtp(evs[..k], now, days);
      if InWindow(now, evs[k], days) && evs[k].wkgFtp > m then evs[k].wkgFtp else m
  }

  /** Events that can become "latest": strictly after the zero time, and races when asked. */
  predicate Eligible(e: Event, racesOnly: bool) {
    (e.isRace || !racesOnly) && e.date > ZeroTime
  }

  /** `evs[i]` has the greatest date among eligible events, and no earlier eligible event shares it. */
  predicate IsFirstLatest(evs: seq<Event>, i: int, racesOnly: bool) {
    && 0 <= i < |evs|
    && Eligible(evs[i], racesOnly)
    && (forall j :: 0 <= j < |evs| && Eligible(evs[j], racesOnly) ==> evs[j].date <= evs[i].date)
    && (forall j :: 0 <= j < i && Eligible(evs[j], racesOnly) ==> evs[j].date < evs[i].date)
  }

  /** Index of the latest eligible event, first seen on ties; None when no event is eligible. */
  function Latest(evs: seq<Event>, racesOnly: bool): (r: Option<nat>)
    ensures r.Some? ==> r.value < |evs| && Eligible(evs[r.value], racesOnly)
    decreases |evs|
  {
    if evs == [] then None
    else
      var k := |evs| - 1;
      var p := Latest(evs[..k], racesOnly);
      if Eligible(evs[k], racesOnly) && (p.None? || evs[k].date > evs[p.value].date) then Some(k)
      else p
  }

  /** The latest eligible event itself, first seen on ties. */
  function LatestOf(evs: seq<Event>, racesOnly: bool): Option<Event> {
    match Latest(evs, racesOnly)
    case None => None
    case Some(i) => Some(evs[i])
  }

  /** The date of an optional event, ZeroTime when absent. */
  function DateOr(latest: Option<Event>): int {
    if latest.Some? then latest.value.date else ZeroTime
  }

  /** The snapshot the loop builds from the normalised events. */
  function Summarize(zwid: int, evs: seq<Event>, now: int): Rider {
    var latestEvent := LatestOf(evs, false);
    var latestRace := LatestOf(evs, true);
    Rider(
      name := "",
      zwid := zwid,
      latestEventDate := DateOr(latestEvent),
      rides := Count(evs, now, 365, false),
      races := Count(evs, now, 365, true),
      races90 := Count(evs, now, 90, true),
      races30 := Count(evs, now, 30, true),
      ftp90 := MaxFtp(evs, now, 90),
      ftp60 := MaxFtp(evs, now, 60),
      ftp30 := MaxFtp(evs, now, 30),
      latestRace := if latestRace.Some? then latestRace.value.title else "",
      latestRaceDate := DateOr(latestRace),
      latestEvent := if latestEvent.Some? then latestEvent.value.title else "",
      latestRaceAvgWkg := if latestRace.Some? then latestRace.value.avgWkg else 0.0,
      latestRaceWkgFtp := if latestRace.Some? then latestRace.value.wkgFtp else 0.0)
  }

  /**
   * Normalises every event, stopping at the first one whose ratios cannot
   * be read.
   */
  function NormalizeAll(data: seq<RawEvent>, parse: string -> Option<real>): Result<seq<Event>, Abort>
    decreases |data|
  {
    if data == [] then Success([])
    else
      var k := |data| - 1;
      match NormalizeAll(data[..k], parse)
      case Failure(a) => Failure(a)
      case Success(evs) =>
        match Normalize(data[k], parse)
        case Failure(err) => Failure(Abort(k, err))
        case Success(e) => Success(evs + [e])
  }

  /** What `ImportRider` returns for rider `zwid`, given the decoded event list. */
  function Import(zwid: int, data: seq<RawEvent>, now: int, parse: string -> Option<real>): Result<Rider, Abort> {
    match NormalizeAll(data, parse)
    case Failure(a) => Failure(a)
    case Success(evs) => Success(Summarize(zwid, evs, now))
  }

  // ---------------------------------------------------------------------
  // One step of the reduction
  // ---------------------------------------------------------------------

  lemma CountSnoc(evs: seq<Event>, e: Event, now: int, days: int, racesOnly: bool)
    ensures Count(evs + [e], now, days, racesOnly)
         == Count(evs, now, days, racesOnly) + if Counted(now, e, days, racesOnly) then 1 else 0
  {
    assert (evs + [e])[..|evs|] == evs;
  }

  lemma MaxFtpSnoc(evs: seq<Event>, e: Event, now: int, days: int)
    ensures MaxFtp(evs + [e], now, days)
         == if InWindow(now, e, days) && e.wkgFtp > MaxFtp(evs, now, days) then e.wkgFtp else MaxFtp(evs, now, days)
  {
    assert (evs + [e])[..|evs|] == evs;
  }

  lemma LatestSnoc(evs: seq<Event>, e: Event, racesOnly: bool)
    ensures LatestOf(evs + [e], racesOnly)
         == if (e.isRace || !racesOnly) && e.date > DateOr(LatestOf(evs, racesOnly)) then Some(e)
            else LatestOf(evs, racesOnly)
  {
    assert (evs + [e])[..|evs|] == evs;
  }

  // ---------------------------------------------------------------------
  // The loop
  // ---------------------------------------------------------------------

  /**
   * The body of `ImportRider` after the rider's events have been fetched
   * and decoded: `now` stands for the clock, `parse` for strconv.ParseFloat.
   */
  method ImportRider(riderID: int, data: seq<RawEvent>, now: int, parse: string -> Option<real>)
    returns (res: Result<Rider, Abort>)
    ensures res == Import(riderID, data, now, parse)
  {
    if |data| < 1 {
      EmptySnapshot(riderID, now);
      return Success(EmptyRider(riderID));
    }

    // The fields of `rider` that the loop updates, all starting at zero.
    var rides, races, races90, races30 := 0, 0, 0, 0;
    var ftp90, ftp60, ftp30 := 0.0, 0.0, 0.0;
    var latestEvent, latestRace := "", "";
    var latestRaceAvgWkg, latestRaceWkgFtp := 0.0, 0.0;
    var latestEventDate := ZeroTime;
    var latestRaceDate := ZeroTime;
    ghost var evs: seq<Event> := [];
    for i := 0 to |data|
      invariant NormalizeAll(data[..i], parse) == Success(evs)
      invariant rides == Count(evs, now, 365, false) && races == Count(evs, now, 365, true)
      invariant races90 == Count(evs, now, 90, true) && races30 == Count(evs, now, 30, true)
      invariant ftp90 == MaxFtp(evs, now, 90)
      invariant ftp60 == MaxFtp(evs, now, 60)
      invariant ftp30 == MaxFtp(evs, now, 30)
      invariant latestEventDate == DateOr(LatestOf(evs, false))
      invariant latestEvent == if LatestOf(evs, false).Some? then LatestOf(evs, false).value.title else ""
      invariant latestRaceDate == DateOr(LatestOf(evs, true))
      invariant LatestOf(evs, true).None? ==>
        latestRace == "" && latestRaceAvgWkg == 0.0 && latestRaceWkgFtp == 0.0
      invariant LatestOf(evs, true).Some? ==>
        var race := LatestOf(evs, true).value;
        latestRace == race.title && latestRaceAvgWkg == race.avgWkg && latestRaceWkgFtp == race.wkgFtp
    {
      var raw := data[i];
      var date := UnixTime(raw.eventDateSecs);
      var daysAgo := DaysAgo(now, date);
      var isRace := IsRace(raw.eventType);

      if daysAgo <= 365 {
        rides := rides + 1;
        if isRace {
          races := races + 1;
        }
      }

      // wkg_ftp, then avg_wkg; the first malformed one aborts the import.
      NormalizeStep(data, i, parse);
      var normalized := Normalize(raw, parse);
      if normalized.Failure? {
        AbortPropagates(data, i + 1, parse);
        return Failure(Abort(i, normalized.error));
      }
      var e := normalized.value;
      CountSnoc(evs, e, now, 365, false);
      CountSnoc(evs, e, now, 365, true);
      assert rides == Count(evs + [e], now, 365, false) && races == Count(evs + [e], now, 365, true);

      races90, races30, ftp90, ftp60, ftp30 := ObserveRecent(evs, e, now, daysAgo, races90, races30, ftp90, ftp60, ftp30);
      latestEventDate, latestEvent, latestRaceDate, latestRace, latestRaceAvgWkg, latestRaceWkgFtp :=
        ObserveLatest(evs, e, latestEventDate, latestEvent, latestRaceDate, latestRace, latestRaceAvgWkg, latestRaceWkgFtp);
      evs := evs + [e];
    }

    assert data[..|data|] == data;
    return Success(Rider("", riderID, latestEventDate, rides, races, races90, races30, ftp90, ftp60, ftp30,
                         latestRace, latestRaceDate, latestEvent, latestRaceAvgWkg, latestRaceWkgFtp));
  }

  /**
   * The 90-, 60- and 30-day block of the loop body: race counts and
   * running `wkg_ftp` maxima, each updated when the event lies in its window.
   */
  method ObserveRecent(ghost evs: seq<Event>, e: Event, now: int, daysAgo: int,
                       races90: nat, races30: nat, ftp90: real, ftp60: real, ftp30: real)
    returns (races90': nat, races30': nat, ftp90': real, ftp60': real, ftp30': real)
    requires daysAgo == DaysAgo(now, e.date)
    requires races90 == Count(evs, now, 90, true) && races30 == Count(evs, now, 30, true)
    requires ftp90 == MaxFtp(evs, now, 90) && ftp60 == MaxFtp(evs, now, 60) && ftp30 == MaxFtp(evs, now, 30)
    ensures races90' == Count(evs + [e], now, 90, true) && races30' == Count(evs + [e], now, 30, true)
    ensures ftp90' == MaxFtp(evs + [e], now, 90)
    ensures ftp60' == MaxFtp(evs + [e], now, 60)
    ensures ftp30' == MaxFtp(evs + [e], now, 30)
  {
    races90', races30', ftp90', ftp60', ftp30' := races90, races30, ftp90, ftp60, ftp30;
    if daysAgo <= 90 {
      if e.wkgFtp > ftp90' {
        ftp90' := e.wkgFtp;
      }
      if e.isRace {
        races90' := races90' + 1;
      }
    }
    MaxFtpSnoc(evs, e, now, 90);
    CountSnoc(evs, e, now, 90, true);

    if daysAgo <= 60 {
      if e.wkgFtp > ftp60' {
        ftp60' := e.wkgFtp;
      }
    }
    MaxFtpSnoc(evs, e, now, 60);

    if daysAgo <= 30 {
      if e.isRace {
        races30' := races30' + 1;
      }
      if e.wkgFtp > ftp30' {
        ftp30' := e.wkgFtp;
      }
    }
    MaxFtpSnoc(evs, e, now, 30);
    CountSnoc(evs, e, now, 30, true);
  }

  /**
   * The "latest" block of the loop body: an event strictly later than the
   * latest so far replaces it, and a race strictly later than the latest
   * race replaces that race, its date and both its ratios.
   */
  method ObserveLatest(ghost evs: seq<Event>, e: Event,
                       latestEventDate: int, latestEvent: string,
                       latestRaceDate: int, latestRace: string, latestRaceAvgWkg: real, latestRaceWkgFtp: real)
    returns (latestEventDate': int, latestEvent': string,
             latestRaceDate': int, latestRace': string, latestRaceAvgWkg': real, latestRaceWkgFtp': real)
    requires latestEventDate == DateOr(LatestOf(evs, false))
    requires latestEvent == if LatestOf(evs, false).Some? then LatestOf(evs, false).value.title else ""
    requires latestRaceDate == DateOr(LatestOf(evs, true))
    requires LatestOf(evs, true).None? ==> latestRace == "" && latestRaceAvgWkg == 0.0 && latestRaceWkgFtp == 0.0
    requires LatestOf(evs, true).Some? ==>
      var race := LatestOf(evs, true).value;
      latestRace == race.title && latestRaceAvgWkg == race.avgWkg && latestRaceWkgFtp == race.wkgFtp
    ensures latestEventDate' == DateOr(LatestOf(evs + [e], false))
    ensures latestEvent' == if LatestOf(evs + [e], false).Some? then LatestOf(evs + [e], false).value.title else ""
    ensures latestRaceDate' == DateOr(LatestOf(evs + [e], true))
    ensures LatestOf(evs + [e], true).None? ==> latestRace' == "" && latestRaceAvgWkg' == 0.0 && latestRaceWkgFtp' == 0.0
    ensures LatestOf(evs + [e], true).Some? ==>
      var race := LatestOf(evs + [e], true).value;
      latestRace' == race.title && latestRaceAvgWkg' == race.avgWkg && latestRaceWkgFtp' == race.wkgFtp
  {
    latestEventDate', latestEvent' := latestEventDate, latestEvent;
    latestRaceDate', latestRace', latestRaceAvgWkg', latestRaceWkgFtp' :=
      latestRaceDate, latestRace, latestRaceAvgWkg, latestRaceWkgFtp;
    if e.date > latestEventDate' {
      latestEventDate' := e.date;
      latestEvent' := e.title;
    }
    LatestSnoc(evs, e, false);
    if e.isRace && e.date > latestRaceDate' {
      latestRaceDate' := e.date;
      latestRace' := e.title;
      latestRaceAvgWkg' := e.avgWkg;
      latestRaceWkgFtp' := e.wkgFtp;
    }
    LatestSnoc(evs, e, true);
  }

  /** Normalising one more event extends the list, or reports that event as the first failure. */
  lemma NormalizeStep(data: seq<RawEvent>, i: nat, parse: string -> Option<real>)
    requires i < |data|
    ensures NormalizeAll(data[..i + 1], parse)
         == match NormalizeAll(data[..i], parse)
            case Failure(a) => Failure(a)
            case Success(evs) =>
              match Normalize(data[i], parse)
              case Failure(err) => Failure(Abort(i, err))
              case Success(e) => Success(evs + [e])
  {
    assert data[..i + 1][..i] == data[..i];
  }

  /** A failure in a prefix of the events is the failure of the whole import. */
  lemma {:induction false} AbortPropagates(data: seq<RawEvent>, n: nat, parse: string -> Option<real>)
    requires n <= |data|
    requires NormalizeAll(data[..n], parse).Failure?
    ensures NormalizeAll(data, parse) == NormalizeAll(data[..n], parse)
    decreases |data| - n
  {
    if n < |data| {
      assert data[..n + 1][..n] == data[..n];
      AbortPropagates(data, n + 1, parse);
    } else {
      assert data[..n] == data;
    }
  }

  // ---------------------------------------------------------------------
  // What the reference definitions mean
  // ---------------------------------------------------------------------

  /**
   * Each running maximum is 0 or a `wkg_ftp` of an event in its window,
   * and no event in the window exceeds it.
   */
  lemma {:induction false} MaxFtpIsMaximum(evs: seq<Event>, now: int, days: int)
    ensures MaxFtp(evs, now, days) >= 0.0
    ensures forall i :: 0 <= i < |evs| && InWindow(now, evs[i], days) ==> evs[i].wkgFtp <= MaxFtp(evs, now, days)
    ensures MaxFtp(evs, now, days) == 0.0
         || exists i :: 0 <= i < |evs| && InWindow(now, evs[i], days) && evs[i].wkgFtp == MaxFtp(evs, now, days)
    decreases |evs|
  {
    if evs != [] {
      var k := |evs| - 1;
      var prefix := evs[..k];
      MaxFtpIsMaximum(prefix, now, days);
      assert forall i :: 0 <= i < k ==> prefix[i] == evs[i];
      var m := MaxFtp(prefix, now, days);
      if !(InWindow(now, evs[k], days) && evs[k].wkgFtp > m) && m != 0.0 {
        var j :| 0 <= j < k && InWindow(now, prefix[j], days) && prefix[j].wkgFtp == m;
        assert evs[j] == prefix[j];
      }
    }
  }

  /**
   * `Latest` finds the eligible event with the greatest date, the first one
   * in input order among those sharing it, and finds none exactly when no
   * event is eligible.
   */
  lemma {:induction false} LatestIsFirstLatest(evs: seq<Event>, racesOnly: bool)
    ensures Latest(evs, racesOnly).None? <==> forall i :: 0 <= i < |evs| ==> !Eligible(evs[i], racesOnly)
    ensures Latest(evs, racesOnly).Some? ==> IsFirstLatest(evs, Latest(evs, racesOnly).value, racesOnly)
    decreases |evs|
  {
    if evs != [] {
      var k := |evs| - 1;
      var prefix := evs[..k];
      LatestIsFirstLatest(prefix, racesOnly);
      assert forall i :: 0 <= i < k ==> prefix[i] == evs[i];
    }
  }

  /**
   * Normalising the list succeeds exactly when every event normalises, and
   * otherwise reports the first event that does not, with its error.
   */
  lemma {:induction false} NormalizeAllSpec(data: seq<RawEvent>, parse: string -> Option<real>)
    ensures NormalizeAll(data, parse).Success? <==> forall i :: 0 <= i < |data| ==> Normalize(data[i], parse).Success?
    ensures NormalizeAll(data, parse).Success? ==>
      var evs := NormalizeAll(data, parse).value;
      |evs| == |data| && forall i :: 0 <= i < |data| ==> Normalize(data[i], parse) == Success(evs[i])
    ensures NormalizeAll(data, parse).Failure? ==>
      var a := NormalizeAll(data, parse).error;
      && a.index < |data|
      && Normalize(data[a.index], parse) == Failure(a.error)
      && forall i :: 0 <= i < a.index ==> Normalize(data[i], parse).Success?
    decreases |data|
  {
    if data != [] {
      var k := |data| - 1;
      var prefix := data[..k];
      NormalizeAllSpec(prefix, parse);
      assert forall i :: 0 <= i < k ==> prefix[i] == data[i];
    }
  }

  // ---------------------------------------------------------------------
  // Windows
  // ---------------------------------------------------------------------

  /**
   * A wider window, or counting all events rather than races only, never
   * counts fewer: every event a narrower counter admits, a wider one admits.
   */
  lemma {:induction false} CountMonotone(evs: seq<Event>, now: int, d1: int, races1: bool, d2: int, races2: bool)
    requires d1 <= d2
    requires races2 ==> races1
    ensures Count(evs, now, d1, races1) <= Count(evs, now, d2, races2)
    decreases |evs|
  {
    if evs != [] {
      CountMonotone(evs[..|evs| - 1], now, d1, races1, d2, races2);
    }
  }

  /** Running maxima of nested windows are nested. */
  lemma MaxFtpMonotone(evs: seq<Event>, now: int, d1: int, d2: int)
    requires d1 <= d2
    ensures MaxFtp(evs, now, d1) <= MaxFtp(evs, now, d2)
  {
    MaxFtpIsMaximum(evs, now, d1);
    MaxFtpIsMaximum(evs, now, d2);
    if MaxFtp(evs, now, d1) != 0.0 {
      var i :| 0 <= i < |evs| && InWindow(now, evs[i], d1) && evs[i].wkgFtp == MaxFtp(evs, now, d1);
      assert InWindow(now, evs[i], d2);
    }
  }

  /** The events that are races, in input order. */
  function RacesOf(evs: seq<Event>): (races: seq<Event>)
    decreases |evs|
  {
    if evs == [] then []
    else RacesOf(evs[..|evs| - 1]) + (if evs[|evs| - 1].isRace then [evs[|evs| - 1]] else [])
  }

  /** `RacesOf` keeps every race and nothing else. */
  lemma {:induction false} RacesOfSelects(evs: seq<Event>)
    ensures forall e :: e in RacesOf(evs) <==> e in evs && e.isRace
    decreases |evs|
  {
    if evs != [] {
      var k := |evs| - 1;
      RacesOfSelects(evs[..k]);
      assert evs == evs[..k] + [evs[k]];
    }
  }

  /** A race counter counts exactly the races that a ride counter over the same window would. */
  lemma {:induction false} RaceCountIsRideCountOfRaces(evs: seq<Event>, now: int, days: int)
    ensures Count(evs, now, days, true) == Count(RacesOf(evs), now, days, false)
    decreases |evs|
  {
    if evs != [] {
      var k := |evs| - 1;
      RaceCountIsRideCountOfRaces(evs[..k], now, days);
      if evs[k].isRace {
        CountSnoc(RacesOf(evs[..k]), evs[k], now, days, false);
      } else {
        assert RacesOf(evs) == RacesOf(evs[..k]) + [] == RacesOf(evs[..k]);
      }
    }
  }

  // ---------------------------------------------------------------------
  // Properties of the snapshot
  // ---------------------------------------------------------------------

  /** With no events only the id is set: every counter and ratio is 0 and both dates unset. */
  lemma EmptySnapshot(zwid: int, now: int)
    ensures Summarize(zwid, [], now) == EmptyRider(zwid)
  {
  }

  /**
   * The snapshot's counters and maxima nest like their windows, and the
   * latest race is never later than the latest event.
   */
  lemma SnapshotInvariants(zwid: int, evs: seq<Event>, now: int)
    ensures var r := Summarize(zwid, evs, now);
      && r.races30 <= r.races90 <= r.races <= r.rides <= |evs|
      && 0.0 <= r.ftp30 <= r.ftp60 <= r.ftp90
      && r.latestRaceDate <= r.latestEventDate
  {
    CountMonotone(evs, now, 30, true, 90, true);
    CountMonotone(evs, now, 90, true, 365, true);
    CountMonotone(evs, now, 365, true, 365, false);
    MaxFtpIsMaximum(evs, now, 30);
    MaxFtpMonotone(evs, now, 30, 60);
    MaxFtpMonotone(evs, now, 60, 90);
    LatestIsFirstLatest(evs, false);
    LatestIsFirstLatest(evs, true);
    if Latest(evs, true).Some? {
      assert Eligible(evs[Latest(evs, true).value], false);
    }
  }

  /**
   * The latest event is the greatest date over all events, whatever their
   * age, titled by the first event in input order that has it; it stays
   * unset only when no event is dated after the zero time.
   */
  lemma LatestEventOfSnapshot(zwid: int, evs: seq<Event>, now: int)
    ensures var r := Summarize(zwid, evs, now);
      && (r.latestEventDate == ZeroTime <==> forall i :: 0 <= i < |evs| ==> evs[i].date <= ZeroTime)
      && (r.latestEventDate == ZeroTime ==> r.latestEvent == "")
      && (r.latestEventDate != ZeroTime ==>
            exists i :: IsFirstLatest(evs, i, false) && evs[i].date == r.latestEventDate && evs[i].title == r.latestEvent)
  {
    LatestIsFirstLatest(evs, false);
    var p := Latest(evs, false);
    if p.Some? {
      assert IsFirstLatest(evs, p.value, false);
    }
  }

  /**
   * The latest race is the greatest date over race events only, first seen
   * on ties, and its title and both ratios come from that same event; with
   * no race dated after the zero time all four keep their zero values.
   */
  lemma LatestRaceOfSnapshot(zwid: int, evs: seq<Event>, now: int)
    ensures var r := Summarize(zwid, evs, now);
      && (r.latestRaceDate == ZeroTime <==> forall i :: 0 <= i < |evs| && evs[i].isRace ==> evs[i].date <= ZeroTime)
      && (r.latestRaceDate == ZeroTime ==> r.latestRace == "" && r.latestRaceAvgWkg == 0.0 && r.latestRaceWkgFtp == 0.0)
      && (r.latestRaceDate != ZeroTime ==>
            exists i :: IsFirstLatest(evs, i, true)
                        && evs[i] == Event(r.latestRaceDate, true, r.latestRace, r.latestRaceAvgWkg, r.latestRaceWkgFtp))
  {
    LatestIsFirstLatest(evs, true);
    var p := Latest(evs, true);
    if p.Some? {
      assert IsFirstLatest(evs, p.value, true);
    }
  }

  /** Of two events on the same date, the one that comes first names the latest event. */
  lemma FirstSeenWinsTies(zwid: int, a: Event, b: Event, now: int)
    requires a.date == b.date > ZeroTime
    ensures Summarize(zwid, [a, b], now).latestEvent == a.title
    ensures Summarize(zwid, [b, a], now).latestEvent == b.title
  {
    FirstOfTwoIsLatest(a, b);
    FirstOfTwoIsLatest(b, a);
  }

  /** The first of two same-dated events is the latest of the pair. */
  lemma FirstOfTwoIsLatest(a: Event, b: Event)
    requires a.date == b.date > ZeroTime
    ensures LatestOf([a, b], false) == Some(a)
  {
    assert [a, b] == [a] + [b] && [a] == [] + [a];
    LatestSnoc([], a, false);
    LatestSnoc([a], b, false);
  }

  // ---------------------------------------------------------------------
  // Order of the input
  // ---------------------------------------------------------------------

  lemma {:induction false} CountAppend(u: seq<Event>, v: seq<Event>, now: int, days: int, racesOnly: bool)
    ensures Count(u + v, now, days, racesOnly) == Count(u, now, days, racesOnly) + Count(v, now, days, racesOnly)
    decreases |v|
  {
    if v == [] {
      assert u + v == u;
    } else {
      var k := |v| - 1;
      CountAppend(u, v[..k], now, days, racesOnly);
      assert u + v == (u + v[..k]) + [v[k]];
      assert v == v[..k] + [v[k]];
      CountSnoc(u + v[..k], v[k], now, days, racesOnly);
      CountSnoc(v[..k], v[k], now, days, racesOnly);
    }
  }

  /** Counters depend only on which events there are, not on their order. */
  lemma {:induction false} CountPermutation(a: seq<Event>, b: seq<Event>, now: int, days: int, racesOnly: bool)
    requires multiset(a) == multiset(b)
    ensures Count(a, now, days, racesOnly) == Count(b, now, days, racesOnly)
    decreases |a|
  {
    if a == [] {
      assert |b| == |multiset(b)| == 0;
    } else {
      var k := |a| - 1;
      var x := a[k];
      assert a == a[..k] + [x];
      assert x in multiset(b);
      var j :| 0 <= j < |b| && b[j] == x;
      assert b == b[..j] + [x] + b[j + 1..];
      var rest := b[..j] + b[j + 1..];
      assert multiset(rest) == multiset(b) - multiset{x};
      CountPermutation(a[..k], rest, now, days, racesOnly);
      CountSnoc(a[..k], x, now, days, racesOnly);
      CountAppend(b[..j] + [x], b[j + 1..], now, days, racesOnly);
      CountSnoc(b[..j], x, now, days, racesOnly);
      CountAppend(b[..j], b[j + 1..], now, days, racesOnly);
    }
  }

  /** A maximum over events that all occur in `b` is at most the maximum over `b`. */
  lemma MaxFtpDominated(a: seq<Event>, b: seq<Event>, now: int, days: int)
    requires forall x :: x in a ==> x in b
    ensures MaxFtp(a, now, days) <= MaxFtp(b, now, days)
  {
    MaxFtpIsMaximum(a, now, days);
    MaxFtpIsMaximum(b, now, days);
    if MaxFtp(a, now, days) != 0.0 {
      var i :| 0 <= i < |a| && InWindow(now, a[i], days) && a[i].wkgFtp == MaxFtp(a, now, days);
      assert a[i] in b;
      var j :| 0 <= j < |b| && b[j] == a[i];
    }
  }

  /** A latest date over events that all occur in `b` is at most the latest date over `b`. */
  lemma LatestDateDominated(a: seq<Event>, b: seq<Event>, racesOnly: bool)
    requires forall x :: x in a ==> x in b
    ensures DateOr(LatestOf(a, racesOnly)) <= DateOr(LatestOf(b, racesOnly))
  {
    LatestIsFirstLatest(a, racesOnly);
    LatestIsFirstLatest(b, racesOnly);
    if Latest(a, racesOnly).Some? {
      var i := Latest(a, racesOnly).value;
      assert a[i] in b;
      var j :| 0 <= j < |b| && b[j] == a[i];
      assert Eligible(b[j], racesOnly);
    }
  }

  /**
   * Reordering the events changes neither the counters, nor the maxima, nor
   * the two latest dates. Order decides only which of several same-dated
   * events supplies the latest event's title, and which same-dated race
   * supplies the latest race's title and both its ratios.
   */
  lemma OrderIndependence(zwid: int, a: seq<Event>, b: seq<Event>, now: int)
    requires multiset(a) == multiset(b)
    ensures var r, r' := Summarize(zwid, a, now), Summarize(zwid, b, now);
      && r.rides == r'.rides && r.races == r'.races && r.races90 == r'.races90 && r.races30 == r'.races30
      && r.ftp90 == r'.ftp90 && r.ftp60 == r'.ftp60 && r.ftp30 == r'.ftp30
      && r.latestEventDate == r'.latestEventDate && r.latestRaceDate == r'.latestRaceDate
  {
    assert forall x :: x in a <==> x in multiset(a);
    assert forall x :: x in b <==> x in multiset(b);
    CountPermutation(a, b, now, 365, false);
    CountPermutation(a, b, now, 365, true);
    CountPermutation(a, b, now, 90, true);
    CountPermutation(a, b, now, 30, true);
    MaxFtpDominated(a, b, now, 90);
    MaxFtpDominated(b, a, now, 90);
    MaxFtpDominated(a, b, now, 60);
    MaxFtpDominated(b, a, now, 60);
    MaxFtpDominated(a, b, now, 30);
    MaxFtpDominated(b, a, now, 30);
    LatestDateDominated(a, b, false);
    LatestDateDominated(b, a, false);
    LatestDateDominated(a, b, true);
    LatestDateDominated(b, a, true);
  }

  // ---------------------------------------------------------------------
  // The import as a whole
  // ---------------------------------------------------------------------

  /**
   * The import aborts exactly when some event, however old, has a ratio
   * that cannot be read, and then names the first such event.
   */
  lemma ImportAborts(zwid: int, data: seq<RawEvent>, now: int, parse: string -> Option<real>)
    ensures Import(zwid, data, now, parse).Failure?
        <==> exists i :: 0 <= i < |data| && Normalize(data[i], parse).Failure?
    ensures Import(zwid, data, now, parse).Failure? ==>
      var a := Import(zwid, data, now, parse).error;
      && a.index < |data|
      && Normalize(data[a.index], parse) == Failure(a.error)
      && forall i :: 0 <= i < a.index ==> Normalize(data[i], parse).Success?
  {
    NormalizeAllSpec(data, parse);
  }

  /**
   * An `event_date` so large that `time.Unix` wraps gives an event that no
   * window admits and that never becomes the latest event or race.
   */
  lemma WrappedDateIgnored(raw: RawEvent, parse: string -> Option<real>, now: int, days: nat)
    requires Normalize(raw, parse).Success?
    requires raw.eventDateSecs > MaxInt64 + ZeroTime
    requires now >= ZeroTime && days <= 365
    ensures !InWindow(now, Normalize(raw, parse).value, days)
    ensures !Eligible(Normalize(raw, parse).value, false) && !Eligible(Normalize(raw, parse).value, true)
  {
    WrappedDateInNoWindow(now, raw.eventDateSecs, days);
  }

  /** A rider with no events is returned with only its id set. */
  lemma ImportNoEvents(zwid: int, now: int, parse: string -> Option<real>)
    ensures Import(zwid, [], now, parse) == Success(EmptyRider(zwid))
  {
  }

  /** The first event of the worked example: a race 40 days old. */
  function ExampleFirst(now: int): Event
  {
    Event(now - 40 * SecondsPerDay, true, "E1", 3.0, 1.10)
  }

  /** The second event of the worked example: a race 10 days old. */
  function ExampleSecond(now: int): Event
  {
    Event(now - 10 * SecondsPerDay, true, "E2", 3.5, 1.05)
  }

  /** The third event of the worked example: a ride 400 days old. */
  function ExampleThird(now: int): Event
  {
    Event(now - 400 * SecondsPerDay, false, "E3", 2.5, 2.0)
  }

  /** The worked example after its first event. */
  lemma ExampleAfterFirst(now: int)
    requires now > 0
    ensures var evs := [ExampleFirst(now)];
      && Count(evs, now, 365, false) == 1 && Count(evs, now, 365, true) == 1
      && Count(evs, now, 90, true) == 1 && Count(evs, now, 30, true) == 0
      && MaxFtp(evs, now, 90) == 1.10 && MaxFtp(evs, now, 60) == 1.10 && MaxFtp(evs, now, 30) == 0.0
      && LatestOf(evs, false) == Some(ExampleFirst(now)) && LatestOf(evs, true) == Some(ExampleFirst(now))
  {
    var e1 := ExampleFirst(now);
    assert DaysAgo(now, e1.date) == 40;
    assert [e1] == [] + [e1];
    StepAll([], e1, now);
  }

  /** The worked example after its second event. */
  lemma ExampleAfterSecond(now: int)
    requires now > 0
    ensures var evs := [ExampleFirst(now), ExampleSecond(now)];
      && Count(evs, now, 365, false) == 2 && Count(evs, now, 365, true) == 2
      && Count(evs, now, 90, true) == 2 && Count(evs, now, 30, true) == 1
      && MaxFtp(evs, now, 90) == 1.10 && MaxFtp(evs, now, 60) == 1.10 && MaxFtp(evs, now, 30) == 1.05
      && LatestOf(evs, false) == Some(ExampleSecond(now)) && LatestOf(evs, true) == Some(ExampleSecond(now))
  {
    var e1, e2 := ExampleFirst(now), ExampleSecond(now);
    ExampleAfterFirst(now);
    assert DaysAgo(now, e2.date) == 10;
    assert [e1, e2] == [e1] + [e2];
    StepAll([e1], e2, now);
  }

  /** The worked example: two recent races and one ride from over a year ago. */
  lemma ThreeEventExample(now: int)
    requires now > 0
    ensures
      var e2 := ExampleSecond(now);
      var r := Summarize(7, [ExampleFirst(now), e2, ExampleThird(now)], now);
      && r.rides == 2 && r.races == 2 && r.races90 == 2 && r.races30 == 1
      && r.ftp90 == 1.10 && r.ftp60 == 1.10 && r.ftp30 == 1.05
      && r.latestEventDate == e2.date && r.latestEvent == "E2"
      && r.latestRaceDate == e2.date && r.latestRace == "E2" && r.latestRaceWkgFtp == 1.05
  {
    var e1, e2, e3 := ExampleFirst(now), ExampleSecond(now), ExampleThird(now);
    ExampleAfterSecond(now);
    assert DaysAgo(now, e3.date) == 400;
    assert [e1, e2, e3] == [e1, e2] + [e3];
    StepAll([e1, e2], e3, now);
  }

  /** Every reference definition after one more event (used by the example). */
  lemma StepAll(evs: seq<Event>, e: Event, now: int)
    ensures Count(evs + [e], now, 365, false) == Count(evs, now, 365, false) + if Counted(now, e, 365, false) then 1 else 0
    ensures Count(evs + [e], now, 365, true) == Count(evs, now, 365, true) + if Counted(now, e, 365, true) then 1 else 0
    ensures Count(evs + [e], now, 90, true) == Count(evs, now, 90, true) + if Counted(now, e, 90, true) then 1 else 0
    ensures Count(evs + [e], now, 30, true) == Count(evs, now, 30, true) + if Counted(now, e, 30, true) then 1 else 0
    ensures MaxFtp(evs + [e], now, 90)
         == if InWindow(now, e, 90) && e.wkgFtp > MaxFtp(evs, now, 90) then e.wkgFtp else MaxFtp(evs, now, 90)
    ensures MaxFtp(evs + [e], now, 60)
         == if InWindow(now, e, 60) && e.wkgFtp > MaxFtp(evs, now, 60) then e.wkgFtp else MaxFtp(evs, now, 60)
    ensures MaxFtp(evs + [e], now, 30)
         == if InWindow(now, e, 30) && e.wkgFtp > MaxFtp(evs, now, 30) then e.wkgFtp else MaxFtp(evs, now, 30)
    ensures LatestOf(evs + [e], false)
         == if e.date > DateOr(LatestOf(evs, false)) then Some(e) else LatestOf(evs, false)
    ensures LatestOf(evs + [e], true)
         == if e.isRace && e.date > DateOr(LatestOf(evs, true)) then Some(e) else LatestOf(evs, true)
  {
    CountSnoc(evs, e, now, 365, false);
    CountSnoc(evs, e, now, 365, true);
    CountSnoc(evs, e, now, 90, true);
    CountSnoc(evs, e, now, 30, true);
    MaxFtpSnoc(evs, e, now, 90);
    MaxFtpSnoc(evs, e, now, 60);
    MaxFtpSnoc(evs, e, now, 30);
    LatestSnoc(evs, e, false);
    LatestSnoc(evs, e, true);
  }
}
