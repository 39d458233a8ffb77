/**
 * Normalisation of one ZwiftPower event record: the custom `event_date`
 * decoder and the per-event field extraction at the head of the loop in
 * `ImportRider` (zp/zp.go).
 */
module Events {
  import opened Wrappers
  import opened Dates

  /**
   * A JSON value as Go's encoding/json presents it. A number literal
   * written without fraction or exponent is a JInt; every other number
   * literal is a JFloat holding its value. Decoded into `interface{}`,
   * both become a float64.
   */
  datatype Json =
    | JNull
    | JBool(b: bool)
    | JInt(i: int)
    | JFloat(x: real)
    | JString(s: string)
    | JArray(items: seq<Json>)
    | JObject(members: seq<(string, Json)>)

  /**
   * `json.Unmarshal` into an int64: the value of an integer literal that
   * fits, and None where Go reports an error (or meets `null`) and leaves
   * the target as it was.
   */
  function DecodeInt64(data: Json): (r: Option<Int64>)
    ensures r.Some? ==> data == JInt(r.value)
    ensures data.JInt? && MinInt64 <= data.i <= MaxInt64 ==> r.Some?
  {
    if data.JInt? && MinInt64 <= data.i <= MaxInt64 then Some(data.i) else None
  }

  /** The `event_date` field, an int64 with its own JSON decoder. */
  class EventDateType {
    var secs: Int64

    constructor ()
      ensures secs == 0
    {
      secs := 0;
    }

    /**
     * Never fails: an integer that fits in an int64 is kept, anything
     * else (an empty string, a fraction, null, ...) becomes 0.
     */
    method UnmarshalJSON(data: Json) returns (err: Option<string>)
      modifies this
      ensures err == None
      ensures data.JInt? && MinInt64 <= data.i <= MaxInt64 ==> secs == data.i
      ensures !(data.JInt? && MinInt64 <= data.i <= MaxInt64) ==> secs == 0
    {
      var v := 0;
      var decoded := DecodeInt64(data);
      if decoded.Some? {
        v := decoded.value;
      }
      secs := v;
      err := None;
    }
  }

  /** One element of a rider's `data` array, as decoded into Go's `Event`. */
  datatype RawEvent = RawEvent(
    eventType: string,     // "f_t"
    eventDateSecs: Int64,  // "event_date", after EventDateType.UnmarshalJSON
    eventTitle: string,    // "event_title"
    avgWkg: Json,          // "avg_wkg", an interface{}
    wkgFtp: Json)          // "wkg_ftp", an interface{}

  /** An event after normalisation: what the aggregation reads. */
  datatype Event = Event(date: int, isRace: bool, title: string, avgWkg: real, wkgFtp: real)

  datatype Field = WkgFtp | AvgWkg

  /** Why a ratio could not be read; each aborts the whole import. */
  datatype Reason =
    | NotAList           // type assertion to []interface{} panics
    | EmptyList          // index [0] panics
    | NotAString         // type assertion to string panics
    | Unparsable(text: string)  // strconv.ParseFloat fails, log.Fatal

  datatype RatioError = RatioError(field: Field, reason: Reason)

  /** `sub` occurs in `s` starting at index `i`. */
  predicate OccursAt(s: string, sub: string, i: int) {
    0 <= i && i + |sub| <= |s| && s[i..i + |sub|] == sub
  }

  /** `strings.Contains`, scanning start positions from the left. */
  function Contains(s: string, sub: string): (found: bool)
    ensures found ==> |sub| <= |s|
    decreases |s|
  {
    if |sub| <= |s| && s[..|sub|] == sub then true
    else if s == [] then false
    else Contains(s[1..], sub)
  }

  /** Occurrences in `s` past its first position are the occurrences in its tail, shifted by one. */
  lemma OccursShift(s: string, sub: string, i: int)
    requires s != [] && i >= 1
    ensures OccursAt(s, sub, i) <==> OccursAt(s[1..], sub, i - 1)
  {
    if i + |sub| <= |s| {
      assert s[1..][i - 1..i - 1 + |sub|] == s[i..i + |sub|];
    }
  }

  /** `Contains` finds an occurrence exactly when one exists. */
  lemma {:induction false} ContainsIff(s: string, sub: string)
    ensures Contains(s, sub) <==> exists i :: OccursAt(s, sub, i)
    decreases |s|
  {
    if |sub| <= |s| && s[..|sub|] == sub {
      assert OccursAt(s, sub, 0);
    } else if s == [] {
      assert forall i :: OccursAt(s, sub, i) ==> i == 0;
    } else {
      ContainsIff(s[1..], sub);
      forall j | OccursAt(s[1..], sub, j)
        ensures OccursAt(s, sub, j + 1)
      {
        OccursShift(s, sub, j + 1);
      }
      forall i | OccursAt(s, sub, i)
        ensures i >= 1 && OccursAt(s[1..], sub, i - 1)
      {
        assert i != 0;
        OccursShift(s, sub, i);
      }
    }
  }

  /** An event is a race exactly when its type label contains "RACE". */
  predicate IsRace(eventType: string) {
    Contains(eventType, "RACE")
  }

  /**
   * `wkg_ftp`: the first element of a list, taken as it is when it is a
   * number and parsed when it is a string.
   */
  function WkgFtpOf(v: Json, parse: string -> Option<real>): (r: Result<real, RatioError>)
    ensures r.Success? <==>
      && v.JArray? && |v.items| > 0
      && (v.items[0].JInt? || v.items[0].JFloat? || (v.items[0].JString? && parse(v.items[0].s).Some?))
    ensures r.Success? && v.items[0].JInt? ==> r.value == v.items[0].i as real
    ensures r.Success? && v.items[0].JFloat? ==> r.value == v.items[0].x
    ensures r.Success? && v.items[0].JString? ==> parse(v.items[0].s) == Some(r.value)
    ensures r.Failure? ==> r.error.field == WkgFtp
  {
    if !v.JArray? then Failure(RatioError(WkgFtp, NotAList))
    else if |v.items| == 0 then Failure(RatioError(WkgFtp, EmptyList))
    else
      match v.items[0]
      case JInt(i) => Success(i as real)
      case JFloat(x) => Success(x)
      case JString(s) =>
        (match parse(s)
         case Some(x) => Success(x)
         case None => Failure(RatioError(WkgFtp, Unparsable(s))))
      case _ => Failure(RatioError(WkgFtp, NotAString))
  }

  /** `avg_wkg`: the first element of a list, which must be a string that parses. */
  function AvgWkgOf(v: Json, parse: string -> Option<real>): (r: Result<real, RatioError>)
    ensures r.Success? <==> v.JArray? && |v.items| > 0 && v.items[0].JString? && parse(v.items[0].s).Some?
    ensures r.Success? ==> parse(v.items[0].s) == Some(r.value)
    ensures r.Failure? ==> r.error.field == AvgWkg
  {
    if !v.JArray? then Failure(RatioError(AvgWkg, NotAList))
    else if |v.items| == 0 then Failure(RatioError(AvgWkg, EmptyList))
    else if !v.items[0].JString? then Failure(RatioError(AvgWkg, NotAString))
    else
      match parse(v.items[0].s)
      case Some(x) => Success(x)
      case None => Failure(RatioError(AvgWkg, Unparsable(v.items[0].s)))
  }

  /**
   * One loop iteration's normalisation: the date is the instant of the
   * decoded seconds (zp/zp.go:123),
   * the race flag the "RACE" test, and `wkg_ftp` is read before `avg_wkg`,
   * so the first of the two that is malformed is the one reported.
   */
  function Normalize(raw: RawEvent, parse: string -> Option<real>): (r: Result<Event, RatioError>)
    ensures r.Success? <==> WkgFtpOf(raw.wkgFtp, parse).Success? && AvgWkgOf(raw.avgWkg, parse).Success?
    ensures r.Success? ==>
      && r.value.date == UnixTime(raw.eventDateSecs)
      && r.value.title == raw.eventTitle
      && r.value.isRace == IsRace(raw.eventType)
      && Success(r.value.wkgFtp) == WkgFtpOf(raw.wkgFtp, parse)
      && Success(r.value.avgWkg) == AvgWkgOf(raw.avgWkg, parse)
    ensures r.Failure? ==>
      if WkgFtpOf(raw.wkgFtp, parse).Failure?
      then r.error == WkgFtpOf(raw.wkgFtp, parse).error
      else r.error == AvgWkgOf(raw.avgWkg, parse).error
  {
    match WkgFtpOf(raw.wkgFtp, parse)
    case Failure(err) => Failure(err)
    case Success(wkgFtp) =>
      match AvgWkgOf(raw.avgWkg, parse)
      case Failure(err) => Failure(err)
      case Success(avgWkg) =>
        Success(Event(UnixTime(raw.eventDateSecs), IsRace(raw.eventType), raw.eventTitle, avgWkg, wkgFtp))
  }

  /** A normalised event is a race exactly when "RACE" occurs somewhere in its type label. */
  lemma RaceFlag(raw: RawEvent, parse: string -> Option<real>)
    requires Normalize(raw, parse).Success?
    ensures Normalize(raw, parse).value.isRace <==> exists i :: OccursAt(raw.eventType, "RACE", i)
  {
    ContainsIff(raw.eventType, "RACE");
  }

  /** A `wkg_ftp` given as numeric text reads the same as the number itself. */
  lemma TextAndNumberAgree(s: string, x: real, rest: seq<Json>, parse: string -> Option<real>)
    requires parse(s) == Some(x)
    ensures WkgFtpOf(JArray([JString(s)] + rest), parse) == Success(x)
    ensures WkgFtpOf(JArray([JFloat(x)] + rest), parse) == Success(x)
  {
  }

  /** `avg_wkg` accepts only text: a bare number aborts the import. */
  lemma AvgWkgRejectsNumbers(x: real, rest: seq<Json>, parse: string -> Option<real>)
    ensures AvgWkgOf(JArray([JFloat(x)] + rest), parse) == Failure(RatioError(AvgWkg, NotAString))
  {
  }

  /** Only the first list element is read; what follows it is ignored. */
  lemma OnlyFirstElementRead(first: Json, rest1: seq<Json>, rest2: seq<Json>, parse: string -> Option<real>)
    ensures WkgFtpOf(JArray([first] + rest1), parse) == WkgFtpOf(JArray([first] + rest2), parse)
    ensures AvgWkgOf(JArray([first] + rest1), parse) == AvgWkgOf(JArray([first] + rest2), parse)
  {
  }
}
