/** The visit beacon of `src/app/functions/TrackVisit.tsx`: where the
    visitor came from, whether the visit is sent at all, and the summary
    line sent with it. The query string, the referrer and the geolocation
    answer are inputs; the requests themselves are not modelled. */
module TrackVisit {
  import opened Wrappers
  import opened JsText

  /** `sourceDetection`; `referrers` keeps the order of `Object.entries`. */
  datatype SourceDetection = SourceDetection(
    ignoreParam: string, ignoreValue: string,
    referrers: seq<(string, string)>, defaultSource: string)

  datatype TrackingConfig = TrackingConfig(enabled: bool, sourceDetection: SourceDetection)

  /** The outcome of the source detection: nothing is sent, or the visit
      is sent with this source. */
  datatype Decision = Skip | Send(source: string)

  // ---------------------------------------------------------------------------
  // Referrer lookup

  /** The key of the first entry whose value occurs in the referrer, or the
      default source. */
  function ReferrerSource(entries: seq<(string, string)>, defaultSource: string, referrer: string): string
    decreases |entries|
  {
    if entries == [] then defaultSource
    else if Includes(referrer, entries[0].1) then entries[0].0
    else ReferrerSource(entries[1..], defaultSource, referrer)
  }

  /** The first matching entry, in entry order, decides; with no match the
      default stays. */
  lemma {:induction false} ReferrerSourceSpec(entries: seq<(string, string)>, defaultSource: string, referrer: string)
    ensures (forall k :: 0 <= k < |entries| ==> !Includes(referrer, entries[k].1)) ==>
              ReferrerSource(entries, defaultSource, referrer) == defaultSource
    ensures forall k :: 0 <= k < |entries| && Includes(referrer, entries[k].1) &&
                        (forall j :: 0 <= j < k ==> !Includes(referrer, entries[j].1)) ==>
              ReferrerSource(entries, defaultSource, referrer) == entries[k].0
    decreases |entries|
  {
    if entries != [] {
      var rest := entries[1..];
      ReferrerSourceSpec(rest, defaultSource, referrer);
      forall k | 0 <= k < |entries| && Includes(referrer, entries[k].1) &&
                 (forall j :: 0 <= j < k ==> !Includes(referrer, entries[j].1))
        ensures ReferrerSource(entries, defaultSource, referrer) == entries[k].0
      {
        if k > 0 {
          assert entries[k] == rest[k - 1];
          forall j | 0 <= j < k - 1 ensures !Includes(referrer, rest[j].1) {
            assert rest[j] == entries[j + 1];
          }
        }
      }
      if forall k :: 0 <= k < |entries| ==> !Includes(referrer, entries[k].1) {
        forall k | 0 <= k < |rest| ensures !Includes(referrer, rest[k].1) {
          assert rest[k] == entries[k + 1];
        }
      }
    }
  }

  /** The `for ... break` loop over the referrer entries. */
  method DetectFromReferrer(entries: seq<(string, string)>, defaultSource: string, referrer: string)
    returns (source: string)
    ensures source == ReferrerSource(entries, defaultSource, referrer)
  {
    source := defaultSource;
    var i := 0;
    while i < |entries|
      invariant 0 <= i <= |entries|
      invariant source == defaultSource
      invariant ReferrerSource(entries, defaultSource, referrer) == ReferrerSource(entries[i..], defaultSource, referrer)
    {
      var (key, value) := entries[i];
      if Includes(referrer, value) {
        source := key;
        break;
      }
      assert entries[i..][1..] == entries[i + 1..];
      i := i + 1;
    }
  }

  /** The referrer is lower-cased before the lookup but the configured
      values are not, so a value holding an upper-case letter never
      matches. */
  lemma UpperCaseNeverMatches(referrer: string, value: string, k: nat)
    requires k < |value| && 'A' <= value[k] <= 'Z'
    ensures !Includes(Lower(referrer), value)
  {
    var low := Lower(referrer);
    var i := IndexOf(low, value);
    if i >= 0 {
      assert false;
    }
  }

  // ---------------------------------------------------------------------------
  // The decision

  /** Whether and with which source the visit is sent. `param` is the value
      of the query parameter named `ignoreParam`, absent when missing; only
      a source taken from it is checked against `ignoreValue`. */
  function Decide(config: TrackingConfig, param: Option<string>, referrer: string): Decision {
    var sd := config.sourceDetection;
    if !config.enabled then Skip
    else if param.None? || param.value == "" then
      Send(ReferrerSource(sd.referrers, sd.defaultSource, Lower(referrer)))
    else if param.value == sd.ignoreValue then Skip
    else Send(param.value)
  }

  /** The beginning of `trackVisit`, up to the requests. */
  method DetectSource(config: TrackingConfig, param: Option<string>, referrer: string)
    returns (decision: Decision)
    ensures decision == Decide(config, param, referrer)
  {
    if !config.enabled {
      return Skip;
    }
    var sd := config.sourceDetection;
    var source := param;
    if source.None? || Lower(source.value) == "" {
      var s := DetectFromReferrer(sd.referrers, sd.defaultSource, Lower(referrer));
      decision := Send(s);
    } else if source.value == sd.ignoreValue {
      decision := Skip;
    } else {
      decision := Send(source.value);
    }
  }

  /** Tracking off sends nothing; a non-empty parameter is the source unless
      it is the ignore value, which stops the visit; without one the source
      comes from the referrer or the default, and is sent even when it
      equals the ignore value. */
  lemma DecideRule(config: TrackingConfig, param: Option<string>, referrer: string)
    ensures !config.enabled ==> Decide(config, param, referrer) == Skip
    ensures config.enabled && param.Some? && param.value != "" ==>
              (Decide(config, param, referrer) == Skip <==> param.value == config.sourceDetection.ignoreValue) &&
              (Decide(config, param, referrer).Send? ==> Decide(config, param, referrer).source == param.value)
    ensures config.enabled && (param.None? || param.value == "") ==> Decide(config, param, referrer).Send?
  {
  }

  // ---------------------------------------------------------------------------
  // The summary line

  /** The geolocation answer; an absent field is printed as `undefined`.
      A field that is present but `null` would print `null`, which `None`
      does not distinguish; latitude and longitude are held as the text
      they print as. */
  datatype Geo = Geo(
    city: Option<string>, region: Option<string>, timezone: Option<string>,
    latitude: Option<string>, longitude: Option<string>, postal: Option<string>,
    org: Option<string>)

  /** A value as a template literal prints it. */
  function Shown(v: Option<string>): string {
    if v.Some? then v.value else "undefined"
  }

  function AdditionalFields(source: string, geo: Geo): (fields: seq<string>)
    ensures |fields| == 8
  {
    ["Source: " + source, "City: " + Shown(geo.city), "Region: " + Shown(geo.region),
     "TimeZone: " + Shown(geo.timezone), "Latitude: " + Shown(geo.latitude),
     "Longitude: " + Shown(geo.longitude), "Postal: " + Shown(geo.postal), "Org: " + Shown(geo.org)]
  }

  /** `additionalData` */
  function AdditionalData(source: string, geo: Geo): string {
    Join(AdditionalFields(source, geo), " | ")
  }

  /** How often `c` occurs in `s`. */
  function Count(s: string, c: char): nat
    decreases |s|
  {
    if s == [] then 0 else (if s[0] == c then 1 else 0) + Count(s[1..], c)
  }

  lemma {:induction false} CountAppend(a: string, b: string, c: char)
    ensures Count(a + b, c) == Count(a, c) + Count(b, c)
    decreases |a|
  {
    if a != [] {
      assert (a + b)[0] == a[0] && (a + b)[1..] == a[1..] + b;
      CountAppend(a[1..], b, c);
    } else {
      assert a + b == b;
    }
  }

  lemma {:induction false} CountAbsent(s: string, c: char)
    requires c !in s
    ensures Count(s, c) == 0
    decreases |s|
  {
    if s != [] {
      assert s[1..] <= s[1..];
      assert forall x :: x in s[1..] ==> x in s;
      CountAbsent(s[1..], c);
    }
  }

  /** Joining parts free of `c` with a separator holding `c` once puts
      exactly one `c` between each two parts. */
  lemma {:induction false} JoinCount(parts: seq<string>, sep: string, c: char)
    requires |parts| >= 1
    requires forall i :: 0 <= i < |parts| ==> c !in parts[i]
    requires Count(sep, c) == 1
    ensures Count(Join(parts, sep), c) == |parts| - 1
    decreases |parts|
  {
    CountAbsent(parts[0], c);
    if |parts| > 1 {
      JoinCount(parts[1..], sep, c);
      CountAppend(parts[0], sep, c);
      CountAppend(parts[0] + sep, Join(parts[1..], sep), c);
    }
  }

  /** When no value holds a `|`, the summary has exactly seven separators,
      so it splits back into its eight fields. */
  lemma EightFields(source: string, geo: Geo)
    requires forall i :: 0 <= i < 8 ==> '|' !in AdditionalFields(source, geo)[i]
    ensures Count(AdditionalData(source, geo), '|') == 7
  {
    assert Count(" | ", '|') == 1;
    JoinCount(AdditionalFields(source, geo), " | ", '|');
  }
}
