/** The rate-limit headers: the `HEADERS` table, `_parse_limit`, and the
    header scan of `get_limits` that turns the probe's response headers into the
    limits table. */
module Limits {
  import opened Base
  import opened PyStr
  import opened OrderedDict

  const LimitHeader: string := "ratelimit-limit"
  const RemainingHeader: string := "ratelimit-remaining"

  /** One row of `HEADERS`: the tracked header and the metric it becomes. */
  datatype HeaderSpec = HeaderSpec(name: string, description: string, kind: string)

  const Headers: seq<HeaderSpec> := [
    HeaderSpec(LimitHeader, "number of pulls that can be performed within a six hour window", "gauge"),
    HeaderSpec(RemainingHeader, "number of pulls remaining for the six hour rolling window", "gauge")
  ]

  /** `[i["name"] for i in HEADERS]` */
  const TrackedNames: seq<string> := [Headers[0].name, Headers[1].name]

  /** `key in [i["name"] for i in HEADERS]`: an exact, case-sensitive match. */
  predicate IsTracked(key: string) {
    key in TrackedNames
  }

  lemma TrackedNamesAre(key: string)
    ensures IsTracked(key) <==> key == LimitHeader || key == RemainingHeader
  {
    assert TrackedNames == [LimitHeader, RemainingHeader];
  }

  /** `f"{key}-interval"` */
  function IntervalKey(key: string): string {
    key + "-interval"
  }

  /** The limits table: header-derived key to text, in insertion order. */
  type LimitsTable = Dict<string, string>

  // ---------------------------------------------------------------- _parse_limit

  /** A header value `_parse_limit` accepts: exactly one `;`. */
  predicate SingleSemicolon(value: string) {
    multiset(value)[';'] == 1
  }

  /** `_parse_limit(value)`: split on `;` into the count and the interval,
      then drop every `w=` from the interval. Any other number of parts than two
      fails to unpack. */
  function ParseLimit(value: string): (r: Outcome<(string, string)>)
    ensures r.Ok? <==> SingleSemicolon(value)
    ensures r.Raise? <==> !SingleSemicolon(value)
    ensures r.Raise? ==> r.error == UnpackError(multiset(value)[';'] + 1)
    ensures r.Ok? ==> ';' !in r.value.0 && ';' !in r.value.1
  {
    var parts := Split(value, ';');
    if |parts| != 2 then Raise(UnpackError(|parts|))
    else
      ReplaceKeepsChars(parts[1], "w=", "");
      Ok((parts[0], Replace(parts[1], "w=", "")))
  }

  /** A well-formed value is its count, a `;`, and its raw interval; the
      interval is the raw one with `w=` removed. */
  lemma ParseLimitOf(limit: string, raw: string)
    requires ';' !in limit && ';' !in raw
    ensures ParseLimit(limit + ";" + raw) == Ok((limit, Replace(raw, "w=", "")))
  {
    SplitAtFirst(limit, ';', raw);
    SplitWithoutSeparator(raw, ';');
  }

  /** Every value `_parse_limit` accepts has that shape. */
  lemma ParseLimitShape(value: string)
    requires SingleSemicolon(value)
    ensures exists limit, raw :: ';' !in limit && ';' !in raw && value == limit + ";" + raw
  {
    JoinSplit(value, ';');
    var parts := Split(value, ';');
    assert value == parts[0] + ";" + parts[1];
  }

  lemma ReplaceStripsLeadingW(window: string)
    requires forall i :: !OccursAt(window, "w=", i)
    ensures Replace("w=" + window, "w=", "") == window
  {
    var raw := "w=" + window;
    assert "w=" <= raw;
    assert raw[2..] == window;
    ReplaceAbsent(window, "w=", "");
  }

  /** The header format Docker Hub sends: `<count>;w=<seconds>` parses back to
      the count and the window. */
  lemma ParseLimitRoundTrip(count: string, window: string)
    requires ';' !in count && ';' !in window
    requires forall i :: !OccursAt(window, "w=", i)
    ensures ParseLimit(count + ";w=" + window) == Ok((count, window))
  {
    var raw := "w=" + window;
    assert count + ";w=" + window == count + ";" + raw;
    assert ';' !in raw by {
      assert raw == ['w', '='] + window;
    }
    ParseLimitOf(count, raw);
    assert Replace(raw, "w=", "") == window by {
      ReplaceStripsLeadingW(window);
    }
  }

  /** The example value of a Docker Hub header, `100;w=21600`. */
  lemma ParseLimitExample()
    ensures ParseLimit("100" + ";w=" + "21600") == Ok(("100", "21600"))
  {
    assert ';' !in "100" && ';' !in "21600" && 'w' !in "21600" by {
      assert forall c :: c in "100" ==> '0' <= c <= '9';
      assert forall c :: c in "21600" ==> '0' <= c <= '9';
    }
    AbsentFirstChar("21600", "w=");
    ParseLimitRoundTrip("100", "21600");
  }

  // ---------------------------------------------------------------- header scan

  /** The limits table that the loop of `get_limits` has built after the
      headers `hs` (the prefix of the response headers seen so far): for a
      tracked header the count goes under its name and the interval under
      `<name>-interval`; other headers are skipped; the first value that does
      not parse ends the scan. The scan never exits, and a failure is the
      unpacking of some tracked header's value. */
  function ScanHeaders(hs: seq<(string, string)>): (r: Outcome<LimitsTable>)
    ensures !r.Exit?
    ensures r.Raise? ==>
              exists i :: 0 <= i < |hs| && IsTracked(hs[i].0) && r.error == UnpackError(multiset(hs[i].1)[';'] + 1)
    decreases |hs|
  {
    if hs == [] then Ok([])
    else
      var prev := ScanHeaders(hs[..|hs| - 1]);
      var (key, value) := hs[|hs| - 1];
      assert forall i :: 0 <= i < |hs| - 1 ==> hs[..|hs| - 1][i] == hs[i];
      if !prev.Ok? then prev
      else if !IsTracked(key) then prev
      else
        match ParseLimit(value)
        case Ok((limit, interval)) =>
          Ok(Put(Put(prev.value, key, limit), IntervalKey(key), interval))
        case Raise(e) => Raise(e)
        case Exit(c) => Exit(c)
  }

  /** Once the scan has failed on a prefix of the headers, it fails the same
      way on all of them. */
  lemma {:induction false} ScanHeadersFailureSticks(hs: seq<(string, string)>, j: nat)
    requires j <= |hs|
    requires !ScanHeaders(hs[..j]).Ok?
    ensures ScanHeaders(hs) == ScanHeaders(hs[..j])
    decreases |hs| - j
  {
    if j < |hs| {
      assert hs[..j + 1][..j] == hs[..j];
      ScanHeadersFailureSticks(hs, j + 1);
    } else {
      assert hs[..j] == hs;
    }
  }

  /** The value of the last header named `k`, if any. */
  function LastValue(hs: seq<(string, string)>, k: string): Option<string>
    decreases |hs|
  {
    if hs == [] then None
    else if hs[|hs| - 1].0 == k then Some(hs[|hs| - 1].1)
    else LastValue(hs[..|hs| - 1], k)
  }

  /** No header name occurs twice. `requests` hands the scan its header
      dict, which has already joined repeated header lines into one. */
  predicate MergedNames(hs: seq<(string, string)>) {
    forall i, j :: 0 <= i < j < |hs| ==> hs[i].0 != hs[j].0
  }

  /** With merged names, the last value of a header is its only value. */
  lemma {:induction false} LastValueMerged(hs: seq<(string, string)>, k: string, v: string)
    requires MergedNames(hs)
    ensures LastValue(hs, k) == Some(v) <==> (k, v) in hs
    decreases |hs|
  {
    if hs != [] {
      var init := hs[..|hs| - 1];
      var last := |hs| - 1;
      assert hs == init + [hs[last]];
      assert forall i :: 0 <= i < |init| ==> init[i] == hs[i];
      assert forall i :: 0 <= i < last ==> hs[i].0 != hs[last].0;
      LastValueMerged(init, k, v);
    }
  }

  /** What the table must hold for tracked header `n`: nothing when the
      response has no such header, otherwise the parts of its last value. */
  predicate Records(d: LimitsTable, hs: seq<(string, string)>, n: string) {
    match LastValue(hs, n)
    case None => Get(d, n).None? && Get(d, IntervalKey(n)).None?
    case Some(v) =>
      && SingleSemicolon(v)
      && Get(d, n) == Some(ParseLimit(v).value.0)
      && Get(d, IntervalKey(n)) == Some(ParseLimit(v).value.1)
  }

  /** The keys of the table for headers `hs`: each tracked header present and
      its interval key. */
  function ExpectedKeys(hs: seq<(string, string)>): set<string> {
    (if LastValue(hs, LimitHeader).Some? then {LimitHeader, IntervalKey(LimitHeader)} else {})
    + (if LastValue(hs, RemainingHeader).Some? then {RemainingHeader, IntervalKey(RemainingHeader)} else {})
  }

  predicate AllTrackedParse(hs: seq<(string, string)>) {
    forall i :: 0 <= i < |hs| && IsTracked(hs[i].0) ==> SingleSemicolon(hs[i].1)
  }

  lemma KeysDiffer()
    ensures LimitHeader != RemainingHeader
    ensures LimitHeader != IntervalKey(LimitHeader) && LimitHeader != IntervalKey(RemainingHeader)
    ensures RemainingHeader != IntervalKey(LimitHeader) && RemainingHeader != IntervalKey(RemainingHeader)
    ensures IntervalKey(LimitHeader) != IntervalKey(RemainingHeader)
  {
    assert LimitHeader[10] != RemainingHeader[10];
    assert |LimitHeader| != |IntervalKey(LimitHeader)|;
    assert |LimitHeader| != |IntervalKey(RemainingHeader)|;
    assert |RemainingHeader| != |IntervalKey(LimitHeader)|;
    assert |RemainingHeader| != |IntervalKey(RemainingHeader)|;
    assert IntervalKey(LimitHeader)[10] != IntervalKey(RemainingHeader)[10];
  }

  /** The scan succeeds exactly when every tracked header's value has a single
      `;`; it never ends the process. */
  lemma {:induction false} ScanHeadersOk(hs: seq<(string, string)>)
    ensures ScanHeaders(hs).Ok? <==> AllTrackedParse(hs)
    ensures !ScanHeaders(hs).Exit?
    decreases |hs|
  {
    if hs != [] {
      var init := hs[..|hs| - 1];
      ScanHeadersOk(init);
      assert forall i :: 0 <= i < |init| ==> init[i] == hs[i];
      if AllTrackedParse(init) && (IsTracked(hs[|hs| - 1].0) ==> SingleSemicolon(hs[|hs| - 1].1)) {
        forall i | 0 <= i < |hs| && IsTracked(hs[i].0) ensures SingleSemicolon(hs[i].1) {
          if i < |init| {
            assert init[i] == hs[i];
          }
        }
      }
    }
  }

  /** For each tracked header the table holds the parts of its LAST value
      under its name and its interval key, or nothing when the response has no
      such header; untracked headers leave no trace. */
  lemma {:induction false} ScanHeadersRecords(hs: seq<(string, string)>, n: string)
    requires IsTracked(n)
    ensures ScanHeaders(hs).Ok? ==> Records(ScanHeaders(hs).value, hs, n)
    decreases |hs|
  {
    if hs != [] {
      var init := hs[..|hs| - 1];
      var (key, value) := hs[|hs| - 1];
      ScanHeadersRecords(init, n);
      TrackedNamesAre(key);
      TrackedNamesAre(n);
      KeysDiffer();
      if ScanHeaders(init).Ok? && IsTracked(key) && SingleSemicolon(value) {
        var d := ScanHeaders(init).value;
        var (limit, interval) := ParseLimit(value).value;
        var d1 := Put(d, key, limit);
        GetPut(d1, IntervalKey(key), interval, n);
        GetPut(d, key, limit, n);
        GetPut(d1, IntervalKey(key), interval, IntervalKey(n));
        GetPut(d, key, limit, IntervalKey(n));
      }
    }
  }

  /** A header is present in `hs + [h]` when it is present in `hs` or is `h`. */
  lemma LastValueSnoc(hs: seq<(string, string)>, k: string)
    requires hs != []
    ensures LastValue(hs, k).Some? <==> LastValue(hs[..|hs| - 1], k).Some? || hs[|hs| - 1].0 == k
  {
  }

  /** A new tracked header adds its name and interval key to the expected keys;
      an untracked one adds nothing. */
  lemma ExpectedKeysSnoc(hs: seq<(string, string)>)
    requires hs != []
    ensures ExpectedKeys(hs) ==
              var key := hs[|hs| - 1].0;
              if IsTracked(key) then ExpectedKeys(hs[..|hs| - 1]) + {key, IntervalKey(key)}
              else ExpectedKeys(hs[..|hs| - 1])
  {
    TrackedNamesAre(hs[|hs| - 1].0);
    LastValueSnoc(hs, LimitHeader);
    LastValueSnoc(hs, RemainingHeader);
  }

  /** The table's keys are each tracked header present and its interval key. */
  lemma {:induction false} ScanHeadersKeys(hs: seq<(string, string)>)
    ensures ScanHeaders(hs).Ok? ==> (set k | k in Keys(ScanHeaders(hs).value)) == ExpectedKeys(hs)
    decreases |hs|
  {
    if hs == [] {
      var empty: LimitsTable := [];
      assert Keys(empty) == [];
    } else {
      var init := hs[..|hs| - 1];
      var (key, value) := hs[|hs| - 1];
      ScanHeadersKeys(init);
      ExpectedKeysSnoc(hs);
      if ScanHeaders(init).Ok? && IsTracked(key) && SingleSemicolon(value) {
        var d := ScanHeaders(init).value;
        var (limit, interval) := ParseLimit(value).value;
        var d1 := Put(d, key, limit);
        PutKeySet(d, key, limit);
        PutKeySet(d1, IntervalKey(key), interval);
      }
    }
  }

  /** No key occurs twice in the table. */
  lemma {:induction false} ScanHeadersDistinct(hs: seq<(string, string)>)
    ensures ScanHeaders(hs).Ok? ==> DistinctKeys(ScanHeaders(hs).value)
    decreases |hs|
  {
    if hs == [] {
      var empty: LimitsTable := [];
      assert Keys(empty) == [];
    } else {
      var init := hs[..|hs| - 1];
      var (key, value) := hs[|hs| - 1];
      ScanHeadersDistinct(init);
      if ScanHeaders(init).Ok? && IsTracked(key) && SingleSemicolon(value) {
        var d := ScanHeaders(init).value;
        var (limit, interval) := ParseLimit(value).value;
        PutDistinct(d, key, limit);
        PutDistinct(Put(d, key, limit), IntervalKey(key), interval);
      }
    }
  }

  /** `get_limits`' header scan, in full: it succeeds exactly when every
      tracked header's value has a single `;`, and the table then records each
      tracked header's last value and holds no other key. */
  lemma ScanHeadersSpec(hs: seq<(string, string)>)
    ensures ScanHeaders(hs).Ok? <==> AllTrackedParse(hs)
    ensures !ScanHeaders(hs).Exit?
    ensures ScanHeaders(hs).Ok? ==>
              var d := ScanHeaders(hs).value;
              && Records(d, hs, LimitHeader)
              && Records(d, hs, RemainingHeader)
              && (set k | k in Keys(d)) == ExpectedKeys(hs)
              && DistinctKeys(d)
  {
    ScanHeadersOk(hs);
    TrackedNamesAre(LimitHeader);
    TrackedNamesAre(RemainingHeader);
    ScanHeadersRecords(hs, LimitHeader);
    ScanHeadersRecords(hs, RemainingHeader);
    ScanHeadersKeys(hs);
    ScanHeadersDistinct(hs);
  }
}
