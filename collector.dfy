/** `DockerHubLimitCollector`: one probe of the Docker Hub rate limits per
    scrape, with the false-positive suppression that re-probes while the
    registry reports a full quota right after a change.

    The network is an oracle: `exs[i]` is what the token endpoint and the
    registry answered to the `i`-th call of `get_limits` in one `collect`. */
module Collector {
  import opened Base
  import opened OrderedDict
  import opened Settings
  import opened TokenProvider
  import opened Limits
  import opened Metrics

  /** `MAX_FALSE_POSITIVE`: the most re-probes one `collect` makes. */
  const MaxFalsePositive: nat := 10

  /** `last_ratelimit_remaining`: the int the constructor stores, or the
      `ratelimit-remaining` text a `collect` stored. */
  datatype Remembered = Initial(count: int) | Seen(text: string)

  /** `self.last_ratelimit_remaining != remaining` for a text `remaining`: an
      int never equals a str, so the constructor's value always differs: the
      reading differs exactly when it is not the text last seen. */
  predicate Differs(last: Remembered, remaining: string)
    ensures Differs(last, remaining) <==> last != Seen(remaining)
  {
    match last
    case Initial(_) => true
    case Seen(text) => text != remaining
  }

  /** What `requests.head(REGISTRY_URL, ...)` gave back, whatever the
      status. `headers` stands for `request.headers.items()`: the header dict
      of `requests` has already joined repeated header lines with `", "` and
      merged names that differ only in case, so no name repeats
      (`MergedNames`). A plain sequence is kept because the scan itself does
      not rely on that. */
  datatype HeadReply =
    | HeadUnreachable
    | HeadResponse(status: int, headers: seq<(string, string)>)

  /** The answers to one `get_limits` call: the token request, then the
      probe. */
  datatype Exchange = Exchange(token: TokenReply, head: HeadReply)

  /** `get_limits()`: fetch a token, probe the registry with it, and scan the
      response headers. A failure of either request, or a header value that
      does not parse, propagates. */
  function FetchLimits(cfg: Config, ex: Exchange): (r: Outcome<LimitsTable>)
    ensures r.Exit? <==> GetToken(cfg, ex.token).Exit?
    ensures r.Ok? ==> GetToken(cfg, ex.token).Ok? && ex.head.HeadResponse? && r == ScanHeaders(ex.head.headers)
    ensures GetToken(cfg, ex.token).Ok? && ex.head.HeadResponse? ==> r == ScanHeaders(ex.head.headers)
  {
    match GetToken(cfg, ex.token)
    case Exit(c) => Exit(c)
    case Raise(e) => Raise(e)
    case Ok(_) =>
      match ex.head
      case HeadUnreachable => Raise(RequestError)
      case HeadResponse(_, hs) => ScanHeadersOk(hs); ScanHeaders(hs)
  }

  /** The outcome of the probing part of `collect` and the number of
      `get_limits` calls it made. */
  datatype Run = Run(result: Outcome<LimitsTable>, probes: nat)

  /** `limits["ratelimit-remaining"] == limits["ratelimit-limit"]`: both
      present and textually equal. */
  predicate LooksReset(d: LimitsTable) {
    Get(d, RemainingHeader).Some? && Get(d, LimitHeader).Some? && Get(d, RemainingHeader) == Get(d, LimitHeader)
  }

  /** In a table without duplicate keys, a reading looks reset exactly when
      `remaining` and `limit` are stored with the same value. */
  lemma LooksResetStored(d: LimitsTable)
    requires DistinctKeys(d)
    ensures LooksReset(d) <==> exists v :: (RemainingHeader, v) in d && (LimitHeader, v) in d
  {
    GetStored(d, RemainingHeader);
    GetStored(d, LimitHeader);
    if v :| (RemainingHeader, v) in d && (LimitHeader, v) in d {
      GetDistinct(d, RemainingHeader, v);
      GetDistinct(d, LimitHeader, v);
    }
  }

  /** The `while` loop of `collect`, entered with `limits`, the reading of
      call `n` (after `n` re-probes). Each test looks up `remaining`, then
      `limit` (a missing one raises `KeyError`); while they are equal and fewer
      than `MaxFalsePositive` re-probes were made, it calls `get_limits` again. */
  function Settle(cfg: Config, exs: seq<Exchange>, limits: LimitsTable, n: nat): (r: Run)
    requires n <= MaxFalsePositive < |exs|
    requires FetchLimits(cfg, exs[n]) == Ok(limits)
    ensures n + 1 <= r.probes <= MaxFalsePositive + 1
    ensures r.result.Exit? ==> FetchLimits(cfg, exs[r.probes - 1]).Exit?
    ensures r.result.Ok? ==> FetchLimits(cfg, exs[r.probes - 1]) == r.result
    ensures r.result.Ok? ==> Get(r.result.value, RemainingHeader).Some? && Get(r.result.value, LimitHeader).Some?
    ensures r.result.Ok? ==> !LooksReset(r.result.value) || r.probes == MaxFalsePositive + 1
    ensures forall j :: n <= j < r.probes - 1 ==> FetchLimits(cfg, exs[j]).Ok? && LooksReset(FetchLimits(cfg, exs[j]).value)
    decreases MaxFalsePositive - n
  {
    match Get(limits, RemainingHeader)
    case None => Run(Raise(KeyError(RemainingHeader)), n + 1)
    case Some(remaining) =>
      match Get(limits, LimitHeader)
      case None => Run(Raise(KeyError(LimitHeader)), n + 1)
      case Some(limit) =>
        if remaining == limit && n < MaxFalsePositive then
          match FetchLimits(cfg, exs[n + 1])
          case Ok(next) => Settle(cfg, exs, next, n + 1)
          case Raise(e) => Run(Raise(e), n + 2)
          case Exit(c) => Run(Exit(c), n + 2)
        else Run(Ok(limits), n + 1)
  }

  /** How one test of the loop condition ends the loop. */
  lemma SettleStops(cfg: Config, exs: seq<Exchange>, table: LimitsTable, n: nat)
    requires n <= MaxFalsePositive < |exs|
    requires FetchLimits(cfg, exs[n]) == Ok(table)
    ensures Get(table, RemainingHeader).None? ==>
              Settle(cfg, exs, table, n) == Run(Raise(KeyError(RemainingHeader)), n + 1)
    ensures Get(table, RemainingHeader).Some? && Get(table, LimitHeader).None? ==>
              Settle(cfg, exs, table, n) == Run(Raise(KeyError(LimitHeader)), n + 1)
    ensures && Get(table, RemainingHeader).Some? && Get(table, LimitHeader).Some?
            && !(Get(table, RemainingHeader).value == Get(table, LimitHeader).value && n < MaxFalsePositive)
            ==> Settle(cfg, exs, table, n) == Run(Ok(table), n + 1)
  {
  }

  /** One re-probe of the loop: the loop goes on with the next reading, or
      ends with its failure. */
  lemma SettleStep(cfg: Config, exs: seq<Exchange>, table: LimitsTable, n: nat)
    requires n < MaxFalsePositive < |exs|
    requires FetchLimits(cfg, exs[n]) == Ok(table)
    requires Get(table, RemainingHeader).Some? && Get(table, RemainingHeader) == Get(table, LimitHeader)
    ensures FetchLimits(cfg, exs[n + 1]).Ok? ==>
              Settle(cfg, exs, table, n) == Settle(cfg, exs, FetchLimits(cfg, exs[n + 1]).value, n + 1)
    ensures !FetchLimits(cfg, exs[n + 1]).Ok? ==>
              Settle(cfg, exs, table, n) == Run(FetchLimits(cfg, exs[n + 1]), n + 2)
  {
  }

  /** Lines 188-196 of `collect`: the first reading, the comparison with the
      remembered value, and the re-probes. */
  function Probe(cfg: Config, last: Remembered, exs: seq<Exchange>): (r: Run)
    requires MaxFalsePositive < |exs|
    ensures 1 <= r.probes <= MaxFalsePositive + 1
    ensures r.result.Ok? ==> FetchLimits(cfg, exs[r.probes - 1]) == r.result
    ensures r.result.Ok? ==> Get(r.result.value, RemainingHeader).Some?
  {
    match FetchLimits(cfg, exs[0])
    case Raise(e) => Run(Raise(e), 1)
    case Exit(c) => Run(Exit(c), 1)
    case Ok(first) =>
      match Get(first, RemainingHeader)
      case None => Run(Raise(KeyError(RemainingHeader)), 1)
      case Some(remaining) =>
        if Differs(last, remaining) then Settle(cfg, exs, first, 0)
        else Run(Ok(first), 1)
  }

  /** How the first reading decides the probing. */
  lemma ProbeStarts(cfg: Config, last: Remembered, exs: seq<Exchange>)
    requires MaxFalsePositive < |exs|
    ensures !FetchLimits(cfg, exs[0]).Ok? ==>
              Probe(cfg, last, exs) == Run(FetchLimits(cfg, exs[0]).PropagateFailure(), 1)
    ensures FetchLimits(cfg, exs[0]).Ok? && Get(FetchLimits(cfg, exs[0]).value, RemainingHeader).None? ==>
              Probe(cfg, last, exs) == Run(Raise(KeyError(RemainingHeader)), 1)
    ensures var first := FetchLimits(cfg, exs[0]);
            first.Ok? && Get(first.value, RemainingHeader).Some? ==>
              Probe(cfg, last, exs) ==
                if Differs(last, Get(first.value, RemainingHeader).value) then Settle(cfg, exs, first.value, 0)
                else Run(first, 1)
  {
  }

  /** The remembered value after a `collect` whose probing ended with `run`:
      the final `remaining` on success, the old value when it raised. */
  function NextRemembered(last: Remembered, run: Run): (r: Remembered)
    requires run.result.Ok? ==> Get(run.result.value, RemainingHeader).Some?
    ensures run.result.Ok? ==> r.Seen? && Get(run.result.value, RemainingHeader) == Some(r.text)
    ensures !run.result.Ok? ==> r == last
  {
    if run.result.Ok? then Seen(Get(run.result.value, RemainingHeader).value) else last
  }

  class DockerHubLimitCollector {
    /** The credentials and the exporter name the process was started with. */
    const config: Config
    var lastRatelimitRemaining: Remembered

    /** `__init__`: 200, the LOGIN quota, when both credentials are set and
        not empty; 100 otherwise. */
    constructor (cfg: Config)
      ensures config == cfg
      ensures lastRatelimitRemaining == Initial(if Authenticated(cfg) then 200 else 100)
    {
      config := cfg;
      if Authenticated(cfg) {
        lastRatelimitRemaining := Initial(200);
      } else {
        lastRatelimitRemaining := Initial(100);
      }
    }

    /** `get_limits()`, answered by `ex`: the header scan fills the table in
        response order. */
    method GetLimits(ex: Exchange) returns (r: Outcome<LimitsTable>)
      ensures r == FetchLimits(config, ex)
    {
      var token :- GetToken(config, ex.token);
      if ex.head.HeadUnreachable? {
        return Raise(RequestError);
      }
      var hs := ex.head.headers;
      var limits: LimitsTable := [];
      for i := 0 to |hs|
        invariant ScanHeaders(hs[..i]) == Ok(limits)
      {
        assert hs[..i + 1][..i] == hs[..i];
        var (key, value) := hs[i];
        if IsTracked(key) {
          var parsed := ParseLimit(value);
          if !parsed.Ok? {
            ScanHeadersFailureSticks(hs, i + 1);
            ScanHeadersOk(hs);
            return Raise(parsed.error);
          }
          limits := Put(limits, key, parsed.value.0);
          limits := Put(limits, IntervalKey(key), parsed.value.1);
        }
      }
      assert hs[..|hs|] == hs;
      r := Ok(limits);
    }

    /** `collect()`, with `exs` answering its `get_limits` calls in turn; also
        returns how many of them it used. On success the final `remaining` is
        remembered before the metrics are shaped; when the probing raises, the
        remembered value is kept. */
    method Collect(exs: seq<Exchange>) returns (r: Outcome<seq<Metric>>, probes: nat)
      requires MaxFalsePositive < |exs|
      modifies this
      ensures var run := Probe(config, old(lastRatelimitRemaining), exs);
              && probes == run.probes
              && lastRatelimitRemaining == NextRemembered(old(lastRatelimitRemaining), run)
              && r == if run.result.Ok? then Shape(config, run.result.value) else run.result.PropagateFailure()
    {
      ProbeStarts(config, lastRatelimitRemaining, exs);
      var iterate := 0;
      var limits := GetLimits(exs[0]);
      probes := 1;
      if !limits.Ok? {
        return limits.PropagateFailure(), probes;
      }
      var table := limits.value;
      var remaining := Get(table, RemainingHeader);
      if remaining.None? {
        return Raise(KeyError(RemainingHeader)), probes;
      }
      if Differs(lastRatelimitRemaining, remaining.value) {
        while true
          invariant iterate <= MaxFalsePositive
          invariant probes == iterate + 1
          invariant FetchLimits(config, exs[iterate]) == Ok(table)
          invariant Settle(config, exs, table, iterate) == Probe(config, old(lastRatelimitRemaining), exs)
          invariant lastRatelimitRemaining == old(lastRatelimitRemaining)
          decreases MaxFalsePositive - iterate
        {
          SettleStops(config, exs, table, iterate);
          remaining := Get(table, RemainingHeader);
          if remaining.None? {
            return Raise(KeyError(RemainingHeader)), probes;
          }
          var limit := Get(table, LimitHeader);
          if limit.None? {
            return Raise(KeyError(LimitHeader)), probes;
          }
          if !(remaining.value == limit.value && iterate < MaxFalsePositive) {
            break;
          }
          SettleStep(config, exs, table, iterate);
          iterate := iterate + 1;
          limits := GetLimits(exs[iterate]);
          probes := probes + 1;
          if !limits.Ok? {
            return limits.PropagateFailure(), probes;
          }
          table := limits.value;
        }
      }
      lastRatelimitRemaining := Seen(Get(table, RemainingHeader).value);
      r := BuildMetrics(config, table);
    }
  }

  // ---------------------------------------------------------------- properties of the probing

  /** A reading that the loop re-probes past: `get_limits` succeeded and
      `remaining == limit`. */
  predicate ResetReading(cfg: Config, ex: Exchange) {
    FetchLimits(cfg, ex).Ok? && LooksReset(FetchLimits(cfg, ex).value)
  }

  /** The first reading succeeded and its `remaining` differs from the
      remembered value: the loop is entered. */
  predicate FirstDiffers(cfg: Config, last: Remembered, ex: Exchange) {
    && FetchLimits(cfg, ex).Ok?
    && Get(FetchLimits(cfg, ex).value, RemainingHeader).Some?
    && Differs(last, Get(FetchLimits(cfg, ex).value, RemainingHeader).value)
  }

  /** The loop passes through readings that look reset: entered at call `n`,
      it behaves as if entered at call `k` when every reading in between looks
      reset, and it stops with the failure of call `k` when that call fails. */
  lemma SettleThrough(cfg: Config, exs: seq<Exchange>, limits: LimitsTable, n: nat, k: nat)
    requires n <= k <= MaxFalsePositive < |exs|
    requires FetchLimits(cfg, exs[n]) == Ok(limits)
    requires forall j :: n <= j < k ==> ResetReading(cfg, exs[j])
    ensures FetchLimits(cfg, exs[k]).Ok? ==> Settle(cfg, exs, limits, n) == Settle(cfg, exs, FetchLimits(cfg, exs[k]).value, k)
    ensures n < k && !FetchLimits(cfg, exs[k]).Ok? ==> Settle(cfg, exs, limits, n) == Run(FetchLimits(cfg, exs[k]), k + 1)
  {
    if FetchLimits(cfg, exs[k]).Ok? {
      SettleReaches(cfg, exs, limits, n, k);
    } else if n < k {
      var p := k - 1;
      assert ResetReading(cfg, exs[p]);
      SettleReaches(cfg, exs, limits, n, p);
      assert exs[p + 1] == exs[k];
      SettleStep(cfg, exs, FetchLimits(cfg, exs[p]).value, p);
    }
  }

  /** The loop reaches a successful call `k` when every reading before it
      looks reset. */
  lemma {:induction false} SettleReaches(cfg: Config, exs: seq<Exchange>, limits: LimitsTable, n: nat, k: nat)
    requires n <= k <= MaxFalsePositive < |exs|
    requires FetchLimits(cfg, exs[n]) == Ok(limits)
    requires forall j :: n <= j < k ==> ResetReading(cfg, exs[j])
    requires FetchLimits(cfg, exs[k]).Ok?
    ensures Settle(cfg, exs, limits, n) == Settle(cfg, exs, FetchLimits(cfg, exs[k]).value, k)
    decreases k - n
  {
    if n < k {
      assert ResetReading(cfg, exs[n]);
      assert FetchLimits(cfg, exs[n + 1]).Ok? by {
        if n + 1 < k {
          assert ResetReading(cfg, exs[n + 1]);
        }
      }
      SettleStep(cfg, exs, limits, n);
      SettleReaches(cfg, exs, FetchLimits(cfg, exs[n + 1]).value, n + 1, k);
    }
  }

  /** Re-probing happens only when the first reading's `remaining` differs
      from the remembered value, and every reading before the last one looked
      reset. */
  lemma ProbeOnlyWhileReset(cfg: Config, last: Remembered, exs: seq<Exchange>)
    requires MaxFalsePositive < |exs|
    ensures var r := Probe(cfg, last, exs);
            && (r.probes > 1 ==> FirstDiffers(cfg, last, exs[0]))
            && (forall j :: 0 <= j < r.probes - 1 ==> ResetReading(cfg, exs[j]))
  {
    var first := FetchLimits(cfg, exs[0]);
    if FirstDiffers(cfg, last, exs[0]) {
      var r := Settle(cfg, exs, first.value, 0);
      assert forall j :: 0 <= j < r.probes - 1 ==> FetchLimits(cfg, exs[j]).Ok? && LooksReset(FetchLimits(cfg, exs[j]).value);
    }
  }

  /** When the loop ran, a successful probe ends on a reading that holds both
      headers and either no longer looks reset or is the tenth re-probe. */
  lemma ProbeSettled(cfg: Config, last: Remembered, exs: seq<Exchange>)
    requires MaxFalsePositive < |exs|
    requires FirstDiffers(cfg, last, exs[0])
    ensures var r := Probe(cfg, last, exs);
            r.result.Ok? ==>
              && Get(r.result.value, LimitHeader).Some?
              && (!LooksReset(r.result.value) || r.probes == MaxFalsePositive + 1)
  {
  }

  /** A reading whose `remaining` matches the remembered value is taken as it
      is, with no re-probe. */
  lemma UnchangedNoReprobe(cfg: Config, last: Remembered, exs: seq<Exchange>)
    requires MaxFalsePositive < |exs|
    requires FetchLimits(cfg, exs[0]).Ok? && Get(FetchLimits(cfg, exs[0]).value, RemainingHeader).Some?
    requires !Differs(last, Get(FetchLimits(cfg, exs[0]).value, RemainingHeader).value)
    ensures Probe(cfg, last, exs) == Run(FetchLimits(cfg, exs[0]), 1)
  {
  }

  /** The first `collect` after start-up always checks for a false reset: a
      first reading with `remaining == limit` is re-probed whatever its
      value. */
  lemma FirstCollectReprobes(cfg: Config, count: int, exs: seq<Exchange>)
    requires MaxFalsePositive < |exs|
    requires ResetReading(cfg, exs[0])
    ensures Probe(cfg, Initial(count), exs).probes >= 2
  {
  }

  /** The loop stops at the first reading that no longer looks reset: after
      `k` reset-looking readings, a reading with both headers and
      `remaining != limit` is the result, after `k` re-probes. */
  lemma ProbeSettlesOnChange(cfg: Config, last: Remembered, exs: seq<Exchange>, k: nat)
    requires k <= MaxFalsePositive < |exs|
    requires forall j :: 0 <= j < k ==> ResetReading(cfg, exs[j])
    requires FetchLimits(cfg, exs[k]).Ok?
    requires Get(FetchLimits(cfg, exs[k]).value, RemainingHeader).Some?
    requires Get(FetchLimits(cfg, exs[k]).value, LimitHeader).Some?
    requires !LooksReset(FetchLimits(cfg, exs[k]).value)
    requires k > 0 ==> FirstDiffers(cfg, last, exs[0])
    ensures Probe(cfg, last, exs) == Run(FetchLimits(cfg, exs[k]), k + 1)
  {
    var first := FetchLimits(cfg, exs[0]).value;
    if Differs(last, Get(first, RemainingHeader).value) {
      SettleThrough(cfg, exs, first, 0, k);
    }
  }

  /** A registry that keeps answering `remaining == limit` is probed exactly
      eleven times, and its last answer is kept. */
  lemma ProbePersistentReset(cfg: Config, last: Remembered, exs: seq<Exchange>)
    requires MaxFalsePositive < |exs|
    requires forall j :: 0 <= j <= MaxFalsePositive ==> ResetReading(cfg, exs[j])
    requires FirstDiffers(cfg, last, exs[0])
    ensures Probe(cfg, last, exs) == Run(FetchLimits(cfg, exs[MaxFalsePositive]), MaxFalsePositive + 1)
  {
    var first := FetchLimits(cfg, exs[0]).value;
    SettleThrough(cfg, exs, first, 0, MaxFalsePositive);
    assert ResetReading(cfg, exs[MaxFalsePositive]);
  }

  /** A re-probe that fails ends the collection with that failure. */
  lemma ProbeFailsOnReprobe(cfg: Config, last: Remembered, exs: seq<Exchange>, k: nat)
    requires 0 < k <= MaxFalsePositive < |exs|
    requires forall j :: 0 <= j < k ==> ResetReading(cfg, exs[j])
    requires !FetchLimits(cfg, exs[k]).Ok?
    requires FirstDiffers(cfg, last, exs[0])
    ensures Probe(cfg, last, exs) == Run(FetchLimits(cfg, exs[k]), k + 1)
  {
    var first := FetchLimits(cfg, exs[0]).value;
    SettleThrough(cfg, exs, first, 0, k);
  }

  /** A missing `ratelimit-remaining` always raises on the first reading. A
      missing `ratelimit-limit` raises only when the loop condition is
      evaluated, that is when `remaining` differs from the remembered value;
      otherwise the reading is taken without it. */
  lemma MissingHeaders(cfg: Config, last: Remembered, exs: seq<Exchange>)
    requires MaxFalsePositive < |exs|
    requires FetchLimits(cfg, exs[0]).Ok?
    ensures var first := FetchLimits(cfg, exs[0]).value;
            && (Get(first, RemainingHeader).None? ==>
                  Probe(cfg, last, exs) == Run(Raise(KeyError(RemainingHeader)), 1))
            && (Get(first, RemainingHeader).Some? && Get(first, LimitHeader).None? ==>
                  Probe(cfg, last, exs) ==
                    if Differs(last, Get(first, RemainingHeader).value) then Run(Raise(KeyError(LimitHeader)), 1)
                    else Run(Ok(first), 1))
  {
  }

  /** A response with no `ratelimit-limit` header, whose `remaining` count is
      the remembered one, is accepted: the table holds no limit. */
  lemma ResponseWithoutLimit(cfg: Config, last: Remembered, exs: seq<Exchange>, v: string)
    requires MaxFalsePositive < |exs|
    requires GetToken(cfg, exs[0].token).Ok? && exs[0].head.HeadResponse?
    requires AllTrackedParse(exs[0].head.headers)
    requires LastValue(exs[0].head.headers, LimitHeader).None?
    requires LastValue(exs[0].head.headers, RemainingHeader) == Some(v)
    requires ParseLimit(v).Ok? && !Differs(last, ParseLimit(v).value.0)
    ensures Probe(cfg, last, exs).result.Ok? && Probe(cfg, last, exs).probes == 1
    ensures Get(Probe(cfg, last, exs).result.value, LimitHeader).None?
  {
    var hs := exs[0].head.headers;
    ScanHeadersOk(hs);
    TrackedNamesAre(LimitHeader);
    TrackedNamesAre(RemainingHeader);
    ScanHeadersRecords(hs, LimitHeader);
    ScanHeadersRecords(hs, RemainingHeader);
  }

  /** A successful collection labels every gauge with `job` set to the
      exporter name and `dockerhub_username` set to the user label: the final
      table comes from the header scan, which never overwrites them. */
  lemma CollectLabels(cfg: Config, last: Remembered, exs: seq<Exchange>)
    requires MaxFalsePositive < |exs|
    ensures var run := Probe(cfg, last, exs);
            run.result.Ok? && Shape(cfg, run.result.value).Ok? ==>
              forall m :: m in Shape(cfg, run.result.value).value ==>
                && Get(m.labels, "job") == Some(cfg.exporterName)
                && Get(m.labels, "dockerhub_username") == Some(UsernameLabel(cfg))
  {
    var run := Probe(cfg, last, exs);
    if run.result.Ok? {
      var ex := exs[run.probes - 1];
      assert FetchLimits(cfg, ex) == run.result;
      ScanShapeLabels(cfg, ex.head.headers);
    }
  }
}
