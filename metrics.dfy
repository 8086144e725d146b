/** The second half of `collect`: from the final limits table to the metric
    records. Tracked keys become gauges named `dockerhub_<key>`; every other
    key becomes a label shared by all of them, beside `job` and
    `dockerhub_username`. */
module Metrics {
  import opened Base
  import opened PyStr
  import opened PyInt
  import opened OrderedDict
  import opened Settings
  import opened Limits

  /** The metric types `collect` accepts. */
  const MetricKinds: seq<string> := ["counter", "gauge", "histogram", "summary"]

  type LabelSet = Dict<string, string>

  /** A `prometheus_client` Metric with its single sample: the sample has the
      metric's own name. */
  datatype Metric = Metric(name: string, description: string, kind: string, value: int, labels: LabelSet)

  /** An entry of the local `metrics` list, before the labels are attached. */
  datatype Draft = Draft(name: string, value: int, description: string, kind: string)

  // ---------------------------------------------------------------- names

  /** `key.lower().replace("-", "_")`: same length, no hyphen and no
      upper-case letter left, every other character kept. */
  function Mangle(key: string): (r: string)
    ensures |r| == |key|
    ensures forall i :: 0 <= i < |r| ==> r[i] != '-' && !IsUpper(r[i])
    ensures forall i :: 0 <= i < |r| && key[i] != '-' && !IsUpper(key[i]) ==> r[i] == key[i]
    ensures forall i :: 0 <= i < |r| && key[i] == '-' ==> r[i] == '_'
  {
    ReplaceChar(Lower(key), '-', '_');
    Replace(Lower(key), "-", "_")
  }

  /** `f'dockerhub_{key.lower().replace("-", "_")}'`: the key, mangled, after
      the `dockerhub_` prefix; no hyphen or upper-case letter anywhere. */
  function MetricName(key: string): (r: string)
    ensures "dockerhub_" <= r && |r| == |"dockerhub_"| + |key|
    ensures forall i :: 0 <= i < |r| ==> r[i] != '-' && !IsUpper(r[i])
  {
    "dockerhub_" + Mangle(key)
  }

  /** Mangling works character by character: a hyphen-joined key mangles to
      its mangled parts joined by `_`. */
  lemma MangleJoin(a: string, b: string)
    ensures Mangle(a + "-" + b) == Mangle(a) + "_" + Mangle(b)
  {
    var k := a + "-" + b;
    assert Lower(k) == Lower(a) + "-" + Lower(b);
    ReplaceChar(Lower(k), '-', '_');
    ReplaceChar(Lower(a), '-', '_');
    ReplaceChar(Lower(b), '-', '_');
  }

  /** A lower-case word is its own mangled form. */
  lemma MangleWord(w: string)
    requires forall i :: 0 <= i < |w| ==> 'a' <= w[i] <= 'z'
    ensures Mangle(w) == w
  {
  }

  /** `MangleJoin` with the mangled parts already known. */
  lemma MangleJoined(a: string, b: string, a': string, b': string)
    requires Mangle(a) == a' && Mangle(b) == b'
    ensures Mangle(a + "-" + b) == a' + "_" + b'
  {
    MangleJoin(a, b);
  }

  /** The words the tracked names are made of are already mangled. */
  lemma HeaderWords()
    ensures Mangle("ratelimit") == "ratelimit"
    ensures Mangle("limit") == "limit"
    ensures Mangle("remaining") == "remaining"
    ensures Mangle("interval") == "interval"
  {
    MangleWord("ratelimit");
    MangleWord("limit");
    MangleWord("remaining");
    MangleWord("interval");
  }

  /** How the tracked header names and the gauge names are spelled. */
  lemma HeaderSpellings()
    ensures LimitHeader == "ratelimit" + "-" + "limit"
    ensures RemainingHeader == "ratelimit" + "-" + "remaining"
  {
  }

  lemma IntervalSpelling(key: string)
    ensures IntervalKey(key) == key + "-" + "interval"
  {
  }

  /** How the gauge and label names are spelled. */
  lemma GaugeSpellings()
    ensures "ratelimit" + "_" + "limit" == "ratelimit_limit"
    ensures "ratelimit" + "_" + "remaining" == "ratelimit_remaining"
    ensures "dockerhub_" + "ratelimit_limit" == "dockerhub_ratelimit_limit"
    ensures "dockerhub_" + "ratelimit_remaining" == "dockerhub_ratelimit_remaining"
    ensures "ratelimit_limit" + "_" + "interval" == "ratelimit_limit_interval"
    ensures "ratelimit_remaining" + "_" + "interval" == "ratelimit_remaining_interval"
  {
  }

  /** The gauge for `ratelimit-limit` is `dockerhub_ratelimit_limit`. */
  lemma LimitMetricName()
    ensures Mangle(LimitHeader) == "ratelimit_limit"
    ensures MetricName(LimitHeader) == "dockerhub_ratelimit_limit"
  {
    HeaderWords();
    HeaderSpellings();
    GaugeSpellings();
    MangleJoined("ratelimit", "limit", "ratelimit", "limit");
  }

  /** The gauge for `ratelimit-remaining` is `dockerhub_ratelimit_remaining`. */
  lemma RemainingMetricName()
    ensures Mangle(RemainingHeader) == "ratelimit_remaining"
    ensures MetricName(RemainingHeader) == "dockerhub_ratelimit_remaining"
  {
    HeaderWords();
    HeaderSpellings();
    GaugeSpellings();
    MangleJoined("ratelimit", "remaining", "ratelimit", "remaining");
  }

  // ---------------------------------------------------------------- labels

  /** The `dockerhub_username` label: the lower-cased user name in LOGIN mode,
      `anonymous` otherwise. */
  function UsernameLabel(cfg: Config): (u: string)
    ensures Authenticated(cfg) ==> u == Lower(cfg.username.value)
    ensures !Authenticated(cfg) ==> u == "anonymous"
    ensures forall i :: 0 <= i < |u| ==> !IsUpper(u[i])
  {
    if Authenticated(cfg) then Lower(cfg.username.value) else "anonymous"
  }

  /** The labels `collect` starts from: `job` is the exporter name and
      `dockerhub_username` the user label, each once. */
  function BaseLabels(cfg: Config): (labels: LabelSet)
    ensures Get(labels, "job") == Some(cfg.exporterName)
    ensures Get(labels, "dockerhub_username") == Some(UsernameLabel(cfg))
    ensures DistinctKeys(labels)
  {
    [("job", cfg.exporterName), ("dockerhub_username", UsernameLabel(cfg))]
  }

  // ---------------------------------------------------------------- the loop

  /** `[i for i in HEADERS if key == i["name"]][0]` */
  function FirstSpec(table: seq<HeaderSpec>, key: string): (r: Option<HeaderSpec>)
    ensures r.Some? ==> r.value in table && r.value.name == key
    ensures r.None? ==> forall i :: 0 <= i < |table| ==> table[i].name != key
    decreases |table|
  {
    if table == [] then None
    else if table[0].name == key then Some(table[0])
    else FirstSpec(table[1..], key)
  }

  lemma GaugeIsMetricKind()
    ensures "gauge" in MetricKinds
  {
    assert MetricKinds[1] == "gauge";
  }

  /** The `HEADERS` row of a tracked key: a gauge. */
  function Descriptor(key: string): (spec: HeaderSpec)
    requires IsTracked(key)
    ensures spec in Headers && spec.name == key && spec.kind == "gauge"
  {
    FirstSpec(Headers, key).value
  }

  /** One pass of the `for key, value in limits.items()` loop body: a tracked
      key whose type is a known metric type appends a draft with `int(value)`
      (which raises on text that is not an integer); any other key puts its
      value under its mangled name. */
  function ShapeStep(drafts: seq<Draft>, labels: LabelSet, key: string, value: string): (r: Outcome<(seq<Draft>, LabelSet)>)
    ensures r.Ok? ==> drafts <= r.value.0 && |r.value.0| <= |drafts| + 1
    ensures !r.Ok? ==> r == Raise(IntValueError(value))
  {
    if IsTracked(key) then
      var spec := Descriptor(key);
      if spec.kind in MetricKinds then
        match ParseInt(value)
        case None => Raise(IntValueError(value))
        case Some(n) => Ok((drafts + [Draft(MetricName(key), n, spec.description, spec.kind)], labels))
      else Ok((drafts, labels))
    else Ok((drafts, Put(labels, Mangle(key), value)))
  }

  /** The `metrics` list and the `labels` dict after the first `|items|`
      entries of the limits table. */
  function ShapeLoop(items: LimitsTable, base: LabelSet): (r: Outcome<(seq<Draft>, LabelSet)>)
    ensures r.Ok? ==> |r.value.0| <= |items|
    ensures !r.Ok? ==> r.Raise? && r.error.IntValueError?
    decreases |items|
  {
    if items == [] then Ok(([], base))
    else
      var prev := ShapeLoop(items[..|items| - 1], base);
      if !prev.Ok? then prev
      else ShapeStep(prev.value.0, prev.value.1, items[|items| - 1].0, items[|items| - 1].1)
  }

  /** A step fails exactly on a tracked key whose value is not an integer; a
      tracked key appends its draft, any other key sets its label. */
  lemma ShapeStepSpec(drafts: seq<Draft>, labels: LabelSet, key: string, value: string)
    ensures ShapeStep(drafts, labels, key, value).Ok? <==> (IsTracked(key) ==> ParseInt(value).Some?)
    ensures ShapeStep(drafts, labels, key, value).Raise? ==> ShapeStep(drafts, labels, key, value).error == IntValueError(value)
    ensures !ShapeStep(drafts, labels, key, value).Exit?
    ensures IsTracked(key) && ParseInt(value).Some? ==>
              ShapeStep(drafts, labels, key, value) == Ok((drafts + [DraftOf((key, value))], labels))
    ensures !IsTracked(key) ==> ShapeStep(drafts, labels, key, value) == Ok((drafts, Put(labels, Mangle(key), value)))
  {
    if IsTracked(key) {
      GaugeIsMetricKind();
    }
  }

  function Attach(d: Draft, labels: LabelSet): Metric {
    Metric(d.name, d.description, d.kind, d.value, labels)
  }

  /** One Metric per draft, in order, each carrying `labels`. */
  function AttachAll(drafts: seq<Draft>, labels: LabelSet): (ms: seq<Metric>)
    ensures |ms| == |drafts|
    ensures forall k :: 0 <= k < |ms| ==> ms[k] == Attach(drafts[k], labels)
  {
    seq(|drafts|, k requires 0 <= k < |drafts| => Attach(drafts[k], labels))
  }

  /** What `collect` yields for the limits table: one Metric per draft, all
      with the final labels. At most one metric per entry, all sharing their
      labels; a failure is `int()` raising. */
  function Shape(cfg: Config, limits: LimitsTable): (r: Outcome<seq<Metric>>)
    ensures r.Ok? ==> |r.value| <= |limits|
    ensures r.Ok? ==> forall i, j :: 0 <= i < |r.value| && 0 <= j < |r.value| ==> r.value[i].labels == r.value[j].labels
    ensures !r.Ok? ==> r.Raise? && r.error.IntValueError?
  {
    match ShapeLoop(limits, BaseLabels(cfg))
    case Ok((drafts, labels)) => Ok(AttachAll(drafts, labels))
    case Raise(e) => Raise(e)
    case Exit(c) => Exit(c)
  }

  /** The shaping part of `collect`: the `for key, value in limits.items()`
      loop, then one Metric per entry of `metrics`. */
  method BuildMetrics(cfg: Config, limits: LimitsTable) returns (r: Outcome<seq<Metric>>)
    ensures r == Shape(cfg, limits)
  {
    var labels := BaseLabels(cfg);
    var drafts: seq<Draft> := [];
    for i := 0 to |limits|
      invariant ShapeLoop(limits[..i], BaseLabels(cfg)) == Ok((drafts, labels))
    {
      var (key, value) := limits[i];
      assert limits[..i + 1][..i] == limits[..i];
      assert ShapeLoop(limits[..i + 1], BaseLabels(cfg)) == ShapeStep(drafts, labels, key, value);
      ShapeStepSpec(drafts, labels, key, value);
      if IsTracked(key) {
        var spec := Descriptor(key);
        if spec.kind in MetricKinds {
          var n := ParseInt(value);
          if n.None? {
            ShapeLoopFailureSticks(limits, BaseLabels(cfg), i + 1);
            return Raise(IntValueError(value));
          }
          drafts := drafts + [Draft(MetricName(key), n.value, spec.description, spec.kind)];
        }
      } else {
        labels := Put(labels, Mangle(key), value);
      }
    }
    assert limits[..|limits|] == limits;
    var metrics := YieldMetrics(drafts, labels);
    r := Ok(metrics);
  }

  /** The closing loop of `collect`: one Metric per draft, each sampled with
      the same labels. */
  method YieldMetrics(drafts: seq<Draft>, labels: LabelSet) returns (metrics: seq<Metric>)
    ensures metrics == AttachAll(drafts, labels)
  {
    metrics := [];
    for j := 0 to |drafts|
      invariant metrics == AttachAll(drafts[..j], labels)
    {
      metrics := metrics + [Attach(drafts[j], labels)];
    }
    assert drafts[..|drafts|] == drafts;
  }

  // ---------------------------------------------------------------- reference definitions

  /** The tracked entries of the table, in table order. */
  function TrackedItems(items: LimitsTable): (t: LimitsTable)
    ensures forall i :: 0 <= i < |t| ==> IsTracked(t[i].0) && t[i] in items
    decreases |items|
  {
    if items == [] then []
    else
      var init := TrackedItems(items[..|items| - 1]);
      if IsTracked(items[|items| - 1].0) then init + [items[|items| - 1]] else init
  }

  /** No tracked entry is left out. */
  lemma {:induction false} TrackedItemsComplete(items: LimitsTable)
    ensures forall i :: 0 <= i < |items| && IsTracked(items[i].0) ==> items[i] in TrackedItems(items)
    decreases |items|
  {
    if items != [] {
      var init := items[..|items| - 1];
      TrackedItemsComplete(init);
      forall i | 0 <= i < |items| && IsTracked(items[i].0) ensures items[i] in TrackedItems(items) {
        if i < |init| {
          assert items[i] == init[i];
        }
      }
    }
  }

  /** The tracked entries of two tables in a row are those of the first, then
      those of the second: the filter keeps table order. */
  lemma {:induction false} TrackedItemsConcat(a: LimitsTable, b: LimitsTable)
    ensures TrackedItems(a + b) == TrackedItems(a) + TrackedItems(b)
    decreases |b|
  {
    if b != [] {
      var b' := b[..|b| - 1];
      assert (a + b)[..|a + b| - 1] == a + b';
      assert (a + b)[|a + b| - 1] == b[|b| - 1];
      TrackedItemsConcat(a, b');
    } else {
      assert a + b == a;
    }
  }

  /** Every tracked entry's value is a base-10 integer. */
  predicate TrackedValuesAreInts(items: LimitsTable) {
    forall i :: 0 <= i < |items| && IsTracked(items[i].0) ==> ParseInt(items[i].1).Some?
  }

  /** `base` with each untracked entry put under its mangled key, in order. */
  function FoldLabels(items: LimitsTable, base: LabelSet): LabelSet
    decreases |items|
  {
    if items == [] then base
    else
      var init := FoldLabels(items[..|items| - 1], base);
      var (key, value) := items[|items| - 1];
      if IsTracked(key) then init else Put(init, Mangle(key), value)
  }

  /** The value of the last untracked entry whose mangled key is `labelName`. */
  function LastLabel(items: LimitsTable, labelName: string): Option<string>
    decreases |items|
  {
    if items == [] then None
    else
      var (key, value) := items[|items| - 1];
      if !IsTracked(key) && Mangle(key) == labelName then Some(value)
      else LastLabel(items[..|items| - 1], labelName)
  }

  /** The draft a tracked entry gives. */
  function DraftOf(item: (string, string)): Draft
    requires IsTracked(item.0) && ParseInt(item.1).Some?
  {
    var spec := Descriptor(item.0);
    Draft(MetricName(item.0), ParseInt(item.1).value, spec.description, spec.kind)
  }

  /** Once the loop has raised on a prefix, the whole loop raises the same. */
  lemma {:induction false} ShapeLoopFailureSticks(items: LimitsTable, base: LabelSet, j: nat)
    requires j <= |items|
    requires !ShapeLoop(items[..j], base).Ok?
    ensures ShapeLoop(items, base) == ShapeLoop(items[..j], base)
    decreases |items| - j
  {
    if j < |items| {
      assert items[..j + 1][..j] == items[..j];
      ShapeLoopFailureSticks(items, base, j + 1);
    } else {
      assert items[..j] == items;
    }
  }

  /** The loop succeeds exactly when every tracked value is an integer. */
  lemma {:induction false} ShapeLoopOk(items: LimitsTable, base: LabelSet)
    ensures ShapeLoop(items, base).Ok? <==> TrackedValuesAreInts(items)
    ensures !ShapeLoop(items, base).Exit?
    decreases |items|
  {
    if items != [] {
      var init := items[..|items| - 1];
      var (key, value) := items[|items| - 1];
      ShapeLoopOk(init, base);
      TrackedValuesAreIntsSnoc(items);
      var prev := ShapeLoop(init, base);
      if prev.Ok? {
        ShapeStepSpec(prev.value.0, prev.value.1, key, value);
      }
    }
  }

  lemma TrackedValuesAreIntsSnoc(items: LimitsTable)
    requires items != []
    ensures TrackedValuesAreInts(items) <==>
              TrackedValuesAreInts(items[..|items| - 1]) &&
              (IsTracked(items[|items| - 1].0) ==> ParseInt(items[|items| - 1].1).Some?)
  {
    var init := items[..|items| - 1];
    var last := items[|items| - 1];
    if TrackedValuesAreInts(items) {
      forall i | 0 <= i < |init| && IsTracked(init[i].0) ensures ParseInt(init[i].1).Some? {
        assert init[i] == items[i];
      }
    }
    if TrackedValuesAreInts(init) && (IsTracked(last.0) ==> ParseInt(last.1).Some?) {
      forall i | 0 <= i < |items| && IsTracked(items[i].0) ensures ParseInt(items[i].1).Some? {
        if i < |init| {
          assert init[i] == items[i];
        }
      }
    }
  }

  /** When the loop succeeds it drafts one gauge per tracked entry, in table
      order, and its labels are the base labels with every untracked entry put
      under its mangled key. */
  lemma ShapeLoopResult(items: LimitsTable, base: LabelSet)
    requires ShapeLoop(items, base).Ok?
    ensures ShapeLoop(items, base).value.1 == FoldLabels(items, base)
    ensures |ShapeLoop(items, base).value.0| == |TrackedItems(items)|
    ensures forall i :: 0 <= i < |TrackedItems(items)| ==>
              ParseInt(TrackedItems(items)[i].1).Some? &&
              ShapeLoop(items, base).value.0[i] == DraftOf(TrackedItems(items)[i])
  {
    ShapeLoopLabels(items, base);
    ShapeLoopDrafts(items, base);
  }

  /** The loop's labels are the fold of the untracked entries. */
  lemma {:induction false} ShapeLoopLabels(items: LimitsTable, base: LabelSet)
    requires ShapeLoop(items, base).Ok?
    ensures ShapeLoop(items, base).value.1 == FoldLabels(items, base)
    decreases |items|
  {
    if items != [] {
      var init := items[..|items| - 1];
      var (key, value) := items[|items| - 1];
      var prev := ShapeLoop(init, base);
      assert ShapeLoop(items, base) == ShapeStep(prev.value.0, prev.value.1, key, value);
      ShapeLoopLabels(init, base);
      ShapeStepSpec(prev.value.0, prev.value.1, key, value);
    }
  }

  /** One more entry: a tracked one appends its draft to the loop's drafts and
      to the tracked entries; any other entry leaves both as they were. */
  lemma ShapeLoopDraftsStep(items: LimitsTable, base: LabelSet)
    requires items != [] && ShapeLoop(items, base).Ok?
    ensures ShapeLoop(items[..|items| - 1], base).Ok?
    ensures
      var item := items[|items| - 1];
      var prev := ShapeLoop(items[..|items| - 1], base).value.0;
      var init := TrackedItems(items[..|items| - 1]);
      if IsTracked(item.0) then
        && ParseInt(item.1).Some?
        && ShapeLoop(items, base).value.0 == prev + [DraftOf(item)]
        && TrackedItems(items) == init + [item]
      else
        && ShapeLoop(items, base).value.0 == prev
        && TrackedItems(items) == init
  {
    var (key, value) := items[|items| - 1];
    var prev := ShapeLoop(items[..|items| - 1], base);
    ShapeStepSpec(prev.value.0, prev.value.1, key, value);
  }

  /** The loop's drafts are those of the tracked entries, in order. */
  lemma {:induction false} ShapeLoopDrafts(items: LimitsTable, base: LabelSet)
    requires ShapeLoop(items, base).Ok?
    ensures |ShapeLoop(items, base).value.0| == |TrackedItems(items)|
    ensures forall i :: 0 <= i < |TrackedItems(items)| ==>
              ParseInt(TrackedItems(items)[i].1).Some? &&
              ShapeLoop(items, base).value.0[i] == DraftOf(TrackedItems(items)[i])
    decreases |items|
  {
    if items != [] {
      var init := items[..|items| - 1];
      ShapeLoopDraftsStep(items, base);
      ShapeLoopDrafts(init, base);
      var t, t' := TrackedItems(items), TrackedItems(init);
      var ds, ds' := ShapeLoop(items, base).value.0, ShapeLoop(init, base).value.0;
      forall i | 0 <= i < |t| ensures ParseInt(t[i].1).Some? && ds[i] == DraftOf(t[i]) {
        if i < |t'| {
          assert t[i] == t'[i] && ds[i] == ds'[i];
        }
      }
    }
  }

  /** Every label is the last untracked entry that mangles to it, or else the
      base label: later entries overwrite earlier ones. */
  lemma {:induction false} FoldLabelsGet(items: LimitsTable, base: LabelSet, labelName: string)
    ensures Get(FoldLabels(items, base), labelName) ==
            if LastLabel(items, labelName).Some? then LastLabel(items, labelName) else Get(base, labelName)
    decreases |items|
  {
    if items != [] {
      var init := items[..|items| - 1];
      var (key, value) := items[|items| - 1];
      FoldLabelsGet(init, base, labelName);
      if !IsTracked(key) {
        GetPut(FoldLabels(init, base), Mangle(key), value, labelName);
      }
    }
  }

  /** What `collect` yields, stated without the loop: it fails exactly when a
      tracked value is not an integer; otherwise one gauge per tracked entry, in
      table order, named `dockerhub_<mangled key>`, valued `int(value)`, and all
      of them carrying the same labels: `job`, `dockerhub_username` and the
      untracked entries (unless an untracked key mangles onto one of those two). */
  lemma ShapeSpec(cfg: Config, limits: LimitsTable)
    ensures Shape(cfg, limits).Ok? <==> TrackedValuesAreInts(limits)
    ensures Shape(cfg, limits).Ok? ==>
              var ms := Shape(cfg, limits).value;
              var t := TrackedItems(limits);
              var labels := FoldLabels(limits, BaseLabels(cfg));
              && |ms| == |t|
              && (forall i :: 0 <= i < |t| ==>
                    && ParseInt(t[i].1).Some?
                    && ms[i].name == MetricName(t[i].0)
                    && ms[i].value == ParseInt(t[i].1).value
                    && ms[i].kind == "gauge"
                    && ms[i].description == Descriptor(t[i].0).description
                    && ms[i].labels == labels)
              && (LastLabel(limits, "job").None? ==> Get(labels, "job") == Some(cfg.exporterName))
              && (LastLabel(limits, "dockerhub_username").None? ==>
                    Get(labels, "dockerhub_username") == Some(UsernameLabel(cfg)))
  {
    ShapeLoopOk(limits, BaseLabels(cfg));
    if ShapeLoop(limits, BaseLabels(cfg)).Ok? {
      ShapeLoopResult(limits, BaseLabels(cfg));
    }
    FoldLabelsGet(limits, BaseLabels(cfg), "job");
    FoldLabelsGet(limits, BaseLabels(cfg), "dockerhub_username");
    assert "job" != "dockerhub_username";
  }

  /** A label the table sets comes from an untracked key that mangles to
      its name. */
  lemma {:induction false} LastLabelFrom(items: LimitsTable, n: string)
    ensures LastLabel(items, n).Some? ==>
              exists i :: 0 <= i < |items| && !IsTracked(items[i].0) && Mangle(items[i].0) == n
    decreases |items|
  {
    if items != [] {
      var init := items[..|items| - 1];
      var last := |items| - 1;
      if !IsTracked(items[last].0) && Mangle(items[last].0) == n {
        assert !IsTracked(items[last].0) && Mangle(items[last].0) == n;
      } else {
        LastLabelFrom(init, n);
        if LastLabel(init, n).Some? {
          var i :| 0 <= i < |init| && !IsTracked(init[i].0) && Mangle(init[i].0) == n;
          assert items[i] == init[i];
        }
      }
    }
  }

  /** The header scan never builds a table with a label named `job` or
      `dockerhub_username`: its only untracked keys are the two interval
      keys, whose mangled names are longer. */
  lemma ScanBaseLabels(hs: seq<(string, string)>)
    requires ScanHeaders(hs).Ok?
    ensures LastLabel(ScanHeaders(hs).value, "job").None?
    ensures LastLabel(ScanHeaders(hs).value, "dockerhub_username").None?
  {
    var table := ScanHeaders(hs).value;
    ScanHeadersSpec(hs);
    forall i | 0 <= i < |table| && !IsTracked(table[i].0)
      ensures |Mangle(table[i].0)| >= |"ratelimit-limit-interval"|
    {
      assert table[i].0 in Keys(table);
      assert table[i].0 in ExpectedKeys(hs);
      TrackedNamesAre(table[i].0);
    }
    LastLabelFrom(table, "job");
    LastLabelFrom(table, "dockerhub_username");
  }

  /** Every gauge shaped from a scanned table carries `job` with the exporter
      name and `dockerhub_username` with the user label. */
  lemma ScanShapeLabels(cfg: Config, hs: seq<(string, string)>)
    requires ScanHeaders(hs).Ok?
    ensures Shape(cfg, ScanHeaders(hs).value).Ok? ==>
              forall m :: m in Shape(cfg, ScanHeaders(hs).value).value ==>
                && Get(m.labels, "job") == Some(cfg.exporterName)
                && Get(m.labels, "dockerhub_username") == Some(UsernameLabel(cfg))
  {
    var table := ScanHeaders(hs).value;
    ScanBaseLabels(hs);
    ShapeSpec(cfg, table);
    if Shape(cfg, table).Ok? {
      var ms := Shape(cfg, table).value;
      forall m | m in ms
        ensures Get(m.labels, "job") == Some(cfg.exporterName)
        ensures Get(m.labels, "dockerhub_username") == Some(UsernameLabel(cfg))
      {
        var i :| 0 <= i < |ms| && ms[i] == m;
      }
    }
  }

  /** With distinct keys, the label an untracked key gives holds that key's
      value, unless another untracked key mangles to the same name. */
  lemma {:induction false} LastLabelOfKey(items: LimitsTable, k: string)
    requires DistinctKeys(items)
    requires !IsTracked(k)
    requires forall i :: 0 <= i < |items| && items[i].0 != k && !IsTracked(items[i].0) ==> Mangle(items[i].0) != Mangle(k)
    ensures LastLabel(items, Mangle(k)) == Get(items, k)
    decreases |items|
  {
    if items != [] {
      var init := items[..|items| - 1];
      var (key, value) := items[|items| - 1];
      assert items == init + [(key, value)];
      assert forall i :: 0 <= i < |init| ==> init[i] == items[i];
      LastLabelOfKey(init, k);
      GetSnoc(init, key, value, k);
      if key == k {
        GetPresent(init, k);
      }
    }
  }

  /** The label names the interval entries become. */
  lemma IntervalLabelNames()
    ensures Mangle(IntervalKey(LimitHeader)) == "ratelimit_limit_interval"
    ensures Mangle(IntervalKey(RemainingHeader)) == "ratelimit_remaining_interval"
  {
    LimitIntervalLabel();
    RemainingIntervalLabel();
  }

  lemma LimitIntervalLabel()
    ensures Mangle(IntervalKey(LimitHeader)) == "ratelimit_limit_interval"
  {
    HeaderWords();
    IntervalSpelling(LimitHeader);
    GaugeSpellings();
    LimitMetricName();
    MangleJoined(LimitHeader, "interval", "ratelimit_limit", "interval");
  }

  lemma RemainingIntervalLabel()
    ensures Mangle(IntervalKey(RemainingHeader)) == "ratelimit_remaining_interval"
  {
    HeaderWords();
    IntervalSpelling(RemainingHeader);
    GaugeSpellings();
    RemainingMetricName();
    MangleJoined(RemainingHeader, "interval", "ratelimit_remaining", "interval");
  }

  /** The labels of a collection whose table the header scan built: each
      tracked header's interval is a label named `<mangled header>_interval`,
      holding the `w=`-stripped interval of the header's last value. */
  lemma IntervalLabels(cfg: Config, hs: seq<(string, string)>, n: string, v: string)
    requires IsTracked(n)
    requires ScanHeaders(hs).Ok?
    requires LastValue(hs, n) == Some(v)
    ensures SingleSemicolon(v)
    ensures Get(FoldLabels(ScanHeaders(hs).value, BaseLabels(cfg)), Mangle(IntervalKey(n))) == Some(ParseLimit(v).value.1)
  {
    var table := ScanHeaders(hs).value;
    ScanHeadersSpec(hs);
    TrackedNamesAre(n);
    TrackedNamesAre(IntervalKey(n));
    KeysDiffer();
    forall i | 0 <= i < |table| && table[i].0 != IntervalKey(n) && !IsTracked(table[i].0)
      ensures Mangle(table[i].0) != Mangle(IntervalKey(n))
    {
      assert table[i].0 in Keys(table);
      assert table[i].0 in ExpectedKeys(hs);
      TrackedNamesAre(table[i].0);
      assert |table[i].0| != |IntervalKey(n)|;
    }
    LastLabelOfKey(table, IntervalKey(n));
    FoldLabelsGet(table, BaseLabels(cfg), Mangle(IntervalKey(n)));
  }
}
