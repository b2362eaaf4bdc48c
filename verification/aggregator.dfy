/** The metrics aggregator of main.go: the goroutine that owns the window of
    histograms, folds in every measurement the workers send and, on every
    ticker fire, reports and resets.

    The channel and ticker multiplexing becomes a sequence of events applied
    one at a time. The OPA metrics library is not part of this model: a
    histogram is represented by the sequence of samples passed to `Update`,
    in order. */
module Aggregator {
  import opened Wrappers

  /** The histogram fed with each request's client-measured total latency. */
  const ClientLabel := "cli"
  /** The histogram fed with each request's summed server-reported timings. */
  const ServerLabel := "opa"

  /** A `result` as a worker sends it: the measured end-to-end latency in
      nanoseconds and the server-reported timings by name. An absent
      `metrics` field decodes to a nil map, which behaves as the empty map. */
  datatype Measurement = Measurement(total: int, metrics: map<string, int>)

  /** The samples each named histogram has received since the last reset. */
  type Histograms = map<string, seq<int>>

  /** The aggregator's variables: `n`, the registry `m` and `tLast`. */
  datatype Window = Window(n: int, histograms: Histograms, tLast: int)

  /** What a tick hands to the display: the request count, the elapsed time
      since the previous tick, and the client and server samples. */
  datatype Report = Report(count: int, elapsed: int, client: seq<int>, server: seq<int>)

  datatype Event =
    | Received(measurement: Measurement, order: seq<string>)
    | Ticked(now: int)

  /** `m.Histogram(name)` creates a histogram on first use, so a name never
      used reads as an empty one. */
  function Samples(h: Histograms, name: string): (s: seq<int>)
    ensures name in h ==> s == h[name]
    ensures name !in h ==> s == []
  {
    if name in h then h[name] else []
  }

  /** `m.Histogram(name).Update(v)`. */
  function Update(h: Histograms, name: string, v: int): (r: Histograms)
    ensures r.Keys == h.Keys + {name}
    ensures Samples(r, name) == Samples(h, name) + [v]
    ensures forall k :: k != name ==> Samples(r, k) == Samples(h, k)
  {
    h[name := Samples(h, name) + [v]]
  }

  /** The sample a measurement contributes to `name`'s own histogram. */
  function OwnSample(metrics: map<string, int>, name: string): seq<int>
  {
    if name in metrics then [metrics[name]] else []
  }

  /** Sum of all values of a map, independent of any order. */
  ghost function MapSum(m: map<string, int>): int
    decreases |m|
  {
    if |m| == 0 then 0
    else
      var k :| k in m;
      RemoveShrinks(m, k);
      m[k] + MapSum(m - {k})
  }

  lemma RemoveShrinks(m: map<string, int>, k: string)
    requires k in m
    ensures |m - {k}| == |m| - 1
  {
    assert (m - {k}).Keys == m.Keys - {k};
  }

  /** The label `MapSum` takes apart first. */
  lemma MapSumUnfold(m: map<string, int>) returns (k: string)
    requires |m| > 0
    ensures k in m && MapSum(m) == m[k] + MapSum(m - {k})
  {
    k :| k in m && MapSum(m) == m[k] + MapSum(m - {k});
  }

  /** The sum may be taken apart at any label. */
  lemma {:induction false} MapSumRemove(m: map<string, int>, x: string)
    requires x in m
    ensures MapSum(m) == m[x] + MapSum(m - {x})
    decreases |m|
  {
    var k := MapSumUnfold(m);
    if k != x {
      var mk, mx := m - {k}, m - {x};
      RemoveShrinks(m, k);
      RemoveShrinks(m, x);
      assert x in mk && k in mx;
      MapSumRemove(mk, x);
      MapSumRemove(mx, k);
      assert mk - {x} == mx - {k};
    }
  }

  /** No label is listed twice. */
  predicate Distinct(order: seq<string>)
    decreases |order|
  {
    order == [] || (order[0] !in order[1..] && Distinct(order[1..]))
  }

  /** `order` lists every name of `metrics` exactly once: one of the orders
      in which Go's `range` may visit the map. */
  predicate IsIterationOrder(order: seq<string>, metrics: map<string, int>)
  {
    && Distinct(order)
    && (forall k :: k in order ==> k in metrics)
    && (forall k :: k in metrics ==> k in order)
  }

  /** The values of `metrics` at the labels in `order`. */
  function Restrict(metrics: map<string, int>, order: seq<string>): (r: map<string, int>)
    requires forall k :: k in order ==> k in metrics
  {
    map k | k in order :: metrics[k]
  }

  /** `ns` as the loop accumulates it: the values at the labels of `order`,
      added up in that order. It is the running total of the loop: the sum
      over all labels but the last, plus the last label's value. */
  function SumOver(metrics: map<string, int>, order: seq<string>): (s: int)
    requires forall k :: k in order ==> k in metrics
    ensures order == [] ==> s == 0
    ensures order != [] ==> s == SumOver(metrics, order[..|order| - 1]) + metrics[order[|order| - 1]]
    decreases |order|
  {
    if order == [] then 0
    else
      var rest := SumOver(metrics, order[1..]);
      assert |order| > 1 ==> order[1..][..|order| - 2] == order[..|order| - 1][1..];
      metrics[order[0]] + rest
  }

  /** The sum over a non-empty order splits into its first value and the rest. */
  lemma RestrictSum(metrics: map<string, int>, order: seq<string>)
    requires |order| > 0 && Distinct(order) && forall k :: k in order ==> k in metrics
    ensures MapSum(Restrict(metrics, order)) == metrics[order[0]] + MapSum(Restrict(metrics, order[1..]))
  {
    var k := order[0];
    var all := Restrict(metrics, order);
    assert forall j :: j in order[1..] ==> j in order;
    assert k !in order[1..];
    MapSumRemove(all, k);
    assert all - {k} == Restrict(metrics, order[1..]);
  }

  /** The loop at main.go:157-160, visiting the labels in `order`: each label's
      histogram gets that label's value, and `ns` accumulates the values. */
  function UpdateLabels(h: Histograms, ns: int, metrics: map<string, int>, order: seq<string>): (r: (Histograms, int))
    requires Distinct(order) && forall k :: k in order ==> k in metrics
    ensures r.0.Keys == h.Keys + (set k | k in order)
    ensures forall k :: Samples(r.0, k) == if k in order then Samples(h, k) + [metrics[k]] else Samples(h, k)
    ensures r.1 == ns + SumOver(metrics, order)
    decreases |order|
  {
    if order == [] then
      (h, ns)
    else
      var k := order[0];
      var h' := Update(h, k, metrics[k]);
      var r := UpdateLabels(h', ns + metrics[k], metrics, order[1..]);
      assert k !in order[1..];
      UpdateLabelsStep(h, h', r.0, metrics, order);
      r
  }

  /** One iteration of the loop: visiting the first label, then the rest,
      touches every label in `order` once. */
  lemma UpdateLabelsStep(h: Histograms, h': Histograms, last: Histograms, metrics: map<string, int>, order: seq<string>)
    requires |order| > 0 && order[0] !in order[1..] && forall k :: k in order ==> k in metrics
    requires h' == Update(h, order[0], metrics[order[0]])
    requires last.Keys == h'.Keys + (set k | k in order[1..])
    requires forall k :: Samples(last, k) == if k in order[1..] then Samples(h', k) + [metrics[k]] else Samples(h', k)
    ensures last.Keys == h.Keys + (set k | k in order)
    ensures forall k :: Samples(last, k) == if k in order then Samples(h, k) + [metrics[k]] else Samples(h, k)
  {
    var first, rest := order[0], order[1..];
    ConsMembers(order);
    forall k
      ensures Samples(last, k) == if k in order then Samples(h, k) + [metrics[k]] else Samples(h, k)
    {
      if k == first {
        assert Samples(last, k) == Samples(h', k);
      } else {
        assert Samples(h', k) == Samples(h, k);
      }
    }
  }

  lemma ConsMembers(order: seq<string>)
    requires |order| > 0
    ensures forall k :: k in order <==> k == order[0] || k in order[1..]
    ensures (set k | k in order) == {order[0]} + (set k | k in order[1..])
  {
    assert order == [order[0]] + order[1..];
  }

  /** The `case r := <-monitor` branch: the client histogram gets the total,
      every name's histogram gets its value, the server histogram gets the sum
      of all values, and the count goes up by one. A name named like one of
      the two fixed histograms feeds that histogram a second sample. */
  function Record(w: Window, m: Measurement, order: seq<string>): (r: Window)
    requires IsIterationOrder(order, m.metrics)
    ensures r.n == w.n + 1 && r.tLast == w.tLast
    ensures r.histograms.Keys == w.histograms.Keys + {ClientLabel, ServerLabel} + m.metrics.Keys
    ensures Samples(r.histograms, ClientLabel)
              == Samples(w.histograms, ClientLabel) + [m.total] + OwnSample(m.metrics, ClientLabel)
    ensures Samples(r.histograms, ServerLabel)
              == Samples(w.histograms, ServerLabel) + OwnSample(m.metrics, ServerLabel) + [SumOver(m.metrics, order)]
    ensures forall k :: k != ClientLabel && k != ServerLabel ==>
              Samples(r.histograms, k) == Samples(w.histograms, k) + OwnSample(m.metrics, k)
  {
    var withClient := Update(w.histograms, ClientLabel, m.total);
    var (labelled, ns) := UpdateLabels(withClient, 0, m.metrics, order);
    var h := Update(labelled, ServerLabel, ns);
    RecordKeys(w.histograms, withClient, labelled, h, m, order, ns);
    RecordSamples(w.histograms, withClient, labelled, h, m, order, ns);
    Window(w.n + 1, h, w.tLast)
  }

  /** The names a record leaves registered. */
  lemma RecordKeys(h0: Histograms, h1: Histograms, h2: Histograms, h3: Histograms, m: Measurement, order: seq<string>, sum: int)
    requires (forall k :: k in order ==> k in m.metrics) && (forall k :: k in m.metrics ==> k in order)
    requires h1.Keys == h0.Keys + {ClientLabel}
    requires h2.Keys == h1.Keys + (set k | k in order)
    requires h3.Keys == h2.Keys + {ServerLabel}
    ensures h3.Keys == h0.Keys + {ClientLabel, ServerLabel} + m.metrics.Keys
  {
    assert (set k | k in order) == m.metrics.Keys;
  }

  /** Composes the three updates of a record, label by label. */
  lemma RecordSamples(h0: Histograms, h1: Histograms, h2: Histograms, h3: Histograms, m: Measurement, order: seq<string>, sum: int)
    requires (forall k :: k in order ==> k in m.metrics) && (forall k :: k in m.metrics ==> k in order)
    requires h1 == Update(h0, ClientLabel, m.total)
    requires forall k :: Samples(h2, k) == if k in order then Samples(h1, k) + [m.metrics[k]] else Samples(h1, k)
    requires h3 == Update(h2, ServerLabel, sum)
    ensures Samples(h3, ClientLabel) == Samples(h0, ClientLabel) + [m.total] + OwnSample(m.metrics, ClientLabel)
    ensures Samples(h3, ServerLabel) == Samples(h0, ServerLabel) + OwnSample(m.metrics, ServerLabel) + [sum]
    ensures forall k :: k != ClientLabel && k != ServerLabel ==> Samples(h3, k) == Samples(h0, k) + OwnSample(m.metrics, k)
  {
    LabelSamples(h0, h1, h2, h3, m, order, sum, ClientLabel);
    LabelSamples(h0, h1, h2, h3, m, order, sum, ServerLabel);
    forall k | k != ClientLabel && k != ServerLabel
      ensures Samples(h3, k) == Samples(h0, k) + OwnSample(m.metrics, k)
    {
      LabelSamples(h0, h1, h2, h3, m, order, sum, k);
    }
  }

  /** The three updates of a record, seen from one name. */
  lemma LabelSamples(h0: Histograms, h1: Histograms, h2: Histograms, h3: Histograms, m: Measurement, order: seq<string>, sum: int, k: string)
    requires k in order <==> k in m.metrics
    requires h1 == Update(h0, ClientLabel, m.total)
    requires Samples(h2, k) == if k in order then Samples(h1, k) + [m.metrics[k]] else Samples(h1, k)
    requires h3 == Update(h2, ServerLabel, sum)
    ensures Samples(h3, k) == Samples(h0, k) + (if k == ClientLabel then [m.total] else [])
                              + OwnSample(m.metrics, k) + (if k == ServerLabel then [sum] else [])
  {
    var before := Samples(h0, k) + (if k == ClientLabel then [m.total] else []);
    assert Samples(h1, k) == before;
    assert Samples(h2, k) == before + OwnSample(m.metrics, k);
    if k == ServerLabel {
      assert Samples(h3, k) == Samples(h2, k) + [sum];
    } else {
      assert Samples(h3, k) == Samples(h2, k);
      AppendEmpty(before + OwnSample(m.metrics, k));
    }
  }

  /** Two histogram registries with the same names and the same samples are
      the same registry. */
  lemma HistogramsExtensional(a: Histograms, b: Histograms)
    requires a.Keys == b.Keys
    requires forall k :: Samples(a, k) == Samples(b, k)
    ensures a == b
  {
    forall k | k in a
      ensures a[k] == b[k]
    {
      assert Samples(a, k) == Samples(b, k);
    }
  }

  /** The loop's running sum over distinct labels is the sum of the values
      at those labels. */
  lemma {:induction false} SumOverRestrict(metrics: map<string, int>, order: seq<string>)
    requires Distinct(order) && forall k :: k in order ==> k in metrics
    ensures SumOver(metrics, order) == MapSum(Restrict(metrics, order))
    decreases |order|
  {
    if order == [] {
      assert Restrict(metrics, order) == map[];
    } else {
      SumOverRestrict(metrics, order[1..]);
      RestrictSum(metrics, order);
    }
  }

  /** Whatever order Go's `range` picks, `ns` ends as the sum of all the
      server-reported values. */
  lemma SumOverIsMapSum(metrics: map<string, int>, order: seq<string>)
    requires IsIterationOrder(order, metrics)
    ensures SumOver(metrics, order) == MapSum(metrics)
  {
    SumOverRestrict(metrics, order);
    assert Restrict(metrics, order) == metrics;
  }

  /** Go visits a map in a random order; the window after a record does not
      depend on which order it picked. */
  lemma RecordOrderIndependent(w: Window, m: Measurement, o1: seq<string>, o2: seq<string>)
    requires IsIterationOrder(o1, m.metrics) && IsIterationOrder(o2, m.metrics)
    ensures Record(w, m, o1) == Record(w, m, o2)
  {
    var r1, r2 := Record(w, m, o1), Record(w, m, o2);
    SumOverIsMapSum(m.metrics, o1);
    SumOverIsMapSum(m.metrics, o2);
    forall k
      ensures Samples(r1.histograms, k) == Samples(r2.histograms, k)
    {
      if k == ClientLabel {
      } else if k == ServerLabel {
      } else {
        assert Samples(r1.histograms, k) == Samples(w.histograms, k) + OwnSample(m.metrics, k);
      }
    }
    HistogramsExtensional(r1.histograms, r2.histograms);
  }

  /** The window right after a reset at time `now`. */
  function Fresh(now: int): (w: Window)
    ensures w.n == 0 && w.tLast == now
    ensures forall k :: Samples(w.histograms, k) == []
  {
    Window(0, map[], now)
  }

  /** The `case <-ticker.C` branch: report the window, then start a new one
      at `now`. */
  function Tick(w: Window, now: int): (r: (Window, Report))
    ensures r.0.n == 0 && r.0.tLast == now
    ensures forall k :: Samples(r.0.histograms, k) == []
    ensures r.1.count == w.n && r.1.elapsed == now - w.tLast
    ensures r.1.client == Samples(w.histograms, ClientLabel) && r.1.server == Samples(w.histograms, ServerLabel)
  {
    (Fresh(now), Report(w.n, now - w.tLast, Samples(w.histograms, ClientLabel), Samples(w.histograms, ServerLabel)))
  }

  /** A tick straight after a tick reports nothing and leaves the same window. */
  lemma TickTwice(w: Window, t1: int, t2: int)
    ensures var (w1, _) := Tick(w, t1);
            var (w2, report) := Tick(w1, t2);
            && w2 == Fresh(t2)
            && report == Report(0, t2 - t1, [], [])
  {
  }

  predicate ValidEvent(e: Event)
  {
    e.Received? ==> IsIterationOrder(e.order, e.measurement.metrics)
  }

  predicate ValidEvents(events: seq<Event>)
  {
    forall i :: 0 <= i < |events| ==> ValidEvent(events[i])
  }

  /** One turn of the `select` loop: the next window, and the report printed
      if the ticker fired. */
  datatype Transition = Transition(window: Window, report: Option<Report>)

  function Step(w: Window, e: Event): (t: Transition)
    requires ValidEvent(e)
    ensures e.Received? ==> t.report == None && t.window.n == w.n + 1 && t.window.tLast == w.tLast
    ensures e.Ticked? ==> t.report.Some? && t.report.value.count == w.n && t.window == Fresh(e.now)
  {
    match e
    case Received(m, order) => Transition(Record(w, m, order), None)
    case Ticked(now) => var (w', report) := Tick(w, now); Transition(w', Some(report))
  }

  predicate NoTicks(events: seq<Event>)
  {
    forall i :: 0 <= i < |events| ==> events[i].Received?
  }

  /** The window after a sequence of events. Records alone raise the count
      by one each and keep the start time; a sequence ending in a tick
      leaves the fresh window that tick started. */
  function Run(w: Window, events: seq<Event>): (r: Window)
    requires ValidEvents(events)
    ensures NoTicks(events) ==> r.n == w.n + |events| && r.tLast == w.tLast
    ensures |events| > 0 && events[|events| - 1].Ticked? ==> r == Fresh(events[|events| - 1].now)
    decreases |events|
  {
    if events == [] then w
    else
      EventsTail(events);
      Run(Step(w, events[0]).window, events[1..])
  }

  /** How many of the events are ticks. */
  function CountTicks(events: seq<Event>): (c: nat)
    ensures c <= |events|
  {
    if events == [] then 0 else (if events[0].Ticked? then 1 else 0) + CountTicks(events[1..])
  }

  /** The rows printed while applying a sequence of events: exactly one per
      tick, so nothing is printed exactly when no tick happens, and a
      leading tick prints the report of the starting window. */
  function Reports(w: Window, events: seq<Event>): (rs: seq<Report>)
    requires ValidEvents(events)
    ensures |rs| == CountTicks(events)
    ensures |rs| <= |events|
    ensures rs == [] <==> NoTicks(events)
    ensures |events| > 0 && events[0].Ticked? ==> rs[0] == Tick(w, events[0].now).1
    decreases |events|
  {
    if events == [] then []
    else
      EventsTail(events);
      var t := Step(w, events[0]);
      (if t.report.Some? then [t.report.value] else []) + Reports(t.window, events[1..])
  }

  /** The event after `events` prints nothing if it is a record, and if it
      is a tick, one more row: the report of the window built up by
      `events`. */
  lemma {:induction false} ReportsAppend(w: Window, events: seq<Event>, e: Event)
    requires ValidEvents(events) && ValidEvent(e)
    ensures ValidEvents(events + [e])
    ensures Reports(w, events + [e])
         == Reports(w, events) + (if e.Ticked? then [Tick(Run(w, events), e.now).1] else [])
    decreases |events|
  {
    var all := events + [e];
    assert ValidEvents(all) by {
      forall i | 0 <= i < |all| ensures ValidEvent(all[i]) {
        if i < |events| { assert all[i] == events[i]; }
      }
    }
    if events == [] {
      assert all[1..] == [];
    } else {
      EventsTail(events);
      EventsTail(all);
      var t := Step(w, events[0]);
      var head := if t.report.Some? then [t.report.value] else [];
      assert all[0] == events[0] && all[1..] == events[1..] + [e];
      ReportsFirst(w, all);
      ReportsFirst(w, events);
      ReportsAppend(t.window, events[1..], e);
      RunFirst(w, events);
      AppendAssociative(head, Reports(t.window, events[1..]),
                        if e.Ticked? then [Tick(Run(w, events), e.now).1] else []);
    }
  }

  /** The rows printed for a non-empty sequence: the first event's, then the
      rest's. */
  lemma ReportsFirst(w: Window, events: seq<Event>)
    requires |events| > 0 && ValidEvents(events)
    ensures ValidEvent(events[0]) && ValidEvents(events[1..])
    ensures var t := Step(w, events[0]);
      Reports(w, events) == (if t.report.Some? then [t.report.value] else []) + Reports(t.window, events[1..])
  {
    EventsTail(events);
  }

  /** A non-empty sequence of events is its first event, then the rest. */
  lemma EventsTail(events: seq<Event>)
    requires |events| > 0 && ValidEvents(events)
    ensures ValidEvent(events[0]) && ValidEvents(events[1..])
    ensures NoTicks(events) <==> events[0].Received? && NoTicks(events[1..])
    ensures |events| > 1 ==> events[1..][|events| - 2] == events[|events| - 1]
  {
    assert ValidEvent(events[0]);
    var rest := events[1..];
    assert forall i :: 0 <= i < |rest| ==> rest[i] == events[i + 1];
    if events[0].Received? && NoTicks(rest) {
      forall i | 0 <= i < |events| ensures events[i].Received? { if i > 0 { assert events[i] == rest[i - 1]; } }
    }
  }

  /** One for a label the measurement carries, zero otherwise. */
  function Carries(m: Measurement, name: string): (c: nat)
    ensures c == |OwnSample(m.metrics, name)|
  {
    if name in m.metrics then 1 else 0
  }

  /** How many of the measurements carry a timing named `name`. */
  function CountLabelled(events: seq<Event>, name: string): (c: nat)
    requires NoTicks(events)
    ensures c <= |events|
  {
    if events == [] then 0
    else Carries(events[0].measurement, name) + CountLabelled(events[1..], name)
  }

  /** Samples `records` records add to histogram `name` besides the name's
      own timing: one each for the two fixed histograms, none otherwise. */
  function FixedSamples(name: string, records: nat): nat
  {
    if name == ClientLabel || name == ServerLabel then records else 0
  }

  /** A record adds one sample to each fixed histogram and one to the
      histogram of every label it carries. */
  lemma RecordSampleCount(w: Window, m: Measurement, order: seq<string>, name: string)
    requires IsIterationOrder(order, m.metrics)
    ensures |Samples(Record(w, m, order).histograms, name)|
              == |Samples(w.histograms, name)| + FixedSamples(name, 1) + Carries(m, name)
  {
  }

  /** Between ticks nothing is reported, the count rises by one per record,
      and histogram `name` gets one sample per record if it is one of the two
      fixed histograms, plus one per record carrying a timing called `name`. */
  lemma {:induction false} SampleCountsBetweenTicks(w: Window, events: seq<Event>, name: string)
    requires ValidEvents(events) && NoTicks(events)
    ensures Reports(w, events) == []
    ensures Run(w, events).n == w.n + |events|
    ensures Run(w, events).tLast == w.tLast
    ensures |Samples(Run(w, events).histograms, name)|
              == |Samples(w.histograms, name)| + FixedSamples(name, |events|) + CountLabelled(events, name)
    decreases |events|
  {
    if events != [] {
      var e, rest := events[0], events[1..];
      EventsTail(events);
      var w' := Record(w, e.measurement, e.order);
      assert Step(w, e).window == w';
      RecordSampleCount(w, e.measurement, e.order, name);
      SampleCountsBetweenTicks(w', rest, name);
    }
  }

  /** From a reset, as long as no server timing is named "cli", the client
      histogram holds exactly one sample per request counted. */
  lemma ClientSamplesMatchCount(now: int, events: seq<Event>)
    requires ValidEvents(events) && NoTicks(events)
    requires CountLabelled(events, ClientLabel) == 0
    ensures |Samples(Run(Fresh(now), events).histograms, ClientLabel)| == Run(Fresh(now), events).n
  {
    SampleCountsBetweenTicks(Fresh(now), events, ClientLabel);
  }

  /** What follows a tick does not depend on anything before it. */
  lemma {:induction false} RunFromTick(w: Window, events: seq<Event>, i: nat)
    requires ValidEvents(events)
    requires i < |events| && events[i].Ticked?
    ensures ValidEvents(events[i + 1..])
    ensures Run(w, events) == Run(Fresh(events[i].now), events[i + 1..])
    decreases i
  {
    assert ValidEvent(events[0]);
    var w' := Step(w, events[0]).window;
    assert ValidEvents(events[1..]);
    if i == 0 {
      assert w' == Fresh(events[0].now);
    } else {
      RunFromTick(w', events[1..], i - 1);
      assert events[1..][i - 1 + 1..] == events[i + 1..];
    }
  }

  /** Whatever happened before the last tick, if no record since then
      carries a timing named "cli", the client histogram has exactly one
      sample per counted request. */
  lemma ClientSamplesMatchCountSinceTick(w: Window, events: seq<Event>, i: nat)
    requires ValidEvents(events)
    requires i < |events| && events[i].Ticked?
    requires NoTicks(events[i + 1..]) && CountLabelled(events[i + 1..], ClientLabel) == 0
    ensures |Samples(Run(w, events).histograms, ClientLabel)| == Run(w, events).n
  {
    RunFromTick(w, events, i);
    ClientSamplesMatchCount(events[i].now, events[i + 1..]);
  }

  lemma RunFirst(w: Window, events: seq<Event>)
    requires ValidEvents(events) && |events| > 0
    ensures ValidEvents(events[1..])
    ensures Run(w, events) == Run(Step(w, events[0]).window, events[1..])
  {
    assert forall i :: 0 <= i < |events[1..]| ==> events[1..][i] == events[i + 1];
  }

  /** No server timing is named like one of the two fixed histograms. */
  predicate NoClash(events: seq<Event>)
    requires NoTicks(events)
  {
    forall i :: 0 <= i < |events| ==>
      ClientLabel !in events[i].measurement.metrics && ServerLabel !in events[i].measurement.metrics
  }

  /** The measured totals of a run of records, in arrival order. */
  function Totals(events: seq<Event>): (ts: seq<int>)
    requires NoTicks(events)
    ensures |ts| == |events|
    ensures forall i :: 0 <= i < |events| ==> ts[i] == events[i].measurement.total
  {
    seq(|events|, i requires 0 <= i < |events| => events[i].measurement.total)
  }

  /** The per-record sums of the server timings, in arrival order. */
  function ServerSums(events: seq<Event>): (ss: seq<int>)
    requires ValidEvents(events) && NoTicks(events)
    ensures |ss| == |events|
    decreases |events|
  {
    if events == [] then []
    else
      assert ValidEvent(events[0]) && ValidEvents(events[1..]);
      [SumOver(events[0].measurement.metrics, events[0].order)] + ServerSums(events[1..])
  }

  lemma TotalsFirst(events: seq<Event>)
    requires NoTicks(events) && |events| > 0
    ensures NoTicks(events[1..])
    ensures Totals(events) == [events[0].measurement.total] + Totals(events[1..])
  {
    assert NoTicks(events[1..]);
  }

  /** A record with no clashing label feeds the two fixed histograms exactly
      one sample each. */
  lemma StepFixedSamples(w: Window, e: Event)
    requires ValidEvent(e) && e.Received?
    requires ClientLabel !in e.measurement.metrics && ServerLabel !in e.measurement.metrics
    ensures Samples(Step(w, e).window.histograms, ClientLabel) == Samples(w.histograms, ClientLabel) + [e.measurement.total]
    ensures Samples(Step(w, e).window.histograms, ServerLabel)
              == Samples(w.histograms, ServerLabel) + [SumOver(e.measurement.metrics, e.order)]
  {
  }

  /** Between ticks, when no server timing is named "cli" or "opa", the
      client histogram receives exactly the measured totals and the server
      histogram exactly the per-record sums, in arrival order. */
  lemma {:induction false} FixedSamplesBetweenTicks(w: Window, events: seq<Event>)
    requires ValidEvents(events) && NoTicks(events) && NoClash(events)
    ensures Samples(Run(w, events).histograms, ClientLabel) == Samples(w.histograms, ClientLabel) + Totals(events)
    ensures Samples(Run(w, events).histograms, ServerLabel) == Samples(w.histograms, ServerLabel) + ServerSums(events)
    decreases |events|
  {
    if events != [] {
      var rest := events[1..];
      RunFirst(w, events);
      StepFixedSamples(w, events[0]);
      var w' := Step(w, events[0]).window;
      assert NoTicks(rest) && NoClash(rest);
      FixedSamplesBetweenTicks(w', rest);
      TotalsFirst(events);
      AppendAssociative(Samples(w.histograms, ClientLabel), [events[0].measurement.total], Totals(rest));
      AppendAssociative(Samples(w.histograms, ServerLabel), [SumOver(events[0].measurement.metrics, events[0].order)], ServerSums(rest));
    } else {
      AppendEmpty(Samples(w.histograms, ClientLabel));
      AppendEmpty(Samples(w.histograms, ServerLabel));
    }
  }

  /** Regrouping stated over opaque operands: proving it once here keeps the
      sequence axioms out of the inductive steps above. */
  lemma AppendAssociative<T>(a: seq<T>, b: seq<T>, c: seq<T>)
    ensures (a + b) + c == a + (b + c)
  {
  }

  lemma AppendEmpty(a: seq<int>)
    ensures a + [] == a
  {
  }

  /** One record per measured total, each answered with the single server
      timing `eval`. */
  function EvalOnly(totals: seq<int>, eval: int): (events: seq<Event>)
    ensures |events| == |totals|
    ensures forall i :: 0 <= i < |totals| ==> events[i] == Received(Measurement(totals[i], map["eval" := eval]), ["eval"])
  {
    seq(|totals|, i requires 0 <= i < |totals| => Received(Measurement(totals[i], map["eval" := eval]), ["eval"]))
  }

  lemma {:induction false} EvalOnlyTotals(totals: seq<int>, eval: int)
    ensures ValidEvents(EvalOnly(totals, eval)) && NoTicks(EvalOnly(totals, eval))
    ensures Totals(EvalOnly(totals, eval)) == totals
    ensures ServerSums(EvalOnly(totals, eval)) == seq(|totals|, _ => eval)
    decreases |totals|
  {
    var events := EvalOnly(totals, eval);
    assert IsIterationOrder(["eval"], map["eval" := eval]);
    assert ValidEvents(events) && NoTicks(events);
    if totals != [] {
      assert SumOver(map["eval" := eval], ["eval"]) == eval;
      EvalOnlyTotals(totals[1..], eval);
      assert events[1..] == EvalOnly(totals[1..], eval);
      assert seq(|totals|, _ => eval) == [eval] + seq(|totals| - 1, _ => eval);
    }
  }

  /** The end-to-end scenario of a server that always reports `eval`: after
      the records, counted from a reset, the server histogram holds `eval`
      once per request and the client histogram each measured total. */
  lemma UniformServerTiming(now: int, totals: seq<int>, eval: int)
    ensures ValidEvents(EvalOnly(totals, eval))
    ensures Run(Fresh(now), EvalOnly(totals, eval)).n == |totals|
    ensures Samples(Run(Fresh(now), EvalOnly(totals, eval)).histograms, ServerLabel) == seq(|totals|, _ => eval)
    ensures Samples(Run(Fresh(now), EvalOnly(totals, eval)).histograms, ClientLabel) == totals
  {
    var events := EvalOnly(totals, eval);
    assert IsIterationOrder(["eval"], map["eval" := eval]);
    assert "eval" != ClientLabel && "eval" != ServerLabel;
    assert ValidEvents(events) && NoTicks(events) && NoClash(events);
    SampleCountsBetweenTicks(Fresh(now), events, ClientLabel);
    FixedSamplesBetweenTicks(Fresh(now), events);
    assert SumOver(map["eval" := eval], ["eval"]) == eval;
    EvalOnlyTotals(totals, eval);
  }
}
