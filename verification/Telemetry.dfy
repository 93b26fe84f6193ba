/** The telemetry service: events collected over an invocation and sent once. The mutex makes each call one step. */
module Telemetry {
  import opened Wrappers

  datatype Facts = Facts(kind: string, dimensions: map<string, string>, measures: map<string, int>, recordedAt: string)

  datatype Payload = Payload(events: seq<Facts>)

  datatype Call =
    | Record(facts: Facts)
    | Begin(facts: Facts)
    | UpsertDimensions(handle: Option<nat>, dimensions: map<string, string>)
    | UpsertMeasures(handle: Option<nat>, measures: map<string, int>)
    | SetSampleRate(rate: int)
    | Disable
    | Finish

  datatype Service = Service(
    finished: bool, disabled: bool, sampleRate: int, sampleBucket: int, common: map<string, string>,
    events: seq<Facts>, flushed: seq<Payload>)

  function Digits(n: nat): string {
    (if n < 10 then "" else Digits(n / 10)) + ["0123456789"[n % 10]]
  }

  function Decimal(n: int): string {
    if n < 0 then "-" + Digits(-n) else Digits(n)
  }

  /** The invocation falls outside the sample. Rates of 0 and below, and of 100 and above, keep everything. */
  predicate SampledOut(rate: int, bucket: int) {
    0 < rate < 100 && bucket >= rate
  }

  /** An event as sent: the time stamp, overridden by the common dimensions, overridden by its own. */
  function Sent(common: map<string, string>, e: Facts): Facts {
    e.(dimensions := map["timestamp" := e.recordedAt] + common + e.dimensions)
  }

  function SentAll(common: map<string, string>, events: seq<Facts>): (r: seq<Facts>)
    ensures |r| == |events| && forall i :: 0 <= i < |events| ==> r[i] == Sent(common, events[i])
  {
    seq(|events|, i requires 0 <= i < |events| => Sent(common, events[i]))
  }

  predicate Names(handle: Option<nat>, events: seq<Facts>) {
    handle.Some? && handle.value < |events|
  }

  function WithDimensions(events: seq<Facts>, handle: Option<nat>, m: map<string, string>): seq<Facts> {
    if !Names(handle, events) then events
    else
      var e := events[handle.value];
      events[handle.value := e.(dimensions := e.dimensions + m)]
  }

  function WithMeasures(events: seq<Facts>, handle: Option<nat>, m: map<string, int>): seq<Facts> {
    if !Names(handle, events) then events
    else
      var e := events[handle.value];
      events[handle.value := e.(measures := e.measures + m)]
  }

  /** The payload of a service that finishes now. */
  function PayloadOf(s: Service): Payload {
    Payload(SentAll(s.common, if s.disabled then [] else s.events))
  }

  function Next(s: Service, c: Call): Service {
    if c.Disable? then s.(disabled := true)
    else if s.finished then s
    else
      match c
      case Record(facts) => s.(events := s.events + [facts])
      case Begin(facts) => s.(events := s.events + [facts])
      case UpsertDimensions(handle, m) => s.(events := WithDimensions(s.events, handle, m))
      case UpsertMeasures(handle, m) => s.(events := WithMeasures(s.events, handle, m))
      case SetSampleRate(rate) => s.(sampleRate := rate, common := s.common["sample_rate" := Decimal(rate)])
      case Disable => s
      case Finish =>
        s.(finished := true,
           flushed := s.flushed + if SampledOut(s.sampleRate, s.sampleBucket) then [] else [PayloadOf(s)])
  }

  function Start(sampleRate: int, sampleBucket: int, common: map<string, string>): Service {
    Service(false, false, sampleRate, sampleBucket, common, [], [])
  }

  function Run(s: Service, cs: seq<Call>): Service
    decreases |cs|
  {
    if cs == [] then s else Next(Run(s, cs[..|cs| - 1]), cs[|cs| - 1])
  }

  // ---------------------------------------------------------------- what a history means, event by event

  predicate OpensEvent(c: Call) { c.Record? || c.Begin? }

  /** The events begun or recorded in the history, as they were first given. */
  function Given(cs: seq<Call>): seq<Facts> {
    if cs == [] then []
    else Given(cs[..|cs| - 1]) + if OpensEvent(cs[|cs| - 1]) then [cs[|cs| - 1].facts] else []
  }

  /** The dimensions of event `i`: the given ones and every later upsert to it, later ones winning. */
  function DimensionsOf(cs: seq<Call>, i: nat): map<string, string> {
    if cs == [] then map[]
    else
      var before, c := cs[..|cs| - 1], cs[|cs| - 1];
      if OpensEvent(c) && |Given(before)| == i then c.facts.dimensions
      else if c.UpsertDimensions? && c.handle == Some(i) && i < |Given(before)| then
        DimensionsOf(before, i) + c.dimensions
      else DimensionsOf(before, i)
  }

  function MeasuresOf(cs: seq<Call>, i: nat): map<string, int> {
    if cs == [] then map[]
    else
      var before, c := cs[..|cs| - 1], cs[|cs| - 1];
      if OpensEvent(c) && |Given(before)| == i then c.facts.measures
      else if c.UpsertMeasures? && c.handle == Some(i) && i < |Given(before)| then MeasuresOf(before, i) + c.measures
      else MeasuresOf(before, i)
  }

  /** The last sample rate set, and the dimension that goes with it. */
  function RateAfter(rate: int, cs: seq<Call>): int {
    if cs == [] then rate
    else if cs[|cs| - 1].SetSampleRate? then cs[|cs| - 1].rate
    else RateAfter(rate, cs[..|cs| - 1])
  }

  function CommonAfter(common: map<string, string>, cs: seq<Call>): map<string, string> {
    if cs == [] then common
    else if cs[|cs| - 1].SetSampleRate? then
      CommonAfter(common, cs[..|cs| - 1])["sample_rate" := Decimal(cs[|cs| - 1].rate)]
    else CommonAfter(common, cs[..|cs| - 1])
  }

  /** The position of the first `Finish`, or the length of the history. */
  function FirstFinish(cs: seq<Call>): (n: nat)
    ensures n <= |cs| && Finish !in cs[..n] && (n < |cs| ==> cs[n] == Finish)
  {
    if cs == [] then 0
    else
      var n := FirstFinish(cs[..|cs| - 1]);
      if n < |cs| - 1 then n else if cs[|cs| - 1] == Finish then |cs| - 1 else |cs|
  }

  /** What the flusher ought to have been given once the history `cs` has run its course. */
  ghost predicate Delivered(rate: int, bucket: int, common: map<string, string>, cs: seq<Call>, flushed: seq<Payload>) {
    var n := FirstFinish(cs);
    var told := cs[..n];
    if n == |cs| || SampledOut(RateAfter(rate, told), bucket) then flushed == []
    else
      && |flushed| == 1
      && var events := flushed[0].events;
         if Disable in told then events == []
         else
           && |events| == |Given(told)|
           && forall i :: 0 <= i < |events| ==>
                && events[i].kind == Given(told)[i].kind
                && events[i].measures == MeasuresOf(told, i)
                && events[i].dimensions == map["timestamp" := Given(told)[i].recordedAt] + CommonAfter(common, told) +
                                           DimensionsOf(told, i)
  }

  /** An unfinished service holds exactly what the history says, event by event. */
  ghost predicate Remembers(rate: int, bucket: int, common: map<string, string>, cs: seq<Call>, s: Service) {
    && !s.finished && s.flushed == []
    && s.sampleBucket == bucket && s.sampleRate == RateAfter(rate, cs) && s.common == CommonAfter(common, cs)
    && s.disabled == (Disable in cs)
    && |s.events| == |Given(cs)|
    && forall i :: 0 <= i < |s.events| ==>
         s.events[i] == Facts(Given(cs)[i].kind, DimensionsOf(cs, i), MeasuresOf(cs, i), Given(cs)[i].recordedAt)
  }

  lemma {:induction false} NothingYet(cs: seq<Call>, i: nat)
    requires i >= |Given(cs)|
    ensures DimensionsOf(cs, i) == map[] && MeasuresOf(cs, i) == map[]
  {
    if cs != [] {
      NothingYet(cs[..|cs| - 1], i);
    }
  }

  lemma RemembersNext(rate: int, bucket: int, common: map<string, string>, cs: seq<Call>, s: Service,
                                         c: Call)
    requires Remembers(rate, bucket, common, cs, s) && c != Finish
    ensures Remembers(rate, bucket, common, cs + [c], Next(s, c))
  {
    assert (cs + [c])[..|cs|] == cs;
    if OpensEvent(c) {
      NothingYet(cs, |Given(cs)|);
    }
  }

  lemma {:induction false} RunRemembers(rate: int, bucket: int, common: map<string, string>, cs: seq<Call>)
    requires Finish !in cs
    ensures Remembers(rate, bucket, common, cs, Run(Start(rate, bucket, common), cs))
  {
    if cs == [] {
    } else {
      var before, c := cs[..|cs| - 1], cs[|cs| - 1];
      RunRemembers(rate, bucket, common, before);
      RemembersNext(rate, bucket, common, before, Run(Start(rate, bucket, common), before), c);
      assert before + [c] == cs;
    }
  }

  lemma {:induction false} RunKeepsFlushed(s: Service, cs: seq<Call>)
    requires s.finished
    ensures Run(s, cs).finished && Run(s, cs).flushed == s.flushed
  {
    if cs != [] {
      RunKeepsFlushed(s, cs[..|cs| - 1]);
    }
  }

  lemma {:induction false} RunConcat(s: Service, a: seq<Call>, b: seq<Call>)
    ensures Run(s, a + b) == Run(Run(s, a), b)
    decreases |b|
  {
    if b == [] {
      assert a + b == a;
    } else {
      assert (a + b)[..|a + b| - 1] == a + b[..|b| - 1];
      RunConcat(s, a, b[..|b| - 1]);
    }
  }

  /** Over any sequence of calls the flusher runs at most once, and exactly once when the first `Finish` is sampled in.
      It is given the events in the order they were recorded, with every upsert made before that `Finish`, and
      nothing if the service was disabled before it; no later call matters. */
  lemma FlushedOnce(rate: int, bucket: int, common: map<string, string>, cs: seq<Call>)
    ensures Delivered(rate, bucket, common, cs, Run(Start(rate, bucket, common), cs).flushed)
  {
    var n, s := FirstFinish(cs), Start(rate, bucket, common);
    var told := cs[..n];
    RunRemembers(rate, bucket, common, told);
    if n < |cs| {
      assert cs == told + [Finish] + cs[n + 1..];
      RunConcat(s, told + [Finish], cs[n + 1..]);
      RunConcat(s, told, [Finish]);
      RunKeepsFlushed(Run(s, told + [Finish]), cs[n + 1..]);
      assert Run(Run(s, told), [Finish]) == Next(Run(s, told), Finish);
    } else {
      assert told == cs;
    }
  }

  /** The buckets below `n`. */
  function Below(n: nat): set<int> {
    if n == 0 then {} else Below(n - 1) + {n - 1}
  }

  lemma {:induction false} BelowCount(n: nat)
    ensures |Below(n)| == n && forall b :: b in Below(n) <==> 0 <= b < n
  {
    if n > 0 { BelowCount(n - 1); }
  }

  /** Of a hundred invocations, one in each bucket, as many are sent as the rate that counts when they finish says, and
      all of them if that is not between 1 and 99. */
  lemma ShareSent(rate: int, common: map<string, string>, cs: seq<Call>)
    requires Finish in cs
    ensures var r := RateAfter(rate, cs[..FirstFinish(cs)]);
            var sent := set b | 0 <= b < 100 && Flushes(rate, b, common, cs);
            sent == Below(if 0 < r < 100 then r else 100) && |sent| == if 0 < r < 100 then r else 100
  {
    var r := RateAfter(rate, cs[..FirstFinish(cs)]);
    var n := if 0 < r < 100 then r else 100;
    forall b | 0 <= b < 100
      ensures Flushes(rate, b, common, cs) <==> b < n
    {
      FlushedOnce(rate, b, common, cs);
    }
    BelowCount(n);
    assert (set b | 0 <= b < 100 && Flushes(rate, b, common, cs)) == Below(n);
  }

  predicate Flushes(rate: int, bucket: int, common: map<string, string>, cs: seq<Call>) {
    Run(Start(rate, bucket, common), cs).flushed != []
  }

  /** Reads a decimal number. */
  function Number(s: string): int {
    if s != "" && s[0] == '-' then -Magnitude(s[1..]) else Magnitude(s)
  }

  function Magnitude(s: string): int {
    if s == "" then 0 else 10 * Magnitude(s[..|s| - 1]) + (s[|s| - 1] as int - '0' as int)
  }

  lemma MagnitudeSnoc(s: string, c: char)
    ensures Magnitude(s + [c]) == 10 * Magnitude(s) + (c as int - '0' as int)
  {
    assert (s + [c])[..|s|] == s;
  }

  lemma DigitIs(d: nat)
    requires d < 10
    ensures "0123456789"[d] as int == '0' as int + d
  {
  }

  lemma {:induction false} DigitsRead(n: nat)
    ensures Magnitude(Digits(n)) == n && |Digits(n)| > 0 && '0' <= Digits(n)[0] <= '9'
    ensures n > 0 ==> Digits(n)[0] != '0'
  {
    var front, last := if n < 10 then "" else Digits(n / 10), "0123456789"[n % 10];
    DigitIs(n % 10);
    MagnitudeSnoc(front, last);
    if n >= 10 { DigitsRead(n / 10); }
    assert Digits(n) == front + [last];
  }

  /** The rate is recorded as a number that reads back as it. */
  lemma DecimalReadsBack(n: int)
    ensures Number(Decimal(n)) == n
  {
    var size := if n < 0 then -n else n;
    var digits := Digits(size);
    DigitsRead(size);
    SignRead(n < 0, digits);
  }

  lemma SignRead(negative: bool, digits: string)
    requires digits != "" && digits[0] != '-'
    ensures Number(if negative then "-" + digits else digits) ==
            if negative then -Magnitude(digits) else Magnitude(digits)
  {
    assert ("-" + digits)[1..] == digits;
  }

  /** An event's own dimension wins over a common one, and a common one over the time stamp. */
  lemma DimensionPrecedence(common: map<string, string>, e: Facts, key: string)
    requires key in Sent(common, e).dimensions
    ensures Sent(common, e).dimensions[key] ==
            if key in e.dimensions then e.dimensions[key]
            else if key in common then common[key]
            else e.recordedAt
    ensures key in e.dimensions || key in common || key == "timestamp"
  {
  }

  // ---------------------------------------------------------------- the objects

  /** Maps as the language has them: several holders may share one. A missing map is null. */
  class Dimensions {
    var entries: map<string, string>

    constructor (entries: map<string, string>)
      ensures this.entries == entries
    {
      this.entries := entries;
    }
  }

  class Measures {
    var entries: map<string, int>

    constructor (entries: map<string, int>)
      ensures this.entries == entries
    {
      this.entries := entries;
    }
  }

  function DimensionEntries(d: Dimensions?): map<string, string>
    reads d
  {
    if d == null then map[] else d.entries
  }

  function MeasureEntries(m: Measures?): map<string, int>
    reads m
  {
    if m == null then map[] else m.entries
  }

  /** An event inside the service. It keeps copies: the caller's maps stay the caller's. */
  class RecordedEvent {
    const kind: string
    const recordedAt: string
    const dimensions: Dimensions
    const measures: Measures

    constructor (kind: string, dimensions: Dimensions?, measures: Measures?, recordedAt: string)
      ensures fresh(this.dimensions) && fresh(this.measures)
      ensures Value() == Facts(kind, old(DimensionEntries(dimensions)), old(MeasureEntries(measures)), recordedAt)
    {
      this.kind, this.recordedAt := kind, recordedAt;
      var d := new Dimensions(DimensionEntries(dimensions));
      var m := new Measures(MeasureEntries(measures));
      this.dimensions, this.measures := d, m;
    }

    function Value(): Facts
      reads dimensions, measures
    {
      Facts(kind, dimensions.entries, measures.entries, recordedAt)
    }
  }

  class TelemetryService {
    var finished: bool
    var disabled: bool
    var sampleRate: int
    const sampleBucket: int
    const common: Dimensions
    var events: seq<RecordedEvent>
    /** What the flusher was called with. */
    var flushed: seq<Payload>
    /** The events as values, and the objects that the service owns. */
    ghost var contents: seq<Facts>
    ghost var repr: set<object>

    constructor (sampleRate: int, sampleBucket: int, dimensions: map<string, string>)
      ensures Valid() && fresh(repr) && State() == Start(sampleRate, sampleBucket, dimensions)
    {
      var d := new Dimensions(dimensions);
      this.sampleRate, this.sampleBucket, common := sampleRate, sampleBucket, d;
      finished, disabled, events, flushed := false, false, [], [];
      contents, repr := [], {this, d};
    }

    ghost predicate Valid()
      reads this, repr
    {
      && this in repr && common in repr
      && |contents| == |events|
      && (forall i :: 0 <= i < |events| ==>
            events[i].dimensions in repr && events[i].measures in repr && events[i].dimensions != common)
      && (forall i :: 0 <= i < |events| ==> contents[i] == events[i].Value())
      && (forall i, j :: 0 <= i < j < |events| ==> events[i].dimensions != events[j].dimensions)
      && (forall i, j :: 0 <= i < j < |events| ==> events[i].measures != events[j].measures)
    }

    ghost function State(): Service
      reads this, common
    {
      Service(finished, disabled, sampleRate, sampleBucket, common.entries, contents, flushed)
    }

    method SetDisabled()
      requires Valid()
      modifies this`disabled
      ensures Valid() && State() == Next(old(State()), Disable)
    {
      disabled := true;
    }

    method Append(kind: string, dimensions: Dimensions?, measures: Measures?, now: string) returns (e: RecordedEvent)
      requires Valid()
      modifies this`events, this`contents, this`repr
      ensures Valid() && fresh(repr - old(repr)) && old(repr) <= repr
      ensures events == old(events) + [e]
      ensures contents == old(contents) +
                          [Facts(kind, old(DimensionEntries(dimensions)), old(MeasureEntries(measures)), now)]
    {
      e := new RecordedEvent(kind, dimensions, measures, now);
      events, contents := events + [e], contents + [e.Value()];
      repr := repr + {e.dimensions, e.measures};
    }

    /** Copies a complete event into the service. The caller's maps are not kept, so changing them later changes
        nothing here: whatever the service's footprint gained is fresh. */
    method RecordEvent(kind: string, dimensions: Dimensions?, measures: Measures?, now: string)
      requires Valid()
      modifies this
      ensures Valid() && fresh(repr - old(repr)) && old(events) <= events
      ensures State() == Next(old(State()), Record(Facts(kind, old(DimensionEntries(dimensions)),
                                                         old(MeasureEntries(measures)), now)))
    {
      if finished { return; }
      var _ := Append(kind, dimensions, measures, now);
    }

    /** The same, with a handle for adding facts until `Finish`; after it there is no event and no handle. */
    method BeginEvent(kind: string, dimensions: Dimensions?, measures: Measures?, now: string)
      returns (handle: PendingEvent?)
      requires Valid()
      modifies this
      ensures Valid() && fresh(repr - old(repr)) && old(events) <= events
      ensures State() == Next(old(State()), Begin(Facts(kind, old(DimensionEntries(dimensions)),
                                                        old(MeasureEntries(measures)), now)))
      ensures old(finished) <==> handle == null
      ensures handle != null ==> handle.service == this && handle.index == |old(events)| && handle.Valid()
    {
      if finished { return null; }
      ghost var index := |events|;
      var e := Append(kind, dimensions, measures, now);
      handle := new PendingEvent(this, e, index);
    }

    method SetRate(rate: int)
      requires Valid()
      modifies this`sampleRate, common
      ensures Valid() && State() == Next(old(State()), SetSampleRate(rate))
    {
      if finished { return; }
      sampleRate := rate;
      common.entries := common.entries["sample_rate" := Decimal(rate)];
    }

    /** Sends the events once. What the flusher is given shares nothing with the service. */
    method FinishOnce()
      requires Valid()
      modifies this`finished, this`flushed
      ensures Valid() && State() == Next(old(State()), Finish)
    {
      if finished { return; }
      finished := true;
      if sampleRate > 0 && sampleRate < 100 && sampleBucket >= sampleRate {
        assert flushed + [] == flushed;
        return;
      }
      var sent := if disabled then [] else events;
      ghost var facts := if disabled then [] else contents;
      var payload: seq<Facts> := [];
      for i := 0 to |sent|
        invariant payload == SentAll(common.entries, facts)[..i]
      {
        var e := sent[i];
        var dimensions := map["timestamp" := e.recordedAt];
        dimensions := dimensions + common.entries;
        dimensions := dimensions + e.dimensions.entries;
        payload := payload + [Facts(e.kind, dimensions, e.measures.entries, e.recordedAt)];
        assert payload[i] == Sent(common.entries, facts[i]);
      }
      assert payload == SentAll(common.entries, facts);
      flushed := flushed + [Payload(payload)];
    }
  }

  /** The handle of a begun event. */
  class PendingEvent {
    const service: TelemetryService
    const recorded: RecordedEvent
    ghost const index: nat

    constructor (service: TelemetryService, recorded: RecordedEvent, ghost index: nat)
      ensures this.service == service && this.recorded == recorded && this.index == index
    {
      this.service, this.recorded, this.index := service, recorded, index;
    }

    ghost predicate Valid()
      reads service
    {
      index < |service.events| && service.events[index] == recorded
    }

    /** Folds the dimensions into the event, unless the service has finished. */
    method UpsertDimensions(dimensions: Dimensions?)
      requires Valid() && service.Valid()
      modifies service`contents, recorded.dimensions
      ensures Valid() && service.Valid()
      ensures service.State() ==
              Next(old(service.State()), Call.UpsertDimensions(Some(index), old(DimensionEntries(dimensions))))
    {
      if service.finished { return; }
      recorded.dimensions.entries := recorded.dimensions.entries + DimensionEntries(dimensions);
      service.contents := service.contents[index := recorded.Value()];
    }

    method UpsertMeasures(measures: Measures?)
      requires Valid() && service.Valid()
      modifies service`contents, recorded.measures
      ensures Valid() && service.Valid()
      ensures service.State() ==
              Next(old(service.State()), Call.UpsertMeasures(Some(index), old(MeasureEntries(measures))))
    {
      if service.finished { return; }
      recorded.measures.entries := recorded.measures.entries + MeasureEntries(measures);
      service.contents := service.contents[index := recorded.Value()];
    }
  }
}
