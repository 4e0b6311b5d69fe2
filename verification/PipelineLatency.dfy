/**
 Fusing the host's frame times with the phone's: a map of frames still waiting for their report, a queue
 of keys for evicting the oldest, and the stage statistics.
 */
module PipelineLatency {
  import opened Prelude
  import opened LatencyStats

  datatype HostStamps = HostStamps(captureUs: nat, encodeDoneUs: nat, sendDoneUs: nat)

  // ---------------------------------------------------------------------------
  // The waiting frames
  // ---------------------------------------------------------------------------

  /** The map and the queue; the queue may hold keys whose frame was matched meanwhile. */
  datatype Book = Book(inflight: map<nat, HostStamps>, order: seq<nat>)

  function Evicted(b: Book, capacity: nat): Book
    decreases |b.order|
  {
    if |b.inflight| < capacity || b.order == [] then b
    else Evicted(Book(b.inflight - {b.order[0]}, b.order[1..]), capacity)
  }

  function Hosted(b: Book, capacity: nat, pts: nat, stamps: HostStamps): Book {
    var e := Evicted(b, capacity);
    Book(e.inflight[pts := stamps], if pts in e.inflight then e.order else e.order + [pts])
  }

  function Matched(b: Book, pts: nat): Book {
    Book(b.inflight - {pts}, b.order)
  }

  /** What it stands for: the unmatched frames, oldest first. */
  datatype Fifo = Fifo(keys: seq<nat>, stamps: map<nat, HostStamps>)

  function WithoutOldest(f: Fifo): Fifo {
    if f.keys == [] then f else Fifo(f.keys[1..], f.stamps - {f.keys[0]})
  }

  function FifoHosted(f: Fifo, capacity: nat, pts: nat, stamps: HostStamps): Fifo {
    var kept := if |f.keys| >= capacity then WithoutOldest(f) else f;
    Fifo(if pts in kept.stamps then kept.keys else kept.keys + [pts], kept.stamps[pts := stamps])
  }

  function Without(keys: seq<nat>, pts: nat): seq<nat> {
    if keys == [] then []
    else if keys[0] == pts then Without(keys[1..], pts)
    else [keys[0]] + Without(keys[1..], pts)
  }

  function FifoMatched(f: Fifo, pts: nat): Fifo {
    Fifo(Without(f.keys, pts), f.stamps - {pts})
  }

  /** The queued keys that still wait. */
  function Live(order: seq<nat>, waiting: set<nat>): seq<nat> {
    if order == [] then []
    else (if order[0] in waiting then [order[0]] else []) + Live(order[1..], waiting)
  }

  function Meaning(b: Book): Fifo {
    Fifo(Live(b.order, b.inflight.Keys), b.inflight)
  }

  predicate Distinct(keys: seq<nat>) {
    forall i, j :: 0 <= i < j < |keys| ==> keys[i] != keys[j]
  }

  /** Every waiting frame is queued. */
  ghost predicate Queued(b: Book) {
    forall k :: k in b.inflight ==> k in b.order
  }

  /** Each key is queued once. */
  ghost predicate Tidy(b: Book) {
    Queued(b) && Distinct(b.order)
  }

  // ---------------------------------------------------------------------------
  // The bound, for any keys
  // ---------------------------------------------------------------------------

  lemma {:induction false} EvictedBound(b: Book, capacity: nat)
    requires Queued(b) && capacity >= 1
    ensures Queued(Evicted(b, capacity)) && |Evicted(b, capacity).inflight| < capacity
    decreases |b.order|
  {
    if |b.inflight| >= capacity {
      var k :| k in b.inflight;
      var next := Book(b.inflight - {b.order[0]}, b.order[1..]);
      assert forall k :: k in next.inflight ==> k in b.order && k != b.order[0];
      EvictedBound(next, capacity);
    }
  }

  lemma HostedBound(b: Book, capacity: nat, pts: nat, stamps: HostStamps)
    requires Queued(b) && capacity >= 1
    ensures Queued(Hosted(b, capacity, pts, stamps)) && |Hosted(b, capacity, pts, stamps).inflight| <= capacity
  {
    EvictedBound(b, capacity);
    var e := Evicted(b, capacity);
    assert e.inflight[pts := stamps].Keys == e.inflight.Keys + {pts};
  }

  lemma MatchedBound(b: Book, pts: nat)
    requires Queued(b)
    ensures Queued(Matched(b, pts)) && |Matched(b, pts).inflight| <= |b.inflight|
  {
    assert Matched(b, pts).inflight.Keys <= b.inflight.Keys;
    SubsetSize(Matched(b, pts).inflight.Keys, b.inflight.Keys);
  }

  lemma {:induction false} SubsetSize(a: set<nat>, b: set<nat>)
    requires a <= b
    ensures |a| <= |b|
    decreases a
  {
    if a != {} {
      var x :| x in a;
      SubsetSize(a - {x}, b - {x});
    }
  }

  // ---------------------------------------------------------------------------
  // Refining the plain queue
  // ---------------------------------------------------------------------------

  lemma {:induction false} LiveIgnores(order: seq<nat>, waiting: set<nat>, k: nat)
    requires k !in order
    ensures Live(order, waiting - {k}) == Live(order, waiting)
    ensures Live(order, waiting + {k}) == Live(order, waiting)
  {
    if order != [] {
      LiveIgnores(order[1..], waiting, k);
    }
  }

  lemma LiveStep(order: seq<nat>, waiting: set<nat>)
    requires order != []
    ensures Live(order, waiting) ==
            if order[0] in waiting then [order[0]] + Live(order[1..], waiting) else Live(order[1..], waiting)
  {
  }

  lemma WithoutStep(k: nat, rest: seq<nat>, pts: nat)
    ensures Without([k] + rest, pts) == if k == pts then Without(rest, pts) else [k] + Without(rest, pts)
  {
    assert ([k] + rest)[1..] == rest;
  }

  lemma {:induction false} LiveWithout(order: seq<nat>, waiting: set<nat>, k: nat)
    ensures Live(order, waiting - {k}) == Without(Live(order, waiting), k)
  {
    if order != [] {
      LiveWithout(order[1..], waiting, k);
      LiveStep(order, waiting);
      LiveStep(order, waiting - {k});
      WithoutStep(order[0], Live(order[1..], waiting), k);
    }
  }

  lemma {:induction false} LiveAppend(order: seq<nat>, waiting: set<nat>, k: nat)
    ensures Live(order + [k], waiting) == Live(order, waiting) + if k in waiting then [k] else []
  {
    if order == [] {
      assert [k][1..] == [];
    } else {
      assert (order + [k])[1..] == order[1..] + [k];
      LiveAppend(order[1..], waiting, k);
      LiveStep(order, waiting);
      LiveStep(order + [k], waiting);
      Assoc([order[0]], Live(order[1..], waiting), if k in waiting then [k] else []);
    }
  }

  /** As many live keys as waiting frames. */
  lemma {:induction false} LiveCount(order: seq<nat>, waiting: set<nat>)
    requires Distinct(order) && forall k :: k in waiting ==> k in order
    ensures |Live(order, waiting)| == |waiting|
  {
    if order == [] {
      assert waiting == {};
    } else {
      LiveIgnores(order[1..], waiting, order[0]);
      assert forall k :: k in waiting - {order[0]} ==> k in order[1..];
      LiveCount(order[1..], waiting - {order[0]});
    }
  }

  lemma DistinctTail(order: seq<nat>)
    requires order != [] && Distinct(order)
    ensures Distinct(order[1..]) && order[0] !in order[1..]
  {
  }

  /** Dropping the front of the queue forgets its frame, if that still waits. */
  lemma FrontDropped(b: Book)
    requires Tidy(b) && b.order != []
    ensures var next := Book(b.inflight - {b.order[0]}, b.order[1..]);
            && Tidy(next)
            && Live(b.order, b.inflight.Keys) ==
               (if b.order[0] in b.inflight then [b.order[0]] else []) + Live(next.order, next.inflight.Keys)
  {
    var oldest := b.order[0];
    var next := Book(b.inflight - {oldest}, b.order[1..]);
    DistinctTail(b.order);
    LiveIgnores(b.order[1..], b.inflight.Keys, oldest);
    assert next.inflight.Keys == b.inflight.Keys - {oldest};
    assert forall k :: k in next.inflight ==> k in b.order && k != oldest;
  }

  lemma OldestWaits(b: Book, capacity: nat)
    requires Tidy(b) && b.order != [] && b.order[0] in b.inflight && |b.inflight| == capacity
    ensures Evicted(b, capacity) == Book(b.inflight - {b.order[0]}, b.order[1..])
    ensures Tidy(Evicted(b, capacity)) && Meaning(Evicted(b, capacity)) == WithoutOldest(Meaning(b))
  {
    var next := Book(b.inflight - {b.order[0]}, b.order[1..]);
    FrontDropped(b);
    assert next.inflight.Keys == b.inflight.Keys - {b.order[0]};
    assert Evicted(next, capacity) == next;
    var rest := Live(next.order, next.inflight.Keys);
    assert ([b.order[0]] + rest)[1..] == rest;
  }

  lemma OldestIsStale(b: Book)
    requires Tidy(b) && b.order != [] && b.order[0] !in b.inflight
    ensures var next := Book(b.inflight - {b.order[0]}, b.order[1..]);
            Tidy(next) && next.inflight == b.inflight && Meaning(next) == Meaning(b)
  {
    FrontDropped(b);
    assert b.inflight - {b.order[0]} == b.inflight;
    LiveStep(b.order, b.inflight.Keys);
  }

  lemma SkipsStale(b: Book, capacity: nat)
    requires b.order != [] && |b.inflight| >= capacity
    ensures Evicted(b, capacity) == Evicted(Book(b.inflight - {b.order[0]}, b.order[1..]), capacity)
  {
  }

  lemma SomeKeyQueued(b: Book)
    requires Queued(b) && |b.inflight| >= 1
    ensures b.order != []
  {
    var k :| k in b.inflight;
  }

  /** At capacity, eviction drops exactly the oldest unmatched frame. */
  lemma {:induction false} EvictedRefines(b: Book, capacity: nat)
    requires Tidy(b) && |b.inflight| == capacity && capacity >= 1
    ensures Tidy(Evicted(b, capacity)) && Meaning(Evicted(b, capacity)) == WithoutOldest(Meaning(b))
    decreases |b.order|
  {
    SomeKeyQueued(b);
    if b.order[0] in b.inflight {
      OldestWaits(b, capacity);
    } else {
      var next := Book(b.inflight - {b.order[0]}, b.order[1..]);
      OldestIsStale(b);
      SkipsStale(b, capacity);
      EvictedRefines(next, capacity);
    }
  }

  lemma {:induction false} EvictedQueue(b: Book, capacity: nat, k: nat)
    requires k in Evicted(b, capacity).order
    ensures k in b.order
    decreases |b.order|
  {
    if |b.inflight| >= capacity && b.order != [] {
      EvictedQueue(Book(b.inflight - {b.order[0]}, b.order[1..]), capacity, k);
    }
  }

  lemma AddedRefines(e: Book, pts: nat, stamps: HostStamps)
    requires Tidy(e) && (pts in e.inflight || pts !in e.order)
    ensures var added := Book(e.inflight[pts := stamps], if pts in e.inflight then e.order else e.order + [pts]);
            && Tidy(added)
            && added.inflight == Meaning(e).stamps[pts := stamps]
            && Live(added.order, added.inflight.Keys) ==
               if pts in e.inflight then Meaning(e).keys else Meaning(e).keys + [pts]
  {
    var keys := e.inflight[pts := stamps].Keys;
    assert keys == e.inflight.Keys + {pts};
    if pts in e.inflight {
      assert keys == e.inflight.Keys;
    } else {
      LiveAppend(e.order, keys, pts);
      LiveIgnores(e.order, e.inflight.Keys, pts);
    }
  }

  /**
   Recording a frame whose key is no leftover behind the eviction does exactly what a plain queue of
   unmatched frames would do.
   */
  lemma HostedRefines(b: Book, capacity: nat, pts: nat, stamps: HostStamps)
    requires Tidy(b) && |b.inflight| <= capacity && capacity >= 1
    requires pts in b.inflight || pts !in Evicted(b, capacity).order
    ensures Tidy(Hosted(b, capacity, pts, stamps))
    ensures Meaning(Hosted(b, capacity, pts, stamps)) == FifoHosted(Meaning(b), capacity, pts, stamps)
  {
    LiveCount(b.order, b.inflight.Keys);
    var e := Evicted(b, capacity);
    if |b.inflight| == capacity {
      EvictedRefines(b, capacity);
    }
    if pts in e.order {
      EvictedQueue(b, capacity, pts);
      EvictedKeeps(b, capacity, pts);
    }
    AddedRefines(e, pts, stamps);
  }

  /** Matching takes the frame out, wherever it waits. */
  lemma MatchedRefines(b: Book, pts: nat)
    requires Tidy(b)
    ensures Tidy(Matched(b, pts)) && Meaning(Matched(b, pts)) == FifoMatched(Meaning(b), pts)
  {
    assert (b.inflight - {pts}).Keys == b.inflight.Keys - {pts};
    LiveWithout(b.order, b.inflight.Keys, pts);
  }

  /** Eviction forgets a frame only together with its queued key. */
  lemma {:induction false} EvictedKeeps(b: Book, capacity: nat, k: nat)
    requires Distinct(b.order) && k in Evicted(b, capacity).order
    ensures k in Evicted(b, capacity).inflight <==> k in b.inflight
    decreases |b.order|
  {
    if |b.inflight| >= capacity && b.order != [] {
      var next := Book(b.inflight - {b.order[0]}, b.order[1..]);
      DistinctTail(b.order);
      EvictedQueue(next, capacity, k);
      EvictedKeeps(next, capacity, k);
    }
  }

  /** And only such a frame: a leftover key that survives the eviction is afterwards queued twice. */
  lemma HostedRefinesIff(b: Book, capacity: nat, pts: nat, stamps: HostStamps)
    requires Tidy(b) && |b.inflight| <= capacity && capacity >= 1
    ensures Meaning(Hosted(b, capacity, pts, stamps)) == FifoHosted(Meaning(b), capacity, pts, stamps) <==>
            pts in b.inflight || pts !in Evicted(b, capacity).order
  {
    var e := Evicted(b, capacity);
    if pts in b.inflight || pts !in e.order {
      HostedRefines(b, capacity, pts, stamps);
    } else {
      LiveCount(b.order, b.inflight.Keys);
      if |b.inflight| == capacity {
        EvictedRefines(b, capacity);
      }
      EvictedKeeps(b, capacity, pts);
      LeftoverQueuedTwice(e, pts, stamps);
    }
  }

  lemma LeftoverQueuedTwice(e: Book, pts: nat, stamps: HostStamps)
    requires Tidy(e) && pts in e.order && pts !in e.inflight
    ensures |Live(e.order + [pts], e.inflight[pts := stamps].Keys)| == |Live(e.order, e.inflight.Keys)| + 2
  {
    var keys := e.inflight[pts := stamps].Keys;
    assert keys == e.inflight.Keys + {pts};
    LiveAppend(e.order, keys, pts);
    LiveCount(e.order, keys);
    LiveCount(e.order, e.inflight.Keys);
  }

  /**
   With a leftover key it does not: after frame 0 was matched and recorded again behind frame 1, the
   next eviction drops frame 0, the younger of the two.
   */
  lemma LeftoverKeyEvictsYounger(st: HostStamps)
    ensures var b := Book(map[1 := st, 0 := st], [0, 1, 0]);
            && Hosted(Hosted(Matched(Hosted(Book(map[], []), 2, 0, st), 0), 2, 1, st), 2, 0, st) == b
            && Hosted(b, 2, 2, st).inflight.Keys == {1, 2}
  {
    var b0 := Book(map[], []);
    var b1 := Book(map[0 := st], [0]);
    var b2 := Book(map[], [0]);
    var b3 := Book(map[1 := st], [0, 1]);
    var b4 := Book(map[1 := st, 0 := st], [0, 1, 0]);
    assert Hosted(b0, 2, 0, st) == b1;
    assert Matched(b1, 0) == b2;
    assert Hosted(b2, 2, 1, st) == b3;
    assert Hosted(b3, 2, 0, st) == b4;
    assert b4.inflight.Keys == {0, 1};
    assert |b4.inflight| == 2;
    var e := Book(map[1 := st], [1, 0]);
    assert b4.inflight - {0} == e.inflight;
    assert Evicted(b4, 2) == Evicted(e, 2) == e;
    assert Hosted(b4, 2, 2, st).inflight == map[1 := st, 2 := st];
  }

  // ---------------------------------------------------------------------------
  // The report
  // ---------------------------------------------------------------------------

  datatype PhoneTimes = PhoneTimes(arriveUs: nat, decodeUs: nat, presentUs: nat)

  datatype Report = Report(
    captureToEncode: Stats, encodeToSend: Stats, sendToArrive: Stats, arriveToDecode: Stats, decodeToPresent: Stats,
    glassToGlass: Stats, anomalies: nat, unmatchedStats: nat, droppedFrames: nat)

  /** One stage: a negative interval counts as zero. */
  function Gap(s: Stats, from: int, to: int): Stats {
    Recorded(s, if to < from then 0 else to - from)
  }

  /** The phone's times move to the host's clock; then every stage and the total are recorded. */
  function Fused(r: Report, h: HostStamps, t: PhoneTimes, offsetUs: int): Report {
    var (arrive, decode, present) := (t.arriveUs - offsetUs, t.decodeUs - offsetUs, t.presentUs - offsetUs);
    var anomaly := !(h.captureUs <= h.encodeDoneUs <= h.sendDoneUs <= arrive <= decode <= present);
    Report(
      Gap(r.captureToEncode, h.captureUs, h.encodeDoneUs),
      Gap(r.encodeToSend, h.encodeDoneUs, h.sendDoneUs),
      Gap(r.sendToArrive, h.sendDoneUs, arrive),
      Gap(r.arriveToDecode, arrive, decode),
      Gap(r.decodeToPresent, decode, present),
      Gap(r.glassToGlass, h.captureUs, present),
      r.anomalies + if anomaly then 1 else 0, r.unmatchedStats, r.droppedFrames)
  }

  datatype Pipeline = Pipeline(book: Book, report: Report)

  datatype Event =
    | HostFrame(pts: nat, stamps: HostStamps)
    | PhoneStats(pts: nat, times: PhoneTimes, offsetUs: int)
    | Shed(n: nat)

  function Handled(p: Pipeline, capacity: nat, e: Event): Pipeline {
    match e
    case HostFrame(pts, stamps) => p.(book := Hosted(p.book, capacity, pts, stamps))
    case PhoneStats(pts, times, offsetUs) =>
      if pts in p.book.inflight
      then Pipeline(Matched(p.book, pts), Fused(p.report, p.book.inflight[pts], times, offsetUs))
      else p.(report := p.report.(unmatchedStats := p.report.unmatchedStats + 1))
    case Shed(n) => p.(report := p.report.(droppedFrames := p.report.droppedFrames + n))
  }

  function AfterEvents(capacity: nat, events: seq<Event>): Pipeline {
    if events == [] then Pipeline(Book(map[], []), Report(EMPTY, EMPTY, EMPTY, EMPTY, EMPTY, EMPTY, 0, 0, 0))
    else
      var n := |events| - 1;
      Handled(AfterEvents(capacity, events[..n]), capacity, events[n])
  }

  class PipelineLatency {
    var inflight: map<nat, HostStamps>
    var order: seq<nat>
    const capacity: nat
    var report: Report

    function State(): Pipeline
      reads this
    {
      Pipeline(Book(inflight, order), report)
    }

    constructor (capacity: nat)
      ensures this.capacity == Max(capacity, 1) && State() == AfterEvents(this.capacity, [])
    {
      this.capacity := Max(capacity, 1);
      inflight, order := map[], [];
      report := Report(EMPTY, EMPTY, EMPTY, EMPTY, EMPTY, EMPTY, 0, 0, 0);
    }

    method RecordHost(pts: nat, stamps: HostStamps)
      modifies this
      ensures State() == Handled(old(State()), capacity, HostFrame(pts, stamps))
    {
      while |inflight| >= capacity
        invariant report == old(report)
        invariant Evicted(Book(inflight, order), capacity) == Evicted(old(State()).book, capacity)
        decreases |order|
      {
        if order == [] {
          break;
        }
        var oldest := order[0];
        order := order[1..];
        inflight := inflight - {oldest};
      }
      var replaced := pts in inflight;
      inflight := inflight[pts := stamps];
      if !replaced {
        order := order + [pts];
      }
    }

    method RecordStats(pts: nat, times: PhoneTimes, offsetUs: int)
      modifies this
      ensures State() == Handled(old(State()), capacity, PhoneStats(pts, times, offsetUs))
    {
      if pts !in inflight {
        report := report.(unmatchedStats := report.unmatchedStats + 1);
        return;
      }
      var h := inflight[pts];
      inflight := inflight - {pts};
      var arrive, decode, present := times.arriveUs - offsetUs, times.decodeUs - offsetUs, times.presentUs - offsetUs;
      var anomaly := h.encodeDoneUs < h.captureUs || h.sendDoneUs < h.encodeDoneUs || arrive < h.sendDoneUs
                     || decode < arrive || present < decode || present < h.captureUs;
      report := Report(
        Gap(report.captureToEncode, h.captureUs, h.encodeDoneUs),
        Gap(report.encodeToSend, h.encodeDoneUs, h.sendDoneUs),
        Gap(report.sendToArrive, h.sendDoneUs, arrive),
        Gap(report.arriveToDecode, arrive, decode),
        Gap(report.decodeToPresent, decode, present),
        Gap(report.glassToGlass, h.captureUs, present),
        report.anomalies + if anomaly then 1 else 0, report.unmatchedStats, report.droppedFrames);
    }

    method RecordDropped(n: nat)
      modifies this
      ensures State() == Handled(old(State()), capacity, Shed(n))
    {
      report := report.(droppedFrames := report.droppedFrames + n);
    }
  }

  function StatsRecorded(events: seq<Event>): nat {
    if events == [] then 0
    else
      var n := |events| - 1;
      StatsRecorded(events[..n]) + if events[n].PhoneStats? then 1 else 0
  }

  function StageTotal(r: Report): nat {
    r.captureToEncode.sum + r.encodeToSend.sum + r.sendToArrive.sum + r.arriveToDecode.sum + r.decodeToPresent.sum
  }

  predicate SameCounts(r: Report) {
    r.captureToEncode.count == r.encodeToSend.count == r.sendToArrive.count == r.arriveToDecode.count
    == r.decodeToPresent.count == r.glassToGlass.count
  }

  /** One frame: the total never exceeds the stages, and is their sum unless time ran both ways. */
  lemma FusedTotals(r: Report, h: HostStamps, t: PhoneTimes, offsetUs: int)
    ensures var f := Fused(r, h, t, offsetUs);
            && f.glassToGlass.sum - r.glassToGlass.sum <= StageTotal(f) - StageTotal(r)
            && (f.anomalies == r.anomalies ==> f.glassToGlass.sum - r.glassToGlass.sum == StageTotal(f) - StageTotal(r))
  {
  }

  /** The phone read these times of the host's clock on its own, which is ahead by the offset. */
  predicate ReadAhead(t: PhoneTimes, a: int, d: int, p: int, offsetUs: int) {
    t.arriveUs == a + offsetUs && t.decodeUs == d + offsetUs && t.presentUs == p + offsetUs
  }

  /**
   A frame that went through its stages at these times of the host's clock, in order: each stage records its own
   interval, the total the way from capture to presentation, and nothing is an anomaly.
   */
  lemma FusedOnHostClock(r: Report, h: HostStamps, t: PhoneTimes, a: nat, d: nat, p: nat, offsetUs: int)
    requires ReadAhead(t, a, d, p, offsetUs)
    requires h.captureUs <= h.encodeDoneUs <= h.sendDoneUs <= a <= d <= p
    ensures Fused(r, h, t, offsetUs) ==
            Report(
              Recorded(r.captureToEncode, h.encodeDoneUs - h.captureUs),
              Recorded(r.encodeToSend, h.sendDoneUs - h.encodeDoneUs),
              Recorded(r.sendToArrive, a - h.sendDoneUs),
              Recorded(r.arriveToDecode, d - a),
              Recorded(r.decodeToPresent, p - d),
              Recorded(r.glassToGlass, p - h.captureUs),
              r.anomalies, r.unmatchedStats, r.droppedFrames)
  {
  }

  /** At any times: an interval that runs backwards is recorded as zero, and makes the frame one anomaly. */
  lemma FusedOutOfOrder(r: Report, h: HostStamps, t: PhoneTimes, a: int, d: int, p: int, offsetUs: int)
    requires ReadAhead(t, a, d, p, offsetUs)
    ensures var f := Fused(r, h, t, offsetUs);
            && f.captureToEncode == Recorded(r.captureToEncode, Max(h.encodeDoneUs - h.captureUs, 0))
            && f.encodeToSend == Recorded(r.encodeToSend, Max(h.sendDoneUs - h.encodeDoneUs, 0))
            && f.sendToArrive == Recorded(r.sendToArrive, Max(a - h.sendDoneUs, 0))
            && f.arriveToDecode == Recorded(r.arriveToDecode, Max(d - a, 0))
            && f.decodeToPresent == Recorded(r.decodeToPresent, Max(p - d, 0))
            && f.glassToGlass == Recorded(r.glassToGlass, Max(p - h.captureUs, 0))
            && f.anomalies == r.anomalies +
                 (if h.encodeDoneUs < h.captureUs || h.sendDoneUs < h.encodeDoneUs || a < h.sendDoneUs || d < a || p < d
                  then 1 else 0)
            && f.unmatchedStats == r.unmatchedStats && f.droppedFrames == r.droppedFrames
  {
  }

  /** A report of the phone is fused with the stamps waiting under its timestamp, or counted as unmatched. */
  lemma MatchedByTimestamp(p: Pipeline, capacity: nat, pts: nat, times: PhoneTimes, offsetUs: int)
    ensures var n := Handled(p, capacity, PhoneStats(pts, times, offsetUs));
            if pts in p.book.inflight then
              n.report == Fused(p.report, p.book.inflight[pts], times, offsetUs)
            else
              n.book == p.book && n.report == p.report.(unmatchedStats := p.report.unmatchedStats + 1)
  {
  }

  /** All frames reported as dropped. */
  function DroppedIn(events: seq<Event>): nat {
    if events == [] then 0
    else
      var n := |events| - 1;
      DroppedIn(events[..n]) + if events[n].Shed? then events[n].n else 0
  }

  lemma {:induction false} DroppedAddUp(capacity: nat, events: seq<Event>)
    ensures AfterEvents(capacity, events).report.droppedFrames == DroppedIn(events)
  {
    if events != [] {
      DroppedAddUp(capacity, events[..|events| - 1]);
    }
  }

  /** The keys of the recorded frames, in order. */
  function HostKeys(events: seq<Event>): seq<nat> {
    if events == [] then []
    else
      var n := |events| - 1;
      HostKeys(events[..n]) + if events[n].HostFrame? then [events[n].pts] else []
  }

  /** The bound and the sums, after `n` reports of the phone and `hosted` frames recorded. */
  ghost predicate AddsUp(p: Pipeline, capacity: nat, n: nat, hosted: nat) {
    && Queued(p.book) && |p.book.inflight| <= capacity
    && p.report.glassToGlass.count + |p.book.inflight| <= hosted
    && SameCounts(p.report)
    && p.report.glassToGlass.count + p.report.unmatchedStats == n
    && p.report.glassToGlass.sum <= StageTotal(p.report)
    && (p.report.anomalies == 0 ==> p.report.glassToGlass.sum == StageTotal(p.report))
  }

  lemma FusedAddsUp(p: Pipeline, capacity: nat, n: nat, hosted: nat, pts: nat, times: PhoneTimes, offsetUs: int)
    requires AddsUp(p, capacity, n, hosted) && pts in p.book.inflight
    ensures AddsUp(Handled(p, capacity, PhoneStats(pts, times, offsetUs)), capacity, n + 1, hosted)
  {
    MatchedBound(p.book, pts);
    assert Matched(p.book, pts).inflight.Keys == p.book.inflight.Keys - {pts};
    FusedTotals(p.report, p.book.inflight[pts], times, offsetUs);
  }

  lemma {:induction false} EvictedFewer(b: Book, capacity: nat)
    ensures |Evicted(b, capacity).inflight| <= |b.inflight|
    decreases |b.order|
  {
    if |b.inflight| >= capacity && b.order != [] {
      var next := Book(b.inflight - {b.order[0]}, b.order[1..]);
      EvictedFewer(next, capacity);
      assert next.inflight.Keys == b.inflight.Keys - {b.order[0]};
    }
  }

  lemma HostedAddsUp(p: Pipeline, capacity: nat, n: nat, hosted: nat, pts: nat, stamps: HostStamps)
    requires AddsUp(p, capacity, n, hosted) && capacity >= 1
    ensures AddsUp(Handled(p, capacity, HostFrame(pts, stamps)), capacity, n, hosted + 1)
  {
    HostedBound(p.book, capacity, pts, stamps);
    EvictedFewer(p.book, capacity);
    var e := Evicted(p.book, capacity);
    assert e.inflight[pts := stamps].Keys == e.inflight.Keys + {pts};
  }

  lemma HandledAddsUp(p: Pipeline, capacity: nat, n: nat, hosted: nat, e: Event)
    requires AddsUp(p, capacity, n, hosted) && capacity >= 1
    ensures AddsUp(Handled(p, capacity, e), capacity, n + (if e.PhoneStats? then 1 else 0),
                   hosted + if e.HostFrame? then 1 else 0)
  {
    match e
    case HostFrame(pts, stamps) =>
      HostedAddsUp(p, capacity, n, hosted, pts, stamps);
    case PhoneStats(pts, times, offsetUs) =>
      if pts in p.book.inflight {
        FusedAddsUp(p, capacity, n, hosted, pts, times, offsetUs);
      }
    case Shed(_) =>
  }

  /**
   After any events: at most `capacity` frames wait; the frames fused and those waiting are no more than were
   recorded, so that none is fused twice; every report of the phone was fused or counted as unmatched; and the
   glass-to-glass total is at most the stages', and equal without anomalies.
   */
  lemma {:induction false} ReportAddsUp(capacity: nat, events: seq<Event>)
    requires capacity >= 1
    ensures AddsUp(AfterEvents(capacity, events), capacity, StatsRecorded(events), |HostKeys(events)|)
  {
    if events != [] {
      var n := |events| - 1;
      ReportAddsUp(capacity, events[..n]);
      HandledAddsUp(AfterEvents(capacity, events[..n]), capacity, StatsRecorded(events[..n]),
                    |HostKeys(events[..n])|, events[n]);
    }
  }

  // ---------------------------------------------------------------------------
  // Whole runs against the plain queue
  // ---------------------------------------------------------------------------

  function FifoHandled(f: Fifo, capacity: nat, e: Event): Fifo {
    match e
    case HostFrame(pts, stamps) => FifoHosted(f, capacity, pts, stamps)
    case PhoneStats(pts, _, _) => FifoMatched(f, pts)
    case Shed(_) => f
  }

  /** The same events on a plain queue of unmatched frames. */
  function FifoAfter(capacity: nat, events: seq<Event>): Fifo {
    if events == [] then Fifo([], map[])
    else
      var n := |events| - 1;
      FifoHandled(FifoAfter(capacity, events[..n]), capacity, events[n])
  }

  /** The map and the queue stand for that plain queue, within the capacity. */
  ghost predicate Refines(b: Book, f: Fifo, capacity: nat) {
    Tidy(b) && |b.inflight| <= capacity && Meaning(b) == f
  }

  /** A frame is recorded whose key was matched or evicted before and survives in the queue. */
  predicate MeetsLeftover(b: Book, capacity: nat, e: Event) {
    e.HostFrame? && e.pts !in b.inflight && e.pts in Evicted(b, capacity).order
  }

  /** No event of the history did. */
  predicate LeftoverFree(capacity: nat, events: seq<Event>) {
    events == [] ||
    var n := |events| - 1;
    LeftoverFree(capacity, events[..n])
    && !MeetsLeftover(AfterEvents(capacity, events[..n]).book, capacity, events[n])
  }

  /** Book and plain queue agreed after every event. */
  ghost predicate AlwaysAgrees(capacity: nat, events: seq<Event>) {
    && Meaning(AfterEvents(capacity, events).book) == FifoAfter(capacity, events)
    && (events == [] || AlwaysAgrees(capacity, events[..|events| - 1]))
  }

  lemma HandledRefines(p: Pipeline, f: Fifo, capacity: nat, e: Event)
    requires Refines(p.book, f, capacity) && capacity >= 1 && !MeetsLeftover(p.book, capacity, e)
    ensures Refines(Handled(p, capacity, e).book, FifoHandled(f, capacity, e), capacity)
  {
    match e
    case HostFrame(pts, stamps) =>
      HostedRefines(p.book, capacity, pts, stamps);
      HostedBound(p.book, capacity, pts, stamps);
    case PhoneStats(pts, _, _) =>
      MatchedRefines(p.book, pts);
      MatchedBound(p.book, pts);
      if pts !in p.book.inflight {
        assert p.book.inflight - {pts} == p.book.inflight;
      }
    case Shed(_) =>
  }

  lemma HandledLeftover(p: Pipeline, f: Fifo, capacity: nat, e: Event)
    requires Refines(p.book, f, capacity) && capacity >= 1 && MeetsLeftover(p.book, capacity, e)
    ensures Meaning(Handled(p, capacity, e).book) != FifoHandled(f, capacity, e)
  {
    HostedRefinesIff(p.book, capacity, e.pts, e.stamps);
  }

  lemma {:induction false} LeftoverFreeRefines(capacity: nat, events: seq<Event>)
    requires capacity >= 1 && LeftoverFree(capacity, events)
    ensures Refines(AfterEvents(capacity, events).book, FifoAfter(capacity, events), capacity)
  {
    if events != [] {
      var n := |events| - 1;
      LeftoverFreeRefines(capacity, events[..n]);
      HandledRefines(AfterEvents(capacity, events[..n]), FifoAfter(capacity, events[..n]), capacity, events[n]);
    }
  }

  /**
   Over any history the map with its queue behaves like the plain queue all along if and only if no
   recorded frame meets a leftover of its own key.
   */
  lemma {:induction false} RunRefinesIff(capacity: nat, events: seq<Event>)
    requires capacity >= 1
    ensures AlwaysAgrees(capacity, events) <==> LeftoverFree(capacity, events)
  {
    if events != [] {
      var n := |events| - 1;
      RunRefinesIff(capacity, events[..n]);
      if LeftoverFree(capacity, events[..n]) {
        LeftoverFreeRefines(capacity, events[..n]);
        StepRefinesIff(capacity, events);
      }
    }
  }

  lemma StepRefinesIff(capacity: nat, events: seq<Event>)
    requires capacity >= 1 && events != []
    requires var before := events[..|events| - 1];
             Refines(AfterEvents(capacity, before).book, FifoAfter(capacity, before), capacity)
    ensures Meaning(AfterEvents(capacity, events).book) == FifoAfter(capacity, events) <==>
            !MeetsLeftover(AfterEvents(capacity, events[..|events| - 1]).book, capacity, events[|events| - 1])
  {
    var n := |events| - 1;
    var p, f := AfterEvents(capacity, events[..n]), FifoAfter(capacity, events[..n]);
    if MeetsLeftover(p.book, capacity, events[n]) {
      HandledLeftover(p, f, capacity, events[n]);
    } else {
      HandledRefines(p, f, capacity, events[n]);
    }
  }

  lemma {:induction false} QueuedWereHosted(capacity: nat, events: seq<Event>, k: nat)
    requires k in AfterEvents(capacity, events).book.order
    ensures k in HostKeys(events)
  {
    if events != [] {
      var n := |events| - 1;
      var p := AfterEvents(capacity, events[..n]);
      if k in p.book.order {
        QueuedWereHosted(capacity, events[..n], k);
      } else {
        match events[n]
        case HostFrame(pts, _) =>
          if k in Evicted(p.book, capacity).order {
            EvictedQueue(p.book, capacity, k);
          }
        case PhoneStats(_, _, _) =>
        case Shed(_) =>
      }
    }
  }

  lemma DistinctPrefix(a: seq<nat>, b: seq<nat>)
    requires Distinct(a + b)
    ensures Distinct(a) && forall k :: k in b ==> k !in a
  {
    assert forall i :: 0 <= i < |a| ==> (a + b)[i] == a[i];
    assert forall j :: 0 <= j < |b| ==> (a + b)[|a| + j] == b[j];
  }

  lemma {:induction false} DistinctKeysMeetNone(capacity: nat, events: seq<Event>)
    requires Distinct(HostKeys(events))
    ensures LeftoverFree(capacity, events)
  {
    if events != [] {
      var n := |events| - 1;
      DistinctPrefix(HostKeys(events[..n]), if events[n].HostFrame? then [events[n].pts] else []);
      DistinctKeysMeetNone(capacity, events[..n]);
      var b := AfterEvents(capacity, events[..n]).book;
      if MeetsLeftover(b, capacity, events[n]) {
        EvictedQueue(b, capacity, events[n].pts);
        QueuedWereHosted(capacity, events[..n], events[n].pts);
        assert false;
      }
    }
  }

  /**
   With distinct timestamps, as the encoder gives them, every history leaves exactly the unmatched frames
   that a plain queue of the same capacity would hold, oldest first.
   */
  lemma DistinctKeysRefine(capacity: nat, events: seq<Event>)
    requires capacity >= 1 && Distinct(HostKeys(events))
    ensures Refines(AfterEvents(capacity, events).book, FifoAfter(capacity, events), capacity)
    ensures AlwaysAgrees(capacity, events)
  {
    DistinctKeysMeetNone(capacity, events);
    LeftoverFreeRefines(capacity, events);
    RunRefinesIff(capacity, events);
  }

  // ---------------------------------------------------------------------------
  // A frame that is not overrun is fused
  // ---------------------------------------------------------------------------

  ghost predicate Orderly(f: Fifo) {
    Distinct(f.keys) && forall k :: k in f.stamps <==> k in f.keys
  }

  /** The frame waits at place `i`, with its own stamps and at most `later` frames behind it. */
  ghost predicate Waits(f: Fifo, i: nat, pts: nat, stamps: HostStamps, later: nat) {
    && i < |f.keys| && f.keys[i] == pts && |f.keys| - 1 - i <= later
    && pts in f.stamps && f.stamps[pts] == stamps
  }

  lemma {:induction false} WithoutHas(keys: seq<nat>, x: nat, k: nat)
    ensures k in Without(keys, x) <==> k in keys && k != x
  {
    if keys != [] {
      WithoutHas(keys[1..], x, k);
      WithoutStep(keys[0], keys[1..], x);
    }
  }

  lemma {:induction false} WithoutDistinct(keys: seq<nat>, x: nat)
    requires Distinct(keys)
    ensures Distinct(Without(keys, x)) && |Without(keys, x)| <= |keys|
  {
    if keys != [] {
      DistinctTail(keys);
      WithoutDistinct(keys[1..], x);
      WithoutHas(keys[1..], x, keys[0]);
    }
  }

  /** Taking out another key moves this one up at most. */
  lemma {:induction false} WithoutKeeps(keys: seq<nat>, x: nat, i: nat) returns (k: nat)
    requires i < |keys| && keys[i] != x
    ensures k < |Without(keys, x)| && Without(keys, x)[k] == keys[i] && |Without(keys, x)| - k <= |keys| - i
  {
    if i == 0 {
      k := 0;
      WithoutShorter(keys[1..], x);
    } else {
      k := WithoutKeeps(keys[1..], x, i - 1);
      k := if keys[0] == x then k else k + 1;
    }
  }

  lemma {:induction false} WithoutShorter(keys: seq<nat>, x: nat)
    ensures |Without(keys, x)| <= |keys|
  {
    if keys != [] {
      WithoutShorter(keys[1..], x);
    }
  }

  lemma HostedOrderly(f: Fifo, capacity: nat, pts: nat, stamps: HostStamps)
    requires Orderly(f)
    ensures Orderly(FifoHosted(f, capacity, pts, stamps))
  {
    if f.keys != [] {
      DistinctTail(f.keys);
    }
  }

  lemma HandledOrderly(f: Fifo, capacity: nat, e: Event)
    requires Orderly(f)
    ensures Orderly(FifoHandled(f, capacity, e))
  {
    match e
    case HostFrame(pts, stamps) =>
      HostedOrderly(f, capacity, pts, stamps);
    case PhoneStats(pts, _, _) =>
      WithoutDistinct(f.keys, pts);
      forall k
        ensures k in Without(f.keys, pts) <==> k in f.keys && k != pts
      {
        WithoutHas(f.keys, pts, k);
      }
    case Shed(_) =>
  }

  lemma {:induction false} OrderlyAfter(capacity: nat, events: seq<Event>)
    ensures Orderly(FifoAfter(capacity, events))
  {
    if events != [] {
      var n := |events| - 1;
      OrderlyAfter(capacity, events[..n]);
      HandledOrderly(FifoAfter(capacity, events[..n]), capacity, events[n]);
    }
  }

  predicate About(e: Event, pts: nat) {
    !e.Shed? && e.pts == pts
  }

  lemma WaitsBehindHost(f: Fifo, capacity: nat, x: nat, h: HostStamps, i: nat, pts: nat, stamps: HostStamps,
                        later: nat) returns (k: nat)
    requires Orderly(f) && Waits(f, i, pts, stamps, later) && x != pts && later + 1 < capacity
    ensures Waits(FifoHosted(f, capacity, x, h), k, pts, stamps, later + 1)
  {
    if |f.keys| >= capacity {
      DistinctTail(f.keys);
      var kept := WithoutOldest(f);
      assert kept.keys[i - 1] == pts;
      k := i - 1;
    } else {
      k := i;
    }
  }

  lemma StillWaits(f: Fifo, capacity: nat, e: Event, i: nat, pts: nat, stamps: HostStamps, later: nat) returns (k: nat)
    requires Orderly(f) && Waits(f, i, pts, stamps, later) && !About(e, pts)
    requires e.HostFrame? ==> later + 1 < capacity
    ensures Waits(FifoHandled(f, capacity, e), k, pts, stamps, later + if e.HostFrame? then 1 else 0)
  {
    match e
    case HostFrame(x, h) =>
      k := WaitsBehindHost(f, capacity, x, h, i, pts, stamps, later);
    case PhoneStats(x, _, _) =>
      k := WithoutKeeps(f.keys, x, i);
    case Shed(_) =>
      k := i;
  }

  lemma OneMoreHandled(capacity: nat, events: seq<Event>, e: Event)
    ensures FifoAfter(capacity, events + [e]) == FifoHandled(FifoAfter(capacity, events), capacity, e)
    ensures AfterEvents(capacity, events + [e]) == Handled(AfterEvents(capacity, events), capacity, e)
    ensures HostKeys(events + [e]) == HostKeys(events) + if e.HostFrame? then [e.pts] else []
  {
    assert (events + [e])[..|events|] == events;
  }

  lemma {:induction false} WaitsThrough(capacity: nat, before: seq<Event>, events: seq<Event>, i: nat, pts: nat,
                                        stamps: HostStamps) returns (k: nat)
    requires Waits(FifoAfter(capacity, before), i, pts, stamps, 0)
    requires |HostKeys(events)| < capacity && forall e :: e in events ==> !About(e, pts)
    ensures Waits(FifoAfter(capacity, before + events), k, pts, stamps, |HostKeys(events)|)
    decreases |events|
  {
    if events == [] {
      assert before + events == before;
      k := i;
    } else {
      var n := |events| - 1;
      var e := events[n];
      assert events[..n] + [e] == events && e in events;
      assert before + events == before + events[..n] + [e];
      OneMoreHandled(capacity, events[..n], e);
      OneMoreHandled(capacity, before + events[..n], e);
      k := WaitsThrough(capacity, before, events[..n], i, pts, stamps);
      OrderlyAfter(capacity, before + events[..n]);
      k := StillWaits(FifoAfter(capacity, before + events[..n]), capacity, e, k, pts, stamps, |HostKeys(events[..n])|);
    }
  }

  lemma HostedIsLast(capacity: nat, before: seq<Event>, pts: nat, stamps: HostStamps)
    requires capacity >= 1 && Distinct(HostKeys(before)) && pts !in HostKeys(before)
    ensures var f := FifoAfter(capacity, before + [HostFrame(pts, stamps)]);
            f.keys != [] && Waits(f, |f.keys| - 1, pts, stamps, 0)
  {
    OneMoreHandled(capacity, before, HostFrame(pts, stamps));
    DistinctKeysRefine(capacity, before);
    if pts in FifoAfter(capacity, before).stamps {
      QueuedWereHosted(capacity, before, pts);
    }
  }

  lemma {:induction false} HostKeysAppend(a: seq<Event>, b: seq<Event>)
    ensures HostKeys(a + b) == HostKeys(a) + HostKeys(b)
    decreases |b|
  {
    if b == [] {
      assert a + b == a;
    } else {
      var n := |b| - 1;
      assert b[..n] + [b[n]] == b && a + b == a + b[..n] + [b[n]];
      HostKeysAppend(a, b[..n]);
      OneMoreHandled(1, a + b[..n], b[n]);
    }
  }

  /**
   With distinct timestamps: when the phone reports a frame behind which fewer frames than the capacity were
   recorded, it is fused with just the stamps recorded for it.
   */
  lemma FrameIsFused(capacity: nat, before: seq<Event>, pts: nat, stamps: HostStamps, meanwhile: seq<Event>,
                     times: PhoneTimes, offsetUs: int)
    requires Distinct(HostKeys(before + [HostFrame(pts, stamps)] + meanwhile))
    requires |HostKeys(meanwhile)| < capacity && forall e :: e in meanwhile ==> !About(e, pts)
    ensures var events := before + [HostFrame(pts, stamps)] + meanwhile;
            AfterEvents(capacity, events + [PhoneStats(pts, times, offsetUs)]).report ==
            Fused(AfterEvents(capacity, events).report, stamps, times, offsetUs)
  {
    var hosted := before + [HostFrame(pts, stamps)];
    var events := hosted + meanwhile;
    HostKeysAppend(hosted, meanwhile);
    DistinctPrefix(HostKeys(hosted), HostKeys(meanwhile));
    OneMoreHandled(capacity, before, HostFrame(pts, stamps));
    DistinctPrefix(HostKeys(before), [pts]);
    HostedIsLast(capacity, before, pts, stamps);
    var k := WaitsThrough(capacity, hosted, meanwhile, |FifoAfter(capacity, hosted).keys| - 1, pts, stamps);
    DistinctKeysRefine(capacity, events);
    OneMoreHandled(capacity, events, PhoneStats(pts, times, offsetUs));
  }
}
