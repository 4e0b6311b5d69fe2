/** The phone's bounded list of frames on their way from arrival to display, from which reports are made. */
module StatsTracker {
  import opened Prelude

  datatype Record = Record(pts: nat, arriveUs: nat, decodeUs: Option<nat>)

  datatype Report = Report(pts: nat, arriveUs: nat, decodeUs: nat, presentUs: nat)

  function Position(records: seq<Record>, pts: nat): (r: Option<nat>)
    ensures r.Some? ==> r.value < |records| && records[r.value].pts == pts
  {
    if records == [] then None
    else if records[0].pts == pts then Some(0)
    else
      match Position(records[1..], pts)
      case None => None
      case Some(i) => Some(i + 1)
  }

  lemma {:induction false} PositionIsFirst(records: seq<Record>, pts: nat)
    ensures var n := if Position(records, pts).Some? then Position(records, pts).value else |records|;
            forall i :: 0 <= i < n ==> records[i].pts != pts
  {
    if records != [] && records[0].pts != pts {
      PositionIsFirst(records[1..], pts);
    }
  }

  // ---------------------------------------------------------------------------
  // The tracker and what its calls do
  // ---------------------------------------------------------------------------

  datatype Call = Arrive(pts: nat, us: nat) | Decode(pts: nat, us: nat) | Present(pts: nat, us: nat)

  /** The list, the reports made, and the records lost: evicted, or presented without a decode time. */
  datatype Tracker = Tracker(records: seq<Record>, reports: seq<Report>, evicted: nat, incomplete: nat)

  function Called(t: Tracker, capacity: nat, c: Call): Tracker {
    match c
    case Arrive(pts, us) =>
      var full := |t.records| >= capacity && t.records != [];
      var kept := if full then t.records[1..] else t.records;
      t.(records := kept + [Record(pts, us, None)], evicted := t.evicted + if full then 1 else 0)
    case Decode(pts, us) =>
      (match Position(t.records, pts)
       case None => t
       case Some(i) => t.(records := t.records[i := t.records[i].(decodeUs := Some(us))]))
    case Present(pts, us) =>
      match Position(t.records, pts)
      case None => t
      case Some(i) =>
        var r := t.records[i];
        var rest := t.(records := t.records[..i] + t.records[i + 1..]);
        if r.decodeUs.None? then rest.(incomplete := t.incomplete + 1)
        else rest.(reports := t.reports + [Report(pts, r.arriveUs, r.decodeUs.value, us)])
  }

  class StatsTracker {
    var inflight: seq<Record>
    const capacity: nat
    ghost var history: Tracker

    ghost predicate Valid()
      reads this
    {
      capacity >= 1 && history.records == inflight
    }

    constructor (capacity: nat)
      ensures Valid() && this.capacity == Max(capacity, 1) && history == Tracker([], [], 0, 0)
    {
      this.capacity := Max(capacity, 1);
      inflight := [];
      history := Tracker([], [], 0, 0);
    }

    method OnArrive(pts: nat, arriveUs: nat)
      requires Valid()
      modifies this
      ensures Valid() && history == Called(old(history), capacity, Arrive(pts, arriveUs))
    {
      history := Called(history, capacity, Arrive(pts, arriveUs));
      if |inflight| >= capacity {
        inflight := inflight[1..];
      }
      inflight := inflight + [Record(pts, arriveUs, None)];
    }

    method OnDecode(pts: nat, decodeUs: nat)
      requires Valid()
      modifies this
      ensures Valid() && history == Called(old(history), capacity, Decode(pts, decodeUs))
    {
      history := Called(history, capacity, Decode(pts, decodeUs));
      var at := Position(inflight, pts);
      if at.Some? {
        inflight := inflight[at.value := inflight[at.value].(decodeUs := Some(decodeUs))];
      }
    }

    method OnPresent(pts: nat, presentUs: nat) returns (report: Option<Report>)
      requires Valid()
      modifies this
      ensures Valid() && history == Called(old(history), capacity, Present(pts, presentUs))
      ensures history.reports == old(history).reports + if report.Some? then [report.value] else []
    {
      history := Called(history, capacity, Present(pts, presentUs));
      var at := Position(inflight, pts);
      if at.None? {
        return None;
      }
      var r := inflight[at.value];
      inflight := inflight[..at.value] + inflight[at.value + 1..];
      if r.decodeUs.None? {
        return None;
      }
      return Some(Report(pts, r.arriveUs, r.decodeUs.value, presentUs));
    }
  }

  // ---------------------------------------------------------------------------
  // What holds after any calls
  // ---------------------------------------------------------------------------

  function After(capacity: nat, calls: seq<Call>): Tracker {
    if calls == [] then Tracker([], [], 0, 0)
    else
      var n := |calls| - 1;
      Called(After(capacity, calls[..n]), capacity, calls[n])
  }

  function Arrivals(calls: seq<Call>): nat {
    if calls == [] then 0
    else
      var n := |calls| - 1;
      Arrivals(calls[..n]) + if calls[n].Arrive? then 1 else 0
  }

  /** The list never exceeds its capacity, and every arrival is still listed, reported, or accounted for. */
  lemma {:induction false} ArrivalsAddUp(capacity: nat, calls: seq<Call>)
    requires capacity >= 1
    ensures var t := After(capacity, calls);
            && |t.records| <= capacity
            && |t.records| + |t.reports| + t.evicted + t.incomplete == Arrivals(calls)
  {
    if calls != [] {
      ArrivalsAddUp(capacity, calls[..|calls| - 1]);
    }
  }

  // ---------------------------------------------------------------------------
  // Where the times of a report come from
  // ---------------------------------------------------------------------------

  /** The `i`-th call is the record's arrival, and its decode, if any, is the later `j`-th. */
  predicate TimedBy(r: Record, calls: seq<Call>, i: int, j: int) {
    && 0 <= i < j <= |calls| && calls[i] == Arrive(r.pts, r.arriveUs)
    && (r.decodeUs.Some? ==> j < |calls| && calls[j] == Decode(r.pts, r.decodeUs.value))
  }

  ghost predicate Witnessed(r: Record, calls: seq<Call>) {
    exists i, j :: TimedBy(r, calls, i, j)
  }

  /** The frame arrived, was then decoded, and was then presented. */
  predicate ReportedBy(r: Report, calls: seq<Call>, i: int, j: int, k: int) {
    && 0 <= i < j < k < |calls|
    && calls[i] == Arrive(r.pts, r.arriveUs) && calls[j] == Decode(r.pts, r.decodeUs)
    && calls[k] == Present(r.pts, r.presentUs)
  }

  ghost predicate ReportWitnessed(r: Report, calls: seq<Call>) {
    exists i, j, k :: ReportedBy(r, calls, i, j, k)
  }

  ghost predicate AllWitnessed(t: Tracker, calls: seq<Call>) {
    && (forall k :: 0 <= k < |t.records| ==> Witnessed(t.records[k], calls))
    && forall k :: 0 <= k < |t.reports| ==> ReportWitnessed(t.reports[k], calls)
  }

  lemma RecordStays(r: Record, calls: seq<Call>, c: Call)
    requires Witnessed(r, calls)
    ensures Witnessed(r, calls + [c])
  {
    var i, j :| TimedBy(r, calls, i, j);
    assert TimedBy(r, calls + [c], i, j);
  }

  lemma ReportStays(r: Report, calls: seq<Call>, c: Call)
    requires ReportWitnessed(r, calls)
    ensures ReportWitnessed(r, calls + [c])
  {
    var i, j, k :| ReportedBy(r, calls, i, j, k);
    assert ReportedBy(r, calls + [c], i, j, k);
  }

  lemma ArrivedNow(pts: nat, us: nat, calls: seq<Call>)
    ensures Witnessed(Record(pts, us, None), calls + [Arrive(pts, us)])
  {
    assert TimedBy(Record(pts, us, None), calls + [Arrive(pts, us)], |calls|, |calls| + 1);
  }

  lemma DecodedNow(r: Record, us: nat, calls: seq<Call>)
    requires Witnessed(r, calls)
    ensures Witnessed(r.(decodeUs := Some(us)), calls + [Decode(r.pts, us)])
  {
    var i, j :| TimedBy(r, calls, i, j);
    assert TimedBy(r.(decodeUs := Some(us)), calls + [Decode(r.pts, us)], i, |calls|);
  }

  lemma PresentedNow(r: Record, us: nat, calls: seq<Call>)
    requires Witnessed(r, calls) && r.decodeUs.Some?
    ensures ReportWitnessed(Report(r.pts, r.arriveUs, r.decodeUs.value, us), calls + [Present(r.pts, us)])
  {
    var i, j :| TimedBy(r, calls, i, j);
    assert ReportedBy(Report(r.pts, r.arriveUs, r.decodeUs.value, us), calls + [Present(r.pts, us)], i, j, |calls|);
  }

  /** A record listed after the call was listed before, came by it, or was decoded by it. */
  lemma RecordKeepsWitness(t: Tracker, capacity: nat, c: Call, calls: seq<Call>, k: nat)
    requires AllWitnessed(t, calls) && k < |Called(t, capacity, c).records|
    ensures Witnessed(Called(t, capacity, c).records[k], calls + [c])
  {
    var n := Called(t, capacity, c);
    match c
    case Arrive(pts, us) =>
      ArrivedNow(pts, us, calls);
      if k < |n.records| - 1 {
        RecordStays(t.records[k + |t.records| - (|n.records| - 1)], calls, c);
      }
    case Decode(pts, us) =>
      RecordStays(t.records[k], calls, c);
      DecodedNow(t.records[k], us, calls);
    case Present(pts, us) =>
      var i := if Position(t.records, pts).Some? then Position(t.records, pts).value else |t.records|;
      RecordStays(t.records[if k < i then k else k + 1], calls, c);
  }

  lemma ReportKeepsWitness(t: Tracker, capacity: nat, c: Call, calls: seq<Call>, k: nat)
    requires AllWitnessed(t, calls) && k < |Called(t, capacity, c).reports|
    ensures ReportWitnessed(Called(t, capacity, c).reports[k], calls + [c])
  {
    if k < |t.reports| {
      ReportStays(t.reports[k], calls, c);
    } else {
      PresentedNow(t.records[Position(t.records, c.pts).value], c.us, calls);
    }
  }

  /** Every report joins an arrival, a later decode and a still later presentation of one and the same frame. */
  lemma {:induction false} ReportsAreWitnessed(capacity: nat, calls: seq<Call>)
    ensures AllWitnessed(After(capacity, calls), calls)
  {
    if calls != [] {
      var n := |calls| - 1;
      var t := After(capacity, calls[..n]);
      ReportsAreWitnessed(capacity, calls[..n]);
      assert calls[..n] + [calls[n]] == calls;
      forall k | 0 <= k < |After(capacity, calls).records|
        ensures Witnessed(After(capacity, calls).records[k], calls)
      {
        RecordKeepsWitness(t, capacity, calls[n], calls[..n], k);
      }
      forall k | 0 <= k < |After(capacity, calls).reports|
        ensures ReportWitnessed(After(capacity, calls).reports[k], calls)
      {
        ReportKeepsWitness(t, capacity, calls[n], calls[..n], k);
      }
    }
  }

  // ---------------------------------------------------------------------------
  // Which frames are reported
  // ---------------------------------------------------------------------------

  lemma OneMoreCall(capacity: nat, calls: seq<Call>, c: Call)
    ensures After(capacity, calls + [c]) == Called(After(capacity, calls), capacity, c)
    ensures Arrivals(calls + [c]) == Arrivals(calls) + if c.Arrive? then 1 else 0
  {
    assert (calls + [c])[..|calls|] == calls;
  }

  /** No call is about this frame. */
  ghost predicate NotAbout(calls: seq<Call>, pts: nat) {
    forall c :: c in calls ==> c.pts != pts
  }

  lemma {:induction false} NoRecordYet(capacity: nat, calls: seq<Call>, pts: nat)
    requires NotAbout(calls, pts)
    ensures forall r :: r in After(capacity, calls).records ==> r.pts != pts
  {
    if calls != [] {
      var n := |calls| - 1;
      assert calls[n] in calls;
      NoRecordYet(capacity, calls[..n], pts);
    }
  }

  /** The record stands at `i`, alone for its frame, with at most `later` behind it. */
  ghost predicate StandsAt(t: Tracker, i: int, r: Record, later: nat) {
    && 0 <= i < |t.records| && t.records[i] == r && |t.records| - 1 - i <= later
    && forall j :: 0 <= j < |t.records| && j != i ==> t.records[j].pts != r.pts
  }

  lemma FoundAt(t: Tracker, i: int, r: Record, later: nat)
    requires StandsAt(t, i, r, later)
    ensures Position(t.records, r.pts) == Some(i)
  {
    PositionIsFirst(t.records, r.pts);
  }

  /** A call about another frame leaves it there, moved up at most, unless too many arrived. */
  lemma StaysListed(t: Tracker, capacity: nat, c: Call, i: nat, r: Record, later: nat) returns (k: nat)
    requires StandsAt(t, i, r, later) && c.pts != r.pts && |t.records| <= capacity
    requires c.Arrive? ==> later + 1 < capacity
    ensures StandsAt(Called(t, capacity, c), k, r, later + if c.Arrive? then 1 else 0)
  {
    match c
    case Arrive(_, _) =>
      k := if |t.records| >= capacity then i - 1 else i;
    case Decode(_, _) =>
      k := i;
    case Present(pts, _) =>
      var p := Position(t.records, pts);
      k := if p.Some? && p.value < i then i - 1 else i;
  }

  lemma {:induction false} StaysListedThrough(capacity: nat, before: seq<Call>, calls: seq<Call>, i: nat, r: Record,
                                              later: nat) returns (k: nat)
    requires capacity >= 1 && StandsAt(After(capacity, before), i, r, later)
    requires NotAbout(calls, r.pts) && later + Arrivals(calls) < capacity
    ensures StandsAt(After(capacity, before + calls), k, r, later + Arrivals(calls))
    decreases |calls|
  {
    if calls == [] {
      assert before + calls == before;
      k := i;
    } else {
      var n := |calls| - 1;
      var c := calls[n];
      assert calls[..n] + [c] == calls && c in calls;
      OneMoreCall(capacity, calls[..n], c);
      k := StaysListedThrough(capacity, before, calls[..n], i, r, later);
      ArrivalsAddUp(capacity, before + calls[..n]);
      OneMoreCall(capacity, before + calls[..n], c);
      assert before + calls == before + calls[..n] + [c];
      k := StaysListed(After(capacity, before + calls[..n]), capacity, c, k, r, later + Arrivals(calls[..n]));
    }
  }

  /** A frame that arrives, with its timestamp alone in use for it, is listed last. */
  lemma ListedOnArrival(capacity: nat, calls: seq<Call>, pts: nat, us: nat)
    requires capacity >= 1 && NotAbout(calls, pts)
    ensures var t := After(capacity, calls + [Arrive(pts, us)]);
            StandsAt(t, |t.records| - 1, Record(pts, us, None), 0)
  {
    NoRecordYet(capacity, calls, pts);
    OneMoreCall(capacity, calls, Arrive(pts, us));
  }

  lemma DecodedInPlace(capacity: nat, calls: seq<Call>, us: nat, i: nat, r: Record, later: nat)
    requires StandsAt(After(capacity, calls), i, r, later)
    ensures StandsAt(After(capacity, calls + [Decode(r.pts, us)]), i, r.(decodeUs := Some(us)), later)
  {
    FoundAt(After(capacity, calls), i, r, later);
    OneMoreCall(capacity, calls, Decode(r.pts, us));
  }

  lemma ReportedOnPresent(capacity: nat, calls: seq<Call>, us: nat, i: nat, r: Record, later: nat)
    requires StandsAt(After(capacity, calls), i, r, later) && r.decodeUs.Some?
    ensures After(capacity, calls + [Present(r.pts, us)]).reports ==
            After(capacity, calls).reports + [Report(r.pts, r.arriveUs, r.decodeUs.value, us)]
  {
    FoundAt(After(capacity, calls), i, r, later);
    OneMoreCall(capacity, calls, Present(r.pts, us));
  }

  /**
   A frame that arrives, is decoded and is presented is reported with just these times, whatever calls about
   other frames come before and in between, as long as fewer frames than the capacity arrive meanwhile.
   */
  lemma CompleteFrameIsReported(capacity: nat, before: seq<Call>, first: seq<Call>, second: seq<Call>, pts: nat,
                                arriveUs: nat, decodeUs: nat, presentUs: nat)
    requires NotAbout(before, pts) && NotAbout(first, pts) && NotAbout(second, pts)
    requires Arrivals(first) + Arrivals(second) < capacity
    ensures var calls := before + [Arrive(pts, arriveUs)] + first + [Decode(pts, decodeUs)] + second;
            After(capacity, calls + [Present(pts, presentUs)]).reports ==
            After(capacity, calls).reports + [Report(pts, arriveUs, decodeUs, presentUs)]
  {
    var r := Record(pts, arriveUs, None);
    var arrived := before + [Arrive(pts, arriveUs)];
    ListedOnArrival(capacity, before, pts, arriveUs);
    var i := StaysListedThrough(capacity, arrived, first, |After(capacity, arrived).records| - 1, r, 0);
    DecodedInPlace(capacity, arrived + first, decodeUs, i, r, Arrivals(first));
    var decoded := arrived + first + [Decode(pts, decodeUs)];
    var k := StaysListedThrough(capacity, decoded, second, i, r.(decodeUs := Some(decodeUs)), Arrivals(first));
    ReportedOnPresent(capacity, decoded + second, presentUs, k, r.(decodeUs := Some(decodeUs)),
                      Arrivals(first) + Arrivals(second));
  }
}
