/**
 The capture delegate's run, the host's stream loop and the client's receive loop together: how a frame
 that reaches the decoder stands to a keyframe in the encoder's own order.
 */
module EndToEnd {
  import opened Messages
  import opened HostStream
  import opened ClientSession
  import opened VideoPath
  import Pacing = EncoderPacing

  // ---------------------------------------------------------------------------
  // What lies between two sent frames
  // ---------------------------------------------------------------------------

  /** The `q`-th sent frame, and what became of those right before it. */
  ghost predicate SentNext(fates: seq<Pacing.Fate>, sent: seq<nat>, q: nat) {
    && q < |sent| && sent[q] < |fates|
    && (q > 0 ==> sent[q - 1] < sent[q])
    && (q > 0 ==> forall n :: sent[q - 1] < n < sent[q] ==> fates[n] != Pacing.Sent)
  }

  function Last(s: seq<nat>): nat
    requires s != []
  {
    s[|s| - 1]
  }

  /** No frame behind the last sent one was sent. */
  lemma {:induction false} NoneSentBehind(fates: seq<Pacing.Fate>, n: nat)
    requires n < |fates| && (Pacing.SentPositions(fates) != [] ==> Last(Pacing.SentPositions(fates)) < n)
    ensures fates[n] != Pacing.Sent
  {
    var m := |fates| - 1;
    if n < m && fates[m] != Pacing.Sent {
      NoneSentBehind(fates[..m], n);
    }
  }

  lemma LastSent(fates: seq<Pacing.Fate>, m: nat, p: nat)
    requires m <= |fates| && Pacing.SentPositions(fates[..m]) != [] && Last(Pacing.SentPositions(fates[..m])) == p
    ensures forall n :: p < n < m ==> fates[n] != Pacing.Sent
  {
    forall n | p < n < m
      ensures fates[n] != Pacing.Sent
    {
      NoneSentBehind(fates[..m], n);
    }
  }

  lemma {:induction false} SentPositionsGrow(fates: seq<Pacing.Fate>, q: nat)
    requires q < |Pacing.SentPositions(fates)|
    ensures SentNext(fates, Pacing.SentPositions(fates), q)
  {
    var m := |fates| - 1;
    var before, sent := Pacing.SentPositions(fates[..m]), Pacing.SentPositions(fates);
    if q < |before| {
      SentPositionsGrow(fates[..m], q);
      assert forall j :: 0 <= j < |before| ==> sent[j] == before[j];
    } else {
      assert sent == before + [m];
      if q > 0 {
        SentPositionsGrow(fates[..m], q - 1);
        LastSent(fates, m, before[q - 1]);
      }
    }
  }

  // ---------------------------------------------------------------------------
  // The last gap
  // ---------------------------------------------------------------------------

  /** The frames `a..=b` of `r` are neighbours of one another. */
  ghost predicate Contiguous(r: seq<nat>, a: nat, b: nat) {
    a <= b < |r| && forall j :: a <= j <= b ==> r[j] == r[a] + (j - a)
  }

  lemma {:induction false} LastGap(r: seq<nat>, a: nat, b: nat) returns (m: nat)
    requires a <= b < |r|
    ensures a <= m && Contiguous(r, m, b) && (m == a || r[m] != r[m - 1] + 1)
  {
    if a == b || r[b] != r[b - 1] + 1 {
      m := b;
    } else {
      m := LastGap(r, a, b - 1);
    }
  }

  // ---------------------------------------------------------------------------
  // The three parts together
  // ---------------------------------------------------------------------------

  /**
   The stream loop took the frames that came off the delegate's channel from `base` on, and each picture
   that the encoder was forced to make an IDR picture is a keyframe.
   */
  ghost predicate Feeds(s: Pacing.Sink, base: nat, taken: seq<Encoded>) {
    && base + |taken| <= |s.received|
    && forall p :: 0 <= p < |taken| && s.received[base + p] < |s.submitted| && s.submitted[s.received[base + p]] ==>
         taken[p].keyframe
  }

  /** Frame `e` of the encoder stands at most two behind the dropped `d`. */
  ghost predicate JustBehindDrop(s: Pacing.Sink, d: int, e: int) {
    0 <= d < |s.fates| && s.fates[d] == Pacing.Dropped && d < e <= d + Pacing.MAX_IN_FLIGHT_ENCODES
  }

  /**
   Encoder positions of the frames taken, `a..=b` of them: neighbours, or the last stands close behind a drop
   that lies in between.
   */
  ghost predicate WholeOrNear(s: Pacing.Sink, a: nat, b: nat) {
    || Contiguous(s.received, a, b)
    || (a <= b < |s.received| && exists d :: s.received[a] < d && JustBehindDrop(s, d, s.received[b]))
  }

  lemma ReceivedAre(states: seq<Pacing.Sink>, steps: seq<Pacing.Step>, i: nat, q: nat)
    requires Pacing.IsRun(states, steps) && i < |states| && q < |states[i].received|
    ensures SentNext(states[i].fates, states[i].received, q)
    ensures |states[i].fates| <= |states[i].submitted|
  {
    var s := states[i];
    Pacing.ChannelKeepsOrder(states, steps, i);
    Pacing.CounterAt(states, steps, i);
    SentPositionsGrow(s.fates, q);
    assert forall j :: 0 <= j < |s.received| ==> s.received[j] == Pacing.SentPositions(s.fates)[j];
  }

  lemma {:induction false} ReceivedGrow(states: seq<Pacing.Sink>, steps: seq<Pacing.Step>, i: nat, a: nat, q: nat)
    requires Pacing.IsRun(states, steps) && i < |states| && a <= q < |states[i].received|
    ensures states[i].received[a] <= states[i].received[q]
    decreases q
  {
    if a < q {
      ReceivedGrow(states, steps, i, a, q - 1);
      ReceivedAre(states, steps, i, q);
    }
  }

  /** Frames taken without a forced one behind the first: a gap among them is a drop, and a recent one. */
  lemma GapIsRecentDrop(states: seq<Pacing.Sink>, steps: seq<Pacing.Step>, i: nat, a: nat, b: nat)
    requires Pacing.IsRun(states, steps) && Pacing.NoRequestLost(states, steps) && i < |states|
    requires Pacing.Failed !in states[i].fates
    requires a <= b < |states[i].received|
    requires forall q :: a < q <= b && states[i].received[q] < |states[i].submitted| ==>
               !states[i].submitted[states[i].received[q]]
    ensures WholeOrNear(states[i], a, b)
  {
    var s := states[i];
    var m := LastGap(s.received, a, b);
    if a < m {
      ReceivedAre(states, steps, i, m);
      ReceivedAre(states, steps, i, b);
      ReceivedGrow(states, steps, i, a, m - 1);
      var d := s.received[m] - 1;
      assert s.fates[d] != Pacing.Sent && s.fates[d] in s.fates;
      forall x | d + 1 <= x < s.received[b] + 1
        ensures !s.submitted[x]
      {
        assert s.received[m + (x - s.received[m])] == x;
      }
      assert Pacing.Lagging(s, d, s.received[b]);
      Pacing.RecoversAfterDrop(states, steps, i, d, s.received[b]);
      assert s.received[a] < d && JustBehindDrop(s, d, s.received[b]);
    }
  }

  /** Frames sent behind `a` that are no keyframes, and follow it in the channel, were not forced. */
  lemma DeltasUnforced(s: Pacing.Sink, base: nat, events: seq<Event>, a: nat, k: nat)
    requires Feeds(s, base, Taken(events)) && a <= k < |SentFrames(events, false)| == |Positions(events, false, 0)|
    requires forall j :: a <= j <= k ==> Positions(events, false, 0)[j] == Positions(events, false, 0)[a] + (j - a)
    requires forall j :: a < j <= k ==> !SentFrames(events, false)[j].keyframe
    ensures base + Positions(events, false, 0)[a] <= base + Positions(events, false, 0)[k] < |s.received|
    ensures var (first, last) := (base + Positions(events, false, 0)[a], base + Positions(events, false, 0)[k]);
            forall q :: first < q <= last && s.received[q] < |s.submitted| ==> !s.submitted[s.received[q]]
  {
    var positions := Positions(events, false, 0);
    SentChain(events, k);
    forall q | base + positions[a] < q <= base + positions[k] && s.received[q] < |s.submitted|
      ensures !s.submitted[s.received[q]]
    {
      var j := a + (q - base - positions[a]);
      SentChain(events, j);
      assert positions[j] == q - base;
    }
  }

  /**
   End to end, without a refused forced frame and without a failed callback: every frame that reaches the
   decoder chains back, through frames that all reached it, to a keyframe that did; and these are
   neighbours in the encoder's own order, or the frame stands at most two behind one that the full channel
   dropped since that keyframe.
   */
  lemma FedFramesChainInEncoder(states: seq<Pacing.Sink>, steps: seq<Pacing.Step>, i: nat, base: nat,
                                events: seq<Event>, codec: VideoCodec, start: Client, turns: seq<Turn>, k: nat)
    returns (a: nat)
    requires Pacing.IsRun(states, steps) && Pacing.NoRequestLost(states, steps) && i < |states|
    requires Pacing.Failed !in states[i].fates && Feeds(states[i], base, Taken(events))
    requires Connected(events, codec, turns) && Starting(start)
    requires k < |Run(start, turns).client.fates| && Run(start, turns).client.fates[k]
    ensures a <= k < |SentFrames(events, false)| == |Positions(events, false, 0)|
    ensures SentFrames(events, false)[a].keyframe
    ensures forall j :: a <= j <= k ==> Run(start, turns).client.fates[j]
    ensures WholeOrNear(states[i], base + Positions(events, false, 0)[a], base + Positions(events, false, 0)[k])
  {
    a := EveryFedFrameChains(events, codec, start, turns, k);
    DeltasUnforced(states[i], base, events, a, k);
    GapIsRecentDrop(states, steps, i, base + Positions(events, false, 0)[a], base + Positions(events, false, 0)[k]);
  }
}
