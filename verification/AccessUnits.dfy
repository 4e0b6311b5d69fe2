/** Cutting an Annex-B stream into access units, one picture each. */
module AccessUnits {
  import opened Prelude
  import opened AnnexB

  /** A slice of a picture starts at the marker `m`. */
  predicate Vcl(s: Bytes, m: int) {
    IsMarker(s, m) && m + 3 < |s| && (s[m + 3] % 32 == IDR_SLICE || s[m + 3] % 32 == NON_IDR_SLICE)
  }

  /** A NAL unit that may begin an access unit starts at the marker `m`. */
  predicate Opens(s: Bytes, m: int) {
    || Vcl(s, m)
    || (IsMarker(s, m) && m + 3 < |s| && s[m + 3] % 32 in {SEI, SPS, PPS, AUD})
  }

  /** By Table 7-1: slices are of types 1 and 5, and SEI, parameter sets and delimiters, 6 to 9, may come first. */
  lemma OpeningTypes(s: Bytes, m: int)
    ensures Vcl(s, m) <==> IsMarker(s, m) && m + 3 < |s| && s[m + 3] % 32 in {1, 5}
    ensures Opens(s, m) <==> IsMarker(s, m) && m + 3 < |s| && s[m + 3] % 32 in {1, 5, 6, 7, 8, 9}
  {
  }

  /** The slice at `v` is the last opening NAL unit before `x`. */
  ghost predicate LastBefore(s: Bytes, v: int, x: int) {
    0 <= v < x && Vcl(s, v) && forall k :: v < k < x ==> !Opens(s, k)
  }

  /** The last opening NAL unit before `x` is a slice. */
  ghost predicate SliceOpen(s: Bytes, x: int) {
    exists v :: LastBefore(s, v, x)
  }

  /** A new access unit begins at `c`: an opening NAL unit, and the one before it is a slice. */
  ghost predicate Cut(s: Bytes, c: int) {
    Opens(s, c) && SliceOpen(s, c)
  }

  ghost function CutsFrom(s: Bytes, i: nat): (cuts: seq<nat>)
    requires i <= |s|
    decreases |s| - i
  {
    if i == |s| then [] else (if Cut(s, i) then [i] else []) + CutsFrom(s, i + 1)
  }

  /** The stretches of `s` from `a` on, cut at `cuts`. */
  function Pieces(s: Bytes, a: nat, cuts: seq<nat>): seq<Bytes>
    requires a <= |s|
    decreases |cuts|
  {
    if cuts != [] && a <= cuts[0] <= |s| then [s[a..cuts[0]]] + Pieces(s, cuts[0], cuts[1..]) else [s[a..]]
  }

  /** The access units of a stream: from its first start code on, cut where a new picture begins. */
  ghost function AccessUnitsOf(s: Bytes): seq<Bytes> {
    match FirstMarker(s)
    case None => []
    case Some(first) => Pieces(s, first, CutsFrom(s, first))
  }

  // ---------------------------------------------------------------------------
  // The loops
  // ---------------------------------------------------------------------------

  ghost predicate AllMarkersBelow(s: Bytes, offsets: seq<nat>, i: int) {
    && (forall k :: 0 <= k < |offsets| ==> IsMarker(s, offsets[k]) && offsets[k] < i)
    && (forall j, k :: 0 <= j < k < |offsets| ==> offsets[j] < offsets[k])
    && (forall m :: 0 <= m < i && IsMarker(s, m) ==> m in offsets)
  }

  method StartCodeOffsets(stream: Bytes) returns (offsets: seq<nat>)
    ensures AllMarkersBelow(stream, offsets, |stream|)
  {
    offsets := [];
    var i := 0;
    while i + 3 <= |stream|
      invariant 0 <= i <= |stream|
      invariant AllMarkersBelow(stream, offsets, i)
    {
      if stream[i] == 0 && stream[i + 1] == 0 && stream[i + 2] == 1 {
        assert IsMarker(stream, i);
        assert !IsMarker(stream, i + 1) && !IsMarker(stream, i + 2);
        offsets := offsets + [i];
        i := i + 3;
      } else {
        assert !IsMarker(stream, i);
        i := i + 1;
      }
    }
    assert forall m :: i <= m ==> !IsMarker(stream, m);
  }

  /** A NAL slice without its leading start code. */
  function StripStartCode(nal: Bytes): Bytes {
    if START_CODE <= nal then nal[4..]
    else if START_CODE_3 <= nal then nal[3..]
    else nal
  }

  /** The type read off a slice between two markers is the one Vcl and Opens speak of. */
  lemma TypeOfSlice(s: Bytes, off: nat, end: nat)
    requires IsMarker(s, off) && off + 3 <= end <= |s|
    requires end < |s| ==> IsMarker(s, end)
    ensures var ty := NalUnitType(StripStartCode(s[off..end]));
            && (Vcl(s, off) <==> ty == Some(IDR_SLICE) || ty == Some(NON_IDR_SLICE))
            && (Opens(s, off) <==>
                  Vcl(s, off) || ty == Some(SPS) || ty == Some(PPS) || ty == Some(SEI) || ty == Some(AUD))
  {
    var nal := s[off..end];
    assert nal[0] == 0 && nal[1] == 0 && nal[2] == 1;
    assert START_CODE[2] == 0;
    assert START_CODE_3 <= nal;
    assert nal[3..] == s[off + 3..end];
  }

  lemma {:induction false} NoCutsBetween(s: Bytes, a: nat, b: nat)
    requires a <= b <= |s|
    requires forall k :: a <= k < b ==> !IsMarker(s, k)
    ensures CutsFrom(s, a) == CutsFrom(s, b)
    ensures SliceOpen(s, a) == SliceOpen(s, b)
    decreases b - a
  {
    if a < b {
      assert !IsMarker(s, a);
      NoCutsBetween(s, a + 1, b);
      StepSliceOpen(s, a);
    }
  }

  lemma StepSliceOpen(s: Bytes, i: nat)
    ensures SliceOpen(s, i + 1) <==> Vcl(s, i) || (SliceOpen(s, i) && !Opens(s, i))
  {
    if Vcl(s, i) {
      assert LastBefore(s, i, i + 1);
    } else if SliceOpen(s, i + 1) {
      var v :| LastBefore(s, v, i + 1);
      assert LastBefore(s, v, i);
    } else if SliceOpen(s, i) && !Opens(s, i) {
      var v :| LastBefore(s, v, i);
      assert LastBefore(s, v, i + 1);
    }
  }

  function At(offsets: seq<nat>, i: nat, end: nat): nat {
    if i < |offsets| then offsets[i] else end
  }

  lemma GapHasNoMarker(s: Bytes, offsets: seq<nat>, i: nat)
    requires AllMarkersBelow(s, offsets, |s|) && i < |offsets|
    ensures offsets[i] + 3 <= At(offsets, i + 1, |s|) <= |s|
    ensures forall k :: offsets[i] < k < At(offsets, i + 1, |s|) ==> !IsMarker(s, k)
  {
    forall k | offsets[i] < k < At(offsets, i + 1, |s|)
      ensures !IsMarker(s, k)
    {
      assert IsMarker(s, k) ==> k in offsets;
    }
    if i + 1 < |offsets| {
      assert IsMarker(s, offsets[i]) && IsMarker(s, offsets[i + 1]) && offsets[i] < offsets[i + 1];
    }
  }

  lemma FirstOffset(s: Bytes, offsets: seq<nat>)
    requires AllMarkersBelow(s, offsets, |s|)
    ensures FirstMarker(s) == if offsets == [] then None else Some(offsets[0])
    ensures offsets != [] ==> !SliceOpen(s, offsets[0])
  {
    FirstMarkerMeaning(s);
    if offsets != [] {
      forall k | 0 <= k < offsets[0]
        ensures !IsMarker(s, k)
      {
        assert IsMarker(s, k) ==> k in offsets;
      }
      FirstMarkerIs(s, offsets[0]);
    } else {
      assert forall m :: 0 <= m < |s| && IsMarker(s, m) ==> m in offsets;
    }
  }

  lemma PiecesFromCut(s: Bytes, a: nat, c: nat, rest: seq<nat>)
    requires a <= c <= |s|
    ensures Pieces(s, a, [c] + rest) == [s[a..c]] + Pieces(s, c, rest)
  {
    assert ([c] + rest)[1..] == rest;
  }

  /** What remains to be cut once the opening NAL units before `x` were dealt with. */
  lemma CutHere(s: Bytes, a: nat, x: nat, next: nat)
    requires a <= x < next <= |s|
    requires forall k :: x < k < next ==> !IsMarker(s, k)
    ensures Pieces(s, a, CutsFrom(s, x)) ==
            if Cut(s, x) then [s[a..x]] + Pieces(s, x, CutsFrom(s, next)) else Pieces(s, a, CutsFrom(s, next))
  {
    NoCutsBetween(s, x + 1, next);
    PiecesFromCut(s, a, x, CutsFrom(s, next));
    assert CutsFrom(s, x) == (if Cut(s, x) then [x] else []) + CutsFrom(s, next);
    assert [] + CutsFrom(s, next) == CutsFrom(s, next);
  }

  lemma SliceOpenHere(s: Bytes, x: nat, next: nat)
    requires x < next <= |s|
    requires forall k :: x < k < next ==> !IsMarker(s, k)
    ensures SliceOpen(s, next) <==> Vcl(s, x) || (SliceOpen(s, x) && !Opens(s, x))
  {
    NoCutsBetween(s, x + 1, next);
    StepSliceOpen(s, x);
  }

  method SplitAccessUnits(stream: Bytes) returns (units: seq<Bytes>)
    ensures units == AccessUnitsOf(stream)
  {
    var starts := StartCodeOffsets(stream);
    FirstOffset(stream, starts);
    if starts == [] {
      return [];
    }
    units := [];
    var auStart: nat := starts[0];
    var seenVcl := false;
    ghost var all := AccessUnitsOf(stream);
    for i := 0 to |starts|
      invariant auStart <= At(starts, i, |stream|) <= |stream|
      invariant all == units + Pieces(stream, auStart, CutsFrom(stream, At(starts, i, |stream|)))
      invariant seenVcl == SliceOpen(stream, At(starts, i, |stream|))
    {
      var off := starts[i];
      var nalEnd := if i + 1 < |starts| then starts[i + 1] else |stream|;
      GapHasNoMarker(stream, starts, i);
      var ty := NalUnitType(StripStartCode(stream[off..nalEnd]));
      TypeOfSlice(stream, off, nalEnd);
      CutHere(stream, auStart, off, nalEnd);
      SliceOpenHere(stream, off, nalEnd);
      var isVcl := ty == Some(IDR_SLICE) || ty == Some(NON_IDR_SLICE);
      var startsAu := isVcl || ty == Some(SPS) || ty == Some(PPS) || ty == Some(SEI) || ty == Some(AUD);
      if seenVcl && startsAu {
        Assoc(units, [stream[auStart..off]], Pieces(stream, off, CutsFrom(stream, nalEnd)));
        units := units + [stream[auStart..off]];
        auStart := off;
        seenVcl := false;
      }
      if isVcl {
        seenVcl := true;
      }
    }
    units := units + [stream[auStart..]];
  }

  // ---------------------------------------------------------------------------
  // What the cutting promises
  // ---------------------------------------------------------------------------

  lemma {:induction false} CutsInRange(s: Bytes, i: nat)
    requires i <= |s|
    ensures forall k :: 0 <= k < |CutsFrom(s, i)| ==> i <= CutsFrom(s, i)[k] < |s| && Cut(s, CutsFrom(s, i)[k])
    decreases |s| - i
  {
    if i < |s| {
      CutsInRange(s, i + 1);
    }
  }

  lemma CutsStep(s: Bytes, i: nat)
    requires i < |s|
    ensures Cut(s, i) ==> CutsFrom(s, i)[0] == i && CutsFrom(s, i)[1..] == CutsFrom(s, i + 1)
    ensures !Cut(s, i) ==> CutsFrom(s, i) == CutsFrom(s, i + 1)
  {
  }

  /** The first cut at or past `i`, and the cuts past it. */
  lemma {:induction false} FirstCut(s: Bytes, i: nat)
    requires i <= |s| && CutsFrom(s, i) != []
    ensures var c := CutsFrom(s, i)[0];
            i <= c < |s| && Cut(s, c) && CutsFrom(s, i)[1..] == CutsFrom(s, c + 1)
    decreases |s| - i
  {
    CutsStep(s, i);
    if !Cut(s, i) {
      FirstCut(s, i + 1);
    }
  }

  lemma {:induction false} NoCutBeforeFirst(s: Bytes, i: nat, k: nat)
    requires i <= |s| && CutsFrom(s, i) != [] && i <= k < CutsFrom(s, i)[0]
    ensures !Cut(s, k)
    decreases |s| - i
  {
    CutsStep(s, i);
    if i < k {
      NoCutBeforeFirst(s, i + 1, k);
    }
  }

  lemma {:induction false} NoMoreCuts(s: Bytes, i: nat)
    requires i <= |s| && CutsFrom(s, i) == []
    ensures forall k :: i <= k < |s| ==> !Cut(s, k)
    decreases |s| - i
  {
    if i < |s| {
      NoMoreCuts(s, i + 1);
    }
  }

  lemma {:induction false} PiecesConcatenate(s: Bytes, a: nat, i: nat)
    requires a <= i <= |s|
    ensures Flatten(Pieces(s, a, CutsFrom(s, i))) == s[a..]
    decreases |s| - i
  {
    var cuts := CutsFrom(s, i);
    if cuts == [] {
      assert Flatten([s[a..]]) == s[a..] + Flatten([]);
    } else {
      FirstCut(s, i);
      var c := cuts[0];
      PiecesConcatenate(s, c, c + 1);
      var rest := Pieces(s, c, cuts[1..]);
      assert ([s[a..c]] + rest)[1..] == rest;
      assert s[a..c] + s[c..] == s[a..];
    }
  }

  /** The access units concatenate back to the stream from its first start code. */
  lemma UnitsConcatenate(s: Bytes)
    ensures Flatten(AccessUnitsOf(s)) == if FirstMarker(s).Some? then s[FirstMarker(s).value..] else []
  {
    if FirstMarker(s).Some? {
      PiecesConcatenate(s, FirstMarker(s).value, FirstMarker(s).value);
    }
  }

  /** How many slices start at positions `a..b` of `s`. */
  function SliceCount(s: Bytes, a: nat, b: nat): nat
    requires a <= b
    decreases b - a
  {
    if a == b then 0 else (if Vcl(s, a) then 1 else 0) + SliceCount(s, a + 1, b)
  }

  lemma {:induction false} CountNone(s: Bytes, a: nat, b: nat)
    requires a <= b && forall k :: a <= k < b ==> !Vcl(s, k)
    ensures SliceCount(s, a, b) == 0
    decreases b - a
  {
    if a < b {
      CountNone(s, a + 1, b);
    }
  }

  lemma {:induction false} CountOne(s: Bytes, a: nat, v: nat, b: nat)
    requires a <= v < b && Vcl(s, v) && forall k :: a <= k < b && Vcl(s, k) ==> k == v
    ensures SliceCount(s, a, b) == 1
    decreases b - a
  {
    if a == v {
      CountNone(s, a + 1, b);
    } else {
      CountOne(s, a + 1, v, b);
    }
  }

  /** No access unit begins between two slices only if they are one and the same. */
  lemma SlicesApart(s: Bytes, v: nat, w: nat)
    requires v < w && Vcl(s, v) && Vcl(s, w)
    ensures exists c :: v < c <= w && Cut(s, c)
  {
    CutAfterSlice(s, v, w);
  }

  lemma {:induction false} CutAfterSlice(s: Bytes, v: nat, w: nat)
    requires v < w && Vcl(s, v) && Opens(s, w)
    ensures exists c :: v < c <= w && Cut(s, c)
    decreases w
  {
    if c :| v < c < w && Opens(s, c) {
      CutAfterSlice(s, v, c);
    } else {
      assert LastBefore(s, v, w);
      assert Cut(s, w);
    }
  }

  /** From one opening NAL unit to the next cut there is exactly one slice. */
  lemma OneSlicePerUnit(s: Bytes, a: nat, c: nat)
    requires a < c && Cut(s, c)
    requires forall k :: a < k < c ==> !Cut(s, k)
    requires Opens(s, a) || forall k :: 0 <= k < a ==> !IsMarker(s, k)
    ensures SliceCount(s, a, c) == 1
  {
    var v :| LastBefore(s, v, c);
    assert a <= v;
    forall k | a <= k < c && Vcl(s, k)
      ensures k == v
    {
      assert Opens(s, k);
      if k < v {
        SlicesApart(s, k, v);
      }
    }
    CountOne(s, a, v, c);
  }

  lemma AtMostOneSlice(s: Bytes, a: nat)
    requires a <= |s| && forall k :: a < k < |s| ==> !Cut(s, k)
    ensures SliceCount(s, a, |s|) <= 1
  {
    if v :| a <= v < |s| && Vcl(s, v) {
      forall k | a <= k < |s| && Vcl(s, k)
        ensures k == v
      {
        if k < v {
          SlicesApart(s, k, v);
        } else if v < k {
          SlicesApart(s, v, k);
        }
      }
      CountOne(s, a, v, |s|);
    } else {
      CountNone(s, a, |s|);
    }
  }

  /** Counting inside a piece is counting in the stream. */
  lemma {:induction false} CountInPiece(s: Bytes, a: nat, i: nat, c: nat)
    requires a <= i <= c <= |s| && (c == |s| || IsMarker(s, c))
    ensures SliceCount(s, i, c) == SliceCount(s[a..c], i - a, c - a)
    decreases c - i
  {
    if i < c {
      CountInPiece(s, a, i + 1, c);
      var u := s[a..c];
      assert Vcl(s, i) ==> i + 3 < c;
      assert forall k :: 0 <= k < c - a ==> u[k] == s[a + k];
      assert Vcl(u, i - a) <==> Vcl(s, i);
    }
  }

  ghost predicate SlicesPerUnit(units: seq<Bytes>) {
    && (forall k :: 0 <= k < |units| - 1 ==> SliceCount(units[k], 0, |units[k]|) == 1)
    && (units != [] ==> SliceCount(units[|units| - 1], 0, |units[|units| - 1]|) <= 1)
  }

  lemma FirstPieceUncut(s: Bytes, a: nat, i: nat)
    requires a <= i <= |s| && CutsFrom(s, i) != []
    requires forall k :: a < k < i ==> !Cut(s, k)
    ensures forall k :: a < k < CutsFrom(s, i)[0] ==> !Cut(s, k)
  {
    forall k | i <= k < CutsFrom(s, i)[0]
      ensures !Cut(s, k)
    {
      NoCutBeforeFirst(s, i, k);
    }
  }

  lemma SlicesInFront(unit: Bytes, rest: seq<Bytes>)
    requires SliceCount(unit, 0, |unit|) == 1 && SlicesPerUnit(rest)
    ensures SlicesPerUnit([unit] + rest)
  {
  }

  lemma LastPieceHoldsOne(s: Bytes, a: nat)
    requires a <= |s| && forall k :: a < k < |s| ==> !Cut(s, k)
    ensures SlicesPerUnit([s[a..]])
  {
    AtMostOneSlice(s, a);
    CountInPiece(s, a, a, |s|);
    assert s[a..|s|] == s[a..];
  }

  /** The piece up to the first cut. */
  lemma FirstPieceHoldsOne(s: Bytes, a: nat, i: nat)
    requires a <= i <= |s| && CutsFrom(s, i) != [] && forall k :: a < k < i ==> !Cut(s, k)
    requires Opens(s, a) || forall k :: 0 <= k < a ==> !IsMarker(s, k)
    requires a < i || !Cut(s, a)
    ensures var c := CutsFrom(s, i)[0];
            a < c <= |s| && Cut(s, c)
            && SliceCount(s[a..c], 0, c - a) == 1
            && Pieces(s, a, CutsFrom(s, i)) == [s[a..c]] + Pieces(s, c, CutsFrom(s, i)[1..])
  {
    var c := CutsFrom(s, i)[0];
    FirstCut(s, i);
    FirstPieceUncut(s, a, i);
    OneSlicePerUnit(s, a, c);
    CountInPiece(s, a, a, c);
  }

  lemma {:induction false} PiecesHoldOneSlice(s: Bytes, a: nat, i: nat)
    requires a <= i <= |s| && forall k :: a < k < i ==> !Cut(s, k)
    requires Opens(s, a) || forall k :: 0 <= k < a ==> !IsMarker(s, k)
    requires a < i || !Cut(s, a)
    ensures SlicesPerUnit(Pieces(s, a, CutsFrom(s, i)))
    decreases |s| - i
  {
    var cuts := CutsFrom(s, i);
    if cuts == [] {
      NoMoreCuts(s, i);
      LastPieceHoldsOne(s, a);
    } else {
      FirstCut(s, i);
      FirstPieceHoldsOne(s, a, i);
      PiecesHoldOneSlice(s, cuts[0], cuts[0] + 1);
      SlicesInFront(s[a..cuts[0]], Pieces(s, cuts[0], cuts[1..]));
    }
  }

  /** Every access unit but the last holds exactly one slice, and the last at most one. */
  lemma OneSliceEach(s: Bytes)
    ensures SlicesPerUnit(AccessUnitsOf(s))
  {
    FirstMarkerMeaning(s);
    if FirstMarker(s).Some? {
      var first := FirstMarker(s).value;
      PiecesHoldOneSlice(s, first, first);
    }
  }

  // ---------------------------------------------------------------------------
  // Where the leading NAL units go
  // ---------------------------------------------------------------------------

  /** Where the `k`-th unit starts in their concatenation. */
  function Offset(units: seq<Bytes>, k: nat): nat
    requires k <= |units|
  {
    if k == 0 then 0 else |units[0]| + Offset(units[1..], k - 1)
  }

  lemma OffsetBehind(u: Bytes, rest: seq<Bytes>, k: nat)
    requires k <= |rest|
    ensures Offset([u] + rest, k + 1) == |u| + Offset(rest, k)
  {
    assert ([u] + rest)[1..] == rest;
  }

  /** Between two neighbouring slices there is one cut: the first opening NAL unit behind the earlier one. */
  lemma OneCutBetween(s: Bytes, v: nat, w: nat) returns (a: nat)
    requires v < w && Vcl(s, v) && Vcl(s, w) && forall k :: v < k < w ==> !Vcl(s, k)
    ensures v < a <= w && Cut(s, a)
    ensures forall k :: v < k < a ==> !Opens(s, k)
    ensures forall k :: a < k <= w ==> !Cut(s, k)
  {
    CutAfterSlice(s, v, w);
    a :| v < a <= w && Cut(s, a);
    var u :| LastBefore(s, u, a);
    assert Opens(s, v) && u == v;
    forall k | a < k <= w
      ensures !Cut(s, k)
    {
      assert Opens(s, a);
    }
  }

  ghost predicate Increasing(cuts: seq<nat>, a: nat, end: nat) {
    && (forall k :: 0 <= k < |cuts| ==> a <= cuts[k] <= end)
    && forall j, k :: 0 <= j < k < |cuts| ==> cuts[j] < cuts[k]
  }

  /** The `k`-th piece starts at the cut before it and ends at its own, the first and last at the ends. */
  lemma {:induction false} PieceAt(s: Bytes, a: nat, cuts: seq<nat>, k: nat)
    requires a <= |s| && Increasing(cuts, a, |s|) && k <= |cuts|
    ensures |Pieces(s, a, cuts)| == |cuts| + 1
    ensures a + Offset(Pieces(s, a, cuts), k) == if k == 0 then a else cuts[k - 1]
    ensures Pieces(s, a, cuts)[k] == s[if k == 0 then a else cuts[k - 1]..At(cuts, k, |s|)]
    decreases |cuts|
  {
    if cuts != [] {
      var c, rest := cuts[0], cuts[1..];
      PiecesFromCut(s, a, c, rest);
      assert [c] + rest == cuts;
      PieceAt(s, c, rest, if k == 0 then 0 else k - 1);
      if k > 0 {
        OffsetBehind(s[a..c], Pieces(s, c, rest), k - 1);
      }
    }
  }

  lemma IncreasingInFront(i: nat, cuts: seq<nat>, all: seq<nat>, end: nat)
    requires i < end && Increasing(cuts, i + 1, end)
    requires all == cuts || (all != [] && all[0] == i && all[1..] == cuts)
    ensures Increasing(all, i, end)
  {
  }

  lemma {:induction false} CutsIncrease(s: Bytes, i: nat)
    requires i <= |s|
    ensures Increasing(CutsFrom(s, i), i, |s|)
    decreases |s| - i
  {
    if i < |s| {
      CutsIncrease(s, i + 1);
      CutsStep(s, i);
      IncreasingInFront(i, CutsFrom(s, i + 1), CutsFrom(s, i), |s|);
    }
  }

  lemma StillListed(all: seq<nat>, rest: seq<nat>, x: nat)
    requires x in rest && (all == rest || (all != [] && all[1..] == rest))
    ensures x in all
  {
  }

  lemma ListedBefore(s: Bytes, i: nat, x: nat)
    requires i < |s| && x in CutsFrom(s, i + 1)
    ensures x in CutsFrom(s, i)
  {
    CutsStep(s, i);
    StillListed(CutsFrom(s, i), CutsFrom(s, i + 1), x);
  }

  lemma ListedFirst(s: Bytes, x: nat)
    requires x < |s| && Cut(s, x)
    ensures x in CutsFrom(s, x)
  {
    CutsStep(s, x);
  }

  lemma {:induction false} CutIsListed(s: Bytes, i: nat, x: nat)
    requires i <= x < |s| && Cut(s, x)
    ensures x in CutsFrom(s, i)
    decreases x - i
  {
    if i == x {
      ListedFirst(s, x);
    } else {
      CutIsListed(s, i + 1, x);
      ListedBefore(s, i, x);
    }
  }

  /** The next cut, if there is one, lies behind the header of the slice `w`. */
  lemma NextCutBehind(s: Bytes, i: nat, n: nat, w: nat)
    requires i <= |s| && n < |CutsFrom(s, i)| && CutsFrom(s, i)[n] <= w && Vcl(s, w)
    requires forall k :: CutsFrom(s, i)[n] < k <= w ==> !Cut(s, k)
    ensures w + 3 < At(CutsFrom(s, i), n + 1, |s|)
  {
    var cuts := CutsFrom(s, i);
    CutsInRange(s, i);
    CutsIncrease(s, i);
    if n + 1 < |cuts| {
      assert cuts[n] < cuts[n + 1] && Cut(s, cuts[n + 1]);
      assert IsMarker(s, cuts[n + 1]) && IsMarker(s, w);
    }
  }

  lemma PieceBehindCut(s: Bytes, first: nat, n: nat, w: nat)
    requires first <= |s| && n < |CutsFrom(s, first)| && CutsFrom(s, first)[n] <= w && Vcl(s, w)
    requires forall c :: CutsFrom(s, first)[n] < c <= w ==> !Cut(s, c)
    ensures var (cuts, units) := (CutsFrom(s, first), Pieces(s, first, CutsFrom(s, first)));
            n + 1 < |units| && first + Offset(units, n + 1) == cuts[n] && w + 3 < cuts[n] + |units[n + 1]|
  {
    CutsIncrease(s, first);
    PieceAt(s, first, CutsFrom(s, first), n + 1);
    NextCutBehind(s, first, n, w);
  }

  lemma PlaceOfCut(s: Bytes, first: nat, a: nat) returns (n: nat)
    requires first <= a < |s| && Cut(s, a)
    ensures n < |CutsFrom(s, first)| && CutsFrom(s, first)[n] == a
  {
    CutIsListed(s, first, a);
    n :| 0 <= n < |CutsFrom(s, first)| && CutsFrom(s, first)[n] == a;
  }

  /** The piece that starts at the cut `a` covers the slice `w`, if no other cut comes up to there. */
  lemma PieceCovers(s: Bytes, first: nat, a: nat, w: nat) returns (k: nat)
    requires first <= a <= w && Cut(s, a) && Vcl(s, w) && forall n :: a < n <= w ==> !Cut(s, n)
    ensures var units := Pieces(s, first, CutsFrom(s, first));
            k < |units| && first + Offset(units, k) == a && w + 3 < a + |units[k]|
  {
    var n := PlaceOfCut(s, first, a);
    PieceBehindCut(s, first, n, w);
    k := n + 1;
  }

  /** The `k`-th access unit begins at the first opening NAL unit behind the slice `v`, and holds the slice `w`. */
  ghost predicate HoldsLeaders(s: Bytes, k: nat, v: nat, w: nat) {
    var units := AccessUnitsOf(s);
    && FirstMarker(s).Some? && k < |units|
    && var a := FirstMarker(s).value + Offset(units, k);
       && v < a <= w && Opens(s, a) && w + 3 < a + |units[k]|
       && forall c :: v < c < a ==> !Opens(s, c)
  }

  lemma FirstMarkerBefore(s: Bytes, m: nat)
    requires IsMarker(s, m)
    ensures FirstMarker(s).Some? && FirstMarker(s).value <= m
  {
    FirstMarkerMeaning(s);
  }

  lemma HeldFrom(s: Bytes, k: nat, v: nat, a: nat, w: nat)
    requires FirstMarker(s).Some? && v < a <= w && Opens(s, a) && forall c :: v < c < a ==> !Opens(s, c)
    requires var units := AccessUnitsOf(s);
             k < |units| && FirstMarker(s).value + Offset(units, k) == a && w + 3 < a + |units[k]|
    ensures HoldsLeaders(s, k, v, w)
  {
  }

  lemma LeadersHeld(s: Bytes, v: nat, a: nat, w: nat) returns (k: nat)
    requires v < a <= w && Cut(s, a) && Vcl(s, w)
    requires forall c :: v < c < a ==> !Opens(s, c)
    requires forall c :: a < c <= w ==> !Cut(s, c)
    ensures HoldsLeaders(s, k, v, w)
  {
    FirstMarkerBefore(s, a);
    k := PieceCovers(s, FirstMarker(s).value, a, w);
    HeldFrom(s, k, v, a, w);
  }

  /**
   Between two neighbouring slices every parameter set, SEI and delimiter goes to the access unit of the
   later slice.
   */
  lemma LeadersJoinNextSlice(s: Bytes, v: nat, w: nat)
    requires v < w && Vcl(s, v) && Vcl(s, w) && forall k :: v < k < w ==> !Vcl(s, k)
    ensures exists k :: HoldsLeaders(s, k, v, w)
  {
    var a := OneCutBetween(s, v, w);
    var k := LeadersHeld(s, v, a, w);
  }
}
