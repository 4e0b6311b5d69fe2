/**
 The one sum of the parameter set parser that is not checked against 32 bits: walking a scaling list. A
 debug build panics where it overflows, a release build wraps.
 */
module SpsOverflow {
  import opened Prelude
  import opened AnnexB
  import opened Bits
  import opened EmulationPrevention
  import opened Sps
  import opened SpsParser
  import opened SpsSoundness

  // ---------------------------------------------------------------------------
  // Where a walk panics
  // ---------------------------------------------------------------------------

  /** Walking the `count` remaining entries of a list meets a delta whose sum overflows. */
  predicate ListPanics(bits: seq<bit>, count: nat, last: int, next: int)
    decreases count
  {
    count > 0 &&
    if next == 0 then ListPanics(bits, count - 1, last, next)
    else
      ReadSe(bits).Some? &&
      var (delta, left) := ReadSe(bits).value;
      var n := NextScale(last, delta);
      Overflows(last, delta) || ListPanics(left, count - 1, Carry(last, n), n)
  }

  predicate ListsPanic(bits: seq<bit>, i: nat, lists: nat)
    requires i <= lists
    decreases lists - i
  {
    i < lists && ReadU(bits, 1).Some? &&
    var (present, b1) := ReadU(bits, 1).value;
    if present == 1 then
      var left := SkipList(b1, ListSize(i), 8, 8);
      ListPanics(b1, ListSize(i), 8, 8) || (left.Some? && ListsPanic(left.value, i + 1, lists))
    else ListsPanic(b1, i + 1, lists)
  }

  /** The bits of the scaling lists and how many lists there are, where the parameter set holds a matrix. */
  function Matrix(bits: seq<bit>): Option<(seq<bit>, nat)> {
    var (profile, b1) :- ReadU(bits, 8);
    var b2 :- SkipU(b1, 8);
    var b3 :- SkipU(b2, 8);
    var b4 :- SkipUe(b3);
    if profile in HIGH_PROFILES then HighMatrix(b4) else None
  }

  function HighMatrix(bits: seq<bit>): Option<(seq<bit>, nat)> {
    var (chroma, b1) :- ReadUe(bits);
    var b2 :- if chroma == 3 then SkipU(b1, 1) else Some(b1);
    var b3 :- SkipUe(b2);
    var b4 :- SkipUe(b3);
    var b5 :- SkipU(b4, 1);
    var (present, b6) :- ReadU(b5, 1);
    if present == 1 then Some((b6, ListCount(chroma))) else None
  }

  predicate MatrixPanics(bits: seq<bit>) {
    var matrix := Matrix(bits);
    matrix.Some? && ListsPanic(matrix.value.0, 0, matrix.value.1)
  }

  predicate Panics(sps: Bytes) {
    NalUnitType(sps) == Some(SPS) && MatrixPanics(BitsOf(Unescape(sps[1..], 0)))
  }

  // ---------------------------------------------------------------------------
  // The same of the fields
  // ---------------------------------------------------------------------------

  predicate DeltasOverflow(deltas: seq<int>, count: nat, last: int, next: int)
    decreases count
  {
    count > 0 &&
    if next == 0 then DeltasOverflow(deltas, count - 1, last, next)
    else
      deltas != [] &&
      var n := NextScale(last, deltas[0]);
      Overflows(last, deltas[0]) || DeltasOverflow(deltas[1..], count - 1, Carry(last, n), n)
  }

  predicate ListsOverflow(lists: seq<Option<seq<int>>>, i: nat) {
    lists != [] && (
      || (lists[0].Some? && DeltasOverflow(lists[0].value, ListSize(i), 8, 8))
      || ListsOverflow(lists[1..], i + 1))
  }

  predicate FieldsOverflow(s: SpsFields) {
    s.high.Some? && s.high.value.matrix.Some? && ListsOverflow(s.high.value.matrix.value, 0)
  }

  lemma {:induction false} ListPanicsIff(deltas: seq<int>, count: nat, last: int, next: int, rest: seq<bit>)
    requires DeltasDrive(deltas, count, last, next)
    ensures ListPanics(PutDeltas(deltas, rest), count, last, next) <==> DeltasOverflow(deltas, count, last, next)
    decreases count
  {
    if count > 0 {
      if next == 0 {
        ListPanicsIff(deltas, count - 1, last, next, rest);
      } else {
        var n := NextScale(last, deltas[0]);
        ReadFirstDelta(deltas, rest);
        ListPanicsIff(deltas[1..], count - 1, Carry(last, n), n, rest);
      }
    }
  }

  lemma OneListPanics(list: Option<seq<int>>, more: seq<bit>, i: nat, lists: nat)
    requires i < lists && (list.Some? ==> DeltasDrive(list.value, ListSize(i), 8, 8))
    ensures ListsPanic(PutList(list, more), i, lists) <==>
            (list.Some? && DeltasOverflow(list.value, ListSize(i), 8, 8)) || ListsPanic(more, i + 1, lists)
  {
    match list
    case None =>
      BitRoundTrip(0, more);
    case Some(deltas) =>
      BitRoundTrip(1, PutDeltas(deltas, more));
      ListRoundTrip(deltas, ListSize(i), 8, 8, more);
      ListPanicsIff(deltas, ListSize(i), 8, 8, more);
  }

  lemma {:induction false} ListsPanicIff(lists: seq<Option<seq<int>>>, i: nat, end: nat, rest: seq<bit>)
    requires ListsDrive(lists, i) && end == i + |lists|
    ensures ListsPanic(PutLists(lists, rest), i, end) <==> ListsOverflow(lists, i)
    decreases |lists|
  {
    if lists != [] {
      var more := PutLists(lists[1..], rest);
      ListsPanicIff(lists[1..], i + 1, end, rest);
      OneListPanics(lists[0], more, i, end);
      assert PutLists(lists, rest) == PutList(lists[0], more);
    }
  }

  lemma HighMatrixOf(h: High, rest: seq<bit>)
    requires HighPrints(h)
    ensures HighMatrix(PutHigh(h, rest)) ==
            if h.matrix.Some? then Some((PutLists(h.matrix.value, rest), ListCount(h.chroma))) else None
  {
    var m := PutMatrix(h.matrix, rest);
    var d := PutDepths(h, rest);
    UeRoundTrip(h.chroma, (if h.chroma == 3 then [h.separatePlanes] else []) + d);
    if h.chroma == 3 {
      BitRoundTrip(h.separatePlanes, d);
    } else {
      assert [] + d == d;
    }
    SkipUeCode(h.lumaDepth, UeCode(h.chromaDepth) + ([h.bypass] + m));
    SkipUeCode(h.chromaDepth, [h.bypass] + m);
    BitRoundTrip(h.bypass, m);
    BitRoundTrip(if h.matrix.Some? then 1 else 0, if h.matrix.Some? then PutLists(h.matrix.value, rest) else rest);
  }

  lemma MatrixOf(s: SpsFields, rest: seq<bit>)
    requires Printable(s)
    ensures Matrix(PutFields(s, rest)) ==
            if s.high.None? then None else HighMatrix(PutHigh(s.high.value, PutBody(s, rest)))
  {
    var body := PutBody(s, rest);
    var high := if s.high.Some? then PutHigh(s.high.value, body) else body;
    var b3 := UeCode(s.id) + high;
    var b2 := Binary(s.level, 8) + b3;
    SkipByte(s.profile, Binary(s.constraints, 8) + b2);
    SkipByte(s.constraints, b2);
    SkipByte(s.level, b3);
    SkipUeCode(s.id, high);
  }

  /** For a complete parameter set: a debug build panics exactly if a sum of its scaling lists overflows. */
  lemma PrintedPanicsIff(header: byte, s: SpsFields)
    requires header % 32 == SPS && Printable(s)
    ensures Panics(SpsNal(header, s)) <==> FieldsOverflow(s)
  {
    var rest := s.tail + Trailing(|PutFields(s, s.tail)|);
    PrintedBits(header, s);
    MatrixOf(s, rest);
    if s.high.Some? {
      HighMatrixOf(s.high.value, PutBody(s, rest));
      if s.high.value.matrix.Some? {
        ListsPanicIff(s.high.value.matrix.value, 0, ListCount(s.high.value.chroma), PutBody(s, rest));
      }
    }
  }

  // ---------------------------------------------------------------------------
  // Arbitrary bytes
  // ---------------------------------------------------------------------------

  /** The fields in front of the scaling lists. */
  datatype Head = Head(
    profile: byte, constraints: byte, level: byte, id: nat, chroma: nat, planes: bit, lumaDepth: nat,
    chromaDepth: nat, bypass: bit)

  predicate HeadFits(h: Head) {
    h.profile in HIGH_PROFILES && FitsUe(h.id) && FitsUe(h.chroma) && FitsUe(h.lumaDepth) && FitsUe(h.chromaDepth)
  }

  /** They and the flag that announces the matrix. */
  function PutHead(h: Head, rest: seq<bit>): seq<bit> {
    Binary(h.profile, 8) + (Binary(h.constraints, 8) + (Binary(h.level, 8) + (UeCode(h.id) + PutHighHead(h, rest))))
  }

  function PutHighHead(h: Head, rest: seq<bit>): seq<bit> {
    UeCode(h.chroma) + ((if h.chroma == 3 then [h.planes] else []) +
      (UeCode(h.lumaDepth) + (UeCode(h.chromaDepth) + ([h.bypass] + ([1] + rest)))))
  }

  lemma HighHeadRoundTrip(h: Head, rest: seq<bit>)
    requires HeadFits(h)
    ensures HighMatrix(PutHighHead(h, rest)) == Some((rest, ListCount(h.chroma)))
  {
    var m := [1] + rest;
    var d := UeCode(h.lumaDepth) + (UeCode(h.chromaDepth) + ([h.bypass] + m));
    UeRoundTrip(h.chroma, (if h.chroma == 3 then [h.planes] else []) + d);
    if h.chroma == 3 {
      BitRoundTrip(h.planes, d);
    } else {
      assert [] + d == d;
    }
    SkipUeCode(h.lumaDepth, UeCode(h.chromaDepth) + ([h.bypass] + m));
    SkipUeCode(h.chromaDepth, [h.bypass] + m);
    BitRoundTrip(h.bypass, m);
    BitRoundTrip(1, rest);
  }

  lemma HeadRoundTrip(h: Head, rest: seq<bit>)
    requires HeadFits(h)
    ensures Matrix(PutHead(h, rest)) == Some((rest, ListCount(h.chroma)))
  {
    var high := PutHighHead(h, rest);
    var b3 := UeCode(h.id) + high;
    var b2 := Binary(h.level, 8) + b3;
    SkipByte(h.profile, Binary(h.constraints, 8) + b2);
    SkipByte(h.constraints, b2);
    SkipByte(h.level, b3);
    SkipUeCode(h.id, high);
    HighHeadRoundTrip(h, rest);
  }

  lemma ReadsHighHead(bits: seq<bit>, profile: byte, constraints: byte, level: byte, id: nat) returns (h: Head)
    requires HighMatrix(bits).Some? && profile in HIGH_PROFILES && FitsUe(id)
    ensures HeadFits(h) && h.profile == profile && h.constraints == constraints && h.level == level && h.id == id
    ensures HighMatrix(bits).value.1 == ListCount(h.chroma) && bits == PutHighHead(h, HighMatrix(bits).value.0)
  {
    UeReadsOnlyCodes(bits);
    var (chroma, b1) := ReadUe(bits).value;
    var planes: bit, b2 := 0, b1;
    if chroma == 3 {
      ReadsBit(b1);
      planes, b2 := ReadU(b1, 1).value.0, ReadU(b1, 1).value.1;
    } else {
      assert [] + b1 == b1;
    }
    UeReadsOnlyCodes(b2);
    var (luma, b3) := ReadUe(b2).value;
    UeReadsOnlyCodes(b3);
    var (depth, b4) := ReadUe(b3).value;
    ReadsBit(b4);
    var (bypass, b5) := ReadU(b4, 1).value;
    ReadsBit(b5);
    h := Head(profile, constraints, level, id, chroma, planes, luma, depth, bypass);
  }

  lemma ReadsHead(bits: seq<bit>) returns (h: Head)
    requires Matrix(bits).Some?
    ensures HeadFits(h) && Matrix(bits).value.1 == ListCount(h.chroma) && bits == PutHead(h, Matrix(bits).value.0)
  {
    ReadsByte(bits);
    var (profile, b1) := ReadU(bits, 8).value;
    ReadsByte(b1);
    var (constraints, b2) := ReadU(b1, 8).value;
    ReadsByte(b2);
    var (level, b3) := ReadU(b2, 8).value;
    UeReadsOnlyCodes(b3);
    var (id, b4) := ReadUe(b3).value;
    h := ReadsHighHead(b4, profile, constraints, level, id);
  }

  /** The deltas drive the walk up to the last of them, whose sum overflows. */
  predicate Overruns(deltas: seq<int>, count: nat, last: int, next: int)
    decreases count
  {
    count > 0 &&
    if next == 0 then Overruns(deltas, count - 1, last, next)
    else
      deltas != [] && FitsSe(deltas[0]) &&
      if Overflows(last, deltas[0]) then |deltas| == 1
      else
        var n := NextScale(last, deltas[0]);
        Overruns(deltas[1..], count - 1, Carry(last, n), n)
  }

  lemma {:induction false} ReadsOverrun(bits: seq<bit>, count: nat, last: int, next: int)
    returns (deltas: seq<int>, rest: seq<bit>)
    requires ListPanics(bits, count, last, next)
    ensures Overruns(deltas, count, last, next) && bits == PutDeltas(deltas, rest)
    decreases count
  {
    if next == 0 {
      deltas, rest := ReadsOverrun(bits, count - 1, last, next);
    } else {
      ReadsSe(bits);
      var (delta, left) := ReadSe(bits).value;
      if Overflows(last, delta) {
        deltas, rest := [delta], left;
        assert deltas[1..] == [];
      } else {
        var n := NextScale(last, delta);
        var more;
        more, rest := ReadsOverrun(left, count - 1, Carry(last, n), n);
        deltas := [delta] + more;
        assert deltas[1..] == more;
      }
    }
  }

  lemma {:induction false} OverrunPanics(deltas: seq<int>, count: nat, last: int, next: int, rest: seq<bit>)
    requires Overruns(deltas, count, last, next)
    ensures ListPanics(PutDeltas(deltas, rest), count, last, next)
    decreases count
  {
    if next == 0 {
      OverrunPanics(deltas, count - 1, last, next, rest);
    } else {
      ReadFirstDelta(deltas, rest);
      if !Overflows(last, deltas[0]) {
        var n := NextScale(last, deltas[0]);
        OverrunPanics(deltas[1..], count - 1, Carry(last, n), n, rest);
      }
    }
  }

  lemma PresentListPanics(body: seq<bit>, i: nat, lists: nat)
    requires i < lists && ListPanics(body, ListSize(i), 8, 8)
    ensures ListsPanic([1] + body, i, lists)
  {
    BitRoundTrip(1, body);
  }

  /** Whole lists, and then one that overruns. */
  predicate ListsOverrun(before: seq<Option<seq<int>>>, deltas: seq<int>, i: nat, lists: nat) {
    i + |before| < lists && ListsDrive(before, i) && Overruns(deltas, ListSize(i + |before|), 8, 8)
  }

  function PutOverrun(before: seq<Option<seq<int>>>, deltas: seq<int>, rest: seq<bit>): seq<bit> {
    PutLists(before, [1] + PutDeltas(deltas, rest))
  }

  lemma {:induction false} OverrunListsPanic(before: seq<Option<seq<int>>>, deltas: seq<int>, rest: seq<bit>, i: nat,
                                             lists: nat)
    requires ListsOverrun(before, deltas, i, lists)
    ensures ListsPanic(PutOverrun(before, deltas, rest), i, lists)
    decreases |before|
  {
    if before == [] {
      OverrunPanics(deltas, ListSize(i), 8, 8, rest);
      PresentListPanics(PutDeltas(deltas, rest), i, lists);
    } else {
      OverrunBehind(before, deltas, i, lists);
      OverrunListsPanic(before[1..], deltas, rest, i + 1, lists);
      OneListPanics(before[0], PutOverrun(before[1..], deltas, rest), i, lists);
    }
  }

  lemma OverrunBehind(before: seq<Option<seq<int>>>, deltas: seq<int>, i: nat, lists: nat)
    requires before != []
    ensures ListsOverrun(before, deltas, i, lists) <==>
            && (before[0].Some? ==> DeltasDrive(before[0].value, ListSize(i), 8, 8))
            && ListsOverrun(before[1..], deltas, i + 1, lists)
  {
    assert i + |before| == i + 1 + |before[1..]|;
  }

  lemma {:induction false} ReadsListsOverrun(bits: seq<bit>, i: nat, lists: nat)
    returns (before: seq<Option<seq<int>>>, deltas: seq<int>, rest: seq<bit>)
    requires i <= lists && ListsPanic(bits, i, lists)
    ensures ListsOverrun(before, deltas, i, lists) && bits == PutOverrun(before, deltas, rest)
    decreases lists - i
  {
    ReadsBit(bits);
    var (present, b1) := ReadU(bits, 1).value;
    if present == 1 && ListPanics(b1, ListSize(i), 8, 8) {
      deltas, rest := ReadsOverrun(b1, ListSize(i), 8, 8);
      before := [];
    } else {
      var list, b2 := None, b1;
      if present == 1 {
        var walked := ReadsList(b1, ListSize(i), 8, 8);
        list, b2 := Some(walked), SkipList(b1, ListSize(i), 8, 8).value;
      }
      var more;
      more, deltas, rest := ReadsListsOverrun(b2, i + 1, lists);
      before := [list] + more;
      assert before[1..] == more;
      OverrunBehind(before, deltas, i, lists);
    }
  }

  /** The bits are those of such fields, whole lists and a list that overruns, whatever follows. */
  ghost predicate PrintsOverrun(h: Head, before: seq<Option<seq<int>>>, deltas: seq<int>, rest: seq<bit>,
                                bits: seq<bit>) {
    && HeadFits(h) && ListsOverrun(before, deltas, 0, ListCount(h.chroma))
    && bits == PutHead(h, PutOverrun(before, deltas, rest))
  }

  ghost predicate Overrunning(bits: seq<bit>) {
    exists h, before, deltas, rest :: PrintsOverrun(h, before, deltas, rest, bits)
  }

  lemma OverrunBitsPanic(h: Head, before: seq<Option<seq<int>>>, deltas: seq<int>, rest: seq<bit>, bits: seq<bit>)
    requires PrintsOverrun(h, before, deltas, rest, bits)
    ensures MatrixPanics(bits)
  {
    HeadRoundTrip(h, PutOverrun(before, deltas, rest));
    OverrunListsPanic(before, deltas, rest, 0, ListCount(h.chroma));
  }

  lemma PanickingBitsOverrun(bits: seq<bit>)
    requires MatrixPanics(bits)
    ensures Overrunning(bits)
  {
    var h := ReadsHead(bits);
    var before, deltas, rest := ReadsListsOverrun(Matrix(bits).value.0, 0, Matrix(bits).value.1);
    assert PrintsOverrun(h, before, deltas, rest, bits);
  }

  /**
   On arbitrary bytes, complete or cut off: a debug build panics if and only if the bytes are an SPS that
   begins with some fields, whole scaling lists, and deltas of which the last one makes a sum overflow.
   */
  lemma PanicsIff(nal: Bytes)
    ensures Panics(nal) <==> NalUnitType(nal) == Some(SPS) && Overrunning(BitsOf(Unescape(nal[1..], 0)))
  {
    if NalUnitType(nal) == Some(SPS) {
      var bits := BitsOf(Unescape(nal[1..], 0));
      if MatrixPanics(bits) {
        PanickingBitsOverrun(bits);
      }
      if Overrunning(bits) {
        var h, before, deltas, rest :| PrintsOverrun(h, before, deltas, rest, bits);
        OverrunBitsPanic(h, before, deltas, rest, bits);
      }
    }
  }

  // ---------------------------------------------------------------------------
  // Legal parameter sets, and two that are not
  // ---------------------------------------------------------------------------

  lemma {:induction false} LegalDeltasFitI32(deltas: seq<int>, count: nat, last: int, next: int)
    requires 0 < last < 256 && DeltasFit(deltas, count, last, next)
    ensures !DeltasOverflow(deltas, count, last, next)
    decreases count
  {
    if count > 0 {
      if next == 0 {
        LegalDeltasFitI32(deltas, count - 1, last, next);
      } else {
        var n := Scale(last, deltas[0]);
        LegalDeltaStaysInRange(last, deltas[0]);
        LegalDeltasFitI32(deltas[1..], count - 1, Carry(last, n), n);
      }
    }
  }

  lemma {:induction false} LegalListsFitI32(lists: seq<Option<seq<int>>>, i: nat)
    requires ListsFit(lists, i)
    ensures !ListsOverflow(lists, i)
  {
    if lists != [] {
      if lists[0].Some? {
        LegalDeltasFitI32(lists[0].value, ListSize(i), 8, 8);
      }
      LegalListsFitI32(lists[1..], i + 1);
    }
  }

  /** None of those the standard allows makes it panic. */
  lemma LegalNeverPanics(header: byte, s: SpsFields)
    requires header % 32 == SPS && Encodable(s)
    ensures !Panics(SpsNal(header, s))
  {
    EncodablePrints(s);
    if s.high.Some? && s.high.value.matrix.Some? {
      LegalListsFitI32(s.high.value.matrix.value, 0);
    }
    PrintedPanicsIff(header, s);
  }

  /** The first list opens with the greatest delta there is a code for, the second delta ends it. */
  predicate Steep(deltas: seq<int>) {
    |deltas| == 2 && deltas[0] == 0x7FFF_FFFF && deltas[1] == -7
  }

  lemma SteepStep()
    ensures NextScale(8, 0x7FFF_FFFF) == -249 && Overflows(8, 0x7FFF_FFFF) && NextScale(-249, -7) == 0
  {
    assert WrapI32(0x8000_0007) == 7 - 0x8000_0000;
    assert WrapI32(263 - 0x8000_0000) == 263 - 0x8000_0000;
    assert 0x7FFF_FEF9 == 256 * 0x7F_FFFE + 249;
    assert Rem256(-0x7FFF_FEF9) == -249;
    assert WrapI32(-256) == -256 && WrapI32(0) == 0;
  }

  lemma {:induction false} EndedList(deltas: seq<int>, count: nat, last: int)
    requires deltas == []
    ensures DeltasDrive(deltas, count, last, 0)
  {
    if count > 0 {
      EndedList(deltas, count - 1, last);
    }
  }

  lemma SteepDrives(deltas: seq<int>, count: nat)
    requires Steep(deltas) && count >= 2
    ensures DeltasDrive(deltas, count, 8, 8) && DeltasOverflow(deltas, count, 8, 8)
  {
    SteepStep();
    var more := deltas[1..];
    EndedList(more[1..], count - 2, -249);
    assert DeltasDrive(more, count - 1, -249, -249);
  }

  lemma {:induction false} AbsentListsDrive(lists: seq<Option<seq<int>>>, i: nat)
    requires forall k :: 0 <= k < |lists| ==> lists[k] == None
    ensures ListsDrive(lists, i)
  {
    if lists != [] {
      AbsentListsDrive(lists[1..], i + 1);
    }
  }

  /** 1280 by 720 in the high profile, with eight scaling lists of which only the first is present. */
  predicate SteepFields(s: SpsFields) {
    && s.profile == 100 && s.id == 0 && s.log2FrameNum == 0 && s.order == Type2 && s.refFrames == 1
    && s.size == Size(79, 44, 1, 0, 1) && s.crop == None
    && s.high.Some? && s.high.value.chroma == 1 && s.high.value.lumaDepth == 0 && s.high.value.chromaDepth == 0
    && s.high.value.matrix.Some?
    && var lists := s.high.value.matrix.value;
       |lists| == 8 && lists[0].Some? && Steep(lists[0].value) && forall k :: 1 <= k < 8 ==> lists[k] == None
  }

  lemma SteepFieldsOverflow(s: SpsFields)
    requires SteepFields(s)
    ensures Printable(s) && FieldsOverflow(s) && PictureSize(s) == Some((1280, 720))
  {
    var lists := s.high.value.matrix.value;
    SteepDrives(lists[0].value, 16);
    AbsentListsDrive(lists[1..], 1);
  }

  /** On such a parameter set, and there is one, a debug build panics where a release build returns the size. */
  lemma SteepListPanics(header: byte) returns (s: SpsFields)
    requires header % 32 == SPS
    ensures Panics(SpsNal(header, s)) && Dimensions(SpsNal(header, s)) == Some((1280, 720))
  {
    var first: Option<seq<int>> := Some([0x7FFF_FFFF, -7]);
    s := SpsFields(100, 0, 31, 0, Some(High(1, 0, 0, 0, 0, Some([first, None, None, None, None, None, None, None]))),
                   0, Type2, 1, 0, Size(79, 44, 1, 0, 1), None, []);
    SteepFieldsOverflow(s);
    PrintedPanicsIff(header, s);
    PrintedSize(header, s);
  }

  // ---------------------------------------------------------------------------
  // A parameter set that is cut off
  // ---------------------------------------------------------------------------

  /** It ends right behind the first delta of its first scaling list, 0x7FFF_FFFF. */
  predicate CutOff(nal: Bytes) {
    && |nal| == 13 && nal[0] == 0x67
    && nal[1] == 0x64 && nal[2] == 0 && nal[3] == 0x1F && nal[4] == 0xAD
    && nal[5] == 0x80 && nal[6] == nal[7] == nal[8] == 0 && nal[9] == nal[10] == nal[11] == 0xFF && nal[12] == 0xFE
  }

  function CutOffHead(): Head {
    Head(100, 0, 31, 0, 1, 0, 0, 0, 0)
  }

  lemma {:induction false} NothingToRemove(payload: Bytes, zeros: nat)
    requires forall k :: 0 <= k < |payload| ==> payload[k] != 3
    ensures Unescape(payload, zeros) == payload
  {
    if payload != [] {
      NothingToRemove(payload[1..], if payload[0] == 0 then zeros + 1 else 0);
    }
  }

  lemma {:induction false} BitsAppend(a: Bytes, b: Bytes)
    ensures BitsOf(a + b) == BitsOf(a) + BitsOf(b)
  {
    if a == [] {
      assert a + b == b;
    } else {
      assert (a + b)[1..] == a[1..] + b;
      BitsAppend(a[1..], b);
      Assoc(ByteBits(a[0]), BitsOf(a[1..]), BitsOf(b));
    }
  }

  lemma {:induction false} ZeroAt(n: nat, k: nat)
    requires k < n
    ensures Zeros(n)[k] == 0
  {
    if k > 0 {
      ZeroAt(n - 1, k - 1);
    }
  }

  lemma {:induction false} OneAt(n: nat, k: nat)
    requires k < n
    ensures Binary(Pow2(n) - 1, n)[k] == 1
  {
    assert (Pow2(n) - 1) / 2 == Pow2(n - 1) - 1;
    if k < n - 1 {
      OneAt(n - 1, k);
    }
  }

  /** Its code has 31 zeros and a one, then 30 ones and a zero. */
  lemma GreatestDelta()
    ensures SeCode(0x7FFF_FFFF) == Zeros(31) + [1] + (Binary(0x3FFF_FFFF, 30) + [0])
    ensures Pow2(30) == 0x4000_0000
  {
    Pow2At32();
    Log2Is(0xFFFF_FFFE, 31);
    assert 2 * Pow2(30) == Pow2(31);
    assert Binary(0x7FFF_FFFE, 31) == Binary(0x3FFF_FFFF, 30) + [0];
  }

  /** The bit at `k` of the present flag and that code. */
  function GreatestBit(k: nat): bit {
    if k == 0 || 32 <= k < 63 then 1 else 0
  }

  lemma CodeBitAt(k: nat)
    requires k < 64
    ensures var code := Zeros(31) + [1] + (Binary(0x3FFF_FFFF, 30) + [0]);
            |[1] + code| == 64 && ([1] + code)[k] == GreatestBit(k)
  {
    if 0 < k <= 31 {
      ZeroAt(31, k - 1);
    } else if 32 < k < 63 {
      GreatestDelta();
      OneAt(30, k - 33);
    }
  }

  lemma ByteBitOfTail(nal: Bytes, i: nat, k: nat)
    requires CutOff(nal) && i < 8 && k < 8
    ensures ByteBits(nal[5..][i])[k] == GreatestBit(8 * i + k)
  {
    assert ByteBits(0x80) == [1, 0, 0, 0, 0, 0, 0, 0];
    assert ByteBits(0) == [0, 0, 0, 0, 0, 0, 0, 0];
    assert ByteBits(0xFF) == [1, 1, 1, 1, 1, 1, 1, 1];
    assert ByteBits(0xFE) == [1, 1, 1, 1, 1, 1, 1, 0];
  }

  lemma TailBits(nal: Bytes)
    requires CutOff(nal)
    ensures BitsOf(nal[5..]) == [1] + SeCode(0x7FFF_FFFF)
  {
    var tail := nal[5..];
    GreatestDelta();
    CodeBitAt(0);
    forall k | 0 <= k < 64
      ensures BitsOf(tail)[k] == ([1] + SeCode(0x7FFF_FFFF))[k]
    {
      BitInByte(tail, k / 8, k % 8);
      ByteBitOfTail(nal, k / 8, k % 8);
      CodeBitAt(k);
    }
  }

  lemma OneByte(b: byte)
    ensures BitsOf([b]) == ByteBits(b)
  {
    assert [b][1..] == [];
    assert ByteBits(b) + [] == ByteBits(b);
  }

  lemma FourBytes(a: byte, b: byte, c: byte, d: byte)
    ensures BitsOf([a] + ([b] + ([c] + [d]))) == ByteBits(a) + (ByteBits(b) + (ByteBits(c) + ByteBits(d)))
  {
    BitsAppend([a], [b] + ([c] + [d]));
    BitsAppend([b], [c] + [d]);
    BitsAppend([c], [d]);
    OneByte(a);
    OneByte(b);
    OneByte(c);
    OneByte(d);
  }

  lemma HighHeadBits(rest: seq<bit>)
    ensures UeCode(0) + PutHighHead(CutOffHead(), rest) == ByteBits(0xAD) + rest
  {
    assert UeCode(0) == [1];
    assert UeCode(1) == [0, 1, 0];
    assert ByteBits(0xAD) == [1, 0, 1, 0, 1, 1, 0, 1];
  }

  lemma ByteFields()
    ensures Binary(100, 8) == ByteBits(0x64) && Binary(0, 8) == ByteBits(0) && Binary(31, 8) == ByteBits(0x1F)
  {
    BinaryIsByte(100);
    BinaryIsByte(0);
    BinaryIsByte(31);
  }

  lemma Nested(a: seq<bit>, b: seq<bit>, c: seq<bit>, d: seq<bit>, rest: seq<bit>)
    ensures a + (b + (c + (d + rest))) == a + (b + (c + d)) + rest
  {
    Assoc(c, d, rest);
    Assoc(b, c + d, rest);
    Assoc(a, b + (c + d), rest);
  }

  lemma HeadBits(nal: Bytes, rest: seq<bit>)
    requires CutOff(nal)
    ensures PutHead(CutOffHead(), rest) == BitsOf(nal[1..5]) + rest
  {
    FourBytes(nal[1], nal[2], nal[3], nal[4]);
    assert nal[1..5] == [nal[1]] + ([nal[2]] + ([nal[3]] + [nal[4]]));
    HighHeadBits(rest);
    ByteFields();
    Nested(ByteBits(0x64), ByteBits(0), ByteBits(0x1F), ByteBits(0xAD), rest);
  }

  lemma CutOffBits(nal: Bytes)
    requires CutOff(nal)
    ensures BitsOf(Unescape(nal[1..], 0)) == PutHead(CutOffHead(), [1] + SeCode(0x7FFF_FFFF))
  {
    assert nal[1..] == nal[1..5] + nal[5..];
    NothingToRemove(nal[1..], 0);
    BitsAppend(nal[1..5], nal[5..]);
    TailBits(nal);
    HeadBits(nal, [1] + SeCode(0x7FFF_FFFF));
  }

  /** Without its scaling lists the header is not complete. */
  lemma HeaderNeedsLists(h: Head, rest: seq<bit>)
    requires HeadFits(h) && SkipLists(rest, 0, ListCount(h.chroma)).None?
    ensures GetDimensions(PutHead(h, rest)).None?
  {
    var m := [1] + rest;
    var d := UeCode(h.lumaDepth) + (UeCode(h.chromaDepth) + ([h.bypass] + m));
    var high := PutHighHead(h, rest);
    var b3 := UeCode(h.id) + high;
    var b2 := Binary(h.level, 8) + b3;
    SkipByte(h.profile, Binary(h.constraints, 8) + b2);
    SkipByte(h.constraints, b2);
    SkipByte(h.level, b3);
    SkipUeCode(h.id, high);
    HighNeedsLists(h, rest);
  }

  lemma HighNeedsLists(h: Head, rest: seq<bit>)
    requires HeadFits(h) && SkipLists(rest, 0, ListCount(h.chroma)).None?
    ensures GetHigh(PutHighHead(h, rest)).None?
  {
    var m := [1] + rest;
    var d := UeCode(h.lumaDepth) + (UeCode(h.chromaDepth) + ([h.bypass] + m));
    UeRoundTrip(h.chroma, (if h.chroma == 3 then [h.planes] else []) + d);
    if h.chroma == 3 {
      BitRoundTrip(h.planes, d);
    } else {
      assert [] + d == d;
    }
    SkipUeCode(h.lumaDepth, UeCode(h.chromaDepth) + ([h.bypass] + m));
    SkipUeCode(h.chromaDepth, [h.bypass] + m);
    BitRoundTrip(h.bypass, m);
    SkipMatrixSteps(1, h.chroma, rest);
  }

  lemma NothingBehindDelta(body: seq<bit>, delta: int)
    requires ReadSe(body) == Some((delta, [])) && NextScale(8, delta) != 0
    ensures SkipLists([1] + body, 0, 8).None?
  {
    BitRoundTrip(1, body);
    SkipDelta(body, delta, [], 16, 8, 8);
    assert ReadSe([]).None?;
  }

  lemma SteepPanics(h: Head, deltas: seq<int>, bits: seq<bit>)
    requires HeadFits(h) && h.chroma == 1 && deltas == [0x7FFF_FFFF]
    requires bits == PutHead(h, [1] + PutDeltas(deltas, []))
    ensures MatrixPanics(bits) && GetDimensions(bits).None?
  {
    SteepStep();
    OverrunBitsPanic(h, [], deltas, [], bits);
    ReadFirstDelta(deltas, []);
    NothingBehindDelta(PutDeltas(deltas, []), 0x7FFF_FFFF);
    HeaderNeedsLists(h, [1] + PutDeltas(deltas, []));
  }

  lemma CutOffPanics(nal: Bytes)
    requires CutOff(nal)
    ensures Panics(nal) && Dimensions(nal).None?
  {
    var deltas := [0x7FFF_FFFF];
    assert deltas[1..] == [];
    assert PutDeltas(deltas, []) == SeCode(0x7FFF_FFFF) + [] == SeCode(0x7FFF_FFFF);
    CutOffBits(nal);
    SteepPanics(CutOffHead(), deltas, BitsOf(Unescape(nal[1..], 0)));
  }

  /** On these 13 bytes a debug build panics and a release build returns None. */
  lemma CutOffSetPanics() returns (nal: Bytes)
    ensures nal == [0x67, 0x64, 0, 0x1F, 0xAD, 0x80, 0, 0, 0, 0xFF, 0xFF, 0xFF, 0xFE]
    ensures Panics(nal) && Dimensions(nal).None?
  {
    nal := [0x67, 0x64, 0, 0x1F, 0xAD, 0x80, 0, 0, 0, 0xFF, 0xFF, 0xFF, 0xFE];
    CutOffPanics(nal);
  }
}
