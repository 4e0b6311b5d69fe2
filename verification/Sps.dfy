/**
 The sequence parameter set: the fields section 7.3.2.1.1 of the H.264 standard writes, the
 parser that recovers the picture size from them, and the size section 7.4.2.1.1 defines.
 */
module Sps {
  import opened Prelude
  import opened AnnexB
  import opened Bits
  import opened EmulationPrevention

  // ---------------------------------------------------------------------------
  // The fields
  // ---------------------------------------------------------------------------

  /** The profiles whose parameter sets carry the chroma format and the scaling matrix. */
  const HIGH_PROFILES: set<int> := {100, 110, 122, 244, 44, 83, 86, 118, 128, 138, 139, 134, 135}

  /** They are the ones section 7.3.2.1.1 lists. */
  lemma HighProfilesAre(profile: int)
    ensures profile in HIGH_PROFILES <==>
            || profile == 100 || profile == 110 || profile == 122 || profile == 244 || profile == 44 || profile == 83
            || profile == 86 || profile == 118 || profile == 128 || profile == 138 || profile == 139 || profile == 134
            || profile == 135
  {
  }

  /** `matrix` lists the scaling lists, each absent or given by its delta_scale values. */
  datatype High = High(
    chroma: nat, separatePlanes: bit, lumaDepth: nat, chromaDepth: nat, bypass: bit,
    matrix: Option<seq<Option<seq<int>>>>)

  datatype PicOrder =
    | Type0(log2Lsb: nat)
    | Type1(alwaysZero: bit, nonRef: int, topToBottom: int, perFrame: seq<int>)
    | Type2
    | Other(kind: nat)

  datatype Size = Size(widthMbs: nat, heightUnits: nat, frameMbsOnly: bit, mbaff: bit, direct8x8: bit)

  datatype Crop = Crop(left: nat, right: nat, top: nat, bottom: nat)

  /** `tail` is whatever follows the cropping fields before the trailing bits. */
  datatype SpsFields = SpsFields(
    profile: byte, constraints: byte, level: byte, id: nat, high: Option<High>,
    log2FrameNum: nat, order: PicOrder, refFrames: nat, gaps: bit, size: Size, crop: Option<Crop>,
    tail: seq<bit>)

  /** A value some `ue(v)` code of at most 31 leading zeros stands for. */
  predicate FitsUe(k: int) {
    0 <= k < 0xFFFF_FFFF
  }

  predicate FitsSe(v: int) {
    -0x8000_0000 < v < 0x8000_0000
  }

  // ---------------------------------------------------------------------------
  // Scaling lists
  // ---------------------------------------------------------------------------

  function WrapI32(n: int): i32 {
    (n + 0x8000_0000) % 0x1_0000_0000 - 0x8000_0000
  }

  /** Rust's `%`, whose sign follows the dividend. */
  function Rem256(n: int): int {
    if n >= 0 then n % 256 else -((-n) % 256)
  }

  /** `(last_scale + delta + 256) % 256` in wrapping 32-bit arithmetic. */
  function NextScale(last: int, delta: int): (n: int)
    ensures -256 < n < 256
  {
    Rem256(WrapI32(WrapI32(last + delta) + 256))
  }

  /** nextScale as section 7.3.2.1.1.1 defines it. */
  function Scale(last: int, delta: int): int {
    (last + delta + 256) % 256
  }

  /** lastScale after an entry. */
  function Carry(last: int, next: int): int {
    if next != 0 then next else last
  }

  /** On the legal range of delta_scale nothing wraps, and the result is a byte. */
  lemma LegalDeltaStaysInRange(last: int, delta: int)
    requires 0 < last < 256 && -128 <= delta <= 127
    ensures NextScale(last, delta) == Scale(last, delta)
    ensures 0 < Carry(last, Scale(last, delta)) < 256
    ensures last + delta + 256 == WrapI32(last + delta + 256)
  {
  }

  /** One of the two sums leaves 32 bits, at which a debug build panics. */
  predicate Overflows(last: int, delta: int) {
    WrapI32(last + delta) != last + delta || WrapI32(last + delta + 256) != last + delta + 256
  }

  /** That happens exactly when the delta exceeds what is left above or below the last scale. */
  lemma DeltaWrapsIff(last: int, delta: i32)
    requires -256 < last < 256
    ensures Overflows(last, delta) <==> delta > 0x7FFF_FFFF - 256 - last || delta < -0x8000_0000 - last
  {
  }

  /** The deltas drive a walk over a list of `count` entries to its end, no more and no less. */
  predicate DeltasDrive(deltas: seq<int>, count: nat, last: int, next: int)
    decreases count
  {
    if count == 0 then deltas == []
    else if next == 0 then DeltasDrive(deltas, count - 1, last, next)
    else
      && deltas != [] && FitsSe(deltas[0])
      && var n := NextScale(last, deltas[0]);
         DeltasDrive(deltas[1..], count - 1, Carry(last, n), n)
  }

  /** The same in the standard's arithmetic, every delta within its legal range. */
  predicate DeltasFit(deltas: seq<int>, count: nat, last: int, next: int)
    decreases count
  {
    if count == 0 then deltas == []
    else if next == 0 then DeltasFit(deltas, count - 1, last, next)
    else
      && deltas != [] && -128 <= deltas[0] <= 127
      && var n := Scale(last, deltas[0]);
         DeltasFit(deltas[1..], count - 1, Carry(last, n), n)
  }

  lemma {:induction false} LegalDeltasDrive(deltas: seq<int>, count: nat, last: int, next: int)
    requires 0 < last < 256 && DeltasFit(deltas, count, last, next)
    ensures DeltasDrive(deltas, count, last, next)
    decreases count
  {
    if count > 0 {
      if next == 0 {
        LegalDeltasDrive(deltas, count - 1, last, next);
      } else {
        var n := Scale(last, deltas[0]);
        LegalDeltaStaysInRange(last, deltas[0]);
        LegalDeltasDrive(deltas[1..], count - 1, Carry(last, n), n);
      }
    }
  }

  /** Skip the `count` remaining entries of a scaling list. */
  function SkipList(bits: seq<bit>, count: nat, last: int, next: int): Option<seq<bit>>
    decreases count
  {
    if count == 0 then Some(bits)
    else if next == 0 then SkipList(bits, count - 1, last, next)
    else
      var (delta, left) :- ReadSe(bits);
      var n := NextScale(last, delta);
      SkipList(left, count - 1, Carry(last, n), n)
  }

  function ListSize(i: nat): nat {
    if i < 6 then 16 else 64
  }

  /** Skip scaling lists `i` to `lists`, each behind its present flag. */
  function SkipLists(bits: seq<bit>, i: nat, lists: nat): Option<seq<bit>>
    requires i <= lists
    decreases lists - i
  {
    if i == lists then Some(bits)
    else
      var (present, b1) :- ReadU(bits, 1);
      var b2 :- if present == 1 then SkipList(b1, ListSize(i), 8, 8) else Some(b1);
      SkipLists(b2, i + 1, lists)
  }

  function PutDeltas(deltas: seq<int>, rest: seq<bit>): seq<bit> {
    if deltas == [] then rest else SeCode(deltas[0]) + PutDeltas(deltas[1..], rest)
  }

  /** One list behind its present flag. */
  function PutList(list: Option<seq<int>>, rest: seq<bit>): seq<bit> {
    if list.None? then [0] + rest else [1] + PutDeltas(list.value, rest)
  }

  function PutLists(lists: seq<Option<seq<int>>>, rest: seq<bit>): seq<bit> {
    if lists == [] then rest else PutList(lists[0], PutLists(lists[1..], rest))
  }

  predicate ListsFit(lists: seq<Option<seq<int>>>, i: nat) {
    lists == [] || (
      && (lists[0].Some? ==> DeltasFit(lists[0].value, if i < 6 then 16 else 64, 8, 8))
      && ListsFit(lists[1..], i + 1))
  }

  predicate ListsDrive(lists: seq<Option<seq<int>>>, i: nat) {
    lists == [] || (
      && (lists[0].Some? ==> DeltasDrive(lists[0].value, if i < 6 then 16 else 64, 8, 8))
      && ListsDrive(lists[1..], i + 1))
  }

  lemma {:induction false} LegalListsDrive(lists: seq<Option<seq<int>>>, i: nat)
    requires ListsFit(lists, i)
    ensures ListsDrive(lists, i)
  {
    if lists != [] {
      if lists[0].Some? {
        LegalDeltasDrive(lists[0].value, ListSize(i), 8, 8);
      }
      LegalListsDrive(lists[1..], i + 1);
    }
  }

  lemma SkipDelta(bits: seq<bit>, delta: int, left: seq<bit>, count: nat, last: int, next: int)
    requires ReadSe(bits) == Some((delta, left)) && count > 0 && next != 0
    ensures var n := NextScale(last, delta);
            SkipList(bits, count, last, next) == SkipList(left, count - 1, Carry(last, n), n)
  {
  }

  lemma ReadFirstDelta(deltas: seq<int>, rest: seq<bit>)
    requires deltas != [] && FitsSe(deltas[0])
    ensures ReadSe(PutDeltas(deltas, rest)) == Some((deltas[0], PutDeltas(deltas[1..], rest)))
  {
    SeRoundTrip(deltas[0], PutDeltas(deltas[1..], rest));
  }

  lemma {:induction false} ListRoundTrip(deltas: seq<int>, count: nat, last: int, next: int, rest: seq<bit>)
    requires DeltasDrive(deltas, count, last, next)
    ensures SkipList(PutDeltas(deltas, rest), count, last, next) == Some(rest)
    decreases count
  {
    if count > 0 {
      if next == 0 {
        ListRoundTrip(deltas, count - 1, last, next, rest);
      } else {
        var d, more := deltas[0], deltas[1..];
        var n := NextScale(last, d);
        ListRoundTrip(more, count - 1, Carry(last, n), n, rest);
        ReadFirstDelta(deltas, rest);
        SkipDelta(PutDeltas(deltas, rest), d, PutDeltas(more, rest), count, last, next);
      }
    }
  }

  lemma SkipAbsentList(more: seq<bit>, i: nat, lists: nat)
    requires i < lists
    ensures SkipLists([0] + more, i, lists) == SkipLists(more, i + 1, lists)
  {
    BitRoundTrip(0, more);
  }

  lemma SkipPresentList(body: seq<bit>, more: seq<bit>, i: nat, lists: nat)
    requires i < lists && SkipList(body, ListSize(i), 8, 8) == Some(more)
    ensures SkipLists([1] + body, i, lists) == SkipLists(more, i + 1, lists)
  {
    BitRoundTrip(1, body);
  }

  lemma SkipOneList(list: Option<seq<int>>, more: seq<bit>, i: nat, lists: nat)
    requires i < lists && (list.Some? ==> DeltasDrive(list.value, ListSize(i), 8, 8))
    ensures SkipLists(PutList(list, more), i, lists) == SkipLists(more, i + 1, lists)
  {
    match list
    case None =>
      SkipAbsentList(more, i, lists);
    case Some(deltas) =>
      ListRoundTrip(deltas, ListSize(i), 8, 8, more);
      SkipPresentList(PutDeltas(deltas, more), more, i, lists);
  }

  lemma {:induction false} ListsRoundTrip(lists: seq<Option<seq<int>>>, i: nat, end: nat, rest: seq<bit>)
    requires ListsDrive(lists, i) && end == i + |lists|
    ensures SkipLists(PutLists(lists, rest), i, end) == Some(rest)
    decreases |lists|
  {
    if lists != [] {
      var more := PutLists(lists[1..], rest);
      ListsRoundTrip(lists[1..], i + 1, end, rest);
      SkipOneList(lists[0], more, i, end);
      assert PutLists(lists, rest) == PutList(lists[0], more);
    }
  }

  // ---------------------------------------------------------------------------
  // The sections of a parameter set: written, read, and read back
  // ---------------------------------------------------------------------------

  function SkipUe(bits: seq<bit>): Option<seq<bit>> {
    var (_, left) :- ReadUe(bits);
    Some(left)
  }

  function SkipSe(bits: seq<bit>): Option<seq<bit>> {
    var (_, left) :- ReadSe(bits);
    Some(left)
  }

  function SkipU(bits: seq<bit>, n: nat): Option<seq<bit>> {
    var (_, left) :- ReadU(bits, n);
    Some(left)
  }

  function ListCount(chroma: int): nat {
    if chroma != 3 then 8 else 12
  }

  function PutMatrix(matrix: Option<seq<Option<seq<int>>>>, rest: seq<bit>): seq<bit> {
    if matrix.None? then [0] + rest else [1] + PutLists(matrix.value, rest)
  }

  function PutDepths(h: High, rest: seq<bit>): seq<bit> {
    UeCode(h.lumaDepth) + (UeCode(h.chromaDepth) + ([h.bypass] + PutMatrix(h.matrix, rest)))
  }

  function PutHigh(h: High, rest: seq<bit>): seq<bit> {
    UeCode(h.chroma) + ((if h.chroma == 3 then [h.separatePlanes] else []) + PutDepths(h, rest))
  }

  predicate HighFits(h: High) {
    && h.chroma <= 3 && FitsUe(h.lumaDepth) && FitsUe(h.chromaDepth)
    && (h.matrix.Some? ==> |h.matrix.value| == (if h.chroma == 3 then 12 else 8) && ListsFit(h.matrix.value, 0))
  }

  /** What the reader accepts: any chroma format, and any deltas that drive the walk. */
  predicate HighPrints(h: High) {
    && FitsUe(h.chroma) && FitsUe(h.lumaDepth) && FitsUe(h.chromaDepth)
    && (h.matrix.Some? ==> |h.matrix.value| == (if h.chroma == 3 then 12 else 8) && ListsDrive(h.matrix.value, 0))
  }

  function SkipMatrix(bits: seq<bit>, chroma: int): Option<seq<bit>> {
    var (present, b1) :- ReadU(bits, 1);
    if present == 1 then SkipLists(b1, 0, ListCount(chroma)) else Some(b1)
  }

  function SkipDepths(bits: seq<bit>, chroma: int): Option<seq<bit>> {
    var b1 :- SkipUe(bits);
    var b2 :- SkipUe(b1);
    var b3 :- SkipU(b2, 1);
    SkipMatrix(b3, chroma)
  }

  /** The chroma format, and the bits behind the high-profile fields. */
  function GetHigh(bits: seq<bit>): Option<(nat, seq<bit>)> {
    var (chroma, b1) :- ReadUe(bits);
    var b2 :- if chroma == 3 then SkipU(b1, 1) else Some(b1);
    var b3 :- SkipDepths(b2, chroma);
    Some((chroma, b3))
  }

  lemma SkipMatrixSteps(flag: bit, chroma: int, b1: seq<bit>)
    ensures SkipMatrix([flag] + b1, chroma) == if flag == 1 then SkipLists(b1, 0, ListCount(chroma)) else Some(b1)
  {
    BitRoundTrip(flag, b1);
  }

  lemma MatrixRoundTrip(matrix: Option<seq<Option<seq<int>>>>, chroma: int, rest: seq<bit>)
    requires matrix.Some? ==> |matrix.value| == ListCount(chroma) && ListsDrive(matrix.value, 0)
    ensures SkipMatrix(PutMatrix(matrix, rest), chroma) == Some(rest)
  {
    match matrix
    case None =>
      SkipMatrixSteps(0, chroma, rest);
    case Some(lists) =>
      var body := PutLists(lists, rest);
      ListsRoundTrip(lists, 0, ListCount(chroma), rest);
      SkipMatrixSteps(1, chroma, body);
  }

  lemma SkipUeCode(k: nat, rest: seq<bit>)
    requires FitsUe(k)
    ensures SkipUe(UeCode(k) + rest) == Some(rest)
  {
    UeRoundTrip(k, rest);
  }

  lemma SkipSeCode(v: int, rest: seq<bit>)
    requires FitsSe(v)
    ensures SkipSe(SeCode(v) + rest) == Some(rest)
  {
    SeRoundTrip(v, rest);
  }

  lemma DepthsRoundTrip(h: High, rest: seq<bit>)
    requires HighPrints(h)
    ensures SkipDepths(PutDepths(h, rest), h.chroma) == Some(rest)
  {
    var m := PutMatrix(h.matrix, rest);
    SkipUeCode(h.lumaDepth, UeCode(h.chromaDepth) + ([h.bypass] + m));
    SkipUeCode(h.chromaDepth, [h.bypass] + m);
    BitRoundTrip(h.bypass, m);
    MatrixRoundTrip(h.matrix, h.chroma, rest);
  }

  lemma HighRoundTrip(h: High, rest: seq<bit>)
    requires HighPrints(h)
    ensures GetHigh(PutHigh(h, rest)) == Some((h.chroma, rest))
  {
    var d := PutDepths(h, rest);
    UeRoundTrip(h.chroma, (if h.chroma == 3 then [h.separatePlanes] else []) + d);
    DepthsRoundTrip(h, rest);
    if h.chroma == 3 {
      BitRoundTrip(h.separatePlanes, d);
    } else {
      assert [] + d == d;
    }
  }

  function PutOffsets(offsets: seq<int>, rest: seq<bit>): seq<bit> {
    if offsets == [] then rest else SeCode(offsets[0]) + PutOffsets(offsets[1..], rest)
  }

  function SkipOffsets(bits: seq<bit>, count: nat): Option<seq<bit>> {
    if count == 0 then Some(bits)
    else
      var left :- SkipSe(bits);
      SkipOffsets(left, count - 1)
  }

  function PutOrder(o: PicOrder, rest: seq<bit>): seq<bit> {
    match o
    case Type0(log2Lsb) => UeCode(0) + (UeCode(log2Lsb) + rest)
    case Type1(alwaysZero, nonRef, topToBottom, perFrame) =>
      UeCode(1) + ([alwaysZero] + (SeCode(nonRef) + (SeCode(topToBottom) +
        (UeCode(|perFrame|) + PutOffsets(perFrame, rest)))))
    case Type2 => UeCode(2) + rest
    case Other(kind) => UeCode(kind) + rest
  }

  predicate OffsetsFit(offsets: seq<int>) {
    offsets == [] || (FitsSe(offsets[0]) && OffsetsFit(offsets[1..]))
  }

  /** The standard has only the types 0 to 2; the reader treats any other as it does type 2. */
  predicate OrderPrints(o: PicOrder) {
    if o.Other? then 2 < o.kind && FitsUe(o.kind) else OrderFits(o)
  }

  predicate OrderFits(o: PicOrder) {
    match o
    case Type0(log2Lsb) => FitsUe(log2Lsb)
    case Type1(_, nonRef, topToBottom, perFrame) =>
      FitsSe(nonRef) && FitsSe(topToBottom) && FitsUe(|perFrame|) && OffsetsFit(perFrame)
    case Type2 => true
    case Other(_) => false
  }

  function SkipCycle(bits: seq<bit>): Option<seq<bit>> {
    var b1 :- SkipU(bits, 1);
    var b2 :- SkipSe(b1);
    var b3 :- SkipSe(b2);
    var (count, b4) :- ReadUe(b3);
    SkipOffsets(b4, count)
  }

  function SkipOrder(bits: seq<bit>): Option<seq<bit>> {
    var (kind, b1) :- ReadUe(bits);
    if kind == 0 then SkipUe(b1)
    else if kind == 1 then SkipCycle(b1)
    else Some(b1)
  }

  lemma {:induction false} OffsetsRoundTrip(offsets: seq<int>, rest: seq<bit>)
    requires OffsetsFit(offsets)
    ensures SkipOffsets(PutOffsets(offsets, rest), |offsets|) == Some(rest)
  {
    if offsets != [] {
      SkipSeCode(offsets[0], PutOffsets(offsets[1..], rest));
      OffsetsRoundTrip(offsets[1..], rest);
    }
  }

  lemma OrderRoundTrip(o: PicOrder, rest: seq<bit>)
    requires OrderPrints(o)
    ensures SkipOrder(PutOrder(o, rest)) == Some(rest)
  {
    match o
    case Type0(log2Lsb) =>
      UeRoundTrip(0, UeCode(log2Lsb) + rest);
      UeRoundTrip(log2Lsb, rest);
    case Type1(alwaysZero, nonRef, topToBottom, perFrame) =>
      var b4 := UeCode(|perFrame|) + PutOffsets(perFrame, rest);
      var b3 := SeCode(topToBottom) + b4;
      var b2 := SeCode(nonRef) + b3;
      UeRoundTrip(1, [alwaysZero] + b2);
      BitRoundTrip(alwaysZero, b2);
      SeRoundTrip(nonRef, b3);
      SeRoundTrip(topToBottom, b4);
      UeRoundTrip(|perFrame|, PutOffsets(perFrame, rest));
      OffsetsRoundTrip(perFrame, rest);
    case Type2 =>
      UeRoundTrip(2, rest);
    case Other(kind) =>
      UeRoundTrip(kind, rest);
  }

  function PutSize(s: Size, rest: seq<bit>): seq<bit> {
    UeCode(s.widthMbs) + (UeCode(s.heightUnits) + ([s.frameMbsOnly] +
      ((if s.frameMbsOnly == 0 then [s.mbaff] else []) + ([s.direct8x8] + rest))))
  }

  /** Width in macroblocks less one, height in map units less one, and the frame_mbs_only flag. */
  datatype Grid = Grid(widthMbs: nat, heightUnits: nat, frameMbsOnly: nat)

  function GetSize(bits: seq<bit>): Option<(Grid, seq<bit>)> {
    var (w, b1) :- ReadUe(bits);
    var (h, b2) :- ReadUe(b1);
    var (only, b3) :- ReadU(b2, 1);
    var b4 :- if only == 0 then SkipU(b3, 1) else Some(b3);
    var b5 :- SkipU(b4, 1);
    Some((Grid(w, h, only), b5))
  }

  lemma SizeRoundTrip(s: Size, rest: seq<bit>)
    requires FitsUe(s.widthMbs) && FitsUe(s.heightUnits)
    ensures GetSize(PutSize(s, rest)) == Some((Grid(s.widthMbs, s.heightUnits, s.frameMbsOnly), rest))
  {
    var b4 := [s.direct8x8] + rest;
    var b3 := (if s.frameMbsOnly == 0 then [s.mbaff] else []) + b4;
    UeRoundTrip(s.widthMbs, UeCode(s.heightUnits) + ([s.frameMbsOnly] + b3));
    UeRoundTrip(s.heightUnits, [s.frameMbsOnly] + b3);
    BitRoundTrip(s.frameMbsOnly, b3);
    if s.frameMbsOnly == 0 {
      BitRoundTrip(s.mbaff, b4);
    } else {
      assert [] + b4 == b4;
    }
    BitRoundTrip(s.direct8x8, rest);
  }

  const NO_CROP := Crop(0, 0, 0, 0)

  function PutCrop(c: Option<Crop>, rest: seq<bit>): seq<bit> {
    if c.None? then [0] + rest
    else
      [1] + (UeCode(c.value.left) + (UeCode(c.value.right) + (UeCode(c.value.top) + (UeCode(c.value.bottom) + rest))))
  }

  predicate CropFits(c: Option<Crop>) {
    c.Some? ==> FitsUe(c.value.left) && FitsUe(c.value.right) && FitsUe(c.value.top) && FitsUe(c.value.bottom)
  }

  function GetCrop(bits: seq<bit>): Option<Crop> {
    var (present, b0) :- ReadU(bits, 1);
    if present == 1 then
      var (l, b1) :- ReadUe(b0);
      var (r, b2) :- ReadUe(b1);
      var (t, b3) :- ReadUe(b2);
      var (b, _) :- ReadUe(b3);
      Some(Crop(l, r, t, b))
    else Some(NO_CROP)
  }

  lemma CropRoundTrip(c: Option<Crop>, rest: seq<bit>)
    requires CropFits(c)
    ensures GetCrop(PutCrop(c, rest)) == Some(if c.Some? then c.value else NO_CROP)
  {
    match c
    case None =>
      BitRoundTrip(0, rest);
    case Some(v) =>
      var b3 := UeCode(v.bottom) + rest;
      var b2 := UeCode(v.top) + b3;
      var b1 := UeCode(v.right) + b2;
      BitRoundTrip(1, UeCode(v.left) + b1);
      UeRoundTrip(v.left, b1);
      UeRoundTrip(v.right, b2);
      UeRoundTrip(v.top, b3);
      UeRoundTrip(v.bottom, rest);
  }

  // ---------------------------------------------------------------------------
  // The whole parameter set
  // ---------------------------------------------------------------------------

  function PutBody(s: SpsFields, rest: seq<bit>): seq<bit> {
    UeCode(s.log2FrameNum) +
      PutOrder(s.order, UeCode(s.refFrames) + ([s.gaps] + PutSize(s.size, PutCrop(s.crop, rest))))
  }

  function PutFields(s: SpsFields, rest: seq<bit>): seq<bit> {
    var body := PutBody(s, rest);
    Binary(s.profile, 8) + (Binary(s.constraints, 8) + (Binary(s.level, 8) + (UeCode(s.id) +
      (if s.high.Some? then PutHigh(s.high.value, body) else body))))
  }

  /** The stop bit, and zeros up to a whole number of bytes. */
  function Trailing(n: nat): (bits: seq<bit>)
    ensures (n + |bits|) % 8 == 0 && 1 <= |bits| <= 8 && bits[0] == 1
  {
    [1] + Zeros(7 - n % 8)
  }

  /** All bits of the RBSP. */
  function RbspBits(s: SpsFields): (bits: seq<bit>)
    ensures |bits| % 8 == 0
  {
    var payload := PutFields(s, s.tail);
    payload + Trailing(|payload|)
  }

  /** The NAL unit: a header byte, and the RBSP with emulation prevention. */
  function SpsNal(header: byte, s: SpsFields): Bytes {
    [header] + Escape(Pack(RbspBits(s)), 0)
  }

  /** Every field has a code, and the optional ones are there exactly when the syntax has them. */
  predicate Encodable(s: SpsFields) {
    && FitsUe(s.id)
    && (s.high.Some? <==> s.profile in HIGH_PROFILES)
    && (s.high.Some? ==> HighFits(s.high.value))
    && FitsUe(s.log2FrameNum) && OrderFits(s.order) && FitsUe(s.refFrames)
    && FitsUe(s.size.widthMbs) && FitsUe(s.size.heightUnits) && CropFits(s.crop)
  }

  /** What the reader accepts, beyond what the standard allows. */
  predicate Printable(s: SpsFields) {
    && FitsUe(s.id)
    && (s.high.Some? <==> s.profile in HIGH_PROFILES)
    && (s.high.Some? ==> HighPrints(s.high.value))
    && FitsUe(s.log2FrameNum) && OrderPrints(s.order) && FitsUe(s.refFrames)
    && FitsUe(s.size.widthMbs) && FitsUe(s.size.heightUnits) && CropFits(s.crop)
  }

  lemma EncodablePrints(s: SpsFields)
    requires Encodable(s)
    ensures Printable(s)
  {
    if s.high.Some? && s.high.value.matrix.Some? {
      LegalListsDrive(s.high.value.matrix.value, 0);
    }
  }

  // Each section writes the same bits whatever follows it.

  lemma {:induction false} AppendDeltas(deltas: seq<int>, a: seq<bit>, b: seq<bit>)
    ensures PutDeltas(deltas, a) + b == PutDeltas(deltas, a + b)
  {
    if deltas != [] {
      AppendDeltas(deltas[1..], a, b);
      Assoc(SeCode(deltas[0]), PutDeltas(deltas[1..], a), b);
    }
  }

  lemma {:induction false} AppendLists(lists: seq<Option<seq<int>>>, a: seq<bit>, b: seq<bit>)
    ensures PutLists(lists, a) + b == PutLists(lists, a + b)
  {
    if lists != [] {
      var more := PutLists(lists[1..], a);
      AppendLists(lists[1..], a, b);
      if lists[0].None? {
        Assoc([0], more, b);
      } else {
        AppendDeltas(lists[0].value, more, b);
        Assoc([1], PutDeltas(lists[0].value, more), b);
      }
    }
  }

  lemma AppendMatrix(matrix: Option<seq<Option<seq<int>>>>, a: seq<bit>, b: seq<bit>)
    ensures PutMatrix(matrix, a) + b == PutMatrix(matrix, a + b)
  {
    if matrix.None? {
      Assoc([0], a, b);
    } else {
      AppendLists(matrix.value, a, b);
      Assoc([1], PutLists(matrix.value, a), b);
    }
  }

  lemma AppendHigh(h: High, a: seq<bit>, b: seq<bit>)
    ensures PutHigh(h, a) + b == PutHigh(h, a + b)
  {
    var planes := if h.chroma == 3 then [h.separatePlanes] else [];
    var m3 := PutMatrix(h.matrix, a);
    var m2 := [h.bypass] + m3;
    var m1 := UeCode(h.chromaDepth) + m2;
    AppendMatrix(h.matrix, a, b);
    Assoc([h.bypass], m3, b);
    Assoc(UeCode(h.chromaDepth), m2, b);
    Assoc(UeCode(h.lumaDepth), m1, b);
    Assoc(planes, UeCode(h.lumaDepth) + m1, b);
    Assoc(UeCode(h.chroma), planes + (UeCode(h.lumaDepth) + m1), b);
  }

  lemma {:induction false} AppendOffsets(offsets: seq<int>, a: seq<bit>, b: seq<bit>)
    ensures PutOffsets(offsets, a) + b == PutOffsets(offsets, a + b)
  {
    if offsets != [] {
      AppendOffsets(offsets[1..], a, b);
      Assoc(SeCode(offsets[0]), PutOffsets(offsets[1..], a), b);
    }
  }

  lemma AppendOrder(o: PicOrder, a: seq<bit>, b: seq<bit>)
    ensures PutOrder(o, a) + b == PutOrder(o, a + b)
  {
    match o
    case Type0(log2Lsb) =>
      Assoc(UeCode(log2Lsb), a, b);
      Assoc(UeCode(0), UeCode(log2Lsb) + a, b);
    case Type1(alwaysZero, nonRef, topToBottom, perFrame) =>
      var m4 := UeCode(|perFrame|) + PutOffsets(perFrame, a);
      var m3 := SeCode(topToBottom) + m4;
      var m2 := SeCode(nonRef) + m3;
      AppendOffsets(perFrame, a, b);
      Assoc(UeCode(|perFrame|), PutOffsets(perFrame, a), b);
      Assoc(SeCode(topToBottom), m4, b);
      Assoc(SeCode(nonRef), m3, b);
      Assoc([alwaysZero], m2, b);
      Assoc(UeCode(1), [alwaysZero] + m2, b);
    case Type2 =>
      Assoc(UeCode(2), a, b);
    case Other(kind) =>
      Assoc(UeCode(kind), a, b);
  }

  lemma AppendSize(s: Size, a: seq<bit>, b: seq<bit>)
    ensures PutSize(s, a) + b == PutSize(s, a + b)
  {
    var mbaff := if s.frameMbsOnly == 0 then [s.mbaff] else [];
    var m3 := mbaff + ([s.direct8x8] + a);
    var m2 := [s.frameMbsOnly] + m3;
    Assoc([s.direct8x8], a, b);
    Assoc(mbaff, [s.direct8x8] + a, b);
    Assoc([s.frameMbsOnly], m3, b);
    Assoc(UeCode(s.heightUnits), m2, b);
    Assoc(UeCode(s.widthMbs), UeCode(s.heightUnits) + m2, b);
  }

  lemma AppendCrop(c: Option<Crop>, a: seq<bit>, b: seq<bit>)
    ensures PutCrop(c, a) + b == PutCrop(c, a + b)
  {
    match c
    case None =>
      Assoc([0], a, b);
    case Some(v) =>
      var m3 := UeCode(v.bottom) + a;
      var m2 := UeCode(v.top) + m3;
      var m1 := UeCode(v.right) + m2;
      Assoc(UeCode(v.bottom), a, b);
      Assoc(UeCode(v.top), m3, b);
      Assoc(UeCode(v.right), m2, b);
      Assoc(UeCode(v.left), m1, b);
      Assoc([1], UeCode(v.left) + m1, b);
  }

  lemma AppendBody(s: SpsFields, a: seq<bit>, b: seq<bit>)
    ensures PutBody(s, a) + b == PutBody(s, a + b)
  {
    var m4 := PutCrop(s.crop, a);
    var m3 := PutSize(s.size, m4);
    var m2 := [s.gaps] + m3;
    var m1 := UeCode(s.refFrames) + m2;
    AppendCrop(s.crop, a, b);
    AppendSize(s.size, m4, b);
    Assoc([s.gaps], m3, b);
    Assoc(UeCode(s.refFrames), m2, b);
    AppendOrder(s.order, m1, b);
    Assoc(UeCode(s.log2FrameNum), PutOrder(s.order, m1), b);
  }

  lemma AppendFields(s: SpsFields, a: seq<bit>, b: seq<bit>)
    ensures PutFields(s, a) + b == PutFields(s, a + b)
  {
    var body := PutBody(s, a);
    var high := if s.high.Some? then PutHigh(s.high.value, body) else body;
    var m3 := UeCode(s.id) + high;
    var m2 := Binary(s.level, 8) + m3;
    AppendBody(s, a, b);
    if s.high.Some? {
      AppendHigh(s.high.value, body, b);
    }
    Assoc(UeCode(s.id), high, b);
    Assoc(Binary(s.level, 8), m3, b);
    Assoc(Binary(s.constraints, 8), m2, b);
    Assoc(Binary(s.profile, 8), Binary(s.constraints, 8) + m2, b);
  }

  // ---------------------------------------------------------------------------
  // From the fields to the picture size
  // ---------------------------------------------------------------------------

  const TWO_32 := 0x1_0000_0000

  function CheckedAdd(a: nat, b: nat): Option<nat> {
    if a + b < TWO_32 then Some(a + b) else None
  }

  function CheckedMul(a: nat, b: nat): Option<nat> {
    if a * b < TWO_32 then Some(a * b) else None
  }

  function CheckedSub(a: nat, b: nat): Option<nat> {
    if a >= b then Some(a - b) else None
  }

  /** `(a + b) * unit` taken off `from`, every step checked against 32 bits. */
  function CropOff(from: nat, a: nat, b: nat, unit: nat): Option<nat> {
    var sum :- CheckedAdd(a, b);
    var crop :- CheckedMul(sum, unit);
    CheckedSub(from, crop)
  }

  /** The width and height in samples of the macroblock grid. */
  function GridSize(g: Grid): Option<(nat, nat)>
    requires g.frameMbsOnly < 2
  {
    var columns :- CheckedAdd(g.widthMbs, 1);
    var width :- CheckedMul(columns, 16);
    var units :- CheckedAdd(g.heightUnits, 1);
    var rows :- CheckedMul(2 - g.frameMbsOnly, units);
    var height :- CheckedMul(rows, 16);
    Some((width, height))
  }

  function CropUnitX(chroma: nat): nat {
    if chroma == 1 || chroma == 2 then 2 else 1
  }

  function CropUnitY(chroma: nat, frameMbsOnly: nat): nat
    requires frameMbsOnly < 2
  {
    (if chroma == 1 then 2 else 1) * (2 - frameMbsOnly)
  }

  function CroppedSize(g: Grid, c: Crop, chroma: nat): Option<(nat, nat)>
    requires g.frameMbsOnly < 2
  {
    var (width, height) :- GridSize(g);
    var w :- CropOff(width, c.left, c.right, CropUnitX(chroma));
    var h :- CropOff(height, c.top, c.bottom, CropUnitY(chroma, g.frameMbsOnly));
    Some((w, h))
  }

  /** Table 6-1, by ChromaArrayType; both are 1 where there are no chroma arrays to subsample. */
  function SubWidthC(chromaArrayType: nat): nat {
    if chromaArrayType == 1 || chromaArrayType == 2 then 2 else 1
  }

  function SubHeightC(chromaArrayType: nat): nat {
    if chromaArrayType == 1 then 2 else 1
  }

  function ChromaArrayType(s: SpsFields): nat {
    match s.high
    case None => 1
    case Some(h) => if h.chroma == 3 && h.separatePlanes == 1 then 0 else h.chroma
  }

  /** PicWidthInSamples and the frame height in samples. */
  function CodedSize(s: SpsFields): (nat, nat) {
    (16 * (s.size.widthMbs + 1), 16 * ((2 - s.size.frameMbsOnly) * (s.size.heightUnits + 1)))
  }

  /** The samples cropped off the width and off the height. */
  function CropSize(s: SpsFields): (nat, nat) {
    match s.crop
    case None => (0, 0)
    case Some(c) =>
      (SubWidthC(ChromaArrayType(s)) * (c.left + c.right),
       SubHeightC(ChromaArrayType(s)) * (2 - s.size.frameMbsOnly) * (c.top + c.bottom))
  }

  /** The cropped picture size, when the coded size fits 32 bits and is not cropped away. */
  function PictureSize(s: SpsFields): Option<(nat, nat)> {
    var (width, height) := CodedSize(s);
    var (cropX, cropY) := CropSize(s);
    if width < TWO_32 && height < TWO_32 && cropX <= width && cropY <= height
    then Some((width - cropX, height - cropY)) else None
  }

  lemma CropOffMeaning(from: nat, a: nat, b: nat, unit: nat)
    requires from < TWO_32 && unit >= 1
    ensures CropOff(from, a, b, unit) == if unit * (a + b) <= from then Some(from - unit * (a + b)) else None
  {
    assert (a + b) * unit == unit * (a + b);
    assert unit * (a + b) >= a + b;
  }

  lemma GridSizeMeaning(g: Grid)
    requires g.frameMbsOnly < 2
    ensures var w, h := 16 * (g.widthMbs + 1), 16 * ((2 - g.frameMbsOnly) * (g.heightUnits + 1));
            GridSize(g) == if w < TWO_32 && h < TWO_32 then Some((w, h)) else None
  {
    var rows := (2 - g.frameMbsOnly) * (g.heightUnits + 1);
    assert rows >= g.heightUnits + 1 by {
      if g.frameMbsOnly == 0 {
        assert rows == 2 * (g.heightUnits + 1);
      }
    }
  }

  lemma CropUnits(s: SpsFields, chroma: nat)
    requires chroma == if s.high.Some? then s.high.value.chroma else 1
    ensures CropUnitX(chroma) == SubWidthC(ChromaArrayType(s))
    ensures CropUnitY(chroma, s.size.frameMbsOnly) == SubHeightC(ChromaArrayType(s)) * (2 - s.size.frameMbsOnly)
    ensures CropUnitX(chroma) >= 1 && CropUnitY(chroma, s.size.frameMbsOnly) >= 1
  {
  }

  lemma CropSizeInUnits(s: SpsFields, chroma: nat)
    requires chroma == if s.high.Some? then s.high.value.chroma else 1
    ensures var c := if s.crop.Some? then s.crop.value else NO_CROP;
            CropSize(s) == (CropUnitX(chroma) * (c.left + c.right),
                            CropUnitY(chroma, s.size.frameMbsOnly) * (c.top + c.bottom))
  {
    CropUnits(s, chroma);
  }

  /** The parser's checked arithmetic is the standard's, with None exactly where that leaves 32 bits. */
  lemma CroppedSizeIsPictureSize(s: SpsFields, chroma: nat)
    requires chroma == if s.high.Some? then s.high.value.chroma else 1
    ensures var g := Grid(s.size.widthMbs, s.size.heightUnits, s.size.frameMbsOnly);
            CroppedSize(g, if s.crop.Some? then s.crop.value else NO_CROP, chroma) == PictureSize(s)
  {
    var g := Grid(s.size.widthMbs, s.size.heightUnits, s.size.frameMbsOnly);
    var c := if s.crop.Some? then s.crop.value else NO_CROP;
    GridSizeMeaning(g);
    CropSizeInUnits(s, chroma);
    var (width, height) := CodedSize(s);
    if width < TWO_32 && height < TWO_32 {
      CropOffMeaning(width, c.left, c.right, CropUnitX(chroma));
      CropOffMeaning(height, c.top, c.bottom, CropUnitY(chroma, g.frameMbsOnly));
    }
  }
}
