/** Which byte strings the parameter set parser accepts: exactly the printed ones. */
module SpsSoundness {
  import opened Prelude
  import opened AnnexB
  import opened Bits
  import opened EmulationPrevention
  import opened Sps
  import opened SpsParser

  // ---------------------------------------------------------------------------
  // Each reader returns what stands there
  // ---------------------------------------------------------------------------

  lemma ReadsBit(bits: seq<bit>)
    requires ReadU(bits, 1).Some?
    ensures var (v, left) := ReadU(bits, 1).value; v < 2 && bits == [v] + left
  {
    OneBit(bits);
  }

  lemma ReadsByte(bits: seq<bit>)
    requires ReadU(bits, 8).Some?
    ensures var (v, left) := ReadU(bits, 8).value; v < 256 && bits == Binary(v, 8) + left
  {
    assert Pow2(8) == 256;
    ValueBound(bits[..8]);
    BinaryOfValue(bits[..8]);
  }

  lemma CodeNumOfSigned(k: nat)
    requires k < 0xFFFF_FFFF
    ensures CodeNum(SignedOf(k)) == k && FitsSe(SignedOf(k))
  {
  }

  lemma ReadsSe(bits: seq<bit>)
    requires ReadSe(bits).Some?
    ensures var (v, left) := ReadSe(bits).value; FitsSe(v) && bits == SeCode(v) + left
  {
    UeReadsOnlyCodes(bits);
    CodeNumOfSigned(ReadUe(bits).value.0);
  }

  lemma DeltaInFront(delta: int, more: seq<int>, count: nat, last: int, next: int, rest: seq<bit>)
    requires count > 0 && next != 0 && FitsSe(delta)
    requires var n := NextScale(last, delta); DeltasDrive(more, count - 1, Carry(last, n), n)
    ensures DeltasDrive([delta] + more, count, last, next)
    ensures PutDeltas([delta] + more, rest) == SeCode(delta) + PutDeltas(more, rest)
  {
    assert ([delta] + more)[1..] == more;
  }

  lemma {:induction false} ReadsList(bits: seq<bit>, count: nat, last: int, next: int) returns (deltas: seq<int>)
    requires SkipList(bits, count, last, next).Some?
    ensures DeltasDrive(deltas, count, last, next)
    ensures bits == PutDeltas(deltas, SkipList(bits, count, last, next).value)
    decreases count
  {
    if count == 0 {
      deltas := [];
    } else if next == 0 {
      deltas := ReadsList(bits, count - 1, last, next);
    } else {
      ReadsSe(bits);
      var (delta, left) := ReadSe(bits).value;
      var n := NextScale(last, delta);
      var more := ReadsList(left, count - 1, Carry(last, n), n);
      DeltaInFront(delta, more, count, last, next, SkipList(bits, count, last, next).value);
      deltas := [delta] + more;
    }
  }

  lemma ListInFront(list: Option<seq<int>>, more: seq<Option<seq<int>>>, i: nat, rest: seq<bit>)
    requires ListsDrive(more, i + 1) && (list.Some? ==> DeltasDrive(list.value, ListSize(i), 8, 8))
    ensures ListsDrive([list] + more, i)
    ensures PutLists([list] + more, rest) == PutList(list, PutLists(more, rest))
  {
    assert ([list] + more)[1..] == more;
  }

  lemma {:induction false} ReadsLists(bits: seq<bit>, i: nat, lists: nat) returns (all: seq<Option<seq<int>>>)
    requires i <= lists && SkipLists(bits, i, lists).Some?
    ensures |all| == lists - i && ListsDrive(all, i)
    ensures bits == PutLists(all, SkipLists(bits, i, lists).value)
    decreases lists - i
  {
    if i == lists {
      all := [];
    } else {
      ReadsBit(bits);
      var (present, b1) := ReadU(bits, 1).value;
      var list, b2 := None, b1;
      if present == 1 {
        var deltas := ReadsList(b1, ListSize(i), 8, 8);
        list, b2 := Some(deltas), SkipList(b1, ListSize(i), 8, 8).value;
      }
      var more := ReadsLists(b2, i + 1, lists);
      ListInFront(list, more, i, SkipLists(bits, i, lists).value);
      all := [list] + more;
    }
  }

  lemma ReadsMatrix(bits: seq<bit>, chroma: int) returns (matrix: Option<seq<Option<seq<int>>>>)
    requires SkipMatrix(bits, chroma).Some?
    ensures matrix.Some? ==> |matrix.value| == ListCount(chroma) && ListsDrive(matrix.value, 0)
    ensures bits == PutMatrix(matrix, SkipMatrix(bits, chroma).value)
  {
    ReadsBit(bits);
    var (present, b1) := ReadU(bits, 1).value;
    if present == 1 {
      var lists := ReadsLists(b1, 0, ListCount(chroma));
      matrix := Some(lists);
    } else {
      matrix := None;
    }
  }

  lemma ReadsDepths(bits: seq<bit>, chroma: nat, planes: bit) returns (h: High)
    requires SkipDepths(bits, chroma).Some? && FitsUe(chroma)
    ensures HighPrints(h) && h.chroma == chroma && h.separatePlanes == planes
    ensures bits == PutDepths(h, SkipDepths(bits, chroma).value)
  {
    UeReadsOnlyCodes(bits);
    var (luma, b1) := ReadUe(bits).value;
    UeReadsOnlyCodes(b1);
    var (depth, b2) := ReadUe(b1).value;
    ReadsBit(b2);
    var (bypass, b3) := ReadU(b2, 1).value;
    var matrix := ReadsMatrix(b3, chroma);
    h := High(chroma, planes, luma, depth, bypass, matrix);
  }

  lemma ReadsHigh(bits: seq<bit>) returns (h: High)
    requires GetHigh(bits).Some?
    ensures HighPrints(h) && h.chroma == GetHigh(bits).value.0
    ensures bits == PutHigh(h, GetHigh(bits).value.1)
  {
    UeReadsOnlyCodes(bits);
    var (chroma, b1) := ReadUe(bits).value;
    if chroma == 3 {
      ReadsBit(b1);
      var (planes, b2) := ReadU(b1, 1).value;
      h := ReadsDepths(b2, chroma, planes);
    } else {
      h := ReadsDepths(b1, chroma, 0);
      assert [] + b1 == b1;
    }
  }

  lemma {:induction false} ReadsOffsets(bits: seq<bit>, count: nat) returns (offsets: seq<int>)
    requires SkipOffsets(bits, count).Some?
    ensures |offsets| == count && OffsetsFit(offsets)
    ensures bits == PutOffsets(offsets, SkipOffsets(bits, count).value)
  {
    if count == 0 {
      offsets := [];
    } else {
      ReadsSe(bits);
      var (offset, left) := ReadSe(bits).value;
      var more := ReadsOffsets(left, count - 1);
      offsets := [offset] + more;
      assert offsets[1..] == more;
    }
  }

  lemma ReadsCycle(bits: seq<bit>) returns (o: PicOrder)
    requires SkipCycle(bits).Some?
    ensures o.Type1? && OrderPrints(o)
    ensures UeCode(1) + bits == PutOrder(o, SkipCycle(bits).value)
  {
    ReadsBit(bits);
    var (flag, b1) := ReadU(bits, 1).value;
    ReadsSe(b1);
    var (nonRef, b2) := ReadSe(b1).value;
    ReadsSe(b2);
    var (topToBottom, b3) := ReadSe(b2).value;
    UeReadsOnlyCodes(b3);
    var (count, b4) := ReadUe(b3).value;
    var offsets := ReadsOffsets(b4, count);
    o := Type1(flag, nonRef, topToBottom, offsets);
  }

  lemma ReadsOrder(bits: seq<bit>) returns (o: PicOrder)
    requires SkipOrder(bits).Some?
    ensures OrderPrints(o) && bits == PutOrder(o, SkipOrder(bits).value)
  {
    UeReadsOnlyCodes(bits);
    var (kind, b1) := ReadUe(bits).value;
    if kind == 0 {
      UeReadsOnlyCodes(b1);
      o := Type0(ReadUe(b1).value.0);
    } else if kind == 1 {
      o := ReadsCycle(b1);
    } else if kind == 2 {
      o := Type2;
    } else {
      o := Other(kind);
    }
  }

  lemma ReadsSize(bits: seq<bit>) returns (s: Size)
    requires GetSize(bits).Some?
    ensures FitsUe(s.widthMbs) && FitsUe(s.heightUnits)
    ensures GetSize(bits).value.0 == Grid(s.widthMbs, s.heightUnits, s.frameMbsOnly)
    ensures bits == PutSize(s, GetSize(bits).value.1)
  {
    UeReadsOnlyCodes(bits);
    var (w, b1) := ReadUe(bits).value;
    UeReadsOnlyCodes(b1);
    var (h, b2) := ReadUe(b1).value;
    ReadsBit(b2);
    var (only, b3) := ReadU(b2, 1).value;
    var mbaff: bit, b4 := 0, b3;
    if only == 0 {
      ReadsBit(b3);
      mbaff, b4 := ReadU(b3, 1).value.0, ReadU(b3, 1).value.1;
    } else {
      assert [] + b3 == b3;
    }
    ReadsBit(b4);
    s := Size(w, h, only, mbaff, ReadU(b4, 1).value.0);
  }

  lemma ReadsCrop(bits: seq<bit>) returns (c: Option<Crop>, rest: seq<bit>)
    requires GetCrop(bits).Some?
    ensures CropFits(c) && GetCrop(bits) == Some(if c.Some? then c.value else NO_CROP)
    ensures bits == PutCrop(c, rest)
  {
    ReadsBit(bits);
    var (present, b0) := ReadU(bits, 1).value;
    if present == 1 {
      UeReadsOnlyCodes(b0);
      var (l, b1) := ReadUe(b0).value;
      UeReadsOnlyCodes(b1);
      var (r, b2) := ReadUe(b1).value;
      UeReadsOnlyCodes(b2);
      var (t, b3) := ReadUe(b2).value;
      UeReadsOnlyCodes(b3);
      var (b, b4) := ReadUe(b3).value;
      c, rest := Some(Crop(l, r, t, b)), b4;
    } else {
      c, rest := None, b0;
    }
  }

  // ---------------------------------------------------------------------------
  // The whole parameter set
  // ---------------------------------------------------------------------------

  /** The fields in front of the body; those of the body are still to be read. */
  lemma ReadsHeader(bits: seq<bit>) returns (s: SpsFields)
    requires GetHeader(bits).Some?
    ensures FitsUe(s.id) && (s.high.Some? <==> s.profile in HIGH_PROFILES)
    ensures s.high.Some? ==> HighPrints(s.high.value)
    ensures var (chroma, body) := GetHeader(bits).value;
            && chroma == (if s.high.Some? then s.high.value.chroma else 1)
            && bits == Binary(s.profile, 8) + (Binary(s.constraints, 8) + (Binary(s.level, 8) + (UeCode(s.id) +
                 (if s.high.Some? then PutHigh(s.high.value, body) else body))))
  {
    ReadsByte(bits);
    var (profile, b1) := ReadU(bits, 8).value;
    ReadsByte(b1);
    var (constraints, b2) := ReadU(b1, 8).value;
    ReadsByte(b2);
    var (level, b3) := ReadU(b2, 8).value;
    UeReadsOnlyCodes(b3);
    var (id, b4) := ReadUe(b3).value;
    var high := None;
    if profile in HIGH_PROFILES {
      var h := ReadsHigh(b4);
      high := Some(h);
    }
    s := SpsFields(profile, constraints, level, id, high, 0, Type2, 0, 0, Size(0, 0, 0, 0, 0), None, []);
  }

  lemma ReadsBody(bits: seq<bit>, chroma: nat, head: SpsFields) returns (s: SpsFields, rest: seq<bit>)
    requires GetBody(bits, chroma).Some?
    ensures s == head.(log2FrameNum := s.log2FrameNum, order := s.order, refFrames := s.refFrames, gaps := s.gaps,
                       size := s.size, crop := s.crop)
    ensures FitsUe(s.log2FrameNum) && OrderPrints(s.order) && FitsUe(s.refFrames)
    ensures FitsUe(s.size.widthMbs) && FitsUe(s.size.heightUnits) && CropFits(s.crop)
    ensures bits == PutBody(s, rest)
  {
    UeReadsOnlyCodes(bits);
    var (log2FrameNum, b1) := ReadUe(bits).value;
    var order := ReadsOrder(b1);
    var b2 := SkipOrder(b1).value;
    UeReadsOnlyCodes(b2);
    var (refFrames, b3) := ReadUe(b2).value;
    ReadsBit(b3);
    var (gaps, b4) := ReadU(b3, 1).value;
    var size := ReadsSize(b4);
    var crop;
    crop, rest := ReadsCrop(GetSize(b4).value.1);
    s := head.(log2FrameNum := log2FrameNum, order := order, refFrames := refFrames, gaps := gaps, size := size,
               crop := crop);
  }

  /** What is accepted are the printed bits of some fields. */
  lemma ReadsFields(bits: seq<bit>) returns (s: SpsFields, rest: seq<bit>)
    requires GetDimensions(bits).Some?
    ensures Printable(s) && bits == PutFields(s, rest)
  {
    var head := ReadsHeader(bits);
    var (chroma, body) := GetHeader(bits).value;
    s, rest := ReadsBody(body, chroma, head);
  }

  /** The payload of a NAL unit is, without its emulation prevention, what these fields are printed as. */
  predicate Prints(s: SpsFields, rest: seq<bit>, payload: Bytes) {
    Printable(s) && BitsOf(Unescape(payload, 0)) == PutFields(s, rest)
  }

  /**
   On arbitrary bytes: a picture size is returned if and only if the bytes are an SPS that some fields
   print as, and it is the size the standard defines for these.
   */
  lemma DimensionsIff(nal: Bytes, d: (nat, nat))
    ensures Dimensions(nal) == Some(d) <==>
            NalUnitType(nal) == Some(SPS) && exists s, rest :: Prints(s, rest, nal[1..]) && PictureSize(s) == Some(d)
  {
    if NalUnitType(nal) == Some(SPS) {
      var bits := BitsOf(Unescape(nal[1..], 0));
      forall s, rest | Prints(s, rest, nal[1..])
        ensures Dimensions(nal) == PictureSize(s)
      {
        FieldsRoundTrip(s, rest);
      }
      if GetDimensions(bits).Some? {
        var s, rest := ReadsFields(bits);
        assert Prints(s, rest, nal[1..]);
      }
    }
  }
}
