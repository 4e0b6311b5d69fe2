/** The parser that reads a picture size out of a parameter set, and what it promises. */
module SpsParser {
  import opened Prelude
  import opened AnnexB
  import opened AnnexBTheorems
  import opened ParameterSets
  import opened Bits
  import opened EmulationPrevention
  import opened Sps

  /** The profile's chroma format, and the bits behind the fields that may hold it. */
  function GetHeader(bits: seq<bit>): Option<(nat, seq<bit>)> {
    var (profile, b1) :- ReadU(bits, 8);
    var b2 :- SkipU(b1, 8);
    var b3 :- SkipU(b2, 8);
    var b4 :- SkipUe(b3);
    if profile in HIGH_PROFILES then GetHigh(b4) else Some((1, b4))
  }

  function GetBody(bits: seq<bit>, chroma: nat): Option<(nat, nat)> {
    var b1 :- SkipUe(bits);
    var b2 :- SkipOrder(b1);
    var b3 :- SkipUe(b2);
    var b4 :- SkipU(b3, 1);
    var (grid, b5) :- GetSize(b4);
    var crop :- GetCrop(b5);
    if grid.frameMbsOnly < 2 then CroppedSize(grid, crop, chroma) else None
  }

  /** The picture size the bits of an RBSP describe. */
  function GetDimensions(bits: seq<bit>): Option<(nat, nat)> {
    var (chroma, left) :- GetHeader(bits);
    GetBody(left, chroma)
  }

  /** The picture size a NAL unit describes; None when it is no SPS or is malformed. */
  function Dimensions(sps: Bytes): Option<(nat, nat)> {
    if NalUnitType(sps) != Some(SPS) then None else GetDimensions(BitsOf(Unescape(sps[1..], 0)))
  }

  // ---------------------------------------------------------------------------
  // The loops
  // ---------------------------------------------------------------------------

  method WalkList(r: BitReader, size: nat) returns (ok: bool)
    requires r.Valid()
    modifies r
    ensures r.Valid()
    ensures match SkipList(old(r.Rest()), size, 8, 8)
            case None => !ok
            case Some(left) => ok && r.Rest() == left
  {
    var lastScale, nextScale := 8, 8;
    ghost var whole := SkipList(r.Rest(), size, 8, 8);
    for j := 0 to size
      invariant r.Valid()
      invariant whole == SkipList(r.Rest(), size - j, lastScale, nextScale)
    {
      if nextScale != 0 {
        var delta := r.Se();
        if delta.None? {
          return false;
        }
        nextScale := NextScale(lastScale, delta.value);
      }
      if nextScale != 0 {
        lastScale := nextScale;
      }
    }
    return true;
  }

  method WalkLists(r: BitReader, lists: nat) returns (ok: bool)
    requires r.Valid()
    modifies r
    ensures r.Valid()
    ensures match SkipLists(old(r.Rest()), 0, lists)
            case None => !ok
            case Some(left) => ok && r.Rest() == left
  {
    ghost var whole := SkipLists(r.Rest(), 0, lists);
    for i := 0 to lists
      invariant r.Valid()
      invariant whole == SkipLists(r.Rest(), i, lists)
    {
      var present := r.U(1);
      if present.None? {
        return false;
      }
      if present.value == 1 {
        var size := if i < 6 then 16 else 64;
        var walked := WalkList(r, size);
        if !walked {
          return false;
        }
      }
    }
    return true;
  }

  method WalkHigh(r: BitReader) returns (chroma: Option<nat>)
    requires r.Valid()
    modifies r
    ensures r.Valid()
    ensures match GetHigh(old(r.Rest()))
            case None => chroma.None?
            case Some(p) => chroma == Some(p.0) && r.Rest() == p.1
  {
    var format :- r.Ue();
    if format == 3 {
      var _ :- r.U(1);
    }
    var _ :- r.Ue();
    var _ :- r.Ue();
    var _ :- r.U(1);
    var present :- r.U(1);
    if present == 1 {
      var walked := WalkLists(r, if format != 3 then 8 else 12);
      if !walked {
        return None;
      }
    }
    return Some(format);
  }

  method WalkOrder(r: BitReader) returns (ok: bool)
    requires r.Valid()
    modifies r
    ensures r.Valid()
    ensures match SkipOrder(old(r.Rest()))
            case None => !ok
            case Some(left) => ok && r.Rest() == left
  {
    var kind := r.Ue();
    if kind.None? {
      return false;
    }
    if kind.value == 0 {
      var lsb := r.Ue();
      return lsb.Some?;
    } else if kind.value == 1 {
      ok := WalkCycle(r);
      return;
    }
    return true;
  }

  method WalkCycle(r: BitReader) returns (ok: bool)
    requires r.Valid()
    modifies r
    ensures r.Valid()
    ensures match SkipCycle(old(r.Rest()))
            case None => !ok
            case Some(left) => ok && r.Rest() == left
  {
    var flag := r.U(1);
    if flag.None? {
      return false;
    }
    var nonRef := r.Se();
    if nonRef.None? {
      return false;
    }
    var topToBottom := r.Se();
    if topToBottom.None? {
      return false;
    }
    var count := r.Ue();
    if count.None? {
      return false;
    }
    ok := WalkOffsets(r, count.value);
  }

  method WalkOffsets(r: BitReader, count: nat) returns (ok: bool)
    requires r.Valid()
    modifies r
    ensures r.Valid()
    ensures match SkipOffsets(old(r.Rest()), count)
            case None => !ok
            case Some(left) => ok && r.Rest() == left
  {
    ghost var whole := SkipOffsets(r.Rest(), count);
    for j := 0 to count
      invariant r.Valid()
      invariant whole == SkipOffsets(r.Rest(), count - j)
    {
      var offset := r.Se();
      if offset.None? {
        return false;
      }
    }
    return true;
  }

  method WalkHeader(r: BitReader) returns (chroma: Option<nat>)
    requires r.Valid()
    modifies r
    ensures r.Valid()
    ensures match GetHeader(old(r.Rest()))
            case None => chroma.None?
            case Some(p) => chroma == Some(p.0) && r.Rest() == p.1
  {
    var profile :- r.U(8);
    var _ :- r.U(8);
    var _ :- r.U(8);
    var _ :- r.Ue();
    if profile in HIGH_PROFILES {
      chroma := WalkHigh(r);
    } else {
      return Some(1);
    }
  }

  method WalkSize(r: BitReader) returns (grid: Option<Grid>)
    requires r.Valid()
    modifies r
    ensures r.Valid()
    ensures match GetSize(old(r.Rest()))
            case None => grid.None?
            case Some(p) => grid == Some(p.0) && r.Rest() == p.1
  {
    var w :- r.Ue();
    var h :- r.Ue();
    var only :- r.U(1);
    if only == 0 {
      var _ :- r.U(1);
    }
    var _ :- r.U(1);
    return Some(Grid(w, h, only));
  }

  method WalkCrop(r: BitReader) returns (crop: Option<Crop>)
    requires r.Valid()
    modifies r
    ensures r.Valid()
    ensures crop == GetCrop(old(r.Rest()))
  {
    var present :- r.U(1);
    if present == 1 {
      var left :- r.Ue();
      var right :- r.Ue();
      var top :- r.Ue();
      var bottom :- r.Ue();
      return Some(Crop(left, right, top, bottom));
    }
    return Some(NO_CROP);
  }

  method WalkBody(r: BitReader, chroma: nat) returns (d: Option<(nat, nat)>)
    requires r.Valid()
    modifies r
    ensures d == GetBody(old(r.Rest()), chroma)
  {
    var _ :- r.Ue();
    var ordered := WalkOrder(r);
    if !ordered {
      return None;
    }
    var _ :- r.Ue();
    var _ :- r.U(1);
    var grid :- WalkSize(r);
    var crop :- WalkCrop(r);
    return if grid.frameMbsOnly < 2 then CroppedSize(grid, crop, chroma) else None;
  }

  /** `sps_dimensions`: the size the NAL unit describes. */
  method SpsDimensions(sps: Bytes) returns (d: Option<(nat, nat)>)
    ensures d == Dimensions(sps)
  {
    if NalUnitType(sps) != Some(SPS) {
      return None;
    }
    var rbsp := RemoveEmulationPrevention(sps[1..]);
    var r := new BitReader(rbsp);
    var chroma :- WalkHeader(r);
    d := WalkBody(r, chroma);
  }

  // ---------------------------------------------------------------------------
  // What the parser promises
  // ---------------------------------------------------------------------------

  lemma SkipByte(b: byte, rest: seq<bit>)
    ensures ReadU(Binary(b, 8) + rest, 8) == Some((b, rest))
  {
    assert Pow2(8) == 256;
    ReadBinary(b, 8, rest);
  }

  lemma HeaderRoundTrip(s: SpsFields, body: seq<bit>)
    requires Printable(s)
    ensures var high := if s.high.Some? then PutHigh(s.high.value, body) else body;
            GetHeader(Binary(s.profile, 8) + (Binary(s.constraints, 8) + (Binary(s.level, 8) + (UeCode(s.id) + high))))
            == Some((if s.high.Some? then s.high.value.chroma else 1, body))
  {
    var high := if s.high.Some? then PutHigh(s.high.value, body) else body;
    var b3 := UeCode(s.id) + high;
    var b2 := Binary(s.level, 8) + b3;
    SkipByte(s.profile, Binary(s.constraints, 8) + b2);
    SkipByte(s.constraints, b2);
    SkipByte(s.level, b3);
    SkipUeCode(s.id, high);
    if s.high.Some? {
      HighRoundTrip(s.high.value, body);
    }
  }

  lemma BodyRoundTrip(s: SpsFields, rest: seq<bit>, chroma: nat)
    requires Printable(s)
    ensures GetBody(PutBody(s, rest), chroma) ==
            CroppedSize(Grid(s.size.widthMbs, s.size.heightUnits, s.size.frameMbsOnly),
                        if s.crop.Some? then s.crop.value else NO_CROP, chroma)
  {
    var b5 := PutCrop(s.crop, rest);
    var b4 := PutSize(s.size, b5);
    var b3 := [s.gaps] + b4;
    var b2 := UeCode(s.refFrames) + b3;
    SkipUeCode(s.log2FrameNum, PutOrder(s.order, b2));
    OrderRoundTrip(s.order, b2);
    SkipUeCode(s.refFrames, b3);
    BitRoundTrip(s.gaps, b4);
    SizeRoundTrip(s.size, b5);
    CropRoundTrip(s.crop, rest);
  }

  lemma FieldsRoundTrip(s: SpsFields, rest: seq<bit>)
    requires Printable(s)
    ensures GetDimensions(PutFields(s, rest)) == PictureSize(s)
  {
    HeaderRoundTrip(s, PutBody(s, rest));
    var chroma := if s.high.Some? then s.high.value.chroma else 1;
    BodyRoundTrip(s, rest, chroma);
    CroppedSizeIsPictureSize(s, chroma);
  }

  lemma LastByteHoldsStopBit(bits: seq<bit>, k: nat)
    requires |bits| % 8 == 0 && k < |bits| <= k + 8 && bits[k] == 1
    ensures Pack(bits) != [] && Pack(bits)[|Pack(bits)| - 1] != 0
    decreases |bits|
  {
    if |bits| > 8 {
      LastByteHoldsStopBit(bits[8..], k - 8);
    } else {
      assert bits[..8] == bits && bits[8..] == [];
    }
  }

  /** A written parameter set is a well-formed NAL unit: no embedded start code, no zero at its end. */
  lemma SpsNalIsWellFormed(header: byte, s: SpsFields)
    requires header != 0
    ensures WellFormed(SpsNal(header, s))
  {
    var bits := RbspBits(s);
    var payload := PutFields(s, s.tail);
    LastByteHoldsStopBit(bits, |payload|);
    EscapeKeepsLast(Pack(bits), 0);
    EscapedNalHoldsNoMarker(header, Pack(bits));
  }

  /** The bits of a NAL unit's payload are those of its fields and the trailing bits. */
  lemma PrintedBits(header: byte, s: SpsFields)
    ensures SpsNal(header, s) != []
    ensures BitsOf(Unescape(SpsNal(header, s)[1..], 0)) == PutFields(s, s.tail + Trailing(|PutFields(s, s.tail)|))
  {
    var payload := PutFields(s, s.tail);
    var rbsp := Pack(RbspBits(s));
    PackRoundTrip(RbspBits(s));
    EscapeRoundTrip(rbsp, 0);
    assert SpsNal(header, s)[1..] == Escape(rbsp, 0);
    AppendFields(s, s.tail, Trailing(|payload|));
  }

  /** Whatever the reader accepts, it reads the size of the fields it was printed from. */
  lemma PrintedSize(header: byte, s: SpsFields)
    requires header % 32 == SPS && Printable(s)
    ensures Dimensions(SpsNal(header, s)) == PictureSize(s)
  {
    PrintedBits(header, s);
    FieldsRoundTrip(s, s.tail + Trailing(|PutFields(s, s.tail)|));
  }

  /**
   For every parameter set the syntax can express, the parser returns the cropped picture size the
   standard defines, or None exactly where that size does not fit 32 bits or is cropped away.
   */
  lemma SpsRoundTrip(header: byte, s: SpsFields)
    requires header % 32 == SPS && Encodable(s)
    ensures Dimensions(SpsNal(header, s)) == PictureSize(s)
  {
    EncodablePrints(s);
    PrintedSize(header, s);
  }

  /** The size survives the trip through a config, Annex-B and the scanner. */
  lemma SizeThroughAnnexB(header: byte, s: SpsFields, pps: Bytes)
    requires header % 32 == SPS && Encodable(s)
    requires NalUnitType(pps) == Some(PPS) && NoMarker(pps)
    ensures var cfg := ConfigOf(ConfigToAnnexB(CodecConfig(SpsNal(header, s), pps)));
            cfg.Some? && Dimensions(cfg.value.sps) == PictureSize(s) && cfg.value.pps == pps
  {
    SpsNalIsWellFormed(header, s);
    SpsRoundTrip(header, s);
    ConfigRoundTrip(CodecConfig(SpsNal(header, s), pps));
  }
}
