/** The parameter set of a recorded clip, bit by bit: the layout is the one a real encoder writes. */
module SpsExample {
  import opened Prelude
  import opened AnnexB
  import opened ParameterSets
  import opened Bits
  import opened EmulationPrevention
  import opened Sps
  import opened SpsParser
  import opened SpsOverflow

  /** High profile at level 5.0, coded as 150 by 68 macroblocks, the last 8 lines cropped off. */
  const CLIP_SPS: Bytes := [0x27, 0x64, 0x00, 0x32, 0xAC, 0x56, 0x80, 0x25, 0x80, 0x89, 0xF9, 0x50]

  function ClipFields(): SpsFields {
    SpsFields(100, 0, 50, 0, Some(High(1, 0, 0, 0, 0, None)), 1, Type0(2), 1, 0, Size(149, 67, 1, 0, 1),
              Some(Crop(0, 0, 0, 4)), [])
  }

  lemma ShortCodes()
    ensures UeCode(0) == [1] && UeCode(1) == [0, 1, 0] && UeCode(2) == [0, 1, 1] && UeCode(4) == [0, 0, 1, 0, 1]
  {
    assert Log2(5) == 2 && Binary(1, 2) == [0, 1];
  }

  lemma {:induction false} ZeroBits(n: nat)
    ensures Zeros(n) == seq(n, i => 0)
  {
    if n > 0 {
      ZeroBits(n - 1);
    }
  }

  /** 22 in seven bits, and 4 in six. */
  lemma LowBits()
    ensures Binary(22, 7) == [0, 0, 1, 0, 1, 1, 0] && Binary(4, 6) == [0, 0, 0, 1, 0, 0]
  {
    assert Binary(2, 4) == [0, 0, 1, 0];
    assert Binary(5, 5) == [0, 0, 1, 0, 1];
    assert Binary(11, 6) == [0, 0, 1, 0, 1, 1];
    assert Binary(1, 4) == [0, 0, 0, 1];
    assert Binary(2, 5) == [0, 0, 0, 1, 0];
  }

  lemma JoinWidth(zeros: seq<bit>, low: seq<bit>)
    requires zeros == [0, 0, 0, 0, 0, 0, 0] && low == [0, 0, 1, 0, 1, 1, 0]
    ensures zeros + [1] + low == [0, 0, 0, 0, 0] + [0, 0, 1, 0, 0, 1, 0, 1] + [1, 0]
  {
  }

  lemma WidthCode()
    ensures UeCode(149) == [0, 0, 0, 0, 0] + [0, 0, 1, 0, 0, 1, 0, 1] + [1, 0]
  {
    assert Pow2(7) == 128;
    Log2Is(150, 7);
    LowBits();
    ZeroBits(7);
    JoinWidth(Zeros(7), Binary(22, 7));
  }

  lemma JoinHeight(zeros: seq<bit>, low: seq<bit>)
    requires zeros == [0, 0, 0, 0, 0, 0] && low == [0, 0, 0, 1, 0, 0]
    ensures zeros + [1] + low + [1] == [0, 0, 0, 0, 0, 0] + [1, 0, 0, 0, 1, 0, 0, 1]
  {
  }

  lemma HeightCode()
    ensures UeCode(67) + [1] == [0, 0, 0, 0, 0, 0] + [1, 0, 0, 0, 1, 0, 0, 1]
  {
    assert Pow2(6) == 64;
    Log2Is(68, 6);
    LowBits();
    ZeroBits(6);
    JoinHeight(Zeros(6), Binary(4, 6));
  }

  /** Behind the level: an id, the fields of the High profile, and no scaling matrix. */
  lemma HighBits(rest: seq<bit>)
    ensures UeCode(0) + PutHigh(High(1, 0, 0, 0, 0, None), rest) == ByteBits(0xAC) + rest
  {
    ShortCodes();
    assert ByteBits(0xAC) == [1, 0, 1, 0, 1, 1, 0, 0];
  }

  /** The cropping fields, and six more bits. */
  lemma CropBits()
    ensures [1] + PutCrop(Some(Crop(0, 0, 0, 4)), [0, 1, 0, 0, 0, 0]) == ByteBits(0xF9) + ByteBits(0x50)
  {
    ShortCodes();
    assert ByteBits(0xF9) == [1, 1, 1, 1, 1, 0, 0, 1] && ByteBits(0x50) == [0, 1, 0, 1, 0, 0, 0, 0];
  }

  lemma FrameNumBits(rest: seq<bit>)
    ensures UeCode(1) + PutOrder(Type0(2), UeCode(1) + ([0] + rest)) == [0, 1, 0, 1, 0, 1, 1, 0] + [1, 0, 0] + rest
  {
    ShortCodes();
  }

  lemma SizeBits(rest: seq<bit>)
    ensures PutSize(Size(149, 67, 1, 0, 1), rest) == UeCode(149) + (UeCode(67) + [1]) + ([1] + rest)
  {
  }

  lemma Regroup(a: seq<bit>, b: seq<bit>, c: seq<bit>, x: seq<bit>, d: seq<bit>, e: seq<bit>, y: seq<bit>)
    ensures (a + b) + ((c + x + d) + (e + y)) == a + ((b + c) + (x + ((d + e) + y)))
  {
  }

  lemma MiddleBytes()
    ensures ByteBits(0x56) == [0, 1, 0, 1, 0, 1, 1, 0] && ByteBits(0x80) == [1, 0, 0, 0, 0, 0, 0, 0]
    ensures ByteBits(0x25) == [0, 0, 1, 0, 0, 1, 0, 1] && ByteBits(0x89) == [1, 0, 0, 0, 1, 0, 0, 1]
  {
  }

  lemma SplitByte()
    ensures [1, 0, 0] + [0, 0, 0, 0, 0] == [1, 0, 0, 0, 0, 0, 0, 0] == [1, 0] + [0, 0, 0, 0, 0, 0]
  {
  }

  lemma MiddleBits()
    ensures [0, 1, 0, 1, 0, 1, 1, 0] + [1, 0, 0] + (UeCode(149) + (UeCode(67) + [1])) ==
            ByteBits(0x56) + (ByteBits(0x80) + (ByteBits(0x25) + (ByteBits(0x80) + ByteBits(0x89))))
  {
    WidthCode();
    HeightCode();
    MiddleBytes();
    Regroup([0, 1, 0, 1, 0, 1, 1, 0], [1, 0, 0], [0, 0, 0, 0, 0], [0, 0, 1, 0, 0, 1, 0, 1], [1, 0],
            [0, 0, 0, 0, 0, 0], [1, 0, 0, 0, 1, 0, 0, 1]);
    SplitByte();
  }

  /** Bytes of a list, one after the other. */
  lemma BytesInFront(b: byte, rest: Bytes)
    ensures BitsOf([b] + rest) == ByteBits(b) + BitsOf(rest)
  {
    assert ([b] + rest)[1..] == rest;
  }

  const BODY_START := [0, 1, 0, 1, 0, 1, 1, 0] + [1, 0, 0]

  /** The body, up to the end of the height and the frame flag, and what is left. */
  lemma BodyBits(rest: seq<bit>)
    ensures PutBody(ClipFields(), rest) ==
            BODY_START + (UeCode(149) + (UeCode(67) + [1])) + ([1] + PutCrop(Some(Crop(0, 0, 0, 4)), rest))
  {
    var crop := PutCrop(Some(Crop(0, 0, 0, 4)), rest);
    FrameNumBits(PutSize(Size(149, 67, 1, 0, 1), crop));
    SizeBits(crop);
    Assoc(BODY_START, UeCode(149) + (UeCode(67) + [1]), [1] + crop);
  }

  lemma TwoBytes(a: byte, b: byte)
    ensures BitsOf([a, b]) == ByteBits(a) + ByteBits(b)
  {
    assert [a, b] == [a] + [b];
    BytesInFront(a, [b]);
    OneByte(b);
  }

  lemma FiveBytes(a: byte, b: byte, c: byte, d: byte, e: byte)
    ensures BitsOf([a, b, c, d, e]) == ByteBits(a) + (ByteBits(b) + (ByteBits(c) + (ByteBits(d) + ByteBits(e))))
  {
    assert [a, b, c, d, e] == [a] + ([b] + ([c] + ([d] + [e])));
    BytesInFront(a, [b] + ([c] + ([d] + [e])));
    FourBytes(b, c, d, e);
  }

  lemma BodyIsBytes()
    ensures PutBody(ClipFields(), [0, 1, 0, 0, 0, 0]) == BitsOf([0x56, 0x80, 0x25, 0x80, 0x89, 0xF9, 0x50])
  {
    BodyBits([0, 1, 0, 0, 0, 0]);
    MiddleBits();
    CropBits();
    BitsAppend([0x56, 0x80, 0x25, 0x80, 0x89], [0xF9, 0x50]);
    FiveBytes(0x56, 0x80, 0x25, 0x80, 0x89);
    TwoBytes(0xF9, 0x50);
    assert [0x56, 0x80, 0x25, 0x80, 0x89] + [0xF9, 0x50] == [0x56, 0x80, 0x25, 0x80, 0x89, 0xF9, 0x50];
  }

  lemma HeadIsBytes(body: Bytes)
    ensures Binary(100, 8) + (Binary(0, 8) + (Binary(50, 8) + (ByteBits(0xAC) + BitsOf(body)))) ==
            BitsOf([0x64, 0x00, 0x32, 0xAC] + body)
  {
    assert [0x64, 0x00, 0x32, 0xAC] + body == [0x64] + ([0x00] + ([0x32] + ([0xAC] + body)));
    BytesInFront(0xAC, body);
    BytesInFront(0x32, [0xAC] + body);
    BytesInFront(0x00, [0x32] + ([0xAC] + body));
    BytesInFront(0x64, [0x00] + ([0x32] + ([0xAC] + body)));
    BinaryIsByte(0x64);
    BinaryIsByte(0);
    BinaryIsByte(0x32);
  }

  lemma ClipIsPrinted()
    ensures BitsOf(Unescape(CLIP_SPS[1..], 0)) == PutFields(ClipFields(), [0, 1, 0, 0, 0, 0])
  {
    var body: Bytes := [0x56, 0x80, 0x25, 0x80, 0x89, 0xF9, 0x50];
    assert CLIP_SPS[1..] == [0x64, 0x00, 0x32, 0xAC] + body;
    NothingToRemove(CLIP_SPS[1..], 0);
    HeadIsBytes(body);
    HighBits(BitsOf(body));
    BodyIsBytes();
  }

  lemma ClipSize()
    ensures Printable(ClipFields()) && PictureSize(ClipFields()) == Some((2400, 1080))
  {
  }

  lemma ClipIsSps()
    ensures NalUnitType(CLIP_SPS) == Some(SPS)
  {
  }

  /** The parser reads the recorded set as the fields it was written with: 2400 by 1080. */
  lemma ClipIs2400By1080()
    ensures Dimensions(CLIP_SPS) == Some((2400, 1080))
  {
    ClipIsSps();
    ClipIsPrinted();
    ClipSize();
    FieldsRoundTrip(ClipFields(), [0, 1, 0, 0, 0, 0]);
  }
}
