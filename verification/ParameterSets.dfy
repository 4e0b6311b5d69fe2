/**
 Parameter sets in an Annex-B stream: finding the first SPS and PPS, telling whether a stream
 describes itself, and putting the sets in front of a keyframe that does not.
 */
module ParameterSets {
  import opened Prelude
  import opened AnnexB
  import opened AnnexBTheorems

  datatype CodecConfig = CodecConfig(sps: Bytes, pps: Bytes)

  /** An access unit, or the refusal of an empty payload. */
  datatype AccessUnitResult = Unit(bytes: Bytes) | EmptyPayload

  function FirstOfType(units: seq<Bytes>, ty: nat): Option<Bytes> {
    if units == [] then None
    else if NalUnitType(units[0]) == Some(ty) then Some(units[0])
    else FirstOfType(units[1..], ty)
  }

  /** The first SPS and the first PPS of a stream, when it has both. */
  function ConfigOf(stream: Bytes): Option<CodecConfig> {
    var sps :- FirstOfType(Units(stream), SPS);
    var pps :- FirstOfType(Units(stream), PPS);
    Some(CodecConfig(sps, pps))
  }

  predicate SelfDescribing(stream: Bytes) {
    HasType(Units(stream), SPS) && HasType(Units(stream), PPS)
  }

  predicate Keyframe(stream: Bytes) {
    HasType(Units(stream), IDR_SLICE)
  }

  function ConfigToAnnexB(cfg: CodecConfig): Bytes {
    START_CODE + cfg.sps + START_CODE + cfg.pps
  }

  /** What the decoder is handed for a payload. */
  function AccessUnit(nal: Bytes, keyframe: bool, config: Option<CodecConfig>): AccessUnitResult {
    if nal == [] then EmptyPayload
    else if config.Some? && keyframe && !SelfDescribing(nal) then Unit(ConfigToAnnexB(config.value) + nal)
    else Unit(nal)
  }

  // ---------------------------------------------------------------------------
  // The loops
  // ---------------------------------------------------------------------------

  method ExtractCodecConfig(stream: Bytes) returns (r: Option<CodecConfig>)
    ensures r == ConfigOf(stream)
  {
    var sps: Option<Bytes> := None;
    var pps: Option<Bytes> := None;
    var units := new NalUnits(stream);
    while sps.None? || pps.None?
      invariant units.Valid() && fresh(units)
      invariant FirstOfType(Units(stream), SPS) == if sps.Some? then sps else FirstOfType(units.Remaining(), SPS)
      invariant FirstOfType(Units(stream), PPS) == if pps.Some? then pps else FirstOfType(units.Remaining(), PPS)
      decreases |units.Remaining()|
    {
      var nal := units.Next();
      if nal.None? {
        return None;
      }
      var ty := NalUnitType(nal.value);
      if ty == Some(SPS) && sps.None? {
        sps := nal;
      } else if ty == Some(PPS) && pps.None? {
        pps := nal;
      }
    }
    return Some(CodecConfig(sps.value, pps.value));
  }

  method HasInBandConfig(stream: Bytes) returns (r: bool)
    ensures r == SelfDescribing(stream)
  {
    var hasSps, hasPps := false, false;
    var units := new NalUnits(stream);
    while !(hasSps && hasPps)
      invariant units.Valid() && fresh(units)
      invariant HasType(Units(stream), SPS) <==> hasSps || HasType(units.Remaining(), SPS)
      invariant HasType(Units(stream), PPS) <==> hasPps || HasType(units.Remaining(), PPS)
      decreases |units.Remaining()|
    {
      ghost var todo := units.Remaining();
      var nal := units.Next();
      if nal.None? {
        return false;
      }
      TypeOfHeadOrTail(todo, SPS);
      TypeOfHeadOrTail(todo, PPS);
      var ty := NalUnitType(nal.value);
      if ty == Some(SPS) {
        hasSps := true;
      } else if ty == Some(PPS) {
        hasPps := true;
      }
    }
    return true;
  }

  method IsKeyframe(stream: Bytes) returns (r: bool)
    ensures r == Keyframe(stream)
  {
    var units := new NalUnits(stream);
    while true
      invariant units.Valid() && fresh(units)
      invariant Keyframe(stream) <==> HasType(units.Remaining(), IDR_SLICE)
      decreases |units.Remaining()|
    {
      ghost var todo := units.Remaining();
      var nal := units.Next();
      if nal.None? {
        return false;
      }
      TypeOfHeadOrTail(todo, IDR_SLICE);
      if NalUnitType(nal.value) == Some(IDR_SLICE) {
        return true;
      }
    }
  }

  method ToAnnexBAccessUnit(nal: Bytes, keyframe: bool, config: Option<CodecConfig>) returns (r: AccessUnitResult)
    ensures r == AccessUnit(nal, keyframe, config)
  {
    if nal == [] {
      return EmptyPayload;
    }
    var inject := false;
    if config.Some? && keyframe {
      var described := HasInBandConfig(nal);
      inject := !described;
    }
    if !inject {
      return Unit(nal);
    }
    return Unit(START_CODE + config.value.sps + START_CODE + config.value.pps + nal);
  }

  // ---------------------------------------------------------------------------
  // What they promise
  // ---------------------------------------------------------------------------

  lemma TypeOfHeadOrTail(units: seq<Bytes>, ty: nat)
    requires units != []
    ensures HasType(units, ty) <==> NalUnitType(units[0]) == Some(ty) || HasType(units[1..], ty)
  {
    assert units == [units[0]] + units[1..];
  }

  lemma {:induction false} FirstOfTypeMeaning(units: seq<Bytes>, ty: nat)
    ensures FirstOfType(units, ty).Some? <==> HasType(units, ty)
    ensures FirstOfType(units, ty).Some? ==>
              FirstOfType(units, ty).value in units && NalUnitType(FirstOfType(units, ty).value) == Some(ty)
  {
    if units != [] {
      TypeOfHeadOrTail(units, ty);
      FirstOfTypeMeaning(units[1..], ty);
    }
  }

  /** A stream yields a config exactly when it is self-describing. */
  lemma ConfigIffSelfDescribing(stream: Bytes)
    ensures ConfigOf(stream).Some? <==> SelfDescribing(stream)
  {
    FirstOfTypeMeaning(Units(stream), SPS);
    FirstOfTypeMeaning(Units(stream), PPS);
  }

  /** Parameter sets whose headers say so and that hold no start code. */
  ghost predicate Typed(cfg: CodecConfig) {
    && NalUnitType(cfg.sps) == Some(SPS) && NoMarker(cfg.sps)
    && NalUnitType(cfg.pps) == Some(PPS) && NoMarker(cfg.pps)
  }

  /** The `k`-th unit is the first one of its type. */
  ghost predicate IsFirst(units: seq<Bytes>, k: int, ty: nat, unit: Bytes) {
    && 0 <= k < |units| && units[k] == unit && NalUnitType(unit) == Some(ty)
    && forall j :: 0 <= j < k ==> NalUnitType(units[j]) != Some(ty)
  }

  lemma {:induction false} FirstOfTypeIsFirst(units: seq<Bytes>, ty: nat) returns (k: nat)
    requires FirstOfType(units, ty).Some?
    ensures IsFirst(units, k, ty, FirstOfType(units, ty).value)
  {
    if NalUnitType(units[0]) == Some(ty) {
      k := 0;
    } else {
      k := FirstOfTypeIsFirst(units[1..], ty);
      k := k + 1;
    }
  }

  /** A keyframe is a stream with a unit of type 5, by the low five bits of its first byte. */
  lemma KeyframeIff(stream: Bytes)
    ensures Keyframe(stream) <==>
            exists u :: u in Units(stream) && u != [] && u[0] % 32 == 5
  {
    if u :| u in Units(stream) && u != [] && u[0] % 32 == 5 {
      assert NalUnitType(u) == Some(IDR_SLICE);
    }
    if u :| u in Units(stream) && NalUnitType(u) == Some(IDR_SLICE) {
      assert u != [] && u[0] % 32 == 5;
    }
  }

  /** What is extracted is the first SPS and the first PPS of the stream, wherever they stand. */
  lemma ExtractedIsFirst(stream: Bytes) returns (i: nat, j: nat)
    requires ConfigOf(stream).Some?
    ensures IsFirst(Units(stream), i, 7, ConfigOf(stream).value.sps)
    ensures IsFirst(Units(stream), j, 8, ConfigOf(stream).value.pps)
  {
    i := FirstOfTypeIsFirst(Units(stream), SPS);
    j := FirstOfTypeIsFirst(Units(stream), PPS);
  }

  /** Whatever is extracted is a proper pair of parameter sets. */
  lemma ExtractedIsTyped(stream: Bytes)
    requires ConfigOf(stream).Some?
    ensures Typed(ConfigOf(stream).value)
  {
    FirstOfTypeMeaning(Units(stream), SPS);
    FirstOfTypeMeaning(Units(stream), PPS);
    var _ := UnitIsSpan(stream, ConfigOf(stream).value.sps);
    var _ := UnitIsSpan(stream, ConfigOf(stream).value.pps);
  }

  lemma MarkerShows(pre: Bytes, nal: Bytes, post: Bytes, ty: nat)
    requires ty != 0 && NalUnitType(nal) == Some(ty)
    ensures HasType(Units(pre + START_CODE + nal + post), ty)
  {
    var s := pre + START_CODE + nal + post;
    assert MarkerOfType(s, |pre| + 1, ty) by {
      assert s[|pre| + 1..|pre| + 4] == [0, 0, 1];
      assert IsMarker(s, |pre| + 1);
    }
    MarkerHasType(s, |pre| + 1, ty);
  }

  /** The stored sets come in front, byte for byte, exactly where a keyframe brings none of its own. */
  lemma AccessUnitBytes(nal: Bytes, keyframe: bool, config: Option<CodecConfig>)
    ensures AccessUnit(nal, keyframe, config).EmptyPayload? <==> nal == []
    ensures nal != [] && (keyframe ==> config.None? || ConfigOf(nal).Some?) ==>
              AccessUnit(nal, keyframe, config) == Unit(nal)
    ensures nal != [] && keyframe && config.Some? && ConfigOf(nal).None? ==>
              AccessUnit(nal, keyframe, config) ==
              Unit([0, 0, 0, 1] + config.value.sps + [0, 0, 0, 1] + config.value.pps + nal)
  {
    ConfigIffSelfDescribing(nal);
  }

  /** A keyframe access unit built with a config always describes itself. */
  lemma KeyframeUnitDescribesItself(nal: Bytes, cfg: CodecConfig)
    requires nal != []
    requires NalUnitType(cfg.sps) == Some(SPS) && NalUnitType(cfg.pps) == Some(PPS)
    ensures AccessUnit(nal, true, Some(cfg)).Unit?
    ensures SelfDescribing(AccessUnit(nal, true, Some(cfg)).bytes)
  {
    if !SelfDescribing(nal) {
      var out := AccessUnit(nal, true, Some(cfg)).bytes;
      MarkerShows([], cfg.sps, START_CODE + cfg.pps + nal, SPS);
      assert out == [] + START_CODE + cfg.sps + (START_CODE + cfg.pps + nal);
      MarkerShows(START_CODE + cfg.sps, cfg.pps, nal, PPS);
    }
  }

  /** Building it again, with any config at all, changes nothing. */
  lemma KeyframeUnitIdempotent(nal: Bytes, cfg: CodecConfig, again: Option<CodecConfig>)
    requires nal != []
    requires NalUnitType(cfg.sps) == Some(SPS) && NalUnitType(cfg.pps) == Some(PPS)
    ensures var once := AccessUnit(nal, true, Some(cfg));
            once.Unit? && AccessUnit(once.bytes, true, again) == once
  {
    KeyframeUnitDescribesItself(nal, cfg);
  }

  /** Scanning a serialised config: the SPS loses its trailing zeros, the PPS stays whole. */
  lemma ConfigUnits(cfg: CodecConfig)
    requires Typed(cfg)
    ensures Units(ConfigToAnnexB(cfg)) == [Trimmed(cfg.sps), cfg.pps]
    ensures NalUnitType(Trimmed(cfg.sps)) == Some(SPS)
  {
    ScanTwo(cfg.sps, cfg.pps);
    TrimmedHeader(cfg.sps);
  }

  lemma TrimmedHeader(nal: Bytes)
    requires nal != [] && nal[0] != 0
    ensures Trimmed(nal) != [] && Trimmed(nal)[0] == nal[0]
  {
    TrimmedLengthMeaning(nal);
  }

  /** Serialising and extracting a config gives it back exactly when its SPS does not end in zero. */
  lemma ConfigRoundTrip(cfg: CodecConfig)
    requires Typed(cfg)
    ensures ConfigOf(ConfigToAnnexB(cfg)) == Some(CodecConfig(Trimmed(cfg.sps), cfg.pps))
    ensures ConfigOf(ConfigToAnnexB(cfg)) == Some(cfg) <==> cfg.sps[|cfg.sps| - 1] != 0
  {
    ConfigUnits(cfg);
    var units := Units(ConfigToAnnexB(cfg));
    assert units[1..][0] == cfg.pps;
    assert FirstOfType(units, PPS) == Some(cfg.pps);
    if cfg.sps[|cfg.sps| - 1] != 0 {
      assert Trimmed(cfg.sps) == cfg.sps;
    } else {
      TrimmedLengthMeaning(cfg.sps);
      assert |Trimmed(cfg.sps)| < |cfg.sps|;
    }
  }

  lemma InjectedUnits(chunks: seq<Chunk>, cfg: CodecConfig)
    requires WellFormed(cfg.sps) && WellFormed(cfg.pps)
    requires chunks != [] && forall c :: c in chunks ==> NoMarker(c.nal)
    ensures Units(ConfigToAnnexB(cfg) + Serialize(chunks)) == [cfg.sps] + ([cfg.pps] + Units(Serialize(chunks)))
  {
    var body := Serialize(chunks);
    var sps, pps := Chunk(true, cfg.sps), Chunk(true, cfg.pps);
    var all := [sps] + ([pps] + chunks);
    ChunkInFront(pps, chunks);
    ChunkInFront(sps, [pps] + chunks);
    RegroupTail(START_CODE, cfg.sps, START_CODE, cfg.pps, body);
    ScanSerialized([], all);
    ScanSerialized([], chunks);
    assert [] + body == body && [] + Serialize(all) == Serialize(all);
    TrimmedWellFormed(cfg.sps);
    TrimmedWellFormed(cfg.pps);
  }

  lemma FirstOfTypeInFront(u: Bytes, rest: seq<Bytes>, ty: nat)
    ensures FirstOfType([u] + rest, ty) == if NalUnitType(u) == Some(ty) then Some(u) else FirstOfType(rest, ty)
  {
    assert ([u] + rest)[1..] == rest;
  }

  /** A stream that opens with an SPS and a PPS has these as its config. */
  lemma ConfigInFront(stream: Bytes, cfg: CodecConfig, rest: seq<Bytes>)
    requires NalUnitType(cfg.sps) == Some(SPS) && NalUnitType(cfg.pps) == Some(PPS)
    requires Units(stream) == [cfg.sps] + ([cfg.pps] + rest)
    ensures ConfigOf(stream) == Some(cfg)
  {
    FirstOfTypeInFront(cfg.sps, [cfg.pps] + rest, SPS);
    FirstOfTypeInFront(cfg.sps, [cfg.pps] + rest, PPS);
    FirstOfTypeInFront(cfg.pps, rest, PPS);
  }

  lemma SerializedIsNotEmpty(chunks: seq<Chunk>)
    requires chunks != []
    ensures Serialize(chunks) != []
  {
    assert |Serialize(chunks)| >= |chunks[0].Prefix()|;
  }

  /** Injecting well-formed sets ahead of a start-code framed keyframe: exactly they come out first. */
  lemma InjectedConfigComesOut(chunks: seq<Chunk>, cfg: CodecConfig)
    requires Typed(cfg) && WellFormed(cfg.sps) && WellFormed(cfg.pps)
    requires chunks != [] && forall c :: c in chunks ==> NoMarker(c.nal)
    requires !SelfDescribing(Serialize(chunks))
    ensures var out := AccessUnit(Serialize(chunks), true, Some(cfg));
            out.Unit? && ConfigOf(out.bytes) == Some(cfg)
            && Units(out.bytes) == [cfg.sps] + ([cfg.pps] + Units(Serialize(chunks)))
  {
    InjectedUnits(chunks, cfg);
    SerializedIsNotEmpty(chunks);
    ConfigInFront(ConfigToAnnexB(cfg) + Serialize(chunks), cfg, Units(Serialize(chunks)));
  }
}
