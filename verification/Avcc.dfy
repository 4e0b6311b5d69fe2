/**
 AVCC framing, where every NAL unit follows a big-endian length of one to four bytes, and its
 rewriting as Annex-B.
 */
module Avcc {
  import opened Prelude
  import opened AnnexB
  import opened AnnexBTheorems
  import opened ParameterSets

  /** The units of a buffer whose lengths take `n` bytes; a truncated unit ends the list. */
  function UnitsOf(avcc: Bytes, n: nat): seq<Bytes>
    requires 1 <= n
    decreases |avcc|
  {
    if |avcc| < n then []
    else
      var len := BigEndian(avcc[..n]);
      var rest := avcc[n..];
      if len == 0 then UnitsOf(rest, n)
      else if len > |rest| then []
      else [rest[..len]] + UnitsOf(rest[len..], n)
  }

  /** The same for any claimed width; only widths 1 to 4 are walked at all. */
  function AvccUnits(avcc: Bytes, n: nat): seq<Bytes> {
    if 1 <= n <= 4 then UnitsOf(avcc, n) else []
  }

  /** What a walk that stops at the first unit `more` refuses gets to see. */
  function Visited(units: seq<Bytes>, more: Bytes -> bool): seq<Bytes> {
    if units == [] then []
    else if more(units[0]) then [units[0]] + Visited(units[1..], more)
    else [units[0]]
  }

  /** The callback of the converter, and that of the keyframe probe. */
  predicate Always(nal: Bytes) {
    true
  }

  predicate NotIdr(nal: Bytes) {
    NalUnitType(nal) != Some(IDR_SLICE)
  }

  /** Units behind 4-byte start codes. */
  function Framed(units: seq<Bytes>): Bytes {
    if units == [] then [] else START_CODE + units[0] + Framed(units[1..])
  }

  // ---------------------------------------------------------------------------
  // The loops
  // ---------------------------------------------------------------------------

  /** The big-endian length prefix at `i`. */
  method ReadLength(avcc: Bytes, i: nat, n: nat) returns (len: nat)
    requires i + n <= |avcc|
    ensures len == BigEndian(avcc[i..i + n])
  {
    len := 0;
    for k := 0 to n
      invariant len == BigEndian(avcc[i..i + k])
    {
      assert avcc[i..i + k + 1][..k] == avcc[i..i + k];
      len := len * 256 + avcc[i + k];
    }
  }

  /** One step of the walk: a zero length to skip, a unit, or the end. */
  datatype Step = Skip(next: nat) | Nal(unit: Bytes, next: nat) | Stop

  /** The step leads from the units at `i` to those behind it. */
  predicate IsStep(avcc: Bytes, i: nat, n: nat, step: Step)
    requires 1 <= n && i <= |avcc|
  {
    match step
    case Stop => UnitsOf(avcc[i..], n) == []
    case Skip(j) => i < j <= |avcc| && UnitsOf(avcc[i..], n) == UnitsOf(avcc[j..], n)
    case Nal(u, j) => i < j <= |avcc| && UnitsOf(avcc[i..], n) == [u] + UnitsOf(avcc[j..], n)
  }

  lemma SkipAt(avcc: Bytes, i: nat, n: nat)
    requires 1 <= n && i + n <= |avcc| && BigEndian(avcc[i..i + n]) == 0
    ensures UnitsOf(avcc[i..], n) == UnitsOf(avcc[i + n..], n)
  {
    SuffixSlices(avcc, i, n);
  }

  lemma NalAt(avcc: Bytes, i: nat, n: nat, len: nat)
    requires 1 <= n && 0 < len && i + n + len <= |avcc| && BigEndian(avcc[i..i + n]) == len
    ensures UnitsOf(avcc[i..], n) == [avcc[i + n..i + n + len]] + UnitsOf(avcc[i + n + len..], n)
  {
    SuffixSlices(avcc, i, n);
    SuffixSlices(avcc, i + n, len);
  }

  lemma CutAt(avcc: Bytes, i: nat, n: nat)
    requires 1 <= n && i <= |avcc|
    requires i + n > |avcc| || i + n + BigEndian(avcc[i..i + n]) > |avcc|
    ensures UnitsOf(avcc[i..], n) == []
  {
    if i + n <= |avcc| {
      SuffixSlices(avcc, i, n);
    }
  }

  method NextUnit(avcc: Bytes, i: nat, n: nat) returns (step: Step)
    requires 1 <= n && i <= |avcc|
    ensures IsStep(avcc, i, n, step)
  {
    if i + n > |avcc| {
      CutAt(avcc, i, n);
      return Stop;
    }
    var len := ReadLength(avcc, i, n);
    if len == 0 {
      SkipAt(avcc, i, n);
      return Skip(i + n);
    }
    if i + n + len > |avcc| {
      CutAt(avcc, i, n);
      return Stop;
    }
    NalAt(avcc, i, n, len);
    return Nal(avcc[i + n..i + n + len], i + n + len);
  }

  /** The bounds-checked walk; the callback's answers decide how far it goes. */
  method ForEachAvccNal(avcc: Bytes, n: nat, more: Bytes -> bool) returns (visited: seq<Bytes>)
    ensures visited == Visited(AvccUnits(avcc, n), more)
    ensures !(1 <= n <= 4) ==> visited == []
  {
    visited := [];
    if !(1 <= n <= 4) {
      return;
    }
    var i: nat := 0;
    assert avcc[0..] == avcc;
    while true
      invariant i <= |avcc|
      invariant Visited(UnitsOf(avcc, n), more) == visited + Visited(UnitsOf(avcc[i..], n), more)
      decreases |avcc| - i
    {
      var step := NextUnit(avcc, i, n);
      match step
      case Stop =>
        return;
      case Skip(next) =>
        i := next;
      case Nal(nal, next) =>
        VisitFirst(nal, UnitsOf(avcc[next..], n), more);
        Assoc(visited, [nal], Visited(UnitsOf(avcc[next..], n), more));
        visited := visited + [nal];
        if !more(nal) {
          return;
        }
        i := next;
    }
  }

  lemma VisitFirst(unit: Bytes, rest: seq<Bytes>, more: Bytes -> bool)
    ensures Visited([unit] + rest, more) == if more(unit) then [unit] + Visited(rest, more) else [unit]
  {
    assert ([unit] + rest)[1..] == rest;
  }

  lemma {:induction false} FramedAppend(a: seq<Bytes>, b: seq<Bytes>)
    ensures Framed(a + b) == Framed(a) + Framed(b)
  {
    if a == [] {
      assert a + b == b;
    } else {
      assert (a + b)[1..] == a[1..] + b;
      FramedAppend(a[1..], b);
    }
  }

  lemma {:induction false} VisitedAll(units: seq<Bytes>)
    ensures Visited(units, Always) == units
  {
    if units != [] {
      VisitedAll(units[1..]);
    }
  }

  lemma FramedStep(r: Bytes, out: Bytes, nals: seq<Bytes>, i: nat)
    requires i < |nals| && r == out + Framed(nals[..i])
    ensures r + START_CODE + nals[i] == out + Framed(nals[..i + 1])
  {
    FramedAppend(nals[..i], [nals[i]]);
    assert nals[..i + 1] == nals[..i] + [nals[i]];
    assert Framed([nals[i]]) == START_CODE + nals[i];
    Assoc(out, Framed(nals[..i]), START_CODE + nals[i]);
    Assoc(r, START_CODE, nals[i]);
  }

  method AppendAvccAsAnnexB(out: Bytes, avcc: Bytes, n: nat) returns (r: Bytes)
    ensures r == out + Framed(AvccUnits(avcc, n))
  {
    var nals := ForEachAvccNal(avcc, n, Always);
    VisitedAll(AvccUnits(avcc, n));
    r := out;
    for i := 0 to |nals|
      invariant r == out + Framed(nals[..i])
    {
      FramedStep(r, out, nals, i);
      r := r + START_CODE + nals[i];
    }
    assert nals[..|nals|] == nals;
  }

  method AvccToAnnexB(avcc: Bytes, n: nat) returns (r: Bytes)
    ensures r == Framed(AvccUnits(avcc, n))
  {
    r := AppendAvccAsAnnexB([], avcc, n);
  }

  method AvccHasIdr(avcc: Bytes, n: nat) returns (found: bool)
    ensures found == HasType(AvccUnits(avcc, n), IDR_SLICE)
  {
    var nals := ForEachAvccNal(avcc, n, NotIdr);
    FoundIffLast(AvccUnits(avcc, n));
    found := false;
    if nals != [] {
      found := NalUnitType(nals[|nals| - 1]) == Some(IDR_SLICE);
    }
  }

  lemma {:induction false} FoundIffLast(units: seq<Bytes>)
    ensures var v := Visited(units, NotIdr);
            HasType(units, IDR_SLICE) <==> v != [] && NalUnitType(v[|v| - 1]) == Some(IDR_SLICE)
  {
    if units != [] {
      TypeOfHeadOrTail(units, IDR_SLICE);
      FoundIffLast(units[1..]);
    }
  }

  /** One picture as Annex-B, with the parameter sets in front of a keyframe. */
  function FrameBytes(avcc: Bytes, n: nat, keyframe: bool, cfg: CodecConfig): Bytes {
    (if keyframe then ConfigToAnnexB(cfg) else []) + Framed(AvccUnits(avcc, n))
  }

  method ToAnnexBFrame(avcc: Bytes, n: nat, keyframe: bool, sps: Bytes, pps: Bytes) returns (r: Bytes)
    ensures r == FrameBytes(avcc, n, keyframe, CodecConfig(sps, pps))
  {
    var out: Bytes := [];
    if keyframe {
      out := out + START_CODE + sps + START_CODE + pps;
      assert out == ConfigToAnnexB(CodecConfig(sps, pps));
    }
    r := AppendAvccAsAnnexB(out, avcc, n);
  }

  // ---------------------------------------------------------------------------
  // Writing AVCC and reading it back
  // ---------------------------------------------------------------------------

  function EncodeAvcc(nals: seq<Bytes>, n: nat): Bytes {
    if nals == [] then [] else BigEndianBytes(|nals[0]|, n) + nals[0] + EncodeAvcc(nals[1..], n)
  }

  function NonEmpty(nals: seq<Bytes>): seq<Bytes> {
    if nals == [] then [] else Keep(nals[0]) + NonEmpty(nals[1..])
  }

  /** Bytes that hold no complete unit: too short for a length, or claiming more than there is. */
  predicate Truncated(tail: Bytes, n: nat) {
    |tail| < n || BigEndian(tail[..n]) > |tail| - n
  }

  lemma PrefixParts(prefix: Bytes, nal: Bytes, rest: Bytes)
    ensures var s := prefix + nal + rest;
            && s[..|prefix|] == prefix && s[|prefix|..] == nal + rest
            && (nal + rest)[..|nal|] == nal && (nal + rest)[|nal|..] == rest
  {
  }

  lemma WalkOverUnit(nal: Bytes, rest: Bytes, n: nat)
    requires 1 <= n && |nal| < Pow256(n)
    ensures UnitsOf(BigEndianBytes(|nal|, n) + nal + rest, n) == Keep(nal) + UnitsOf(rest, n)
  {
    PrefixParts(BigEndianBytes(|nal|, n), nal, rest);
    BigEndianRoundTrip(|nal|, n);
    assert nal == [] ==> nal + rest == rest;
  }

  /** The walk returns the units that were written, without stray empty ones and a truncated tail. */
  lemma {:induction false} AvccRoundTrip(nals: seq<Bytes>, tail: Bytes, n: nat)
    requires 1 <= n <= 4 && Truncated(tail, n)
    requires forall nal :: nal in nals ==> |nal| < Pow256(n)
    ensures AvccUnits(EncodeAvcc(nals, n) + tail, n) == NonEmpty(nals)
  {
    if nals == [] {
      assert EncodeAvcc(nals, n) + tail == tail;
    } else {
      AvccRoundTrip(nals[1..], tail, n);
      WalkOverUnit(nals[0], EncodeAvcc(nals[1..], n) + tail, n);
      Assoc(BigEndianBytes(|nals[0]|, n) + nals[0], EncodeAvcc(nals[1..], n), tail);
    }
  }

  function LongChunks(units: seq<Bytes>): seq<Chunk> {
    if units == [] then [] else [Chunk(true, units[0])] + LongChunks(units[1..])
  }

  lemma {:induction false} FramedIsSerialized(units: seq<Bytes>)
    ensures Framed(units) == Serialize(LongChunks(units))
    ensures Nals(LongChunks(units)) == units
    ensures forall c :: c in LongChunks(units) ==> c.nal in units
  {
    if units != [] {
      FramedIsSerialized(units[1..]);
      ChunkInFront(Chunk(true, units[0]), LongChunks(units[1..]));
    }
  }

  lemma {:induction false} NonEmptyOfWellFormed(nals: seq<Bytes>)
    requires forall nal :: nal in nals ==> nal != []
    ensures NonEmpty(nals) == nals
  {
    if nals != [] {
      assert nals[0] in nals && forall nal :: nal in nals[1..] ==> nal in nals;
      NonEmptyOfWellFormed(nals[1..]);
    }
  }

  /** From AVCC through Annex-B and the scanner, every width returns the units that went in. */
  lemma AvccToAnnexBRoundTrip(nals: seq<Bytes>, tail: Bytes, n: nat)
    requires 1 <= n <= 4 && Truncated(tail, n)
    requires forall nal :: nal in nals ==> WellFormed(nal) && |nal| < Pow256(n)
    ensures Units(Framed(AvccUnits(EncodeAvcc(nals, n) + tail, n))) == nals
  {
    AvccRoundTrip(nals, tail, n);
    NonEmptyOfWellFormed(nals);
    FramedIsSerialized(nals);
    ScanRoundTrip([], LongChunks(nals));
    assert [] + Framed(nals) == Framed(nals);
  }

  lemma FrameIsSerialized(units: seq<Bytes>, keyframe: bool, cfg: CodecConfig) returns (chunks: seq<Chunk>)
    ensures (if keyframe then ConfigToAnnexB(cfg) else []) + Framed(units) == Serialize(chunks)
    ensures Nals(chunks) == (if keyframe then [cfg.sps, cfg.pps] else []) + units
    ensures forall c :: c in chunks ==> c.nal in units || (keyframe && (c.nal == cfg.sps || c.nal == cfg.pps))
  {
    chunks := LongChunks(units);
    FramedIsSerialized(units);
    if keyframe {
      var sps, pps := Chunk(true, cfg.sps), Chunk(true, cfg.pps);
      ChunkInFront(pps, chunks);
      ChunkInFront(sps, [pps] + chunks);
      RegroupTail(START_CODE, cfg.sps, START_CODE, cfg.pps, Framed(units));
      assert [cfg.sps] + ([cfg.pps] + units) == [cfg.sps, cfg.pps] + units;
      chunks := [sps] + ([pps] + chunks);
    } else {
      assert [] + Framed(units) == Framed(units);
      assert [] + units == units;
    }
  }

  /**
   What the handler emits for a picture of well-formed units, of any width and with any truncated tail: just
   these units on a delta, and on a keyframe the SPS and the PPS in front of them.
   */
  lemma FrameHoldsPicture(nals: seq<Bytes>, tail: Bytes, n: nat, keyframe: bool, cfg: CodecConfig)
    requires 1 <= n <= 4 && Truncated(tail, n)
    requires forall nal :: nal in nals ==> WellFormed(nal) && |nal| < Pow256(n)
    requires keyframe ==> WellFormed(cfg.sps) && WellFormed(cfg.pps)
    ensures Units(FrameBytes(EncodeAvcc(nals, n) + tail, n, keyframe, cfg)) ==
            (if keyframe then [cfg.sps, cfg.pps] else []) + nals
  {
    AvccRoundTrip(nals, tail, n);
    NonEmptyOfWellFormed(nals);
    var chunks := FrameIsSerialized(nals, keyframe, cfg);
    ScanRoundTrip([], chunks);
    assert [] + Serialize(chunks) == Serialize(chunks);
  }

  // ---------------------------------------------------------------------------
  // Keyframe detection in both framings
  // ---------------------------------------------------------------------------

  /** Some unit holds, inside it, a start code and then a header of type `ty`. */
  ghost predicate Hides(units: seq<Bytes>, ty: nat) {
    exists u, m :: u in units && MarkerOfType(u, m, ty)
  }

  lemma MarkerInFramedUnit(u: Bytes, rest: seq<Bytes>, m: int, ty: nat)
    requires u != [] && ty != 0
    ensures MarkerOfType(START_CODE + u + Framed(rest), m, ty) <==>
              || (m == 1 && u[0] % 32 == ty)
              || MarkerOfType(u, m - 4, ty)
              || MarkerOfType(Framed(rest), m - 4 - |u|, ty)
  {
    var f := Framed(rest);
    assert f != [] ==> |f| >= 4 && f[0] == 0 && f[1] == 0 && f[2] == 0;
    var s := START_CODE + u + f;
    assert s[0] == 0 && s[1] == 0 && s[2] == 0 && s[3] == 1;
    assert forall k :: 4 <= k < 4 + |u| ==> s[k] == u[k - 4];
    assert forall k :: 4 + |u| <= k < |s| ==> s[k] == f[k - 4 - |u|];
  }

  lemma {:induction false} FramedMarkerShows(units: seq<Bytes>, m: int, ty: nat)
    requires ty != 0 && forall u :: u in units ==> u != []
    requires MarkerOfType(Framed(units), m, ty)
    ensures HasType(units, ty) || Hides(units, ty)
  {
    var u, rest := units[0], units[1..];
    assert u in units && forall v :: v in rest ==> v in units;
    MarkerInFramedUnit(u, rest, m, ty);
    if MarkerOfType(Framed(rest), m - 4 - |u|, ty) {
      FramedMarkerShows(rest, m - 4 - |u|, ty);
    }
  }

  lemma {:induction false} TypeShowsInFramed(units: seq<Bytes>, ty: nat) returns (m: int)
    requires ty != 0 && forall u :: u in units ==> u != []
    requires HasType(units, ty) || Hides(units, ty)
    ensures MarkerOfType(Framed(units), m, ty)
  {
    var u, rest := units[0], units[1..];
    assert u in units && units == [u] + rest;
    assert forall v :: v in rest ==> v in units;
    if NalUnitType(u) == Some(ty) {
      m := 1;
    } else if k :| MarkerOfType(u, k, ty) {
      m := k + 4;
    } else {
      m := TypeShowsInFramed(rest, ty);
      m := m + 4 + |u|;
    }
    MarkerInFramedUnit(u, rest, m, ty);
  }

  lemma {:induction false} UnitsOfNotEmpty(avcc: Bytes, n: nat)
    requires 1 <= n
    ensures forall u :: u in UnitsOf(avcc, n) ==> u != []
    decreases |avcc|
  {
    if |avcc| >= n {
      var len := BigEndian(avcc[..n]);
      var rest := avcc[n..];
      if len == 0 {
        UnitsOfNotEmpty(rest, n);
      } else if len <= |rest| {
        UnitsOfNotEmpty(rest[len..], n);
      }
    }
  }

  /**
   For every buffer, truncated or not: the converted stream is a keyframe exactly when the AVCC
   probe says so or some unit hides an IDR start code inside it.
   */
  lemma KeyframeOfConverted(avcc: Bytes, n: nat)
    ensures Keyframe(Framed(AvccUnits(avcc, n))) <==>
              HasType(AvccUnits(avcc, n), IDR_SLICE) || Hides(AvccUnits(avcc, n), IDR_SLICE)
  {
    if 1 <= n <= 4 {
      UnitsOfNotEmpty(avcc, n);
    }
    var units := AvccUnits(avcc, n);
    TypePresence(Framed(units), IDR_SLICE);
    if m :| MarkerOfType(Framed(units), m, IDR_SLICE) {
      FramedMarkerShows(units, m, IDR_SLICE);
    }
    if HasType(units, IDR_SLICE) || Hides(units, IDR_SLICE) {
      var m := TypeShowsInFramed(units, IDR_SLICE);
    }
  }

  /** The two keyframe tests agree on every buffer whose units hold no start code. */
  lemma ProbesAgree(avcc: Bytes, n: nat)
    requires forall u :: u in AvccUnits(avcc, n) ==> NoMarker(u)
    ensures HasType(AvccUnits(avcc, n), IDR_SLICE) == Keyframe(Framed(AvccUnits(avcc, n)))
  {
    KeyframeOfConverted(avcc, n);
  }

  /** They disagree on a slice that carries 00 00 01 65 inside it. */
  lemma ProbesDisagree()
    ensures var avcc: Bytes := [5, 0x41, 0, 0, 1, 0x65];
            !HasType(AvccUnits(avcc, 1), IDR_SLICE) && Keyframe(Framed(AvccUnits(avcc, 1)))
  {
    var avcc: Bytes := [5, 0x41, 0, 0, 1, 0x65];
    var u: Bytes := [0x41, 0, 0, 1, 0x65];
    assert avcc[..1] == [5] && avcc[1..] == u && u[..5] == u && u[5..] == [];
    assert avcc[..1][..0] == [];
    assert BigEndian(avcc[..1]) == 5;
    assert AvccUnits(avcc, 1) == [u];
    assert MarkerOfType(u, 1, IDR_SLICE);
    KeyframeOfConverted(avcc, 1);
  }

  /** A keyframe built with well-formed parameter sets yields exactly these as its config. */
  lemma KeyframeCarriesConfig(avcc: Bytes, n: nat, cfg: CodecConfig)
    requires Typed(cfg) && WellFormed(cfg.sps) && WellFormed(cfg.pps)
    requires forall u :: u in AvccUnits(avcc, n) ==> NoMarker(u)
    ensures ConfigOf(FrameBytes(avcc, n, true, cfg)) == Some(cfg)
  {
    var units := AvccUnits(avcc, n);
    var chunks := LongChunks(units);
    FramedIsSerialized(units);
    if chunks == [] {
      assert FrameBytes(avcc, n, true, cfg) == ConfigToAnnexB(cfg);
      ConfigRoundTrip(cfg);
    } else {
      InjectedUnits(chunks, cfg);
      ConfigInFront(FrameBytes(avcc, n, true, cfg), cfg, Units(Serialize(chunks)));
    }
  }
}
