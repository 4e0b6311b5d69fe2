/**
 What the Annex-B scanner promises: it undoes the serialisation of Annex B of the H.264
 standard, and on arbitrary bytes it yields exactly the maximal start-code-free stretches.
 */
module AnnexBTheorems {
  import opened Prelude
  import opened AnnexB

  // ---------------------------------------------------------------------------
  // Serialising and scanning back
  // ---------------------------------------------------------------------------

  /** One NAL unit behind a 4-byte (`long`) or a 3-byte start code. */
  datatype Chunk = Chunk(long: bool, nal: Bytes) {
    function Prefix(): Bytes {
      if long then START_CODE else START_CODE_3
    }
  }

  function Serialize(chunks: seq<Chunk>): Bytes {
    if chunks == [] then [] else chunks[0].Prefix() + chunks[0].nal + Serialize(chunks[1..])
  }

  function Nals(chunks: seq<Chunk>): seq<Bytes> {
    if chunks == [] then [] else [chunks[0].nal] + Nals(chunks[1..])
  }

  /**
   A NAL unit as section 7.4.1 of the H.264 standard allows it: not empty, without an embedded
   start code, and not ending in a zero byte.
   */
  ghost predicate WellFormed(nal: Bytes) {
    nal != [] && NoMarker(nal) && nal[|nal| - 1] != 0
  }

  /** What scanning makes of serialised units: all but the last lose their trailing zeros. */
  function Scanned(chunks: seq<Chunk>): seq<Bytes> {
    if chunks == [] then [] else ScannedFrom(chunks[0].nal, chunks[1..])
  }

  function ScannedFrom(first: Bytes, rest: seq<Chunk>): seq<Bytes>
    decreases |rest|
  {
    if rest == [] then Keep(first) else Keep(Trimmed(first)) + ScannedFrom(rest[0].nal, rest[1..])
  }

  lemma ChunkInFront(c: Chunk, rest: seq<Chunk>)
    ensures Serialize([c] + rest) == c.Prefix() + c.nal + Serialize(rest)
    ensures Scanned([c] + rest) == if rest == [] then Keep(c.nal) else Keep(Trimmed(c.nal)) + Scanned(rest)
  {
    assert ([c] + rest)[1..] == rest;
  }

  /** The first marker past a unit is the one of the start code that follows it. */
  lemma MarkerPastUnit(nal: Bytes, c: Chunk, rest: Bytes)
    requires NoMarker(nal)
    ensures FirstMarker(nal + c.Prefix() + rest) == Some(|nal| + if c.long then 1 else 0)
  {
    var t := nal + c.Prefix() + rest;
    var at := |nal| + if c.long then 1 else 0;
    assert IsMarker(t, at);
    forall k | 0 <= k < at
      ensures !IsMarker(t, k)
    {
      if k + 3 <= |nal| {
        assert IsMarker(t, k) == IsMarker(nal, k);
      }
    }
    FirstMarkerIs(t, at);
  }

  lemma TrimmedZero(nal: Bytes)
    ensures Trimmed(nal + [0]) == Trimmed(nal)
  {
    assert (nal + [0])[..|nal|] == nal;
  }

  /** Scanning steps over one unit and the start code behind it. */
  lemma StepOverUnit(nal: Bytes, c: Chunk, tail: Bytes)
    requires NoMarker(nal)
    ensures UnitsAfter(nal + c.Prefix() + tail) == Keep(Trimmed(nal)) + UnitsAfter(tail)
  {
    var t := nal + c.Prefix() + tail;
    MarkerPastUnit(nal, c, tail);
    var i := |nal| + if c.long then 1 else 0;
    assert t[i + 3..] == tail;
    if c.long {
      assert t[..i] == nal + [0];
      TrimmedZero(nal);
    } else {
      assert t[..i] == nal;
    }
  }

  lemma {:induction false} UnitsAfterSerialized(first: Bytes, rest: seq<Chunk>)
    requires NoMarker(first)
    requires forall c :: c in rest ==> NoMarker(c.nal)
    ensures UnitsAfter(first + Serialize(rest)) == ScannedFrom(first, rest)
    decreases |rest|
  {
    if rest == [] {
      FirstMarkerMeaning(first);
      assert first + Serialize(rest) == first;
    } else {
      var c, more := rest[0], rest[1..];
      UnitsAfterSerialized(c.nal, more);
      StepOverUnit(first, c, c.nal + Serialize(more));
      Regroup(first, c.Prefix(), c.nal, Serialize(more));
    }
  }

  /** Scanning any units free of start codes, serialised after junk free of start codes. */
  lemma ScanSerialized(junk: Bytes, chunks: seq<Chunk>)
    requires NoMarker(junk)
    requires forall c :: c in chunks ==> NoMarker(c.nal)
    ensures Units(junk + Serialize(chunks)) == Scanned(chunks)
  {
    if chunks == [] {
      FirstMarkerMeaning(junk);
      assert junk + Serialize(chunks) == junk;
    } else {
      var c, more := chunks[0], chunks[1..];
      var tail := c.nal + Serialize(more);
      UnitsAfterSerialized(c.nal, more);
      MarkerPastUnit(junk, c, tail);
      Regroup(junk, c.Prefix(), c.nal, Serialize(more));
      assert (junk + c.Prefix() + tail)[|junk| + (if c.long then 1 else 0) + 3..] == tail;
    }
  }

  lemma UnitsOfFramed(t: Bytes)
    ensures Units(START_CODE + t) == UnitsAfter(t)
  {
    var c := Chunk(true, []);
    MarkerPastUnit([], c, t);
    assert [] + c.Prefix() + t == START_CODE + t;
    assert (START_CODE + t)[4..] == t;
  }

  /** Two units behind 4-byte start codes. */
  lemma ScanTwo(a: Bytes, b: Bytes)
    requires NoMarker(a) && NoMarker(b)
    ensures Units(START_CODE + a + START_CODE + b) == Keep(Trimmed(a)) + Keep(b)
  {
    StepOverUnit(a, Chunk(true, []), b);
    FirstMarkerMeaning(b);
    UnitsOfFramed(a + START_CODE + b);
    RegroupTail([], START_CODE, a, START_CODE, b);
    assert [] + START_CODE == START_CODE;
  }

  lemma TrimmedWellFormed(nal: Bytes)
    requires WellFormed(nal)
    ensures Trimmed(nal) == nal
  {
  }

  lemma {:induction false} ScannedWellFormed(chunks: seq<Chunk>)
    requires forall c :: c in chunks ==> WellFormed(c.nal)
    ensures Scanned(chunks) == Nals(chunks)
  {
    if chunks != [] {
      assert chunks[0] in chunks;
      TrimmedWellFormed(chunks[0].nal);
      ScannedWellFormed(chunks[1..]);
    }
  }

  /** The scanner undoes Annex B: the list of units comes back, whatever start codes were used. */
  lemma ScanRoundTrip(junk: Bytes, chunks: seq<Chunk>)
    requires NoMarker(junk)
    requires forall c :: c in chunks ==> WellFormed(c.nal)
    ensures Units(junk + Serialize(chunks)) == Nals(chunks)
  {
    ScanSerialized(junk, chunks);
    ScannedWellFormed(chunks);
  }

  // ---------------------------------------------------------------------------
  // Arbitrary bytes
  // ---------------------------------------------------------------------------

  /** The units past position `a` of `s`, as half-open index ranges of `s`. */
  function SpansAfter(s: Bytes, a: nat): seq<(nat, nat)>
    requires a <= |s|
    decreases |s| - a
  {
    match FirstMarker(s[a..])
    case None => if a == |s| then [] else [(a, |s|)]
    case Some(i) =>
      var b := a + TrimmedLength(s[a..][..i]);
      (if a == b then [] else [(a, b)]) + SpansAfter(s, a + i + 3)
  }

  function Spans(s: Bytes): seq<(nat, nat)> {
    match FirstMarker(s)
    case None => []
    case Some(i) => SpansAfter(s, i + 3)
  }

  function Slice(s: Bytes, p: (nat, nat)): Bytes {
    if p.0 <= p.1 <= |s| then s[p.0..p.1] else []
  }

  function Slices(s: Bytes, spans: seq<(nat, nat)>): seq<Bytes> {
    if spans == [] then [] else [Slice(s, spans[0])] + Slices(s, spans[1..])
  }

  /** No marker starts in `a..b`. */
  ghost predicate NoMarkerFrom(s: Bytes, a: int, b: int) {
    forall k :: a <= k < b ==> !IsMarker(s, k)
  }

  /**
   `a..b` is a maximal unit: it starts just past a marker, is not empty, and ends at the end of
   a stream without further markers or at the zeros (if any) in front of the next marker.
   */
  ghost predicate IsUnitSpan(s: Bytes, a: int, b: int) {
    && IsMarker(s, a - 3)
    && a < b <= |s|
    && ( || (b == |s| && NoMarkerFrom(s, a, |s|))
         || (s[b - 1] != 0 && exists m ::
              && b <= m && IsMarker(s, m) && NoMarkerFrom(s, a, m)
              && forall k :: b <= k < m ==> s[k] == 0))
  }

  lemma MarkersOfSuffix(s: Bytes, a: nat)
    requires a <= |s|
    ensures forall k :: a <= k <= |s| ==> IsMarker(s, k) == IsMarker(s[a..], k - a)
    ensures FirstMarker(s[a..]).None? ==> NoMarkerFrom(s, a, |s|)
    ensures FirstMarker(s[a..]).Some? ==>
              var i := FirstMarker(s[a..]).value;
              a + i + 3 <= |s| && IsMarker(s, a + i) && NoMarkerFrom(s, a, a + i)
  {
    var t := s[a..];
    FirstMarkerMeaning(t);
    assert forall k :: a <= k <= |s| ==> IsMarker(s, k) == IsMarker(t, k - a);
    if FirstMarker(t).None? {
      forall k | a <= k < |s|
        ensures !IsMarker(s, k)
      {
        assert !IsMarker(t, k - a);
      }
    } else {
      forall k | a <= k < a + FirstMarker(t).value
        ensures !IsMarker(s, k)
      {
        assert !IsMarker(t, k - a);
      }
    }
  }

  /** Two markers never overlap. */
  lemma MarkersApart(s: Bytes, m: int, n: int)
    requires IsMarker(s, m) && IsMarker(s, n) && m < n
    ensures m + 3 <= n
  {
  }

  /** The end of the unit that starts at `a`, or `a` when it is empty. */
  function UnitEnd(s: Bytes, a: nat): (b: nat)
    requires a <= |s|
    ensures a <= b <= |s|
  {
    match FirstMarker(s[a..])
    case None => |s|
    case Some(i) => a + TrimmedLength(s[a..][..i])
  }

  lemma UnitEndIsSpan(s: Bytes, a: nat)
    requires a <= |s| && IsMarker(s, a - 3)
    ensures a < UnitEnd(s, a) ==> IsUnitSpan(s, a, UnitEnd(s, a))
    ensures forall b :: IsUnitSpan(s, a, b) ==> b == UnitEnd(s, a)
  {
    MarkersOfSuffix(s, a);
    if FirstMarker(s[a..]).Some? {
      var i := FirstMarker(s[a..]).value;
      var gap := s[a..][..i];
      var e := UnitEnd(s, a);
      TrimmedLengthMeaning(gap);
      assert forall k :: a <= k < a + i ==> s[k] == gap[k - a];
      forall b | IsUnitSpan(s, a, b)
        ensures b == e
      {
        assert !NoMarkerFrom(s, a, |s|) by { assert IsMarker(s, a + i); }
        var m :| b <= m && IsMarker(s, m) && NoMarkerFrom(s, a, m) && forall k :: b <= k < m ==> s[k] == 0;
        assert m == a + i;
        TrimmedLengthIs(gap, b - a);
      }
    } else {
      forall b | IsUnitSpan(s, a, b)
        ensures b == |s|
      {
      }
    }
  }

  /** The units at or past `a`: the one that starts there, and those past the next marker. */
  lemma SpansPastMarker(s: Bytes, a: nat, x: nat, y: nat)
    requires a <= |s| && IsMarker(s, a - 3)
    requires a <= x && IsUnitSpan(s, x, y)
    ensures (x == a && y == UnitEnd(s, a))
            || (FirstMarker(s[a..]).Some? && a + FirstMarker(s[a..]).value + 3 <= x)
  {
    if x == a {
      UnitEndIsSpan(s, a);
    } else {
      MarkersOfSuffix(s, a);
      MarkersApart(s, a - 3, x - 3);
      assert !NoMarkerFrom(s, a, |s|);
    }
  }

  lemma SpanMembers(s: Bytes, a: nat, i: nat, x: nat, y: nat)
    requires a <= |s| && FirstMarker(s[a..]) == Some(i)
    ensures (x, y) in SpansAfter(s, a) <==>
              (x == a < UnitEnd(s, a) == y) || (x, y) in SpansAfter(s, a + i + 3)
  {
    var rest := SpansAfter(s, a + i + 3);
    var p := (a, UnitEnd(s, a));
    if p.0 < p.1 {
      assert SpansAfter(s, a) == [p] + rest;
    } else {
      assert SpansAfter(s, a) == [] + rest;
    }
  }

  lemma {:induction false} SpansAfterSound(s: Bytes, a: nat, x: nat, y: nat)
    requires a <= |s| && IsMarker(s, a - 3) && (x, y) in SpansAfter(s, a)
    ensures a <= x && IsUnitSpan(s, x, y)
    decreases |s| - a
  {
    if x == a && y == UnitEnd(s, a) && a < y {
      UnitEndIsSpan(s, a);
    } else {
      MarkersOfSuffix(s, a);
      var i := FirstMarker(s[a..]).value;
      SpanMembers(s, a, i, x, y);
      SpansAfterSound(s, a + i + 3, x, y);
    }
  }

  lemma {:induction false} SpansAfterComplete(s: Bytes, a: nat, x: nat, y: nat)
    requires a <= |s| && IsMarker(s, a - 3) && a <= x && IsUnitSpan(s, x, y)
    ensures (x, y) in SpansAfter(s, a)
    decreases |s| - a
  {
    SpansPastMarker(s, a, x, y);
    if FirstMarker(s[a..]).Some? {
      var i := FirstMarker(s[a..]).value;
      SpanMembers(s, a, i, x, y);
      if a + i + 3 <= x {
        MarkersOfSuffix(s, a);
        SpansAfterComplete(s, a + i + 3, x, y);
      }
    }
  }

  lemma {:induction false} FirstSpanFrom(s: Bytes, a: nat)
    requires a <= |s| && SpansAfter(s, a) != []
    ensures a <= SpansAfter(s, a)[0].0
    decreases |s| - a
  {
    if FirstMarker(s[a..]).Some? && UnitEnd(s, a) == a {
      FirstSpanFrom(s, a + FirstMarker(s[a..]).value + 3);
    }
  }

  lemma ApartInFront(p: (nat, nat), rest: seq<(nat, nat)>)
    requires Apart(rest) && (rest != [] ==> p.1 + 3 <= rest[0].0)
    ensures Apart([p] + rest)
  {
  }

  lemma LastSpanApart(s: Bytes, a: nat)
    requires a <= |s| && FirstMarker(s[a..]).None?
    ensures Apart(SpansAfter(s, a))
  {
  }

  lemma NextSpanApart(s: Bytes, a: nat, next: nat)
    requires a <= |s| && FirstMarker(s[a..]).Some? && next == a + FirstMarker(s[a..]).value + 3
    requires Apart(SpansAfter(s, next))
    ensures Apart(SpansAfter(s, a))
  {
    var rest := SpansAfter(s, next);
    if rest != [] {
      FirstSpanFrom(s, next);
    }
    if a < UnitEnd(s, a) {
      ApartInFront((a, UnitEnd(s, a)), rest);
    }
  }

  lemma {:induction false} SpansAfterApart(s: Bytes, a: nat)
    requires a <= |s|
    ensures Apart(SpansAfter(s, a))
    decreases |s| - a
  {
    match FirstMarker(s[a..])
    case None =>
      LastSpanApart(s, a);
    case Some(i) =>
      SpansAfterApart(s, a + i + 3);
      NextSpanApart(s, a, a + i + 3);
  }

  /** The ranges are in order with room for a start code between any two neighbours. */
  ghost predicate Apart(spans: seq<(nat, nat)>) {
    forall k :: 0 <= k < |spans| - 1 ==> spans[k].1 + 3 <= spans[k + 1].0
  }

  lemma SpansSound(s: Bytes, x: nat, y: nat)
    requires (x, y) in Spans(s)
    ensures IsUnitSpan(s, x, y)
  {
    FirstMarkerMeaning(s);
    SpansAfterSound(s, FirstMarker(s).value + 3, x, y);
  }

  lemma SpansComplete(s: Bytes, x: nat, y: nat)
    requires IsUnitSpan(s, x, y)
    ensures (x, y) in Spans(s)
  {
    FirstMarkerMeaning(s);
    assert IsMarker(s, x - 3);
    var first := FirstMarker(s).value;
    assert first + 3 <= x;
    SpansAfterComplete(s, first + 3, x, y);
  }

  /** On arbitrary bytes the scanner's ranges are exactly the maximal units. */
  lemma SpansExact(s: Bytes, x: nat, y: nat)
    ensures (x, y) in Spans(s) <==> IsUnitSpan(s, x, y)
  {
    if (x, y) in Spans(s) {
      SpansSound(s, x, y);
    } else if IsUnitSpan(s, x, y) {
      SpansComplete(s, x, y);
    }
  }

  /** They are in order, disjoint, and at least a start code apart. */
  lemma SpansApart(s: Bytes)
    ensures Apart(Spans(s))
  {
    match FirstMarker(s)
    case None =>
      assert Spans(s) == [];
    case Some(i) =>
      SpansAfterApart(s, i + 3);
  }

  lemma UnitHoldsNoMarker(s: Bytes, a: nat, b: nat)
    requires IsUnitSpan(s, a, b)
    ensures NoMarker(s[a..b])
  {
    forall k | 0 <= k <= b - a
      ensures !IsMarker(s[a..b], k)
    {
      if IsMarker(s[a..b], k) {
        assert IsMarker(s, a + k);
      }
    }
  }

  lemma SliceInFront(s: Bytes, p: (nat, nat), rest: seq<(nat, nat)>)
    ensures Slices(s, [p] + rest) == [Slice(s, p)] + Slices(s, rest)
  {
    assert ([p] + rest)[1..] == rest;
  }

  lemma TrimmedIsSlice(s: Bytes, a: nat, i: nat)
    requires a <= |s| && FirstMarker(s[a..]) == Some(i)
    ensures Trimmed(s[a..][..i]) == Slice(s, (a, UnitEnd(s, a)))
    ensures s[a..][i + 3..] == s[a + i + 3..]
  {
    SuffixSlices(s, a, i + 3);
    SuffixSlices(s, a, UnitEnd(s, a) - a);
  }

  lemma SlicesOfKept(s: Bytes, a: nat, b: nat, rest: seq<(nat, nat)>)
    requires a <= b <= |s|
    ensures Slices(s, (if a == b then [] else [(a, b)]) + rest) == Keep(Slice(s, (a, b))) + Slices(s, rest)
  {
    if a < b {
      SliceInFront(s, (a, b), rest);
    } else {
      assert [] + rest == rest;
    }
  }

  lemma {:induction false} UnitsAfterAreSlices(s: Bytes, a: nat, t: Bytes)
    requires a <= |s| && t == s[a..]
    ensures UnitsAfter(t) == Slices(s, SpansAfter(s, a))
    decreases |s| - a
  {
    match FirstMarker(t)
    case None =>
      LastUnitIsSlice(s, a);
    case Some(i) =>
      TrimmedIsSlice(s, a, i);
      UnitsAfterAreSlices(s, a + i + 3, t[i + 3..]);
      SlicesOfKept(s, a, UnitEnd(s, a), SpansAfter(s, a + i + 3));
  }

  lemma LastUnitIsSlice(s: Bytes, a: nat)
    requires a <= |s| && FirstMarker(s[a..]).None?
    ensures UnitsAfter(s[a..]) == Slices(s, SpansAfter(s, a))
  {
    if a < |s| {
      SliceInFront(s, (a, |s|), []);
      assert s[a..|s|] == s[a..];
    }
  }

  /** The units are the bytes of those ranges, in order. */
  lemma UnitsAreSlices(s: Bytes)
    ensures Units(s) == Slices(s, Spans(s))
  {
    match FirstMarker(s)
    case None =>
      assert Spans(s) == [];
    case Some(i) =>
      UnitsAfterAreSlices(s, i + 3, s[i + 3..]);
  }

  // ---------------------------------------------------------------------------
  // Which unit types a stream holds
  // ---------------------------------------------------------------------------

  predicate HasType(units: seq<Bytes>, ty: nat) {
    exists u :: u in units && NalUnitType(u) == Some(ty)
  }

  ghost predicate MarkerOfType(s: Bytes, m: int, ty: nat) {
    IsMarker(s, m) && m + 3 < |s| && s[m + 3] % 32 == ty
  }

  lemma {:induction false} SliceIsMember(s: Bytes, spans: seq<(nat, nat)>, p: (nat, nat))
    requires p in spans
    ensures Slice(s, p) in Slices(s, spans)
  {
    if p != spans[0] {
      SliceIsMember(s, spans[1..], p);
    }
  }

  lemma {:induction false} MemberIsSlice(s: Bytes, spans: seq<(nat, nat)>, u: Bytes) returns (p: (nat, nat))
    requires u in Slices(s, spans)
    ensures p in spans && u == Slice(s, p)
  {
    if u == Slice(s, spans[0]) {
      p := spans[0];
    } else {
      p := MemberIsSlice(s, spans[1..], u);
    }
  }

  /** Every unit is a maximal stretch of the stream, and so holds no start code. */
  lemma UnitIsSpan(s: Bytes, u: Bytes) returns (p: (nat, nat))
    requires u in Units(s)
    ensures IsUnitSpan(s, p.0, p.1) && u == s[p.0..p.1] && NoMarker(u)
  {
    UnitsAreSlices(s);
    p := MemberIsSlice(s, Spans(s), u);
    SpansExact(s, p.0, p.1);
    UnitHoldsNoMarker(s, p.0, p.1);
  }

  lemma TypeHasMarker(s: Bytes, ty: nat)
    requires HasType(Units(s), ty)
    ensures exists m :: MarkerOfType(s, m, ty)
  {
    var u :| u in Units(s) && NalUnitType(u) == Some(ty);
    var p := UnitIsSpan(s, u);
    assert MarkerOfType(s, p.0 - 3, ty);
  }

  lemma UnitAtMarker(s: Bytes, m: nat)
    requires IsMarker(s, m) && m + 3 < |s| && s[m + 3] != 0
    ensures m + 3 < UnitEnd(s, m + 3) && s[m + 3..UnitEnd(s, m + 3)] in Units(s)
  {
    var p := (m + 3, UnitEnd(s, m + 3));
    UnitEndPast(s, m + 3);
    UnitEndIsSpan(s, m + 3);
    SpansExact(s, p.0, p.1);
    UnitsAreSlices(s);
    SliceIsMember(s, Spans(s), p);
  }

  lemma MarkerHasType(s: Bytes, m: nat, ty: nat)
    requires ty != 0 && MarkerOfType(s, m, ty)
    ensures HasType(Units(s), ty)
  {
    UnitAtMarker(s, m);
    assert NalUnitType(s[m + 3..UnitEnd(s, m + 3)]) == Some(ty);
  }

  /** A stream holds a unit of a (non-zero) type exactly when a start code stands before its header. */
  lemma TypePresence(s: Bytes, ty: nat)
    requires ty != 0
    ensures HasType(Units(s), ty) <==> exists m :: MarkerOfType(s, m, ty)
  {
    if HasType(Units(s), ty) {
      TypeHasMarker(s, ty);
    }
    if m :| MarkerOfType(s, m, ty) {
      MarkerHasType(s, m, ty);
    }
  }

  lemma UnitEndPast(s: Bytes, a: nat)
    requires a < |s| && s[a] != 0
    ensures a < UnitEnd(s, a)
  {
    MarkersOfSuffix(s, a);
    if FirstMarker(s[a..]).Some? {
      var gap := s[a..][..FirstMarker(s[a..]).value];
      TrimmedLengthMeaning(gap);
      assert |gap| > 0 && gap[0] == s[a];
    }
  }
}
