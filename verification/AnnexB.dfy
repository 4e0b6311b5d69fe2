/**
 The Annex-B byte stream: where start codes are, which NAL units lie between them, and
 the cursor that yields those units one by one.
 */
module AnnexB {
  import opened Prelude

  type Bytes = seq<byte>

  /** `nal_unit_type` values, the low five bits of a NAL unit's first byte. */
  const NON_IDR_SLICE := 1
  const IDR_SLICE := 5
  const SEI := 6
  const SPS := 7
  const PPS := 8
  const AUD := 9

  const START_CODE_3: Bytes := [0, 0, 1]
  const START_CODE: Bytes := [0, 0, 0, 1]

  /** The three bytes 00 00 01 stand at `i`. */
  predicate IsMarker(s: Bytes, i: int) {
    0 <= i && i + 3 <= |s| && s[i] == 0 && s[i + 1] == 0 && s[i + 2] == 1
  }

  ghost predicate NoMarker(s: Bytes) {
    forall i :: 0 <= i <= |s| ==> !IsMarker(s, i)
  }

  /** The first marker of `s`. */
  function FirstMarker(s: Bytes): (r: Option<nat>)
    ensures r.Some? ==> r.value + 3 <= |s|
  {
    if |s| < 3 then None
    else if IsMarker(s, 0) then Some(0)
    else
      match FirstMarker(s[1..])
      case None => None
      case Some(i) => Some(i + 1)
  }

  lemma {:induction false} FirstMarkerMeaning(s: Bytes)
    ensures FirstMarker(s).None? <==> NoMarker(s)
    ensures FirstMarker(s).Some? ==>
              && IsMarker(s, FirstMarker(s).value)
              && forall i :: 0 <= i < FirstMarker(s).value ==> !IsMarker(s, i)
  {
    if |s| >= 3 && !IsMarker(s, 0) {
      var t := s[1..];
      FirstMarkerMeaning(t);
      assert forall i :: 1 <= i <= |s| ==> IsMarker(s, i) == IsMarker(t, i - 1);
      if FirstMarker(t).None? {
        assert forall i :: 1 <= i <= |s| && IsMarker(s, i) ==> IsMarker(t, i - 1);
      } else {
        assert IsMarker(s, FirstMarker(t).value + 1);
      }
    }
  }

  lemma FirstMarkerIs(s: Bytes, i: nat)
    requires IsMarker(s, i)
    requires forall k :: 0 <= k < i ==> !IsMarker(s, k)
    ensures FirstMarker(s) == Some(i)
  {
    FirstMarkerMeaning(s);
  }

  /** How many bytes of `s` are left once its trailing zeros are dropped. */
  function TrimmedLength(s: Bytes): (n: nat)
    ensures n <= |s|
  {
    if s == [] || s[|s| - 1] != 0 then |s| else TrimmedLength(s[..|s| - 1])
  }

  lemma {:induction false} TrimmedLengthMeaning(s: Bytes)
    ensures TrimmedLength(s) == 0 || s[TrimmedLength(s) - 1] != 0
    ensures forall i :: TrimmedLength(s) <= i < |s| ==> s[i] == 0
  {
    if s != [] && s[|s| - 1] == 0 {
      TrimmedLengthMeaning(s[..|s| - 1]);
    }
  }

  lemma TrimmedLengthIs(s: Bytes, n: nat)
    requires n <= |s|
    requires n == 0 || s[n - 1] != 0
    requires forall i :: n <= i < |s| ==> s[i] == 0
    ensures TrimmedLength(s) == n
  {
    TrimmedLengthMeaning(s);
  }

  function Trimmed(s: Bytes): Bytes {
    s[..TrimmedLength(s)]
  }

  /** A unit kept in the list unless it is empty. */
  function Keep(unit: Bytes): seq<Bytes> {
    if unit == [] then [] else [unit]
  }

  /** The units of a stream whose first byte stands just past a start code. */
  function UnitsAfter(t: Bytes): seq<Bytes>
    decreases |t|
  {
    match FirstMarker(t)
    case None => Keep(t)
    case Some(i) => Keep(Trimmed(t[..i])) + UnitsAfter(t[i + 3..])
  }

  /** All NAL units of an Annex-B stream, without their start codes. */
  function Units(s: Bytes): seq<Bytes> {
    match FirstMarker(s)
    case None => []
    case Some(i) => UnitsAfter(s[i + 3..])
  }

  function NalUnitType(nal: Bytes): Option<nat> {
    if nal == [] then None else Some(nal[0] % 32)
  }

  // ---------------------------------------------------------------------------
  // The cursor
  // ---------------------------------------------------------------------------

  /**
   The next start code at or after `from`: its first byte, stretched left over zeros but never
   before `from`, and the byte just after its 00 00 01.
   */
  method FindStartCode(stream: Bytes, from: nat) returns (r: Option<(nat, nat)>)
    requires from <= |stream|
    ensures r.None? <==> FirstMarker(stream[from..]).None?
    ensures r.Some? ==>
              var m := FirstMarker(stream[from..]);
              && m.Some?
              && from <= r.value.0 <= r.value.1 - 3 <= |stream| - 3
              && stream[from..r.value.0] == Trimmed(stream[from..][..m.value])
              && stream[r.value.1..] == stream[from..][m.value + 3..]
  {
    ghost var rest := stream[from..];
    assert forall k :: 0 <= k <= |rest| ==> IsMarker(rest, k) == IsMarker(stream, from + k);
    var i := from;
    while i + 3 <= |stream|
      invariant from <= i <= |stream|
      invariant forall k :: from <= k < i ==> !IsMarker(stream, k)
    {
      if stream[i] == 0 && stream[i + 1] == 0 && stream[i + 2] == 1 {
        assert IsMarker(rest, i - from);
        assert forall k :: 0 <= k < i - from ==> !IsMarker(rest, k);
        FirstMarkerIs(rest, i - from);
        var scStart := i;
        ghost var gap := rest[..i - from];
        while scStart > from && stream[scStart - 1] == 0
          invariant from <= scStart <= i
          invariant forall k :: scStart <= k < i ==> stream[k] == 0
        {
          scStart := scStart - 1;
        }
        TrimmedLengthIs(gap, scStart - from);
        assert stream[from..scStart] == gap[..scStart - from];
        assert stream[i + 3..] == rest[i - from + 3..];
        return Some((scStart, i + 3));
      }
      i := i + 1;
    }
    assert forall k :: 0 <= k <= |rest| && IsMarker(rest, k) ==> from + k < i;
    FirstMarkerMeaning(rest);
    return None;
  }

  /** The iterator over the NAL units of a stream. */
  class NalUnits {
    const stream: Bytes
    var dataStart: Option<nat>
    var searchFrom: nat

    ghost predicate Valid()
      reads this
    {
      && searchFrom <= |stream|
      && (dataStart.Some? ==> dataStart.value == searchFrom)
    }

    /** The units not yet yielded. */
    ghost function Remaining(): seq<Bytes>
      reads this
      requires Valid()
    {
      if dataStart.Some? then UnitsAfter(stream[dataStart.value..]) else Units(stream[searchFrom..])
    }

    constructor (stream: Bytes)
      ensures Valid() && this.stream == stream && Remaining() == Units(stream)
    {
      this.stream := stream;
      dataStart := None;
      searchFrom := 0;
      new;
      assert stream[0..] == stream;
    }

    /** Move to the data of the next unit when none is current; false when there is none. */
    method EstablishStart() returns (ok: bool)
      requires Valid()
      modifies this
      ensures Valid() && Remaining() == old(Remaining())
      ensures ok ==> dataStart.Some?
      ensures !ok ==> Remaining() == []
      ensures old(dataStart).Some? ==> dataStart == old(dataStart)
      ensures searchFrom >= old(searchFrom)
    {
      if dataStart.None? {
        var found := FindStartCode(stream, searchFrom);
        if found.None? {
          return false;
        }
        dataStart := Some(found.value.1);
        searchFrom := found.value.1;
      }
      return true;
    }

    /** Step over the current unit, which may turn out to be empty. */
    method TakeCurrent() returns (nal: Bytes, more: bool)
      requires Valid() && dataStart.Some?
      modifies this
      ensures Valid()
      ensures old(Remaining()) == Keep(nal) + Remaining()
      ensures more ==> searchFrom > old(searchFrom)
      ensures !more ==> Remaining() == []
    {
      var start := dataStart.value;
      var next := FindStartCode(stream, searchFrom);
      if next.Some? {
        nal := stream[start..next.value.0];
        dataStart := Some(next.value.1);
        searchFrom := next.value.1;
        more := true;
      } else {
        nal := stream[start..];
        dataStart := None;
        searchFrom := |stream|;
        assert stream[searchFrom..] == [];
        more := false;
      }
    }

    method Next() returns (r: Option<Bytes>)
      requires Valid()
      modifies this
      ensures Valid()
      ensures old(Remaining()) == [] ==> r.None? && Remaining() == []
      ensures old(Remaining()) != [] ==>
                r == Some(old(Remaining())[0]) && Remaining() == old(Remaining())[1..]
    {
      while true
        invariant Valid()
        invariant Remaining() == old(Remaining())
        decreases |stream| - searchFrom
      {
        var ok := EstablishStart();
        if !ok {
          return None;
        }
        var nal, more := TakeCurrent();
        if nal != [] {
          return Some(nal);
        }
        if !more {
          return None;
        }
      }
    }
  }
}
