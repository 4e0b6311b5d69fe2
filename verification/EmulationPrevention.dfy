/** Emulation prevention of section 7.4.1 of the H.264 standard: inserting and removing the 03 bytes. */
module EmulationPrevention {
  import opened Prelude
  import opened AnnexB

  /** Remove the 03 after every two zeros; `zeros` zero bytes were just seen. */
  function Unescape(payload: Bytes, zeros: nat): Bytes {
    if payload == [] then []
    else if zeros >= 2 && payload[0] == 3 then Unescape(payload[1..], 0)
    else [payload[0]] + Unescape(payload[1..], if payload[0] == 0 then zeros + 1 else 0)
  }

  method RemoveEmulationPrevention(payload: Bytes) returns (rbsp: Bytes)
    ensures rbsp == Unescape(payload, 0)
  {
    rbsp := [];
    var zeros := 0;
    assert payload[0..] == payload;
    for i := 0 to |payload|
      invariant zeros >= 0
      invariant Unescape(payload, 0) == rbsp + Unescape(payload[i..], zeros)
    {
      var b := payload[i];
      assert payload[i..][1..] == payload[i + 1..];
      if zeros >= 2 && b == 3 {
        zeros := 0;
        continue;
      }
      var next := if b == 0 then zeros + 1 else 0;
      Assoc(rbsp, [b], Unescape(payload[i + 1..], next));
      rbsp := rbsp + [b];
      zeros := next;
    }
  }

  /** Write a 03 before any byte of at most 3 that would follow two zeros; `zeros` were just written. */
  function Escape(rbsp: Bytes, zeros: nat): Bytes {
    if rbsp == [] then []
    else if zeros >= 2 && rbsp[0] <= 3 then [3, rbsp[0]] + Escape(rbsp[1..], if rbsp[0] == 0 then 1 else 0)
    else [rbsp[0]] + Escape(rbsp[1..], if rbsp[0] == 0 then zeros + 1 else 0)
  }

  lemma UnescapeEscaped(b: byte, rest: Bytes)
    ensures Unescape([3, b] + rest, 2) == [b] + Unescape(rest, if b == 0 then 1 else 0)
  {
    assert ([3, b] + rest)[1..] == [b] + rest;
    assert ([b] + rest)[1..] == rest;
  }

  lemma UnescapePlain(b: byte, rest: Bytes, zeros: nat)
    requires zeros < 2 || b != 3
    ensures Unescape([b] + rest, zeros) == [b] + Unescape(rest, if b == 0 then zeros + 1 else 0)
  {
    assert ([b] + rest)[1..] == rest;
  }

  /** Removal undoes insertion. */
  lemma {:induction false} EscapeRoundTrip(rbsp: Bytes, zeros: nat)
    requires zeros <= 2
    ensures Unescape(Escape(rbsp, zeros), zeros) == rbsp
  {
    if rbsp != [] {
      var b, more := rbsp[0], rbsp[1..];
      if zeros == 2 && b <= 3 {
        var z := if b == 0 then 1 else 0;
        EscapeRoundTrip(more, z);
        UnescapeEscaped(b, Escape(more, z));
      } else {
        var z := if b == 0 then zeros + 1 else 0;
        EscapeRoundTrip(more, z);
        UnescapePlain(b, Escape(more, z), zeros);
      }
    }
  }

  /** `zeros` zero bytes followed by `s` hold no 00 00 00, 00 00 01 or 00 00 02. */
  ghost predicate Clean(zeros: nat, s: Bytes)
    decreases |s|
  {
    s == [] || (
      && (zeros >= 2 ==> s[0] > 2)
      && Clean(if s[0] == 0 then zeros + 1 else 0, s[1..]))
  }

  lemma {:induction false} EscapedIsClean(rbsp: Bytes, zeros: nat)
    requires zeros <= 2
    ensures Clean(zeros, Escape(rbsp, zeros))
  {
    if rbsp != [] {
      var b, more := rbsp[0], rbsp[1..];
      if zeros == 2 && b <= 3 {
        var z := if b == 0 then 1 else 0;
        EscapedIsClean(more, z);
        var e := [3, b] + Escape(more, z);
        assert e[1..] == [b] + Escape(more, z);
        assert e[1..][1..] == Escape(more, z);
        assert Clean(0, e[1..]);
      } else {
        var z := if b == 0 then zeros + 1 else 0;
        EscapedIsClean(more, z);
        var e := [b] + Escape(more, z);
        assert e[1..] == Escape(more, z);
      }
    }
  }

  lemma {:induction false} EscapeKeepsLast(rbsp: Bytes, zeros: nat)
    requires rbsp != []
    ensures Escape(rbsp, zeros) != [] && Escape(rbsp, zeros)[|Escape(rbsp, zeros)| - 1] == rbsp[|rbsp| - 1]
  {
    if |rbsp| > 1 {
      EscapeKeepsLast(rbsp[1..], if rbsp[0] != 0 then 0 else if zeros >= 2 then 1 else zeros + 1);
    }
  }

  lemma {:induction false} CleanHoldsNoMarker(zeros: nat, s: Bytes)
    requires Clean(zeros, s)
    ensures NoMarker(s)
    ensures zeros >= 2 ==> s == [] || s[0] > 2
    ensures zeros >= 1 && |s| >= 2 && s[0] == 0 ==> s[1] > 2
    decreases |s|
  {
    if s != [] {
      CleanHoldsNoMarker(if s[0] == 0 then zeros + 1 else 0, s[1..]);
      assert forall i :: 1 <= i <= |s| ==> IsMarker(s, i) == IsMarker(s[1..], i - 1);
      assert s[0] == 0 && |s| >= 3 && s[1] == 0 ==> s[1..][1] == s[2];
      forall i | 0 <= i <= |s|
        ensures !IsMarker(s, i)
      {
        if i > 0 {
          assert !IsMarker(s[1..], i - 1);
        }
      }
    }
  }

  /** A header byte followed by an escaped RBSP is free of start codes. */
  lemma EscapedNalHoldsNoMarker(header: byte, rbsp: Bytes)
    requires header != 0
    ensures NoMarker([header] + Escape(rbsp, 0))
  {
    EscapedIsClean(rbsp, 0);
    var nal := [header] + Escape(rbsp, 0);
    assert nal[1..] == Escape(rbsp, 0);
    CleanHoldsNoMarker(0, nal);
  }

  /** The byte at `k` is a 03 right behind two zeros. */
  predicate Prevents(payload: Bytes, k: nat)
    requires k < |payload|
  {
    k >= 2 && payload[k] == 3 && payload[k - 1] == 0 && payload[k - 2] == 0
  }

  /** The bytes from `i` on without those. */
  function WithoutPrevention(payload: Bytes, i: nat): Bytes
    requires i <= |payload|
    decreases |payload| - i
  {
    if i == |payload| then []
    else (if Prevents(payload, i) then [] else [payload[i]]) + WithoutPrevention(payload, i + 1)
  }

  /** `zeros` tells, as far as it matters, how many zeros stand right before `i`. */
  predicate CountsZeros(payload: Bytes, i: nat, zeros: nat)
    requires i <= |payload|
  {
    && (zeros >= 1 <==> i >= 1 && payload[i - 1] == 0)
    && (zeros >= 2 <==> i >= 2 && payload[i - 1] == 0 && payload[i - 2] == 0)
  }

  lemma CountsOn(payload: Bytes, i: nat, zeros: nat)
    requires i < |payload| && CountsZeros(payload, i, zeros)
    ensures Prevents(payload, i) <==> zeros >= 2 && payload[i] == 3
    ensures CountsZeros(payload, i + 1, if Prevents(payload, i) then 0 else if payload[i] == 0 then zeros + 1 else 0)
  {
  }

  lemma UnescapeUnfolds(b: byte, rest: Bytes, zeros: nat)
    ensures Unescape([b] + rest, zeros) ==
            if zeros >= 2 && b == 3 then Unescape(rest, 0)
            else [b] + Unescape(rest, if b == 0 then zeros + 1 else 0)
  {
    assert ([b] + rest)[1..] == rest;
  }

  lemma {:induction false} UnescapeFrom(payload: Bytes, i: nat, zeros: nat)
    requires i <= |payload| && CountsZeros(payload, i, zeros)
    ensures Unescape(payload[i..], zeros) == WithoutPrevention(payload, i)
    decreases |payload| - i
  {
    if i < |payload| {
      assert payload[i..] == [payload[i]] + payload[i + 1..];
      UnescapeUnfolds(payload[i], payload[i + 1..], zeros);
      CountsOn(payload, i, zeros);
      UnescapeFrom(payload, i + 1, if Prevents(payload, i) then 0 else if payload[i] == 0 then zeros + 1 else 0);
    }
  }

  /** On arbitrary bytes, escaped or not, exactly the 03 bytes right behind two zeros are removed. */
  lemma RemovesExactly(payload: Bytes)
    ensures Unescape(payload, 0) == WithoutPrevention(payload, 0)
  {
    UnescapeFrom(payload, 0, 0);
    assert payload[0..] == payload;
  }
}
