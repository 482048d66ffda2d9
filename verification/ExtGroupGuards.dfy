/** The extension group guards over the cursors. */
module ExtGroupGuards {
  import opened BitSeq
  import opened BitRefs
  import opened CBitRefs
  import opened Wire
  import opened PerFormat
  import opened PerCodec
  import opened OpenFields
  import opened OpenFieldGuards
  import opened ExtGroups

  class ExtGroupsPackerGuard {
    var groups: seq<bool>

    constructor ()
      ensures groups == []
    {
      groups := [];
    }

    /** operator[]: the array grows to hold the index, absent groups in between. */
    method SetPresent(idx: nat, present: bool)
      modifies this
      ensures |groups| == Max(|old(groups)|, idx + 1) && groups[idx] == present
      ensures forall i | 0 <= i < |groups| && i != idx :: groups[i] == (i < |old(groups)| && old(groups)[i])
    {
      if idx >= |groups| {
        groups := Padded(groups, idx + 1);
      }
      groups := groups[idx := present];
    }

    method Pack(b: BitRef) returns (code: Code)
      requires b.Valid() && |groups| < 0xFFFF_FFFF
      modifies b`ptr, b`offset, b`written, b.buf
      ensures Emits(b, FlagsEnc(groups), code)
    {
      hide BitRef.Valid, CodeOf, Fill, Enc.Then, SmallEnc, ToBits;
      var nofGroups := |groups|;
      assert groups[..nofGroups] == groups;
      while nofGroups > 0 && !groups[nofGroups - 1]
        invariant nofGroups <= |groups| && UpToLastSet(groups) == UpToLastSet(groups[..nofGroups])
      {
        assert groups[..nofGroups][..nofGroups - 1] == groups[..nofGroups - 1];
        nofGroups := nofGroups - 1;
      }
      ghost var g := UpToLastSet(groups);
      assert g == groups[..nofGroups];
      assert SmallEnc(CountField(|g|)).ok ==> Strict(SmallEnc(CountField(|g|))) by { SmallStrict(CountField(|g|)); }
      SmallThen(b.written, CountField(|g|), Checked(g), b.Cap());
      code := PackSmall(b, CountField(nofGroups));
      if code != Success { return; }
      code := PackFlags(b, groups, nofGroups);
    }
  }

  lemma {:induction false} SmallStrict(n: nat)
    ensures Strict(SmallEnc(n))
  {
  }

  lemma {:induction false} SmallThen(w: seq<bool>, n: nat, e: Enc, cap: nat)
    requires |w| <= cap && e.Valid()
    ensures CodeOf(SmallEnc(n), |w|, cap) != Success ==>
              && Fill(w, SmallEnc(n).Then(e).bits, cap) == Fill(w, SmallEnc(n).bits, cap)
              && CodeOf(SmallEnc(n).Then(e), |w|, cap) == EncodeFail
    ensures CodeOf(SmallEnc(n), |w|, cap) == Success ==>
              && Fill(w, SmallEnc(n).bits, cap) == w + SmallEnc(n).bits
              && Fill(w, SmallEnc(n).Then(e).bits, cap) == Fill(w + SmallEnc(n).bits, e.bits, cap)
              && CodeOf(SmallEnc(n).Then(e), |w|, cap) == CodeOf(e, |w| + |SmallEnc(n).bits|, cap)
  {
    hide SmallEnc, Fill, CodeOf, Enc.Then;
    SmallStrict(n);
    Sequenced(w, SmallEnc(n), e, cap);
  }

  /** The presence flags, one bit each. */
  method PackFlags(b: BitRef, groups: seq<bool>, n: nat) returns (code: Code)
    requires b.Valid() && n <= |groups|
    modifies b`ptr, b`offset, b`written, b.buf
    ensures Emits(b, Checked(groups[..n]), code)
  {
    hide BitRef.Valid;
    ghost var w := b.written;
    for j := 0 to n
      invariant b.Valid() && b.RestKept() && b.written == w + groups[..j]
    {
      code := PackFlag(b, groups[j]);
      if code != Success {
        NoRoomLeft(w, groups[..n], j);
        return;
      }
    }
    code := Success;
  }

  method PackFlag(b: BitRef, present: bool) returns (code: Code)
    requires b.Valid()
    modifies b`ptr, b`offset, b`written, b.buf
    ensures b.Valid() && b.RestKept() && code == if |old(b.written)| < b.Cap() then Success else EncodeFail
    ensures b.written == old(b.written) + if code == Success then [present] else []
  {
    hide BitRef.Valid, ToBits;
    BitOfFlag(present);
    code := b.Pack(if present then 1 else 0, 1);
  }

  lemma {:induction false} NoRoomLeft(w: seq<bool>, flags: seq<bool>, j: nat)
    requires j < |flags|
    ensures Fill(w, flags, |w| + j) == w + flags[..j]
  {
  }

  class ExtGroupsUnpackerGuard {
    var groups: seq<bool>
    const nofSupported: nat
    var nofUnpacked: nat

    constructor (k: nat)
      ensures nofSupported == k && groups == Zeros(k) && nofUnpacked == 0
    {
      nofSupported, nofUnpacked, groups := k, 0, Zeros(k);
    }

    method Resize(n: nat)
      modifies this`groups
      ensures groups == Padded(old(groups), Max(n, nofSupported))
    {
      groups := Padded(groups, Max(n, nofSupported));
    }

    method Unpack(r: CBitRef) returns (code: Code)
      requires r.Valid() && groups == Zeros(nofSupported) && nofUnpacked == 0
      modifies this, r`ptr, r`offset
      ensures r.Valid()
      ensures Header(nofUnpacked, groups, r.Pos(), code == Success) == DecHeader(r.stream, old(r.Pos()), nofSupported)
      ensures code == Success || code == DecodeFail
    {
      hide CBitRef.Valid, DecSmall, DecHeader, Padded, SmallRefused;
      ghost var s, p := r.stream, r.Pos();
      code, nofUnpacked := UnpackSmall(r, 32, nofUnpacked);
      if code != Success {
        CountCut(s, p, nofSupported, nofUnpacked, r.Pos());
        return;
      }
      CountRead(s, p, nofSupported);
      nofUnpacked := nofUnpacked + 1;
      Resize(nofUnpacked);
      NoFlags(nofUnpacked, nofSupported);
      code := UnpackFlags(r);
    }

    method UnpackFlags(r: CBitRef) returns (code: Code)
      requires r.Valid() && |groups| == Max(nofUnpacked, nofSupported) && forall j | 0 <= j < |groups| :: !groups[j]
      modifies this`groups, r`ptr, r`offset
      ensures r.Valid()
      ensures code == if old(r.Pos()) + nofUnpacked <= |r.stream| then Success else DecodeFail
      ensures r.Pos() == Min(old(r.Pos()) + nofUnpacked, |r.stream|)
      ensures groups == Padded(r.stream[old(r.Pos())..r.Pos()], Max(nofUnpacked, nofSupported))
    {
      hide CBitRef.Valid;
      ghost var p := r.Pos();
      for i := 0 to nofUnpacked
        invariant r.Valid() && r.Pos() == p + i <= |r.stream|
        invariant |groups| == Max(nofUnpacked, nofSupported)
        invariant forall j | 0 <= j < |groups| :: groups[j] == (j < i && r.stream[p + j])
      {
        var present;
        code, present := UnpackFlag(r);
        if code != Success { return; }
        groups := groups[i := present];
      }
      code := Success;
    }

    /** The destructor: reads past every unknown group that is present.  The count may go
        beyond the flags; `beyond` is what is found there. */
    method Close(r: CBitRef, beyond: seq<bool>)
      requires r.Valid() && nofUnpacked <= |groups| + |beyond|
      modifies r`ptr, r`offset
      ensures r.Valid()
      ensures r.Pos() == SkipGroups(r.stream, old(r.Pos()), groups + beyond, nofSupported, nofUnpacked)
    {
      hide CBitRef.Valid, SkipGroups, CloseAt, OpenAt;
      var i := nofSupported;
      ghost var p0 := r.Pos();
      while i < nofUnpacked
        invariant r.Valid()
        invariant SkipGroups(r.stream, r.Pos(), groups + beyond, i, nofUnpacked)
               == SkipGroups(r.stream, p0, groups + beyond, nofSupported, nofUnpacked)
      {
        SkipStep(r.stream, r.Pos(), groups + beyond, i, nofUnpacked);
        if (groups + beyond)[i] {
          ghost var p := r.Pos();
          var scope := new UnpackGuard(r, false);
          ClosedAtEnd(r.stream, scope.len);
          ClosedAtEnd(r.stream, OpenAt(r.stream, p, false).len);
          scope.Close();
        }
        i := i + 1;
      }
      SkipEnd(r.stream, r.Pos(), groups + beyond, i, nofUnpacked);
    }
  }

  lemma {:induction false} CountCut(s: seq<bool>, pos: nat, k: nat, n: nat, end: nat)
    requires pos <= |s| && DecSmall(s, pos, 32).Bad? && SmallRefused(s, pos, 0, n, end)
    ensures DecHeader(s, pos, k) == Header(n, Zeros(k), end, false)
  {
    hide FromBits, CutShort, DecSmall;
  }

  lemma {:induction false} CountRead(s: seq<bool>, pos: nat, k: nat)
    requires pos <= |s| && DecSmall(s, pos, 32).Got?
    ensures var d := DecSmall(s, pos, 32); var n := d.val + 1; var end := Min(d.pos + n, |s|);
            && d.pos <= |s|
            && DecHeader(s, pos, k) == Header(n, Padded(s[d.pos..end], Max(n, k)), end, d.pos + n <= |s|)
  {
    hide FromBits, CutShort, Padded;
    if pos < |s| { BitValue(s, pos); }
    var d := DecSmall(s, pos, 32);
    if d.pos + d.val + 1 <= |s| {
      PaddedEnough(s[d.pos..d.pos + d.val + 1], k);
    } else {
      assert s[d.pos..|s|] == s[d.pos..];
    }
  }

  lemma {:induction false} PaddedEnough(g: seq<bool>, k: nat)
    ensures Padded(g, Max(|g|, k)) == Padded(g, k)
  {
  }

  lemma {:induction false} NoFlags(n: nat, k: nat)
    ensures var g := Padded(Zeros(k), Max(n, k)); |g| == Max(n, k) && forall j | 0 <= j < |g| :: !g[j]
  {
  }

  method UnpackFlag(r: CBitRef) returns (code: Code, present: bool)
    requires r.Valid()
    modifies r`ptr, r`offset
    ensures r.Valid() && code == if old(r.Pos()) < |r.stream| then Success else DecodeFail
    ensures if code == Success then r.Pos() == old(r.Pos()) + 1 && present == r.stream[old(r.Pos())]
            else r.Pos() == |r.stream|
  {
    hide CBitRef.Valid, FromBits;
    var v;
    ghost var p := r.Pos();
    code, v := r.Unpack(1, 8);
    if code != Success { return code, false; }
    assert r.stream[p..p + 1] == [r.stream[p]];
    BitOfFlag(r.stream[p]);
    present := v == 1;
  }

  lemma {:induction false} SkipStep(s: seq<bool>, pos: nat, flags: seq<bool>, i: nat, n: nat)
    requires pos <= |s| && i < n <= |flags|
    ensures SkipGroups(s, pos, flags, i, n)
         == SkipGroups(s, if flags[i] then SkipField(s, pos) else pos, flags, i + 1, n)
  {
    hide SkipField;
  }

  lemma {:induction false} SkipEnd(s: seq<bool>, pos: nat, flags: seq<bool>, i: nat, n: nat)
    requires pos <= |s| && n <= i && n <= |flags|
    ensures SkipGroups(s, pos, flags, i, n) == pos
  {
  }

  /** A decoder of |schemas| groups: the flags, the groups it knows, then the rest.  It does
      not look at the header's return code.  `beyond` is what memory holds behind the flags,
      as far as a count cut short may reach; nothing depends on it. */
  method UnpackGroups(r: CBitRef, schemas: seq<Schema>, beyond: seq<bool>) returns (code: Code, flags: seq<bool>, vals: seq<nat>)
    requires r.Valid() && |beyond| >= 64
    modifies r`ptr, r`offset
    ensures r.Valid()
    ensures GroupsRead(flags, vals, code == Success, r.Pos()) == DecGroups(r.stream, old(r.Pos()), schemas)
  {
    hide CBitRef.Valid, DecHeader, DecMsg, SkipGroups, Known;
    ghost var p := r.Pos();
    HeaderBounds(r.stream, p, |schemas|);
    var guard := new ExtGroupsUnpackerGuard(|schemas|);
    var dropped := guard.Unpack(r);
    flags := guard.groups;
    code, vals := UnpackMsg(r, Known(flags, schemas, 0));
    SkipBeyond(r.stream, r.Pos(), flags, beyond, |schemas|, guard.nofUnpacked);
    guard.Close(r, beyond);
  }

  lemma {:induction false} HeaderBounds(s: seq<bool>, pos: nat, k: nat)
    requires pos <= |s|
    ensures var h := DecHeader(s, pos, k);
            && h.count <= |h.flags| + 64 && |h.flags| >= k && (h.count > |h.flags| ==> h.pos == |s|)
  {
    hide FromBits, Shl;
    CountWithinFlags(s, pos, k);
    if pos < |s| < pos + 7 {
      CutShortBound(s, pos + 1, 6);
    }
  }

  lemma {:induction false} CutShortBound(s: seq<bool>, pos: nat, n: nat)
    requires pos <= |s| < pos + n && n == 6
    ensures CutShort(s, pos, n) < 64
  {
    hide FromBits, Shl, Pow2;
    ShlBound(FromBits(s[pos..]), n - (|s| - pos), |s| - pos);
    SixBits();
  }

  lemma {:induction false} SixBits()
    ensures Pow2(6) == 64
  {
  }

  lemma {:induction false} SkipBeyond(s: seq<bool>, pos: nat, flags: seq<bool>, beyond: seq<bool>, i: nat, n: nat)
    requires pos <= |s| && n <= |flags| + |beyond| && (n > |flags| ==> pos == |s|)
    ensures SkipGroups(s, pos, flags + beyond, i, n)
         == if n <= |flags| then SkipGroups(s, pos, flags, i, n) else |s|
    decreases n - i
  {
    hide SkipField;
    if n > |flags| {
      SkipAtEnd(s, flags + beyond, i, n);
    } else if i < n {
      var q := if flags[i] then SkipField(s, pos) else pos;
      SkipBeyond(s, q, flags, beyond, i + 1, n);
    }
  }
}
