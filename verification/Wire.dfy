/** What an encoder puts on the wire, and reading it back from any place in any
    bit stream. */
module Wire {
  import opened BitSeq
  import opened BitRefs
  import opened CBitRefs

  /** The bits an encoder emits before it returns, whether it gets to the end of
      its work, and how many of the bits must fit the buffer for it to report
      success: fewer than all of them where a return code is dropped. */
  datatype Enc = Enc(bits: seq<bool>, need: nat, ok: bool) {

    ghost predicate Valid() { need <= |bits| }

    /** This encoder followed, on success, by e. */
    function Then(e: Enc): Enc {
      if ok then Enc(bits + e.bits, if e.need == 0 then need else |bits| + e.need, e.ok)
      else this
    }
  }

  const NOTHING := Enc([], 0, true)
  const REFUSED := Enc([], 0, false)

  function Checked(bits: seq<bool>): Enc { Enc(bits, |bits|, true) }

  /** Nothing is emitted without its return code being looked at. */
  ghost predicate Strict(e: Enc) { e.need == |e.bits| }

  /** bit_ref::pack of n bits of v. */
  function Field(v: nat, n: nat): (e: Enc)
    ensures Strict(e)
  {
    if n < 64 then Checked(ToBits(v, n)) else REFUSED
  }

  function Pad(pos: nat): (e: Enc)
    ensures Strict(e) && e.ok
  {
    Checked(Zeros(PadLen(pos)))
  }

  /** bits stand in s at pos. */
  ghost predicate At(s: seq<bool>, pos: nat, bits: seq<bool>) {
    pos + |bits| <= |s| && s[pos..pos + |bits|] == bits
  }

  lemma {:induction false} AtIs(s: seq<bool>, pos: nat, x: seq<bool>)
    requires At(s, pos, x)
    ensures pos + |x| <= |s| && s[pos..pos + |x|] == x
  {
  }

  lemma {:induction false} AtSplit(s: seq<bool>, pos: nat, a: seq<bool>, b: seq<bool>)
    requires At(s, pos, a + b)
    ensures At(s, pos, a) && At(s, pos + |a|, b)
  {
    var w := s[pos..pos + |a + b|];
    assert s[pos..pos + |a|] == w[..|a|] == a;
    assert s[pos + |a|..pos + |a| + |b|] == w[|a|..] == b;
  }

  /** A stream with given bits at any place is some prefix, the bits, some rest. */
  lemma {:induction false} AtConcat(pre: seq<bool>, bits: seq<bool>, post: seq<bool>)
    ensures At(pre + bits + post, |pre|, bits)
  {
    assert (pre + bits + post)[|pre|..|pre| + |bits|] == bits;
  }

  lemma {:induction false} ReadBack(s: seq<bool>, pos: nat, v: nat, n: nat, width: nat)
    requires At(s, pos, ToBits(v, n)) && n <= width
    ensures DecBits(s, pos, n, width) == Got(Low(v, n), pos + n)
  {
    FromToBits(v, n);
  }

  lemma {:induction false} ReadBackExact(s: seq<bool>, pos: nat, v: nat, n: nat, width: nat)
    requires At(s, pos, ToBits(v, n)) && n <= width && v < Pow2(n)
    ensures DecBits(s, pos, n, width) == Got(v, pos + n)
  {
    ReadBack(s, pos, v, n, width);
    LowExact(v, n);
  }

  lemma {:induction false} BitValue(s: seq<bool>, pos: nat)
    requires pos < |s|
    ensures DecBits(s, pos, 1, 8) == Got(if s[pos] then 1 else 0, pos + 1)
  {
    hide FromBits;
    assert s[pos..pos + 1] == [s[pos]];
    BitOfFlag(s[pos]);
  }
}
