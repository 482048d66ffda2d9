/** Runs of the write cursor: any operations, in any order, whether or not they fit. */
module CursorRun {
  import opened BitSeq
  import opened BitRefs

  datatype CursorOp = Put(v: nat, n: nat) | Octets(src: seq<byte>) | Align | AlignZero

  /** The bits an operation asks for. */
  function Wanted(w: seq<bool>, op: CursorOp): seq<bool> {
    match op
    case Put(v, n) => if n < 64 then ToBits(v, n) else []
    case Octets(src) => OctetBits(src)
    case Align => Zeros(PadLen(|w|))
    case AlignZero => Zeros(PadLen(|w|))
  }

  /** Whether it is let through. A copy of octets must end before the last octet of the
      buffer, even where it would just fit. */
  predicate Accepted(w: seq<bool>, op: CursorOp, max: nat) {
    match op
    case Put(_, n) => n < 64 && |w| + n <= 8 * max
    case Octets(src) => src == [] || |w| / 8 + |src| < max
    case Align => true
    case AlignZero => true
  }

  /** The bits written after an operation: a copy of octets is refused whole, while a number
      that does not fit is written as far as it goes. */
  function After(w: seq<bool>, op: CursorOp, max: nat): (r: seq<bool>)
    requires |w| <= 8 * max
    ensures |r| <= 8 * max && w <= r
  {
    if op.Octets? && !Accepted(w, op, max) then w else Fill(w, Wanted(w, op), 8 * max)
  }

  function AfterAll(w: seq<bool>, ops: seq<CursorOp>, max: nat): (r: seq<bool>)
    requires |w| <= 8 * max
    ensures |r| <= 8 * max && w <= r
    decreases |ops|
  {
    if ops == [] then w else AfterAll(After(w, ops[0], max), ops[1..], max)
  }

  /** An accepted operation writes all that it wants. */
  lemma AcceptedIsWhole(w: seq<bool>, op: CursorOp, max: nat)
    requires |w| <= 8 * max && Accepted(w, op, max)
    ensures After(w, op, max) == w + Wanted(w, op)
  {
    hide ToBits, OctetBits;
  }

  /** One operation on the cursor. */
  method Step(w: BitRef, op: CursorOp) returns (code: Code)
    requires w.Valid()
    modifies w`ptr, w`offset, w`written, w.buf
    ensures w.Valid() && w.buf == old(w.buf) && w.max == old(w.max)
    ensures w.written == After(old(w.written), op, w.max)
    ensures code == if Accepted(old(w.written), op, w.max) then Success else EncodeFail
    ensures forall i | w.EndOctet() <= i < w.buf.Length :: w.buf[i] == old(w.buf[i])
  {
    hide ToBits, OctetBits;
    match op
    case Put(v, n) => code := w.Pack(v, n);
    case Octets(src) =>
      var a := new byte[|src|](i requires 0 <= i < |src| => src[i]);
      assert a[..|src|] == src;
      code := w.PackBytes(a, |src|);
    case Align => code := w.AlignBytes();
    case AlignZero => code := w.AlignBytesZero();
  }

  /** Any run from a new cursor: what is written only grows, the rest of a partly written
      octet is zero, and no octet past the cursor changes. */
  method RunAll(buf: array<byte>, size: nat, ops: seq<CursorOp>) returns (w: BitRef)
    requires size <= buf.Length
    modifies buf
    ensures fresh(w) && w.buf == buf && w.max == size
    ensures w.ptr <= w.max && w.offset < 8 && (w.ptr == w.max ==> w.offset == 0)
    ensures w.written == AfterAll([], ops, size)
    ensures var e := w.EndOctet();
      |w.written| <= 8 * e <= 8 * size && OctetBits(buf[..e]) == w.written + Zeros(8 * e - |w.written|)
    ensures forall i | w.EndOctet() <= i < buf.Length :: buf[i] == old(buf[i])
  {
    hide After, OctetBits;
    w := new BitRef(buf, size);
    for i := 0 to |ops|
      invariant w.Valid() && w.buf == buf && w.max == size
      invariant AfterAll(w.written, ops[i..], size) == AfterAll([], ops, size)
      invariant forall k | w.EndOctet() <= k < buf.Length :: buf[k] == old(buf[k])
    {
      assert ops[i..][0] == ops[i] && ops[i..][1..] == ops[i + 1..];
      var code := Step(w, ops[i]);
    }
  }
}
