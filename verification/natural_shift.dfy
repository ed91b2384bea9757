/**
 * decode_with as written threads its shift in an 8-bit unsigned integer and
 * adds 7 per byte read. From the 38th byte of one number on, `shift + 7`
 * no longer fits: a release build wraps it modulo 256 (a debug build aborts
 * on the overflow). This module models the wrapping reading and shows the
 * input on which it parts from the intended, unbounded shift of NaturalCoder.
 */
module NaturalShift {
  import opened Results
  import opened NaturalCoder

  /** decode_with with `shift: u8`, the addition wrapping modulo 256. */
  function DecodeWithU8(bs: seq<bv8>, decoded: nat, shift: nat): (r: nat)
    requires shift < 256
    ensures bs != [] && !HasNext(bs[0]) ==> r == decoded + Part(bs[0]) * Pow2(shift)
    decreases |bs|
  {
    if bs == [] then decoded
    else
      var accumulated := decoded + Part(bs[0]) * Pow2(shift);
      if HasNext(bs[0]) then DecodeWithU8(bs[1..], accumulated, (shift + 7) % 256)
      else accumulated
  }

  /** decode_consuming over the 8-bit shift: the value it returns. */
  function DecodeU8(bs: seq<bv8>): (r: Result<nat>)
    ensures r.Err? <==> bs == []
  {
    if bs == [] then Err(InvalidNaturalBytes) else Ok(DecodeWithU8(bs, 0, 0))
  }

  /**
   * The generalised agreement: while the shift of the last byte read still
   * fits in eight bits, the wrapping decoder computes what decode_with with
   * an unbounded shift computes.
   */
  lemma {:induction false} AgreesWhileShort(bs: seq<bv8>, decoded: nat, shift: nat)
    requires shift < 256 && shift + 7 * (ConsumedLength(bs) - 1) < 256
    ensures DecodeWithU8(bs, decoded, shift) == DecodeFrom(bs, decoded, shift)
    decreases |bs|
  {
    if bs != [] && HasNext(bs[0]) && |bs| > 1 {
      ScaledNat(Part(bs[0]), shift);
      var accumulated := decoded + Part(bs[0]) * Pow2(shift);
      assert ConsumedLength(bs) == 1 + ConsumedLength(bs[1..]);
      assert DecodeWithU8(bs, decoded, shift) == DecodeWithU8(bs[1..], accumulated, shift + 7);
      AgreesWhileShort(bs[1..], accumulated, shift + 7);
    }
  }

  /** On every input whose number is at most 37 bytes long, the as-written decoder gives the intended value. */
  lemma AgreesUpTo37Bytes(bs: seq<bv8>)
    requires bs != [] && ConsumedLength(bs) <= 37
    ensures DecodeU8(bs) == Ok(DecodeNatural(bs).value.value)
  {
    var v := Value(bs[..ConsumedLength(bs)]);
    AgreesWhileShort(bs, 0, 0);
    DecodeFromValue(bs, 0, 0);
    assert Pow2(0) == 1;
    assert DecodeWithU8(bs, 0, 0) == v;
    assert DecodeNatural(bs).value.value == v;
  }

  /** k flagged zero groups. */
  function Flagged(k: nat): (r: seq<bv8>)
    ensures |r| == k && forall i :: 0 <= i < k ==> r[i] == 0x80
  {
    if k == 0 then [] else [0x80] + Flagged(k - 1)
  }

  lemma {:induction false} FlaggedWorthZero(k: nat)
    ensures Value(Flagged(k)) == 0
  {
    if k > 0 {
      assert Flagged(k)[1..] == Flagged(k - 1);
      FlaggedWorthZero(k - 1);
    }
  }

  /** One flagged zero group moves the wrapping shift on by 7 and adds nothing. */
  lemma SkipZeroGroup(rest: seq<bv8>, decoded: nat, shift: nat)
    requires shift < 256
    ensures DecodeWithU8([0x80] + rest, decoded, shift) == DecodeWithU8(rest, decoded, (shift + 7) % 256)
  {
    assert ([0x80] + rest)[1..] == rest;
    assert Part(0x80) == 0 && HasNext(0x80);
  }

  lemma ModShift(a: nat, b: nat)
    ensures (a % 256 + b) % 256 == (a + b) % 256
  {
    var q := a / 256;
    assert a == 256 * q + a % 256;
    assert a + b == 256 * q + (a % 256 + b);
  }

  lemma WrapStep(shift: nat, k: nat)
    requires k > 0
    ensures ((shift + 7) % 256 + 7 * (k - 1)) % 256 == (shift + 7 * k) % 256
  {
    ModShift(shift + 7, 7 * (k - 1));
  }

  lemma FlaggedCons(k: nat, rest: seq<bv8>)
    requires k > 0
    ensures Flagged(k) + rest == [0x80] + (Flagged(k - 1) + rest)
  {
    assert Flagged(k) == [0x80] + Flagged(k - 1);
  }

  /** The wrapping shift after k more bytes, stepped as decode_with steps it. */
  function ShiftAfter(k: nat, shift: nat): (r: nat)
    requires shift < 256
    ensures r < 256
  {
    if k == 0 then shift else ShiftAfter(k - 1, (shift + 7) % 256)
  }

  /** Stepping k times by 7 modulo 256 is adding 7k modulo 256. */
  lemma {:induction false} ShiftAfterWraps(k: nat, shift: nat)
    requires shift < 256
    ensures ShiftAfter(k, shift) == (shift + 7 * k) % 256
  {
    if k > 0 {
      ShiftAfterWraps(k - 1, (shift + 7) % 256);
      WrapStep(shift, k);
    }
  }

  /** k flagged zero groups add nothing and move the wrapping shift on k steps. */
  lemma {:induction false} SkipFlagged(k: nat, rest: seq<bv8>, decoded: nat, shift: nat)
    requires shift < 256
    ensures DecodeWithU8(Flagged(k) + rest, decoded, shift) == DecodeWithU8(rest, decoded, ShiftAfter(k, shift))
  {
    if k == 0 {
      assert Flagged(0) + rest == rest;
    } else {
      var next := (shift + 7) % 256;
      FlaggedCons(k, rest);
      SkipZeroGroup(Flagged(k - 1) + rest, decoded, shift);
      SkipFlagged(k - 1, rest, decoded, next);
    }
  }

  /** Reading k flagged zero groups then 0x01 with the wrapping shift: the last group lands at (shift + 7k) mod 256. */
  lemma WrappedShift(k: nat, decoded: nat, shift: nat)
    requires shift < 256
    ensures DecodeWithU8(Flagged(k) + [1], decoded, shift) == decoded + Pow2((shift + 7 * k) % 256)
  {
    var last := (shift + 7 * k) % 256;
    SkipFlagged(k, [1], decoded, shift);
    ShiftAfterWraps(k, shift);
    assert Part(1) == 1 && !HasNext(1);
    assert DecodeWithU8([1], decoded, last) == decoded + 1 * Pow2(last);
  }

  /** k flagged zero groups closed by 0x01 form the canonical encoding of 2^(7k). */
  lemma FlaggedOneIsEncoding(k: nat)
    ensures Canonical(Flagged(k) + [1]) && Value(Flagged(k) + [1]) == Pow2(7 * k)
    ensures EncodeUnsigned(Pow2(7 * k)) == Flagged(k) + [1]
  {
    var bs := Flagged(k) + [1];
    FlaggedWorthZero(k);
    ValueAppend(Flagged(k), 1);
    assert Part(1) == 1 && !HasNext(1);
    forall i | 0 <= i < |bs| - 1 ensures HasNext(bs[i]) {
      assert bs[i] == 0x80;
    }
    CanonicalIsEncoding(bs);
  }

  /** 2^259 takes 38 bytes: 37 flagged zero groups and a final 0x01. */
  lemma OverflowEncoding()
    ensures EncodeUnsigned(Pow2(259)) == Flagged(37) + [1]
  {
    FlaggedOneIsEncoding(37);
  }

  /** The wrapping decoder reads the 38th group at shift (252 + 7) mod 256 = 3. */
  lemma OverflowWrappedDecode()
    ensures DecodeWithU8(Flagged(37) + [1], 0, 0) == 8
  {
    WrappedShift(37, 0, 0);
    assert Pow2(3) == 8;
  }

  /**
   * The counterexample: the intended decoder gives 2^259 back from its
   * encoding; the as-written one returns 8.
   */
  lemma ShiftOverflowBreaksRoundTrip()
    ensures EncodeUnsigned(Pow2(259)) == Flagged(37) + [1]
    ensures DecodeU8(EncodeUnsigned(Pow2(259))) == Ok(8)
    ensures DecodeNatural(EncodeUnsigned(Pow2(259))) == Ok(Decoded(Pow2(259), []))
  {
    OverflowEncoding();
    OverflowWrappedDecode();
    RoundTrip(Pow2(259));
  }
}
