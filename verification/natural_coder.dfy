/**
 * The byte codec for natural numbers (NaturalBytesCoder): an arbitrary-precision
 * non-negative integer is written as base-128 groups, least-significant group
 * first, one group per byte; bit 7 (0x80) of a byte says that another byte
 * follows. Zero is the single byte 0x00. This is unsigned LEB128.
 *
 * Encoding is pure (a tail-recursive function with an accumulator); decoding
 * consumes bytes from the front of a shared buffer and is a method over
 * ConsumableList.ByteBuffer, proved against the pure reading DecodeNatural.
 */
module NaturalCoder {
  import opened Results
  import opened ConsumableList

  // ---------------------------------------------------------------------
  // Bytes, groups and their meaning
  // ---------------------------------------------------------------------

  /** The group a byte carries: its low seven bits (`byte & 0b0111_1111`). */
  function Part(b: bv8): nat {
    (b & 0x7F) as nat
  }

  /** The continuation flag: bit 7 is set when another byte of the same number follows. */
  predicate HasNext(b: bv8) {
    b & 0x80 == 0x80
  }

  /** 2^k, so that `part << k` on an arbitrary-precision integer is `part * Pow2(k)`. */
  function Pow2(k: nat): (r: nat)
    ensures r >= 1
  {
    if k == 0 then 1 else 2 * Pow2(k - 1)
  }

  lemma Pow2Add7(k: nat)
    ensures Pow2(k + 7) == 128 * Pow2(k)
  {
    assert Pow2(k + 7) == 2 * Pow2(k + 6);
    assert Pow2(k + 6) == 2 * Pow2(k + 5);
    assert Pow2(k + 5) == 2 * Pow2(k + 4);
    assert Pow2(k + 4) == 2 * Pow2(k + 3);
    assert Pow2(k + 3) == 2 * Pow2(k + 2);
    assert Pow2(k + 2) == 2 * Pow2(k + 1);
  }

  /**
   * The number a run of groups stands for, read least-significant group
   * first: byte i contributes Part(byte) * 128^i (see ValueAppend).
   */
  function Value(bs: seq<bv8>): nat
  {
    if bs == [] then 0 else Part(bs[0]) + 128 * Value(bs[1..])
  }

  /** A canonical encoding: continuation bits on every byte but the last, no trailing zero group. */
  predicate Canonical(bs: seq<bv8>) {
    && |bs| >= 1
    && (forall i :: 0 <= i < |bs| - 1 ==> HasNext(bs[i]))
    && !HasNext(bs[|bs| - 1])
    && (|bs| > 1 ==> bs[|bs| - 1] != 0)
  }

  // ---------------------------------------------------------------------
  // Encoding
  // ---------------------------------------------------------------------

  /** `to_u8` on a number that fits in a byte: the byte with that numeric value. */
  function ToU8(n: nat): (r: bv8)
    requires n < 256
    ensures r as int == n
  {
    if n == 0 then 0
    else
      var high := ToU8(n / 2);
      var bit: bv8 := if n % 2 == 1 then 1 else 0;
      Below128(high);
      ShiftIn(high, bit);
      (high << 1) | bit
  }

  /** The byte emitted for a non-zero remaining magnitude: its low seven bits, flagged when more follows. */
  function GroupByte(value: nat): bv8 {
    var byte := ToU8(value % 128);
    var sequenceMask: bv8 := if value / 128 == 0 then 0x00 else 0x80;
    byte | sequenceMask
  }

  /** encode_with: appends the groups of `value` to `encoded`, one byte per step. */
  function EncodeWith(value: nat, encoded: seq<bv8>): (r: seq<bv8>)
    ensures |r| >= |encoded| && r[..|encoded|] == encoded
    ensures value > 0 ==> |r| > |encoded|
    decreases value
  {
    if value == 0 then encoded
    else EncodeWith(value / 128, encoded + [GroupByte(value)])
  }

  /** encode_unsigned: zero is the single byte 0x00; anything else is its groups. */
  function EncodeUnsigned(value: nat): (r: seq<bv8>)
    ensures |r| >= 1
  {
    if value == 0 then [0x00] else EncodeWith(value, [])
  }

  /** Encoder::encode for Natural: never fails, and agrees with encode_unsigned. */
  function Encode(value: nat): (r: Result<seq<bv8>>)
    ensures r.Ok? && r.value == EncodeUnsigned(value)
  {
    if value == 0 then Ok([0x00]) else Ok(EncodeWith(value, []))
  }

  // ---------------------------------------------------------------------
  // Decoding: the pure reading
  // ---------------------------------------------------------------------

  /**
   * How many bytes one decode reads: up to and including the first byte whose
   * continuation bit is clear, or the whole buffer when there is none.
   */
  function ConsumedLength(bs: seq<bv8>): (k: nat)
    ensures k <= |bs|
    ensures bs != [] ==> k >= 1
    ensures forall i :: 0 <= i < k - 1 ==> HasNext(bs[i])
    ensures 0 < k < |bs| ==> !HasNext(bs[k - 1])
  {
    if bs == [] then 0
    else if !HasNext(bs[0]) then 1
    else 1 + ConsumedLength(bs[1..])
  }

  /** A decoded number and what is left in the buffer after it. */
  datatype Decoded = Decoded(value: nat, rest: seq<bv8>)

  /**
   * decode_consuming, as a value: an empty buffer is an error; otherwise the
   * value of the bytes read and the untouched remainder.
   */
  function DecodeNatural(bs: seq<bv8>): (r: Result<Decoded>)
    ensures r.Err? <==> bs == []
    ensures r.Ok? ==> |r.value.rest| < |bs| && r.value.rest == bs[|bs| - |r.value.rest|..]
  {
    if bs == [] then Err(InvalidNaturalBytes)
    else
      var k := ConsumedLength(bs);
      Ok(Decoded(Value(bs[..k]), bs[k..]))
  }

  /** Reading a flagged byte: one group, then the decode of the rest shifted by seven bits. */
  lemma ConsumeStep(bs: seq<bv8>)
    requires bs != [] && HasNext(bs[0])
    ensures var k, k' := ConsumedLength(bs), ConsumedLength(bs[1..]);
      && k == 1 + k'
      && Value(bs[..k]) == Part(bs[0]) + 128 * Value(bs[1..][..k'])
      && bs[k..] == bs[1..][k'..]
  {
    var k, k' := ConsumedLength(bs), ConsumedLength(bs[1..]);
    assert bs[..k][1..] == bs[1..][..k'];
  }

  /** Reading an unflagged byte: it is the last one read. */
  lemma LastStep(bs: seq<bv8>)
    requires bs != [] && !HasNext(bs[0])
    ensures ConsumedLength(bs) == 1 && Value(bs[..1]) == Part(bs[0])
  {
    assert bs[..1][1..] == [];
  }

  /** A group scaled by a power of two is still a natural. */
  lemma ScaledNat(part: nat, shift: nat)
    ensures part * Pow2(shift) >= 0
  {
  }

  lemma ShiftStep(decoded: nat, part: nat, v: nat, shift: nat)
    ensures decoded + part * Pow2(shift) + v * Pow2(shift + 7) == decoded + (part + 128 * v) * Pow2(shift)
  {
    Pow2Add7(shift);
    assert v * (128 * Pow2(shift)) == (128 * v) * Pow2(shift);
  }

  /**
   * decode_with as a value: the group of each byte read is added at the
   * current shift, which grows by 7 per byte, until a byte without the
   * continuation bit or the end of the buffer. The shift is unbounded here;
   * NaturalShift models the 8-bit shift of the implementation.
   */
  function DecodeFrom(bs: seq<bv8>, decoded: nat, shift: nat): nat
    decreases |bs|
  {
    if bs == [] then decoded
    else
      var accumulated := decoded + Part(bs[0]) * Pow2(shift);
      if HasNext(bs[0]) then DecodeFrom(bs[1..], accumulated, shift + 7) else accumulated
  }

  /** A flagged byte read at `shift`, then the rest read at `shift + 7`: the same as reading both at once. */
  lemma FlaggedStep(bs: seq<bv8>, decoded: nat, shift: nat, r: nat)
    requires bs != [] && HasNext(bs[0])
    requires r == (decoded + Part(bs[0]) * Pow2(shift)) + Value(bs[1..][..ConsumedLength(bs[1..])]) * Pow2(shift + 7)
    ensures r == decoded + Value(bs[..ConsumedLength(bs)]) * Pow2(shift)
  {
    ConsumeStep(bs);
    ShiftStep(decoded, Part(bs[0]), Value(bs[1..][..ConsumedLength(bs[1..])]), shift);
  }

  /**
   * What decode_with computes: `decoded` plus the number the bytes it reads
   * stand for, shifted left by `shift` bits.
   */
  lemma {:induction false} DecodeFromValue(bs: seq<bv8>, decoded: nat, shift: nat)
    ensures DecodeFrom(bs, decoded, shift) == decoded + Value(bs[..ConsumedLength(bs)]) * Pow2(shift)
    decreases |bs|
  {
    if bs == [] {
      assert Value(bs[..0]) == 0;
    } else if !HasNext(bs[0]) {
      LastStep(bs);
    } else {
      ScaledNat(Part(bs[0]), shift);
      var accumulated := decoded + Part(bs[0]) * Pow2(shift);
      DecodeFromValue(bs[1..], accumulated, shift + 7);
      FlaggedStep(bs, decoded, shift, DecodeFrom(bs, decoded, shift));
    }
  }

  // ---------------------------------------------------------------------
  // Decoding: the consuming methods
  // ---------------------------------------------------------------------

  /**
   * decode_with: pops one byte, adds its group shifted by `shift`, and goes on
   * while the continuation bit is set. A buffer that runs out mid-number ends
   * the decode with what has been accumulated. The result is what the
   * recursive reading DecodeFrom gives, which DecodeFromValue shows to be
   * `decoded` plus the value of the bytes read, shifted by `shift`; exactly
   * those bytes are gone from the buffer.
   */
  method DecodeWith(buf: ByteBuffer, decoded: nat, shift: nat) returns (r: nat)
    modifies buf
    ensures r == DecodeFrom(old(buf.bytes), decoded, shift)
    ensures buf.bytes == old(buf.bytes)[ConsumedLength(old(buf.bytes))..]
    decreases |buf.bytes|
  {
    ghost var bs := buf.bytes;
    var next := buf.ConsumeAt(0);
    if next.Some? {
      var byte := next.value;
      var part := Part(byte);
      var hasNext := HasNext(byte);
      ScaledNat(part, shift);
      var accumulated := decoded + part * Pow2(shift);
      assert byte == bs[0];
      if hasNext {
        assert buf.bytes == bs[1..];
        assert DecodeFrom(bs, decoded, shift) == DecodeFrom(bs[1..], accumulated, shift + 7);
        r := DecodeWith(buf, accumulated, shift + 7);
        assert ConsumedLength(bs) == 1 + ConsumedLength(bs[1..]);
        assert bs[ConsumedLength(bs)..] == bs[1..][ConsumedLength(bs[1..])..];
      } else {
        assert DecodeFrom(bs, decoded, shift) == accumulated;
        assert ConsumedLength(bs) == 1;
        r := accumulated;
      }
    } else {
      r := decoded;
    }
  }

  /** decode_consuming: rejects an empty buffer, otherwise decodes from shift 0 and leaves the rest. */
  method DecodeConsuming(buf: ByteBuffer) returns (r: Result<nat>)
    modifies buf
    ensures old(buf.bytes) == [] ==> r == Err(InvalidNaturalBytes) && buf.bytes == old(buf.bytes)
    ensures old(buf.bytes) != [] ==>
      var d := DecodeNatural(old(buf.bytes));
      d.Ok? && r == Ok(d.value.value) && buf.bytes == d.value.rest
  {
    if buf.bytes == [] {
      return Err(InvalidNaturalBytes);
    }
    ghost var bs := buf.bytes;
    var result := DecodeWith(buf, 0, 0);
    DecodeFromValue(bs, 0, 0);
    assert Pow2(0) == 1;
    r := Ok(result);
  }

  /** Decoder::decode: decodes a fresh copy of the caller's bytes, so they are not consumed. */
  method Decode(value: seq<bv8>) returns (r: Result<nat>)
    ensures value == [] <==> r.Err?
    ensures r.Err? ==> r.error == InvalidNaturalBytes
    ensures r.Ok? ==> r.value == Value(value[..ConsumedLength(value)])
  {
    var copy := new ByteBuffer(value);
    r := DecodeConsuming(copy);
  }

  // ---------------------------------------------------------------------
  // Properties
  // ---------------------------------------------------------------------

  lemma SevenBits(x: bv8)
    requires x < 0x80
    ensures (x | 0x80) & 0x7F == x && (x | 0x80) & 0x80 == 0x80
    ensures (x | 0x00) == x && x & 0x7F == x && x & 0x80 == 0
  {
  }

  /** Shifting a bit in below a byte under 0x80 doubles its value and adds the bit. */
  lemma ShiftIn(x: bv8, bit: bv8)
    requires x < 0x80 && bit <= 1
    ensures ((x << 1) | bit) as int == 2 * (x as int) + bit as int
  {
  }

  /** Two bytes with the same numeric value are the same byte. */
  lemma SameByte(x: bv8, y: bv8)
    requires x as int == y as int
    ensures x == y
  {
  }

  lemma Below128(x: bv8)
    ensures x as int < 128 <==> x < 0x80
  {
  }

  lemma PartBelow(b: bv8)
    ensures Part(b) < 128
  {
  }

  /** A byte is rebuilt from its group and its continuation flag. */
  lemma Reassemble(b: bv8)
    ensures HasNext(b) ==> ToU8(Part(b)) | 0x80 == b
    ensures !HasNext(b) ==> ToU8(Part(b)) == b
  {
    PartBelow(b);
    SameByte(ToU8(Part(b)), b & 0x7F);
  }

  /** The byte emitted for a non-zero magnitude carries its low seven bits and flags a non-zero remainder. */
  lemma GroupByteBits(value: nat)
    requires value > 0
    ensures Part(GroupByte(value)) == value % 128
    ensures HasNext(GroupByte(value)) <==> value / 128 != 0
    ensures value < 128 ==> GroupByte(value) != 0
  {
    var x := ToU8(value % 128);
    Below128(x);
    SevenBits(x);
  }

  /** encode_with only appends: the accumulator stays a prefix of its result. */
  lemma {:induction false} EncodeWithAccumulates(value: nat, acc: seq<bv8>)
    ensures EncodeWith(value, acc) == acc + EncodeWith(value, [])
    decreases value
  {
    if value > 0 {
      var g := GroupByte(value);
      assert [] + [g] == [g];
      EncodeWithAccumulates(value / 128, acc + [g]);
      EncodeWithAccumulates(value / 128, [g]);
      assert acc + [g] + EncodeWith(value / 128, []) == acc + ([g] + EncodeWith(value / 128, []));
    }
  }

  /** The groups of a non-zero value are a canonical encoding of it, one byte long exactly below 128. */
  lemma {:induction false} GroupsShape(value: nat)
    requires value > 0
    ensures var g := EncodeWith(value, []);
      Canonical(g) && g[|g| - 1] != 0 && Value(g) == value && (|g| == 1 <==> value < 128)
    decreases value
  {
    var g := GroupByte(value);
    GroupByteBits(value);
    EncodeWithAccumulates(value / 128, [g]);
    var t := EncodeWith(value / 128, []);
    var e := EncodeWith(value, []);
    assert [] + [g] == [g];
    assert e == [g] + t;
    if value / 128 != 0 {
      GroupsShape(value / 128);
      assert e[1..] == t;
      assert Value(e) == value % 128 + 128 * (value / 128);
    }
  }

  /**
   * encode_unsigned yields a canonical encoding of its input: zero is exactly
   * [0x00]; a non-zero value ends in a non-zero byte without the continuation
   * flag, every earlier byte has it, and the encoding is one byte iff n < 128.
   */
  lemma EncodeShape(n: nat)
    ensures var e := EncodeUnsigned(n);
      && Canonical(e)
      && Value(e) == n
      && (e == [0x00] <==> n == 0)
      && (n > 0 ==> e[|e| - 1] != 0)
      && (|e| == 1 <==> n < 128)
  {
    if n > 0 {
      GroupsShape(n);
    }
  }

  /** A run that ends in a non-zero, unflagged byte stands for a non-zero number. */
  lemma {:induction false} ValuePositive(bs: seq<bv8>)
    requires |bs| >= 1 && !HasNext(bs[|bs| - 1]) && bs[|bs| - 1] != 0
    ensures Value(bs) > 0
    decreases |bs|
  {
    if |bs| == 1 {
      Reassemble(bs[0]);
    } else {
      ValuePositive(bs[1..]);
    }
  }

  /** An unflagged byte on its own is the encoding of its group. */
  lemma EncodeSingle(b: bv8)
    requires !HasNext(b)
    ensures EncodeUnsigned(Part(b)) == [b]
  {
    Reassemble(b);
    PartBelow(b);
    var p := Part(b);
    if p > 0 {
      assert p % 128 == p && p / 128 == 0;
      assert GroupByte(p) == ToU8(p) | 0x00 == b;
      assert EncodeWith(p, []) == EncodeWith(0, [] + [b]);
    } else {
      assert b == ToU8(0) == 0;
    }
  }

  /** A flagged byte followed by the groups of a non-zero remainder is the encoding of the sum. */
  lemma EncodeFlagged(b: bv8, rest: nat)
    requires HasNext(b) && rest > 0
    ensures EncodeWith(Part(b) + 128 * rest, []) == [b] + EncodeWith(rest, [])
  {
    var v := Part(b) + 128 * rest;
    PartBelow(b);
    assert v / 128 == rest && v % 128 == Part(b);
    Reassemble(b);
    assert GroupByte(v) == ToU8(Part(b)) | 0x80 == b;
    assert [] + [b] == [b];
    assert EncodeWith(v, []) == EncodeWith(rest, [b]);
    EncodeWithAccumulates(rest, [b]);
  }

  /** Every canonical byte string is the encoding of the number it stands for: the encoding is onto the canonical strings. */
  lemma {:induction false} CanonicalIsEncoding(bs: seq<bv8>)
    requires Canonical(bs)
    ensures EncodeUnsigned(Value(bs)) == bs
    decreases |bs|
  {
    if |bs| == 1 {
      ValueSingle(bs[0]);
      assert bs == [bs[0]];
      EncodeSingle(bs[0]);
    } else {
      var t := bs[1..];
      assert Value(bs) == Part(bs[0]) + 128 * Value(t);
      assert [bs[0]] + t == bs;
      assert Canonical(t) by {
        forall i | 0 <= i < |t| - 1 ensures HasNext(t[i]) {
          assert t[i] == bs[i + 1];
        }
      }
      CanonicalIsEncoding(t);
      ValuePositive(t);
      EncodeFlagged(bs[0], Value(t));
      assert EncodeUnsigned(Value(t)) == EncodeWith(Value(t), []);
    }
  }

  /** A flagged byte in front of a canonical encoding of a non-zero number gives a canonical encoding. */
  lemma CanonicalCons(b: bv8, t: seq<bv8>)
    requires HasNext(b) && Canonical(t) && t[|t| - 1] != 0
    ensures Canonical([b] + t)
  {
    var bs := [b] + t;
    forall i | 0 <= i < |bs| - 1 ensures HasNext(bs[i]) {
      if i == 0 {
        assert bs[0] == b;
      } else {
        assert bs[i] == t[i - 1];
      }
    }
    assert bs[|bs| - 1] == t[|t| - 1];
    assert |bs| > 1;
  }

  /** A decode reads exactly the bytes of a canonical encoding, whatever follows it. */
  lemma {:induction false} ConsumedCanonical(e: seq<bv8>, rest: seq<bv8>)
    requires Canonical(e)
    ensures ConsumedLength(e + rest) == |e|
    decreases |e|
  {
    if |e| > 1 {
      assert (e + rest)[1..] == e[1..] + rest;
      assert Canonical(e[1..]) by {
        forall i | 0 <= i < |e| - 2 ensures HasNext(e[1..][i]) {
          assert e[1..][i] == e[i + 1];
        }
      }
      ConsumedCanonical(e[1..], rest);
    }
  }

  /**
   * decode_consuming(encode(n) ++ rest) returns n and leaves exactly rest:
   * the bytes after the encoding are not touched.
   */
  lemma DecodeEncoded(n: nat, rest: seq<bv8>)
    ensures DecodeNatural(EncodeUnsigned(n) + rest) == Ok(Decoded(n, rest))
  {
    var e := EncodeUnsigned(n);
    EncodeShape(n);
    ConsumedCanonical(e, rest);
    assert (e + rest)[..|e|] == e;
    assert (e + rest)[|e|..] == rest;
  }

  /** Round trip: decode(encode(n)) == n, with nothing left over. */
  lemma RoundTrip(n: nat)
    ensures DecodeNatural(EncodeUnsigned(n)) == Ok(Decoded(n, []))
  {
    DecodeEncoded(n, []);
    assert EncodeUnsigned(n) + [] == EncodeUnsigned(n);
  }

  lemma ScaleStep(head: nat, tail: nat, p: nat, v: nat)
    ensures head + 128 * (tail + v * p) == (head + 128 * tail) + v * (128 * p)
  {
    assert 128 * (v * p) == v * (128 * p);
  }

  /** Groups after the first |a| bytes are worth 2^(7*|a|) times their own value. */
  lemma {:induction false} ValueConcat(a: seq<bv8>, b: seq<bv8>)
    ensures Value(a + b) == Value(a) + Value(b) * Pow2(7 * |a|)
    decreases |a|
  {
    if a == [] {
      assert [] + b == b;
    } else {
      var p := Pow2(7 * (|a| - 1));
      assert (a + b)[1..] == a[1..] + b;
      ValueConcat(a[1..], b);
      Pow2Add7(7 * (|a| - 1));
      ScaleStep(Part(a[0]), Value(a[1..]), p, Value(b));
      calc {
        Value(a + b);
        Part(a[0]) + 128 * Value(a[1..] + b);
        Part(a[0]) + 128 * (Value(a[1..]) + Value(b) * p);
        (Part(a[0]) + 128 * Value(a[1..])) + Value(b) * (128 * p);
        { assert 128 * p == Pow2(7 * |a|); }
        Value(a) + Value(b) * Pow2(7 * |a|);
      }
    }
  }

  lemma ValueSingle(b: bv8)
    ensures Value([b]) == Part(b)
  {
    assert [b][1..] == [];
  }

  /** Byte i of the decoded run contributes (byte & 0x7F) << 7*i to the result. */
  lemma {:induction false} ValueAppend(bs: seq<bv8>, b: bv8)
    ensures Value(bs + [b]) == Value(bs) + Part(b) * Pow2(7 * |bs|)
  {
    ValueConcat(bs, [b]);
    ValueSingle(b);
  }

  /**
   * When the buffer runs out while the continuation flag is still set, the
   * decode returns the value accumulated so far and empties the buffer.
   */
  lemma DecodeTruncated(bs: seq<bv8>)
    requires bs != [] && forall i :: 0 <= i < |bs| ==> HasNext(bs[i])
    ensures DecodeNatural(bs) == Ok(Decoded(Value(bs), []))
  {
    var k := ConsumedLength(bs);
    assert HasNext(bs[k - 1]);
    assert k == |bs|;
    assert bs[..|bs|] == bs;
  }

  /**
   * A decode stops at the first byte whose continuation flag is clear: what
   * follows it is returned untouched.
   */
  lemma DecodeStops(prefix: seq<bv8>, last: bv8, rest: seq<bv8>)
    requires forall i :: 0 <= i < |prefix| ==> HasNext(prefix[i])
    requires !HasNext(last)
    ensures DecodeNatural(prefix + [last] + rest) == Ok(Decoded(Value(prefix + [last]), rest))
  {
    var bs := prefix + [last] + rest;
    var k := ConsumedLength(bs);
    assert bs[|prefix|] == last;
    forall i | 0 <= i < |prefix| ensures HasNext(bs[i]) {
      assert bs[i] == prefix[i];
    }
    assert k == |prefix| + 1;
    assert bs[..k] == prefix + [last];
    assert bs[k..] == rest;
  }

  /** The encoding vectors of the implementation's own test table. */
  lemma EncodeSmallVectors()
    ensures Encode(0) == Ok([0])
    ensures EncodeUnsigned(1) == [1] && EncodeUnsigned(10) == [10] && EncodeUnsigned(42) == [42]
    ensures EncodeUnsigned(64) == [64] && EncodeUnsigned(127) == [127]
    ensures EncodeUnsigned(128) == [128, 1]
  {
    EncodeSingle(1);
    EncodeSingle(10);
    EncodeSingle(42);
    EncodeSingle(64);
    EncodeSingle(127);
    EncodeFlagged(128, 1);
    assert Part(128) + 128 * 1 == 128;
  }

  lemma ValueCons(b: bv8, t: seq<bv8>)
    ensures Value([b] + t) == Part(b) + 128 * Value(t)
  {
    assert ([b] + t)[1..] == t;
  }

  lemma Bytes14()
    ensures Part(4) == 4 && Part(152) == 24 && Part(161) == 33 && Part(177) == 49 && Part(191) == 63 && Part(241) == 113 && Part(249) == 121
    ensures HasNext(152) && HasNext(161) && HasNext(177) && HasNext(191) && HasNext(241) && HasNext(249) && !HasNext(4)
  {
  }

  /** The groups of the 14-digit test vector are worth the number. */
  lemma ValueVector14()
    ensures Value([249, 152, 177, 191, 241, 161, 4])
         == 18756523543673
  {
    Bytes14();
    var t6: seq<bv8> := [4];
    ValueSingle(4);
    var t5 := [161 as bv8] + t6;
    ValueCons(161, t6);
    assert Value(t5) == 545;
    var t4 := [241 as bv8] + t5;
    ValueCons(241, t5);
    assert Value(t4) == 69873;
    var t3 := [191 as bv8] + t4;
    ValueCons(191, t4);
    assert Value(t3) == 8943807;
    var t2 := [177 as bv8] + t3;
    ValueCons(177, t3);
    assert Value(t2) == 1144807345;
    var t1 := [152 as bv8] + t2;
    ValueCons(152, t2);
    assert Value(t1) == 146535340184;
    var t0 := [249 as bv8] + t1;
    ValueCons(249, t1);
    assert Value(t0) == 18756523543673;
    assert t0 == [249, 152, 177, 191, 241, 161, 4];
  }

  lemma EncodeVector14()
    ensures EncodeUnsigned(18756523543673)
         == [249, 152, 177, 191, 241, 161, 4]
  {
    Bytes14();
    var t6: seq<bv8> := [4];
    var t5 := [161 as bv8] + t6;
    CanonicalCons(161, t6);
    var t4 := [241 as bv8] + t5;
    CanonicalCons(241, t5);
    var t3 := [191 as bv8] + t4;
    CanonicalCons(191, t4);
    var t2 := [177 as bv8] + t3;
    CanonicalCons(177, t3);
    var t1 := [152 as bv8] + t2;
    CanonicalCons(152, t2);
    var t0 := [249 as bv8] + t1;
    CanonicalCons(249, t1);
    assert t0 == [249, 152, 177, 191, 241, 161, 4];
    ValueVector14();
    CanonicalIsEncoding(t0);
  }

  lemma Bytes19()
    ensures Part(95) == 95 && Part(136) == 8 && Part(140) == 12 && Part(142) == 14 && Part(156) == 28 && Part(188) == 60 && Part(206) == 78 && Part(212) == 84 && Part(238) == 110
    ensures HasNext(136) && HasNext(140) && HasNext(142) && HasNext(156) && HasNext(188) && HasNext(206) && HasNext(212) && HasNext(238) && !HasNext(95)
  {
  }

  /** The groups of the 19-digit test vector are worth the number. */
  lemma ValueVector19()
    ensures Value([136, 212, 238, 142, 188, 206, 156, 140, 95])
         == 6852352674543413768
  {
    Bytes19();
    var t8: seq<bv8> := [95];
    ValueSingle(95);
    var t7 := [140 as bv8] + t8;
    ValueCons(140, t8);
    assert Value(t7) == 12172;
    var t6 := [156 as bv8] + t7;
    ValueCons(156, t7);
    assert Value(t6) == 1558044;
    var t5 := [206 as bv8] + t6;
    ValueCons(206, t6);
    assert Value(t5) == 199429710;
    var t4 := [188 as bv8] + t5;
    ValueCons(188, t5);
    assert Value(t4) == 25527002940;
    var t3 := [142 as bv8] + t4;
    ValueCons(142, t4);
    assert Value(t3) == 3267456376334;
    var t2 := [238 as bv8] + t3;
    ValueCons(238, t3);
    assert Value(t2) == 418234416170862;
    var t1 := [212 as bv8] + t2;
    ValueCons(212, t2);
    assert Value(t1) == 53534005269870420;
    var t0 := [136 as bv8] + t1;
    ValueCons(136, t1);
    assert Value(t0) == 6852352674543413768;
    assert t0 == [136, 212, 238, 142, 188, 206, 156, 140, 95];
  }

  lemma EncodeVector19()
    ensures EncodeUnsigned(6852352674543413768)
         == [136, 212, 238, 142, 188, 206, 156, 140, 95]
  {
    Bytes19();
    var t8: seq<bv8> := [95];
    var t7 := [140 as bv8] + t8;
    CanonicalCons(140, t8);
    var t6 := [156 as bv8] + t7;
    CanonicalCons(156, t7);
    var t5 := [206 as bv8] + t6;
    CanonicalCons(206, t6);
    var t4 := [188 as bv8] + t5;
    CanonicalCons(188, t5);
    var t3 := [142 as bv8] + t4;
    CanonicalCons(142, t4);
    var t2 := [238 as bv8] + t3;
    CanonicalCons(238, t3);
    var t1 := [212 as bv8] + t2;
    CanonicalCons(212, t2);
    var t0 := [136 as bv8] + t1;
    CanonicalCons(136, t1);
    assert t0 == [136, 212, 238, 142, 188, 206, 156, 140, 95];
    ValueVector19();
    CanonicalIsEncoding(t0);
  }

  /** decode on the same vectors gives back the numbers and consumes every byte. */
  lemma DecodeVectors()
    ensures DecodeNatural([0]) == Ok(Decoded(0, []))
    ensures DecodeNatural([1]) == Ok(Decoded(1, []))
    ensures DecodeNatural([10]) == Ok(Decoded(10, []))
    ensures DecodeNatural([42]) == Ok(Decoded(42, []))
    ensures DecodeNatural([64]) == Ok(Decoded(64, []))
    ensures DecodeNatural([127]) == Ok(Decoded(127, []))
    ensures DecodeNatural([128, 1]) == Ok(Decoded(128, []))
    ensures DecodeNatural([249, 152, 177, 191, 241, 161, 4]) == Ok(Decoded(18756523543673, []))
    ensures DecodeNatural([136, 212, 238, 142, 188, 206, 156, 140, 95]) == Ok(Decoded(6852352674543413768, []))
  {
    EncodeSmallVectors();
    RoundTrip(0);
    RoundTrip(1);
    RoundTrip(10);
    RoundTrip(42);
    RoundTrip(64);
    RoundTrip(127);
    RoundTrip(128);
    EncodeVector14();
    RoundTrip(18756523543673);
    EncodeVector19();
    RoundTrip(6852352674543413768);
  }
}
