/**
  One codebook entry of the container: the 128-bit field that holds a code
  behind a sentinel 1 bit (Huffman.java:125-129), and the decoder's scan
  that recovers the code from it (Huffman.java:172-178).
 */
module Codebook {
  import opened Base
  import opened Binary

  /** The bits after the first 1 bit; a field without a 1 bit runs the scan off its end. */
  function SkipZeros(b: Bits): (r: Result<Bits>)
    ensures r.Err? <==> forall i :: 0 <= i < |b| ==> !b[i]
    ensures r.Err? ==> r.error == NoSentinel
    ensures r.Ok? ==> exists j :: 0 <= j < |b| && b[j] && (forall i :: 0 <= i < j ==> !b[i]) && r.value == b[j + 1..]
  {
    if b == [] then Err(NoSentinel)
    else if b[0] then Ok(b[1..])
    else
      var r := SkipZeros(b[1..]);
      assert r.Ok? ==> exists j :: 0 <= j < |b| && b[j] && (forall i :: 0 <= i < j ==> !b[i]) && r.value == b[j + 1..] by {
        if r.Ok? {
          var j :| 0 <= j < |b[1..]| && b[1..][j] && (forall i :: 0 <= i < j ==> !b[1..][i]) && r.value == b[1..][j + 1..];
          assert b[j + 1] && r.value == b[j + 2..];
          assert forall i :: 0 <= i < j + 1 ==> !b[i] by {
            forall i | 0 <= i < j + 1 ensures !b[i] {
              if i > 0 { assert b[i] == b[1..][i - 1]; }
            }
          }
        }
      }
      assert (forall i :: 0 <= i < |b| ==> !b[i]) <== (forall i :: 0 <= i < |b[1..]| ==> !b[1..][i]) by {
        forall i | 0 <= i < |b| && forall i :: 0 <= i < |b[1..]| ==> !b[1..][i] ensures !b[i] {
          if i > 0 { assert b[i] == b[1..][i - 1]; }
        }
      }
      r
  }

  lemma {:induction false} SkipZerosSentinel(k: nat, code: Bits)
    ensures SkipZeros(Zeros(k) + [true] + code) == Ok(code)
  {
    if k > 0 {
      var f := Zeros(k) + [true] + code;
      assert f[1..] == Zeros(k - 1) + [true] + code;
      SkipZerosSentinel(k - 1, code);
    } else {
      var f := Zeros(k) + [true] + code;
      assert f[0] && f[1..] == code;
    }
  }

  /**
    `"0".repeat(127 - len) + "1" + code`: exactly 128 bits from which the scan
    recovers the code; a code over 127 bits fails (negative repeat count).
   */
  function CodeField(code: Bits): (r: Result<Bits>)
    ensures r.Ok? <==> |code| <= 127
    ensures r.Err? ==> r.error == CodeTooLong
    ensures r.Ok? ==> |r.value| == 128 && SkipZeros(r.value) == Ok(code)
  {
    if |code| > 127 then Err(CodeTooLong)
    else
      SkipZerosSentinel(127 - |code|, code);
      Ok(Zeros(127 - |code|) + [true] + code)
  }

  /** The 16 bytes a code is written as (the `for (int i = 0; i < 16; i++)` loop). */
  function FieldBytes(code: Bits): (r: seq<Byte>)
    requires |code| <= 127
    ensures |r| == 16
  {
    BytesOfBits(CodeField(code).value)
  }

  /** Re-expanding the 16 bytes and scanning past the first 1 gives back the code. */
  lemma FieldRoundTrip(code: Bits)
    requires |code| <= 127
    ensures SkipZeros(BitsOfBytes(FieldBytes(code))) == Ok(code)
  {
    BitsOfBytesOfBits(CodeField(code).value);
  }

  /** A field of 128 zero bits is rejected. */
  lemma ZeroFieldRejected()
    ensures SkipZeros(BitsOfBytes(seq(16, _ => 0))) == Err(NoSentinel)
  {
    var z: seq<Byte> := seq(16, _ => 0);
    var b := BitsOfBytes(z);
    forall i | 0 <= i < 128 ensures !b[i] {
      ZeroBytesBits(z, i);
    }
  }

  lemma {:induction false} ZeroBytesBits(z: seq<Byte>, i: nat)
    requires forall k :: 0 <= k < |z| ==> z[k] == 0
    requires i < 8 * |z|
    ensures !BitsOfBytes(z)[i]
  {
    var n := |z| - 1;
    ZeroByteBits();
    if i < 8 * n {
      ZeroBytesBits(z[..n], i);
    }
  }

  lemma ZeroByteBits()
    ensures DecToBin(0) == Zeros(8)
  {
    ZerosValue(8);
    assert Value(DecToBin(0)) == BinToDec(DecToBin(0)) == 0;
    ValueInjective(DecToBin(0), Zeros(8));
  }
}
