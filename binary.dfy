/**
  Conversions between numbers, bit strings and bytes: `binToDec` and
  `decToBin` of Huffman.java, the MSB-first packing of bit strings into
  bytes, and the big-endian integers of `DataOutputStream`/`DataInputStream`.
 */
module Binary {
  import opened Base

  function Pow2(k: nat): (p: nat)
    ensures p >= 1
  {
    if k == 0 then 1 else 2 * Pow2(k - 1)
  }

  function BitValue(b: bool): nat
  {
    if b then 1 else 0
  }

  /** The unsigned value of a bit string read most-significant bit first. */
  function Value(s: Bits): nat
  {
    if s == [] then 0 else 2 * Value(s[..|s| - 1]) + BitValue(s[|s| - 1])
  }

  lemma {:induction false} ValueBound(s: Bits)
    ensures Value(s) < Pow2(|s|)
  {
    if s != [] {
      ValueBound(s[..|s| - 1]);
    }
  }

  /** Zeros on the left do not change the value. */
  lemma {:induction false} ValueLeadingZeros(k: nat, s: Bits)
    ensures Value(Zeros(k) + s) == Value(s)
  {
    if s == [] {
      assert Zeros(k) + s == Zeros(k);
      ZerosValue(k);
    } else {
      var t := Zeros(k) + s;
      assert t[..|t| - 1] == Zeros(k) + s[..|s| - 1];
      ValueLeadingZeros(k, s[..|s| - 1]);
    }
  }

  lemma {:induction false} ZerosValue(k: nat)
    ensures Value(Zeros(k)) == 0
  {
    if k > 0 {
      assert Zeros(k)[..k - 1] == Zeros(k - 1);
      ZerosValue(k - 1);
    }
  }

  /** Two bit strings of one length with one value are equal. */
  lemma {:induction false} ValueInjective(s: Bits, t: Bits)
    requires |s| == |t| && Value(s) == Value(t)
    ensures s == t
  {
    if s != [] {
      var n := |s| - 1;
      assert s[n] == t[n];
      ValueInjective(s[..n], t[..n]);
      assert s == s[..n] + [s[n]] && t == t[..n] + [t[n]];
    }
  }

  /** `Integer.toBinaryString(n)`: the shortest binary representation, "0" for zero. */
  function ToBinary(n: nat): (s: Bits)
    ensures |s| >= 1
    ensures n >= 1 ==> s[0]
  {
    if n < 2 then [n == 1] else ToBinary(n / 2) + [n % 2 == 1]
  }

  lemma {:induction false} ToBinaryValue(n: nat)
    ensures Value(ToBinary(n)) == n
  {
    if n >= 2 {
      var s := ToBinary(n);
      assert s[..|s| - 1] == ToBinary(n / 2);
      ToBinaryValue(n / 2);
    }
  }

  lemma {:induction false} ToBinaryLength(n: nat, k: nat)
    requires 1 <= k && n < Pow2(k)
    ensures |ToBinary(n)| <= k
  {
    if n >= 2 {
      ToBinaryLength(n / 2, k - 1);
    }
  }

  /**
    `binToDec`: `Integer.parseInt(str, 2)`, which the codec only ever applies
    to strings of exactly 8 binary digits; the result type says it is a byte.
   */
  function BinToDec(s: Bits): (r: Byte)
    requires |s| == 8
    ensures r >= 128 <==> s[0]
    ensures r % 2 == 1 <==> s[7]
  {
    ValueBound(s);
    ValueHead(s);
    ValueBound(s[1..]);
    Value(s)
  }

  /** The first bit of a bit string weighs `2^(|s|-1)`. */
  lemma {:induction false} ValueHead(s: Bits)
    requires s != []
    ensures Value(s) == (if s[0] then Pow2(|s| - 1) else 0) + Value(s[1..])
  {
    if |s| > 1 {
      var t := s[..|s| - 1];
      assert t[1..] == s[1..][..|s[1..]| - 1];
      ValueHead(t);
    }
  }

  /** `decToBin`: `toBinaryString(n)` padded on the left with '0' to 8 characters. */
  function DecToBin(n: Byte): (s: Bits)
    ensures |s| == 8
    ensures BinToDec(s) == n
  {
    var b := ToBinary(n);
    ToBinaryLength(n, 8);
    ToBinaryValue(n);
    ValueLeadingZeros(8 - |b|, b);
    Zeros(8 - |b|) + b
  }

  /** Every 8-bit string is the `decToBin` of its `binToDec`. */
  lemma BinToDecRoundTrip(s: Bits)
    requires |s| == 8
    ensures DecToBin(BinToDec(s)) == s
  {
    ValueInjective(DecToBin(BinToDec(s)), s);
  }

  /** The payload decoder's `for (byte d : data) bitStream.append(decToBin(d & 0xFF))`. */
  function BitsOfBytes(b: seq<Byte>): (r: Bits)
    ensures |r| == 8 * |b|
  {
    if b == [] then [] else BitsOfBytes(b[..|b| - 1]) + DecToBin(b[|b| - 1])
  }

  /** The encoder's repeated `writeByte(binToDec(sb.substring(0, 8)))`. */
  function BytesOfBits(s: Bits): (r: seq<Byte>)
    requires |s| % 8 == 0
    ensures |r| == |s| / 8
  {
    if s == [] then [] else [BinToDec(s[..8])] + BytesOfBits(s[8..])
  }

  lemma {:induction false} BitsOfBytesConcat(a: seq<Byte>, b: seq<Byte>)
    ensures BitsOfBytes(a + b) == BitsOfBytes(a) + BitsOfBytes(b)
  {
    if b != [] {
      var c := a + b;
      var b' := b[..|b| - 1];
      assert c[..|c| - 1] == a + b' && c[|c| - 1] == b[|b| - 1];
      BitsOfBytesConcat(a, b');
      assert BitsOfBytes(b) == BitsOfBytes(b') + DecToBin(b[|b| - 1]);
    } else {
      assert a + b == a;
    }
  }

  /** Unpacking the packed bytes gives back the bit string. */
  lemma {:induction false} BitsOfBytesOfBits(s: Bits)
    requires |s| % 8 == 0
    ensures BitsOfBytes(BytesOfBits(s)) == s
  {
    if s != [] {
      BitsOfBytesOfBits(s[8..]);
      BitsOfBytesConcat([BinToDec(s[..8])], BytesOfBits(s[8..]));
      assert BitsOfBytes([BinToDec(s[..8])]) == DecToBin(BinToDec(s[..8]));
      BinToDecRoundTrip(s[..8]);
      assert s == s[..8] + s[8..];
    }
  }

  /** Packing the unpacked bits gives back the bytes. */
  lemma {:induction false} BytesOfBitsOfBytes(b: seq<Byte>)
    ensures BytesOfBits(BitsOfBytes(b)) == b
  {
    if b != [] {
      BitsOfBytesConcat([b[0]], b[1..]);
      assert [b[0]] + b[1..] == b;
      assert BitsOfBytes([b[0]]) == DecToBin(b[0]);
      var s := BitsOfBytes(b);
      assert s[..8] == DecToBin(b[0]) && s[8..] == BitsOfBytes(b[1..]);
      BytesOfBitsOfBytes(b[1..]);
    }
  }

  /** Packing a concatenation of whole bytes packs each part. */
  lemma {:induction false} BytesOfBitsAppend(a: Bits, b: Bits)
    requires |a| % 8 == 0 && |b| % 8 == 0
    ensures BytesOfBits(a + b) == BytesOfBits(a) + BytesOfBits(b)
  {
    if a == [] {
      assert a + b == b;
    } else {
      var c := a + b;
      assert c[..8] == a[..8] && c[8..] == a[8..] + b;
      BytesOfBitsAppend(a[8..], b);
    }
  }

  /** `DataOutputStream.writeInt`: the low 32 bits of `n`, big-endian. */
  function Int32BE(n: nat): (r: seq<Byte>)
    ensures |r| == 4
    ensures n < 0x8000_0000 ==> r[0] < 128
  {
    [(n / 0x100_0000) % 256, (n / 0x1_0000) % 256, (n / 0x100) % 256, n % 256]
  }

  /** `DataInputStream.readInt`: four big-endian bytes as a two's-complement int. */
  function ReadInt32(b: seq<Byte>): (n: int)
    requires |b| == 4
    ensures -0x8000_0000 <= n < 0x8000_0000
    ensures n >= 0 <==> b[0] < 128
  {
    var u: int := ((b[0] as int * 256 + b[1]) * 256 + b[2]) * 256 + b[3];
    if u < 0x8000_0000 then u else u - 0x1_0000_0000
  }

  lemma Int32RoundTrip(n: nat)
    requires n < 0x8000_0000
    ensures ReadInt32(Int32BE(n)) == n
  {
    var n1 := n / 256;
    var n2 := n1 / 256;
    var n3 := n2 / 256;
    assert n == n1 * 256 + n % 256;
    assert n1 == n2 * 256 + n1 % 256;
    assert n2 == n3 * 256 + n2 % 256;
    assert n3 < 256;
    assert n / 0x100 == n1;
    assert n / 0x1_0000 == n2;
    assert n / 0x100_0000 == n3;
  }

  /** `DataOutputStream.writeChar`: a 16-bit char, big-endian. */
  function Char16BE(c: Char16): (r: seq<Byte>)
    ensures |r| == 2 && r[0] as int * 256 + r[1] as int == c
  {
    [c / 256, c % 256]
  }

  /** `DataInputStream.readChar`. */
  function ReadChar16(hi: Byte, lo: Byte): (c: Char16)
    ensures c / 256 == hi && c % 256 == lo
  {
    hi * 256 + lo
  }

  lemma Char16RoundTrip(c: Char16)
    ensures ReadChar16(Char16BE(c)[0], Char16BE(c)[1]) == c
  {
  }

  /** `DataInputStream.readByte`: the byte read as a signed 8-bit value. */
  function SignedByte(b: Byte): (v: int)
    ensures -128 <= v < 128
    ensures v % 256 == b % 256
  {
    if b < 128 then b else b - 256
  }
}
