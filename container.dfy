/**
  The compressed container: `saveEncodedFile` (Huffman.java:115-147) writes
  a 4-byte entry count, one 18-byte entry per distinct byte (the byte as a
  char and its code in a 128-bit field), the code bits of the input packed
  into bytes, and the number of padding bits; `saveDecodedFile`
  (Huffman.java:163-203) reads it back. This module states both as functions
  of whole byte strings and proves that one undoes the other.
 */
module Container {
  import opened Base
  import opened Binary
  import opened HuffmanTree
  import opened Codebook
  import opened DecodeTree

  /** Every byte of `x` has a code. */
  predicate Covers(codes: map<Byte, Bits>, x: seq<Byte>)
  {
    forall i :: 0 <= i < |x| ==> x[i] in codes
  }

  /** The code bits of `x`: `result.append(huffmanCodes.get((char) b))` for each byte. */
  function EncodeBits(x: seq<Byte>, codes: map<Byte, Bits>): (r: Bits)
    requires Covers(codes, x)
    ensures (forall i :: 0 <= i < |x| ==> |codes[x[i]]| >= 1) ==> |r| >= |x|
  {
    if x == [] then [] else codes[x[0]] + EncodeBits(x[1..], codes)
  }

  lemma {:induction false} EncodeBitsSnoc(x: seq<Byte>, b: Byte, codes: map<Byte, Bits>)
    requires Covers(codes, x) && b in codes
    ensures Covers(codes, x + [b])
    ensures EncodeBits(x + [b], codes) == EncodeBits(x, codes) + codes[b]
  {
    if x != [] {
      assert (x + [b])[1..] == x[1..] + [b];
      EncodeBitsSnoc(x[1..], b, codes);
    } else {
      assert [b][1..] == [];
    }
  }

  /**
    The pad count of the last byte: the encoder flushes bytes while more than
    8 bits are pending and pads the rest to 8, so an empty bit string still
    yields one all-zero byte and a pad of 8.
   */
  function PadCount(n: nat): (p: nat)
    ensures p <= 8 && (n + p) % 8 == 0
    ensures p == 8 <==> n == 0
  {
    if n == 0 then 8 else (8 - n % 8) % 8
  }

  /** The payload bytes: the code bits followed by `PadCount` zero bits, eight to a byte. */
  function Payload(bits: Bits): (r: seq<Byte>)
    ensures |r| >= 1
    ensures BitsOfBytes(r) == bits + Zeros(PadCount(|bits|))
  {
    var padded := bits + Zeros(PadCount(|bits|));
    BitsOfBytesOfBits(padded);
    BytesOfBits(padded)
  }

  /**
    The bytes flushed so far and the at most 8 bits still pending (at least
    one once a byte has been flushed) determine the payload and its pad count.
   */
  lemma FlushedPayload(flushed: seq<Byte>, pending: Bits, bits: Bits)
    requires BitsOfBytes(flushed) + pending == bits
    requires |pending| <= 8 && (flushed != [] ==> |pending| >= 1)
    ensures PadCount(|bits|) == 8 - |pending|
    ensures Payload(bits) == flushed + [BinToDec(pending + Zeros(8 - |pending|))]
  {
    PadCountOf(|flushed|, |pending|);
    var last := pending + Zeros(8 - |pending|);
    var front := BitsOfBytes(flushed);
    calc {
      bits + Zeros(PadCount(|bits|));
      (front + pending) + Zeros(8 - |pending|);
      front + last;
    }
    BytesOfBitsAppend(front, last);
    BytesOfBitsOfBytes(flushed);
    LastByte(last);
  }

  lemma PadCountOf(m: nat, p: nat)
    requires p <= 8 && (m > 0 ==> p >= 1)
    ensures PadCount(8 * m + p) == 8 - p
  {
    var n := 8 * m + p;
    if p == 8 {
      assert n == 8 * (m + 1);
    } else if p > 0 {
      assert n % 8 == p;
    }
  }

  lemma LastByte(last: Bits)
    requires |last| == 8
    ensures BytesOfBits(last) == [BinToDec(last)]
  {
    assert last[..8] == last && last[8..] == [];
  }

  /**
    The codebook entries in the order the heap is polled: `writeChar` of the
    byte, then its code field as 16 bytes. A code over 127 bits stops the
    encoder (the negative `repeat` count).
   */
  function Header(order: seq<Byte>, codes: map<Byte, Bits>): (r: Result<seq<Byte>>)
    requires Covers(codes, order)
    ensures r.Err? ==> r.error == CodeTooLong
    ensures r.Ok? ==> |r.value| == 18 * |order|
  {
    if order == [] then Ok([])
    else
      match CodeField(codes[order[0]])
      case Err(e) => Err(e)
      case Ok(f) => PrependAll(Char16BE(order[0]) + BytesOfBits(f), Header(order[1..], codes))
  }

  /** The header is written exactly when every code in it fits its field. */
  lemma {:induction false} HeaderOk(order: seq<Byte>, codes: map<Byte, Bits>)
    requires Covers(codes, order)
    ensures Header(order, codes).Ok? <==> forall i :: 0 <= i < |order| ==> |codes[order[i]]| <= 127
  {
    if order != [] {
      HeaderOk(order[1..], codes);
      assert (forall i :: 0 <= i < |order| ==> |codes[order[i]]| <= 127) <==>
        |codes[order[0]]| <= 127 && forall i :: 0 <= i < |order[1..]| ==> |codes[order[1..][i]]| <= 127 by {
        forall i | 0 < i < |order| ensures order[i] == order[1..][i - 1] { }
      }
    }
  }

  lemma HeaderSingle(s: Byte, codes: map<Byte, Bits>)
    requires s in codes && |codes[s]| <= 127
    ensures Header([s], codes) == Ok([] + (Char16BE(s) + FieldBytes(codes[s])))
  {
    var e := Char16BE(s) + FieldBytes(codes[s]);
    assert [s][1..] == [];
    assert Header([s], codes) == PrependAll(e, Ok([]));
    assert e + [] == e && [] + e == e;
  }

  /** Writing one more entry appends its char and its 16-byte field. */
  lemma {:induction false} HeaderSnoc(order: seq<Byte>, s: Byte, codes: map<Byte, Bits>)
    requires Covers(codes, order) && s in codes && |codes[s]| <= 127
    requires Header(order, codes).Ok?
    ensures Covers(codes, order + [s])
    ensures Header(order + [s], codes) == Ok(Header(order, codes).value + (Char16BE(s) + FieldBytes(codes[s])))
    decreases |order|, 1
  {
    if order == [] {
      HeaderSingle(s, codes);
      assert order + [s] == [s];
    } else {
      HeaderSnocStep(order, s, codes);
    }
  }

  lemma {:induction false} HeaderSnocStep(order: seq<Byte>, s: Byte, codes: map<Byte, Bits>)
    requires Covers(codes, order) && s in codes && |codes[s]| <= 127
    requires Header(order, codes).Ok? && order != []
    ensures Covers(codes, order + [s])
    ensures Header(order + [s], codes) == Ok(Header(order, codes).value + (Char16BE(s) + FieldBytes(codes[s])))
    decreases |order|, 0
  {
    var o := order + [s];
    SnocTail(order, s);
    HeaderStep(order, codes);
    HeaderSnoc(order[1..], s, codes);
    HeaderStep(o, codes);
    PrependSnoc(Char16BE(order[0]) + FieldBytes(codes[order[0]]), Header(order[1..], codes).value, Char16BE(s) + FieldBytes(codes[s]));
  }

  lemma SnocTail<T>(q: seq<T>, x: T)
    requires q != []
    ensures (q + [x])[0] == q[0] && (q + [x])[1..] == q[1..] + [x]
  {
  }

  lemma PrependSnoc<T>(a: seq<T>, h: seq<T>, e: seq<T>)
    ensures PrependAll(a, Ok(h + e)) == Ok((a + h) + e)
  {
    assert a + (h + e) == (a + h) + e;
  }

  /** The first entry of a header, followed by the rest. */
  lemma HeaderStep(order: seq<Byte>, codes: map<Byte, Bits>)
    requires Covers(codes, order) && order != [] && |codes[order[0]]| <= 127
    ensures Covers(codes, order[1..])
    ensures Header(order, codes) == PrependAll(Char16BE(order[0]) + FieldBytes(codes[order[0]]), Header(order[1..], codes))
  {
  }

  /** The whole container `saveEncodedFile` writes for input `x`. */
  function Encode(x: seq<Byte>, order: seq<Byte>, codes: map<Byte, Bits>): (r: Result<seq<Byte>>)
    requires Covers(codes, x) && Covers(codes, order)
    ensures r.Ok? <==> forall i :: 0 <= i < |order| ==> |codes[order[i]]| <= 127
    ensures r.Err? ==> r.error == CodeTooLong
  {
    var bits := EncodeBits(x, codes);
    HeaderOk(order, codes);
    match Header(order, codes)
    case Err(e) => Err(e)
    case Ok(h) => Ok(Int32BE(|order|) + h + Payload(bits) + [PadCount(|bits|)])
  }

  /**
    The decoder's header loop from byte `pos`: `count` times a char and a
    16-byte field, whose bits after the first 1 are the code `buildTree`
    inserts. A count of zero or less reads nothing.
   */
  function ParseHeader(c: seq<Byte>, pos: nat, count: int, t: DTree): (r: Result<(DTree, nat)>)
    requires pos <= |c| && t.DNode?
    ensures r.Ok? ==> r.value.0.DNode?
    ensures r.Ok? ==> r.value.1 == pos + 18 * (if count > 0 then count else 0) <= |c|
    ensures r.Err? ==> r.error == EndOfFile || r.error == NoSentinel
    decreases if count > 0 then count else 0
  {
    if count <= 0 then Ok((t, pos))
    else if |c| - pos < 18 then Err(EndOfFile)
    else
      var ch := ReadChar16(c[pos], c[pos + 1]);
      match SkipZeros(BitsOfBytes(c[pos + 2..pos + 18]))
      case Err(e) => Err(e)
      case Ok(code) => ParseHeader(c, pos + 18, count - 1, Insert(t, code, ch))
  }

  /**
    `saveDecodedFile`: the header builds the decoding tree from a fresh root;
    every byte after it but the last is payload, and the last, read as a
    signed byte, is the pad count removed from the end of the payload bits
    when positive; then the walk writes the bytes.
   */
  function Decode(c: seq<Byte>): (r: Result<seq<Byte>>)
    ensures |c| < 4 ==> r == Err(EndOfFile)
    ensures r.Err? ==> r.error in {EndOfFile, NoSentinel, PaddingTooLarge, MissingChild}
    ensures r.Ok? ==> |r.value| <= 8 * (|c| - 5)
  {
    if |c| < 4 then Err(EndOfFile)
    else match ParseHeader(c, 4, ReadInt32(c[..4]), NewNode)
      case Err(e) => Err(e)
      case Ok((t, pos)) => DecodePayload(c, pos, t)
  }

  /**
    The decoder after the codebook, at byte `pos` with tree `t`: the bytes up
    to the last are the payload, the last is the padding count (a signed
    byte; only a positive count is dropped), and the kept bits are walked.
   */
  function DecodePayload(c: seq<Byte>, pos: nat, t: DTree): (r: Result<seq<Byte>>)
    requires pos <= |c|
    ensures pos == |c| ==> r == Err(EndOfFile)
    ensures r.Err? ==> r.error in {EndOfFile, PaddingTooLarge, MissingChild}
    ensures r.Ok? ==> |r.value| <= 8 * (|c| - pos - 1)
  {
    if pos == |c| then Err(EndOfFile)
    else
      var bits := BitsOfBytes(c[pos..|c| - 1]);
      var padding := SignedByte(c[|c| - 1]);
      if padding > |bits| then Err(PaddingTooLarge)
      else
        var kept := if padding > 0 then bits[..|bits| - padding] else bits;
        Walk(t, t, kept)
  }


  /** One entry read back: its char is the byte and its field gives back the code. */
  lemma ParseEntry(c: seq<Byte>, pos: nat, count: int, t: DTree, s: Byte, codes: map<Byte, Bits>)
    requires t.DNode? && count >= 1 && EntryAt(c, pos, s, codes)
    ensures ParseHeader(c, pos, count, t) == ParseHeader(c, pos + 18, count - 1, Insert(t, codes[s], s))
  {
    var code := codes[s];
    assert c[pos] == c[pos..pos + 18][0] && c[pos + 1] == c[pos..pos + 18][1];
    assert c[pos + 2..pos + 18] == c[pos..pos + 18][2..];
    FieldRoundTrip(code);
  }

  lemma HeaderCons(order: seq<Byte>, codes: map<Byte, Bits>) returns (h': seq<Byte>)
    requires Covers(codes, order) && order != [] && Header(order, codes).Ok?
    ensures Covers(codes, order[1..]) && Header(order[1..], codes) == Ok(h')
    ensures |codes[order[0]]| <= 127
    ensures Header(order, codes).value == Char16BE(order[0]) + FieldBytes(codes[order[0]]) + h'
  {
    assert order[0] == order[0];
    h' := Header(order[1..], codes).value;
  }

  /** The bytes of `c` from `pos` on start with `h`, the header of `order`. */
  ghost predicate HeaderAt(c: seq<Byte>, pos: nat, order: seq<Byte>, codes: map<Byte, Bits>, h: seq<Byte>)
  {
    && Covers(codes, order)
    && Header(order, codes) == Ok(h)
    && pos + |h| <= |c|
    && c[pos..pos + |h|] == h
  }

  /** The 18 bytes of `c` at `pos` are the entry of byte `s`. */
  ghost predicate EntryAt(c: seq<Byte>, pos: nat, s: Byte, codes: map<Byte, Bits>)
  {
    && s in codes
    && |codes[s]| <= 127
    && pos + 18 <= |c|
    && c[pos..pos + 18] == Char16BE(s) + FieldBytes(codes[s])
  }

  /** Reading back a header the encoder wrote inserts exactly its entries, in its order. */
  lemma {:induction false} ParseHeaderOfHeader(c: seq<Byte>, pos: nat, order: seq<Byte>, codes: map<Byte, Bits>, t: DTree, h: seq<Byte>)
    requires t.DNode? && HeaderAt(c, pos, order, codes, h)
    ensures ParseHeader(c, pos, |order|, t) == Ok((InsertAll(t, order, codes), pos + 18 * |order|))
    decreases |order|, 2
  {
    if order != [] {
      ParseHeaderStep(c, pos, order, codes, t, h);
    } else {
      assert InsertAll(t, order, codes) == t;
      assert ParseHeader(c, pos, 0, t) == Ok((t, pos));
    }
  }

  lemma {:induction false} ParseHeaderStep(c: seq<Byte>, pos: nat, order: seq<Byte>, codes: map<Byte, Bits>, t: DTree, h: seq<Byte>)
    requires t.DNode? && HeaderAt(c, pos, order, codes, h) && order != []
    ensures ParseHeader(c, pos, |order|, t) == Ok((InsertAll(t, order, codes), pos + 18 * |order|))
    decreases |order|, 1
  {
    var h' := FirstEntry(c, pos, order, codes, t, h);
    ParseCons(c, pos, order, codes, t, h');
  }

  /** The first entry of the header read back, and the header of the rest behind it. */
  lemma FirstEntry(c: seq<Byte>, pos: nat, order: seq<Byte>, codes: map<Byte, Bits>, t: DTree, h: seq<Byte>) returns (h': seq<Byte>)
    requires t.DNode? && HeaderAt(c, pos, order, codes, h) && order != []
    ensures HeaderAt(c, pos + 18, order[1..], codes, h') && pos + 18 <= |c|
    ensures ParseHeader(c, pos, |order|, t) == ParseHeader(c, pos + 18, |order[1..]|, Insert(t, codes[order[0]], order[0]))
  {
    h' := EntrySlices(c, pos, order, codes, h);
    ParseEntry(c, pos, |order|, t, order[0], codes);
  }

  /** Reading the first entry of the header, then the rest by the recursion. */
  lemma {:induction false} ParseCons(c: seq<Byte>, pos: nat, order: seq<Byte>, codes: map<Byte, Bits>, t: DTree, h': seq<Byte>)
    requires t.DNode? && order != [] && Covers(codes, order) && pos + 18 <= |c|
    requires HeaderAt(c, pos + 18, order[1..], codes, h')
    requires ParseHeader(c, pos, |order|, t) == ParseHeader(c, pos + 18, |order[1..]|, Insert(t, codes[order[0]], order[0]))
    ensures ParseHeader(c, pos, |order|, t) == Ok((InsertAll(t, order, codes), pos + 18 * |order|))
    decreases |order|, 0
  {
    ParseHeaderOfHeader(c, pos + 18, order[1..], codes, Insert(t, codes[order[0]], order[0]), h');
    InsertAllStep(t, order, codes);
  }

  /** The bytes at `pos` are the first entry of the header, then the header of the rest. */
  lemma EntrySlices(c: seq<Byte>, pos: nat, order: seq<Byte>, codes: map<Byte, Bits>, h: seq<Byte>) returns (h': seq<Byte>)
    requires HeaderAt(c, pos, order, codes, h) && order != []
    ensures EntryAt(c, pos, order[0], codes) && HeaderAt(c, pos + 18, order[1..], codes, h')
  {
    h' := HeaderCons(order, codes);
    SliceSplit(c, pos, Char16BE(order[0]) + FieldBytes(codes[order[0]]), h');
  }

  lemma SliceSplit(c: seq<Byte>, pos: nat, e: seq<Byte>, h: seq<Byte>)
    requires pos + |e| + |h| <= |c| && c[pos..pos + |e| + |h|] == e + h
    ensures c[pos..pos + |e|] == e && c[pos + |e|..pos + |e| + |h|] == h
  {
    assert c[pos..pos + |e|] == (e + h)[..|e|];
    assert c[pos + |e|..pos + |e| + |h|] == (e + h)[|e|..];
  }

  /** Walking the code bits of `x` through a tree that represents the codebook writes `x`. */
  lemma {:induction false} WalkAll(d: DTree, syms: seq<Byte>, codes: map<Byte, Bits>, x: seq<Byte>)
    requires Covers(codes, syms) && PrefixFree(codes) && Represents(d, syms, codes)
    requires forall i :: 0 <= i < |syms| ==> codes[syms[i]] != []
    requires forall i :: 0 <= i < |x| ==> x[i] in syms
    requires Covers(codes, x)
    ensures Walk(d, d, EncodeBits(x, codes)) == Ok(x)
  {
    if x != [] {
      assert x[0] in syms;
      var k :| 0 <= k < |syms| && syms[k] == x[0];
      TailWithin(x, syms);
      EncodeBitsCons(x, codes);
      WalkAll(d, syms, codes, x[1..]);
      WalkCode(d, syms, codes, k, EncodeBits(x[1..], codes));
      ConsTail(x);
    }
  }

  lemma EncodeBitsCons(x: seq<Byte>, codes: map<Byte, Bits>)
    requires x != [] && Covers(codes, x)
    ensures Covers(codes, x[1..])
    ensures EncodeBits(x, codes) == codes[x[0]] + EncodeBits(x[1..], codes)
  {
    forall i | 0 <= i < |x[1..]| ensures x[1..][i] in codes {
      assert x[1..][i] == x[i + 1];
    }
  }

  /**
    Decoding a container the encoder wrote rebuilds the tree from its header
    entries and walks exactly the code bits of the input.
   */
  lemma DecodeEncode(x: seq<Byte>, order: seq<Byte>, codes: map<Byte, Bits>)
    requires Covers(codes, x) && Covers(codes, order)
    requires Header(order, codes).Ok? && |order| < 0x8000_0000
    ensures Encode(x, order, codes).Ok?
    ensures Decode(Encode(x, order, codes).value) ==
      Walk(InsertAll(NewNode, order, codes), InsertAll(NewNode, order, codes), EncodeBits(x, codes))
  {
    var bits := EncodeBits(x, codes);
    var h := Header(order, codes).value;
    var pad := PadCount(|bits|);
    var payload := Payload(bits);
    var c := Int32BE(|order|) + h + payload + [pad];
    assert Encode(x, order, codes).value == c;
    Int32RoundTrip(|order|);
    Slices4(Int32BE(|order|), h, payload, pad);
    ParseHeaderOfHeader(c, 4, order, codes, NewNode, h);
    var pos := 4 + |h|;
    DecodePayloadOf(c, pos, bits, InsertAll(NewNode, order, codes));
  }

  /** The payload and pad count the encoder wrote give back exactly the code bits. */
  lemma DecodePayloadOf(c: seq<Byte>, pos: nat, bits: Bits, t: DTree)
    requires pos + |Payload(bits)| + 1 == |c|
    requires c[pos..|c| - 1] == Payload(bits) && c[|c| - 1] == PadCount(|bits|)
    ensures DecodePayload(c, pos, t) == Walk(t, t, bits)
  {
    var pad := PadCount(|bits|);
    var all := BitsOfBytes(Payload(bits));
    assert all == bits + Zeros(pad);
    assert SignedByte(c[|c| - 1]) == pad;
    assert (if pad > 0 then all[..|all| - pad] else all) == bits;
  }

  /**
    For any prefix-free codebook of non-empty codes of at most 127 bits, and
    any order of distinct header entries covering the input, decoding the
    container gives back the input.
   */
  lemma CodebookRoundTrip(x: seq<Byte>, order: seq<Byte>, codes: map<Byte, Bits>)
    requires Covers(codes, order) && NoDup(order) && PrefixFree(codes)
    requires forall i :: 0 <= i < |order| ==> codes[order[i]] != [] && |codes[order[i]]| <= 127
    requires forall i :: 0 <= i < |x| ==> x[i] in order
    ensures Covers(codes, x)
    ensures Encode(x, order, codes).Ok?
    ensures Decode(Encode(x, order, codes).value) == Ok(x)
  {
    NoDupBytes(order);
    HeaderOk(order, codes);
    WalkAllCovers(order, codes, x);
    DecodeEncode(x, order, codes);
    RepresentsNewNode(codes);
    assert [] + order == order;
    InsertAllRepresents(NewNode, [], order, codes);
    WalkAll(InsertAll(NewNode, order, codes), order, codes, x);
  }

  lemma WalkAllCovers(syms: seq<Byte>, codes: map<Byte, Bits>, x: seq<Byte>)
    requires Covers(codes, syms)
    requires forall i :: 0 <= i < |x| ==> x[i] in syms
    ensures Covers(codes, x)
  {
    forall i | 0 <= i < |x| ensures x[i] in codes {
      assert x[i] in syms;
      var k :| 0 <= k < |syms| && syms[k] == x[i];
    }
  }

  /**
    The codec's own codebook: for a tree with at least two leaves and distinct
    bytes, codes of at most 127 bits and header entries that are any ordering
    of its leaves, the container decodes to the input.
   */
  lemma RoundTrip(x: seq<Byte>, t: Tree, order: seq<Byte>)
    requires t.Node? && NoDup(LeafSyms(t))
    requires multiset(order) == multiset(LeafSyms(t))
    requires forall i :: 0 <= i < |x| ==> x[i] in LeafSyms(t)
    requires forall s :: s in Codes(t, []) ==> |Codes(t, [])[s]| <= 127
    ensures Covers(Codes(t, []), x) && Covers(Codes(t, []), order)
    ensures Encode(x, order, Codes(t, [])).Ok?
    ensures Decode(Encode(x, order, Codes(t, [])).value) == Ok(x)
  {
    var codes := Codes(t, []);
    forall i | 0 <= i < |order| ensures order[i] in codes && codes[order[i]] != [] {
      assert order[i] in multiset(order);
      CodesNonEmpty(t, order[i]);
    }
    forall i | 0 <= i < |x| ensures x[i] in order {
      assert x[i] in multiset(LeafSyms(t));
    }
    CodesPrefixFree(t, []);
    CodebookRoundTrip(x, order, codes);
  }

  lemma {:induction false} EncodeBitsEmptyCodes(x: seq<Byte>, codes: map<Byte, Bits>)
    requires Covers(codes, x)
    requires forall i :: 0 <= i < |x| ==> codes[x[i]] == []
    ensures EncodeBits(x, codes) == []
  {
    if x != [] {
      assert forall i :: 0 <= i < |x[1..]| ==> x[1..][i] == x[i + 1];
      EncodeBitsEmptyCodes(x[1..], codes);
    }
  }

  /**
    With a single distinct byte the tree is one leaf, its code is empty, the
    payload is one zero byte with a pad of 8, and decoding yields nothing:
    the input is lost, however long it was.
   */
  lemma SingleSymbolLosesData(x: seq<Byte>, s: Byte, f: nat)
    requires forall i :: 0 <= i < |x| ==> x[i] == s
    ensures Covers(Codes(Leaf(s, f), []), x) && Covers(Codes(Leaf(s, f), []), [s])
    ensures Encode(x, [s], Codes(Leaf(s, f), [])).Ok?
    ensures Decode(Encode(x, [s], Codes(Leaf(s, f), [])).value) == Ok([])
  {
    var codes := Codes(Leaf(s, f), []);
    assert codes == map[s := []];
    EncodeBitsEmptyCodes(x, codes);
    assert Covers(codes, [s]);
    DecodeEncode(x, [s], codes);
    assert [s][1..] == [];
    assert BitsOfBytes([0]) == DecToBin(0);
  }
}
