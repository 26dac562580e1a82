/**
  Class `Huffman` of Huffman.java: the encoder's steps (counting, the heap of
  leaves, tree construction, code assignment, writing the container) and the
  decoder's, as methods that update the object's fields. Files become byte
  strings: the input file is a parameter and the output file the result.
 */
module Huffman {
  import opened Base
  import opened Binary
  import opened HuffmanTree
  import opened Codebook
  import opened DecodeTree
  import opened Container

  /** `freqMap.getOrDefault(b, 0)` */
  function CountOf(m: map<Byte, nat>, b: Byte): (n: nat)
    ensures b in m ==> n == m[b]
    ensures b !in m ==> n == 0
  {
    if b in m then m[b] else 0
  }

  /** `q` holds one leaf per key of `m`, carrying that key's count. */
  ghost predicate LeavesOf(q: seq<Tree>, m: map<Byte, nat>)
  {
    && AllLeaves(q)
    && NoDup(Syms(q))
    && (forall b :: b in m <==> b in Syms(q))
    && (forall k :: 0 <= k < |q| ==> q[k].sym in m && q[k].freq == m[q[k].sym])
  }

  /** `q` holds one leaf per key of `m` outside `rest`, carrying that key's count. */
  ghost predicate LeavesExcept(q: seq<Tree>, m: map<Byte, nat>, rest: set<Byte>)
  {
    && AllLeaves(q)
    && NoDup(Syms(q))
    && (forall b :: b in Syms(q) <==> b in m && b !in rest)
    && (forall k :: 0 <= k < |q| ==> q[k].sym in m && q[k].freq == m[q[k].sym])
  }

  /** Appending a leaf whose frequency is its key's count keeps every leaf's count right. */
  lemma CountsSnoc(q: seq<Tree>, m: map<Byte, nat>, leaf: Tree)
    requires AllLeaves(q) && leaf.Leaf?
    requires forall k :: 0 <= k < |q| ==> q[k].sym in m && q[k].freq == m[q[k].sym]
    requires leaf.sym in m && leaf.freq == m[leaf.sym]
    ensures AllLeaves(q + [leaf])
    ensures forall n :: 0 <= n < |q + [leaf]| ==> (q + [leaf])[n].sym in m && (q + [leaf])[n].freq == m[(q + [leaf])[n].sym]
  {
    LeafSnoc(q, leaf);
    forall n | 0 <= n < |q + [leaf]| ensures (q + [leaf])[n].sym in m && (q + [leaf])[n].freq == m[(q + [leaf])[n].sym] {
      if n < |q| {
        assert (q + [leaf])[n] == q[n];
      }
    }
  }

  /** Moving key `k` out of `rest` adds exactly `k` to the bytes already present. */
  lemma KeysSnoc(s: seq<Byte>, m: map<Byte, nat>, rest: set<Byte>, k: Byte)
    requires forall b :: b in s <==> b in m && b !in rest
    requires k in rest && k in m
    ensures forall b :: b in s + [k] <==> b in m && b !in rest - {k}
  {
    forall b ensures b in s + [k] <==> b in m && b !in rest - {k} {
      assert b in s + [k] <==> b in s || b == k;
    }
  }

  /** Adding the leaf for one more key keeps the description exact. */
  lemma AddLeafStep(q: seq<Tree>, m: map<Byte, nat>, rest: set<Byte>, k: Byte)
    requires LeavesExcept(q, m, rest) && k in rest && k in m
    ensures LeavesExcept(q + [Leaf(k, m[k])], m, rest - {k})
  {
    var leaf := Leaf(k, m[k]);
    assert Syms([leaf]) == [k];
    SymsConcat(q, [leaf]);
    NoDupSnoc(Syms(q), k);
    KeysSnoc(Syms(q), m, rest, k);
    CountsSnoc(q, m, leaf);
  }

  lemma NoneAdded(m: map<Byte, nat>)
    ensures LeavesExcept([], m, m.Keys)
  {
  }

  lemma AllAdded(q: seq<Tree>, m: map<Byte, nat>)
    requires LeavesExcept(q, m, {})
    ensures LeavesOf(q, m)
  {
  }

  lemma LeafSnoc(q: seq<Tree>, leaf: Tree)
    requires AllLeaves(q) && leaf.Leaf?
    ensures AllLeaves(q + [leaf])
  {
    var q' := q + [leaf];
    assert forall n :: 0 <= n < |q'| ==> q'[n] == if n < |q| then q[n] else leaf;
  }

  lemma SnocAssoc<T>(a: seq<T>, b: seq<T>, x: T)
    ensures (a + b) + [x] == a + (b + [x])
  {
  }

  lemma SplitAt<T>(a: seq<T>, b: seq<T>)
    ensures (a + b)[..|a|] == a && (a + b)[|a|..] == b
  {
  }

  /** The frequencies of a sequence are non-decreasing. */
  ghost predicate FreqSorted(q: seq<Tree>)
  {
    forall i, j :: 0 <= i < j < |q| ==> q[i].freq <= q[j].freq
  }

  /**
    The loop of `createTree` on its copy of the heap: while more than one node
    remains, two nodes of least frequency (the first polled on the left) are
    replaced by their parent; the last node is the root, and an empty heap
    gives null. Ties between equal frequencies may be broken either way.
   */
  method MergeAll(heap: seq<Tree>) returns (root: Option<Tree>)
    requires AllLeaves(heap)
    ensures root.None? <==> heap == []
    ensures root.Some? ==> SumsHold(root.value) && LeftLighter(root.value)
    ensures root.Some? ==> root.value.freq == SumFreq(heap)
    ensures root.Some? ==> multiset(Leaves(root.value)) == multiset(heap)
  {
    var q := heap;
    FlatLeavesOfLeaves(heap);
    while |q| > 1
      invariant (q == []) == (heap == [])
      invariant SumFreq(q) == SumFreq(heap)
      invariant multiset(FlatLeaves(q)) == multiset(heap)
      invariant forall k :: 0 <= k < |q| ==> SumsHold(q[k]) && LeftLighter(q[k])
      decreases |q|
    {
      ghost var i0 := MinIndex(q);
      var i :| 0 <= i < |q| && IsMinAt(q, i);
      ghost var j0 := MinIndex(RemoveAt(q, i));
      var j :| 0 <= j < |q| - 1 && IsMinAt(RemoveAt(q, i), j);
      MergeKeepsSum(q, i, j);
      MergeKeepsLeaves(q, i, j);
      MergeKeepsShape(q, i, j);
      q := Merge(q, i, j);
    }
    if q == [] {
      root := None;
    } else {
      SingleNodeQueue(q);
      root := Some(q[0]);
    }
  }

  /**
    The 16 `writeByte` calls for one code (Huffman.java:125-129): the code
    behind 127 - |code| zeros and a 1 bit, cut into bytes from the front.
   */
  method WriteField(code: Bits) returns (bytes: seq<Byte>)
    requires |code| <= 127
    ensures bytes == FieldBytes(code)
  {
    var sb := Zeros(127 - |code|) + [true] + code;
    bytes := [];
    for i := 0 to 16
      invariant |sb| == 128 - 8 * i
      invariant bytes + BytesOfBits(sb) == FieldBytes(code)
    {
      assert BytesOfBits(sb) == [BinToDec(sb[..8])] + BytesOfBits(sb[8..]);
      bytes := bytes + [BinToDec(sb[..8])];
      sb := sb[8..];
    }
  }

  /**
    The state of the codebook loop: `polled` (written so far, as `bytes`) and
    the queue `q` together hold the heap; `polled` is in frequency order and
    no lighter than anything still queued.
   */
  ghost predicate PollState(heap: seq<Tree>, codes: map<Byte, Bits>, polled: seq<Tree>, q: seq<Tree>, bytes: seq<Byte>)
  {
    && multiset(polled) + multiset(q) == multiset(heap)
    && AllLeaves(polled) && AllLeaves(q)
    && (forall k :: 0 <= k < |q| ==> q[k] in heap && q[k].sym in codes)
    && (forall k :: 0 <= k < |polled| ==> polled[k].sym in codes && |codes[polled[k].sym]| <= 127)
    && FreqSorted(polled)
    && (forall a, b :: 0 <= a < |polled| && 0 <= b < |q| ==> polled[a].freq <= q[b].freq)
    && Covers(codes, Syms(polled)) && Header(Syms(polled), codes) == Ok(bytes)
  }

  /** Polling a least node moves it from the queue to the end of the polled order. */
  lemma PollStep(heap: seq<Tree>, codes: map<Byte, Bits>, polled: seq<Tree>, q: seq<Tree>, bytes: seq<Byte>, i: int)
    requires PollState(heap, codes, polled, q, bytes)
    requires IsMinAt(q, i) && |codes[q[i].sym]| <= 127
    ensures PollState(heap, codes, polled + [q[i]], RemoveAt(q, i), bytes + (Char16BE(q[i].sym) + FieldBytes(codes[q[i].sym])))
  {
    var node := q[i];
    PollOrder(heap, codes, polled, q, i);
    HeaderSnoc(Syms(polled), node.sym, codes);
    SymsConcat(polled, [node]);
    assert multiset(polled + [node]) + multiset(RemoveAt(q, i)) == multiset(polled) + multiset(q);
  }

  lemma PollOrder(heap: seq<Tree>, codes: map<Byte, Bits>, polled: seq<Tree>, q: seq<Tree>, i: int)
    requires AllLeaves(polled) && AllLeaves(q)
    requires IsMinAt(q, i) && q[i].sym in codes && |codes[q[i].sym]| <= 127
    requires forall k :: 0 <= k < |q| ==> q[k] in heap && q[k].sym in codes
    requires forall k :: 0 <= k < |polled| ==> polled[k].sym in codes && |codes[polled[k].sym]| <= 127
    requires FreqSorted(polled)
    requires forall a, b :: 0 <= a < |polled| && 0 <= b < |q| ==> polled[a].freq <= q[b].freq
    ensures AllLeaves(polled + [q[i]]) && AllLeaves(RemoveAt(q, i))
    ensures forall k :: 0 <= k < |RemoveAt(q, i)| ==> RemoveAt(q, i)[k] in heap && RemoveAt(q, i)[k].sym in codes
    ensures forall k :: 0 <= k < |polled| + 1 ==> (polled + [q[i]])[k].sym in codes && |codes[(polled + [q[i]])[k].sym]| <= 127
    ensures FreqSorted(polled + [q[i]])
    ensures forall a, b :: 0 <= a < |polled| + 1 && 0 <= b < |q| - 1 ==> (polled + [q[i]])[a].freq <= RemoveAt(q, i)[b].freq
  {
    var p' := polled + [q[i]];
    var q' := RemoveAt(q, i);
    assert forall b :: 0 <= b < |q'| ==> q'[b] == q[if b < i then b else b + 1];
    assert forall a :: 0 <= a < |p'| ==> p'[a] == if a < |polled| then polled[a] else q[i];
  }

  /** A bound on the code of every polled node holds for the whole heap. */
  lemma BoundsCarryOver(heap: seq<Tree>, polled: seq<Tree>, codes: map<Byte, Bits>)
    requires AllLeaves(heap) && AllLeaves(polled)
    requires multiset(polled) == multiset(heap)
    requires forall k :: 0 <= k < |polled| ==> polled[k].sym in codes && |codes[polled[k].sym]| <= 127
    ensures forall k :: 0 <= k < |heap| ==> heap[k].sym in codes && |codes[heap[k].sym]| <= 127
  {
    forall k | 0 <= k < |heap| ensures heap[k].sym in codes && |codes[heap[k].sym]| <= 127 {
      assert heap[k] in multiset(heap);
      assert heap[k] in polled;
      var a :| 0 <= a < |polled| && polled[a] == heap[k];
    }
  }

  /**
    The codebook loop of `saveEncodedFile` (Huffman.java:121-130): polls a copy
    of the heap, least frequency first (ties either way), writing each byte as
    a char and its code field. Stops with an error at a code over 127 bits.
   */
  method WriteHeader(heap: seq<Tree>, codes: map<Byte, Bits>) returns (out: Result<seq<Byte>>, ghost polled: seq<Tree>)
    requires AllLeaves(heap)
    requires forall k :: 0 <= k < |heap| ==> heap[k].sym in codes
    ensures out.Ok? <==> forall k :: 0 <= k < |heap| ==> |codes[heap[k].sym]| <= 127
    ensures out.Err? ==> out.error == CodeTooLong
    ensures out.Ok? ==> AllLeaves(polled) && multiset(polled) == multiset(heap) && FreqSorted(polled)
    ensures out.Ok? ==> Covers(codes, Syms(polled)) && out == Header(Syms(polled), codes)
  {
    var q := heap;
    polled := [];
    var bytes: seq<Byte> := [];
    while q != []
      invariant PollState(heap, codes, polled, q, bytes)
      decreases |q|
    {
      ghost var i0 := MinIndex(q);
      var i :| 0 <= i < |q| && IsMinAt(q, i);
      var node := q[i];
      var code := codes[node.sym];
      if |code| > 127 {
        assert node in heap;
        out := Err(CodeTooLong);
        return;
      }
      var field := WriteField(code);
      PollStep(heap, codes, polled, q, bytes, i);
      bytes := bytes + (Char16BE(node.sym) + field);
      polled := polled + [node];
      q := RemoveAt(q, i);
    }
    assert multiset(q) == multiset{};
    BoundsCarryOver(heap, polled, codes);
    out := Ok(bytes);
  }

  /** Writing the first 8 pending bits as a byte keeps the bits written plus pending. */
  lemma FlushStep(flushed: seq<Byte>, result: Bits)
    requires |result| >= 8
    ensures BitsOfBytes(flushed + [BinToDec(result[..8])]) + result[8..] == BitsOfBytes(flushed) + result
  {
    var b := BinToDec(result[..8]);
    BitsOfBytesConcat(flushed, [b]);
    assert BitsOfBytes([b]) == BitsOfBytes([]) + DecToBin(b);
    BinToDecRoundTrip(result[..8]);
    calc {
      BitsOfBytes(flushed + [b]) + result[8..];
      (BitsOfBytes(flushed) + result[..8]) + result[8..];
      BitsOfBytes(flushed) + (result[..8] + result[8..]);
      { assert result[..8] + result[8..] == result; }
      BitsOfBytes(flushed) + result;
    }
  }

  /** Appending the code of the next input byte extends the encoded prefix. */
  lemma PayloadStep(input: seq<Byte>, i: nat, codes: map<Byte, Bits>, flushed: seq<Byte>, result: Bits)
    requires i < |input| && Covers(codes, input)
    requires Covers(codes, input[..i]) && BitsOfBytes(flushed) + result == EncodeBits(input[..i], codes)
    ensures Covers(codes, input[..i + 1])
    ensures BitsOfBytes(flushed) + (result + codes[input[i]]) == EncodeBits(input[..i + 1], codes)
  {
    EncodeBitsSnoc(input[..i], input[i], codes);
    assert input[..i + 1] == input[..i] + [input[i]];
  }

  /**
    The inner loop of the payload (Huffman.java:136-139): writes the first 8
    pending bits as a byte while more than 8 are pending.
   */
  method Flush(flushed: seq<Byte>, pending: Bits) returns (flushed': seq<Byte>, pending': Bits)
    ensures BitsOfBytes(flushed') + pending' == BitsOfBytes(flushed) + pending
    ensures |pending'| <= 8
    ensures |pending'| == |pending| || 1 <= |pending'|
    ensures |flushed'| >= |flushed|
  {
    flushed', pending' := flushed, pending;
    while |pending'| > 8
      invariant BitsOfBytes(flushed') + pending' == BitsOfBytes(flushed) + pending
      invariant |pending'| == |pending| || 1 <= |pending'|
      invariant |flushed'| >= |flushed|
      decreases |pending'|
    {
      FlushStep(flushed', pending');
      flushed' := flushed' + [BinToDec(pending'[..8])];
      pending' := pending'[8..];
    }
  }

  /**
    The payload loop of `saveEncodedFile` (Huffman.java:132-144): appends each
    byte's code, writes a byte while more than 8 bits are pending, pads the
    rest with zeros to a last byte, and writes the pad count.
   */
  method WritePayload(input: seq<Byte>, codes: map<Byte, Bits>) returns (bytes: seq<Byte>)
    requires Covers(codes, input)
    ensures bytes == Payload(EncodeBits(input, codes)) + [PadCount(|EncodeBits(input, codes)|)]
  {
    var result: Bits := [];
    var flushed: seq<Byte> := [];
    var i := 0;
    while i < |input|
      invariant i <= |input|
      invariant Covers(codes, input[..i])
      invariant BitsOfBytes(flushed) + result == EncodeBits(input[..i], codes)
      invariant |result| <= 8 && (flushed != [] ==> |result| >= 1)
    {
      PayloadStep(input, i, codes, flushed, result);
      result := result + codes[input[i]];
      flushed, result := Flush(flushed, result);
      i := i + 1;
    }
    assert input[..i] == input;
    var pad := 8 - |result|;
    FlushedPayload(flushed, result, EncodeBits(input, codes));
    if |result| < 8 {
      result := result + Zeros(pad);
    } else {
      assert result == result + Zeros(0);
    }
    bytes := flushed + [BinToDec(result)] + [pad];
  }

  /** `for (byte d : data) bitStream.append(decToBin(d & 0xFF))`: each byte as 8 bits. */
  method BitString(data: seq<Byte>) returns (bits: Bits)
    ensures bits == BitsOfBytes(data)
  {
    bits := [];
    for k := 0 to |data|
      invariant bits == BitsOfBytes(data[..k])
    {
      assert data[..k + 1][..k] == data[..k];
      bits := bits + DecToBin(data[k]);
    }
    assert data[..|data|] == data;
  }

  /**
    One codebook field on the decoder's side (Huffman.java:172-178): its 128
    bits, then the scan to the first 1 bit; the code is what follows it. A
    field with no 1 bit runs the scan off its end.
   */
  method ReadCode(field: seq<Byte>) returns (r: Result<Bits>)
    requires |field| == 16
    ensures r == SkipZeros(BitsOfBytes(field))
  {
    var code := BitString(field);
    var j := 0;
    while j < |code| && !code[j]
      invariant j <= |code|
      invariant forall k :: 0 <= k < j ==> !code[k]
    {
      j := j + 1;
    }
    if j == |code| {
      return Err(NoSentinel);
    }
    r := Ok(code[j + 1..]);
    ghost var j' :| 0 <= j' < |code| && code[j'] && (forall i :: 0 <= i < j' ==> !code[i]) && SkipZeros(code).value == code[j' + 1..];
    assert j' == j;
  }

  /**
    The rest of `saveDecodedFile` after the codebook (Huffman.java:182-203):
    reads bytes while more than one remains, reads the last as the signed
    pad count, expands the bytes to bits, drops a positive count of bits from
    the end and walks the rest from `root`.
   */
  method ReadPayload(c: seq<Byte>, pos: nat, root: DTree) returns (out: Result<seq<Byte>>)
    requires pos <= |c|
    ensures out == DecodePayload(c, pos, root)
  {
    var p := pos;
    var data: seq<Byte> := [];
    while |c| - p > 1
      invariant pos <= p <= |c| && data == c[pos..p]
      invariant p == pos || p < |c|
    {
      data := data + [c[p]];
      p := p + 1;
    }
    if p == |c| {
      return Err(EndOfFile);
    }
    var padding := SignedByte(c[p]);
    var bitStream := BitString(data);
    if padding > 0 {
      if padding > |bitStream| {
        return Err(PaddingTooLarge);
      }
      bitStream := bitStream[..|bitStream| - padding];
    }
    out := DecodeWalk(root, bitStream);
  }

  /**
    The decoding walk of `saveDecodedFile` (Huffman.java:196-203): follows
    each bit from the current node, writes a leaf's byte and restarts at the
    root; a missing child fails.
   */
  method DecodeWalk(root: DTree, bits: Bits) returns (out: Result<seq<Byte>>)
    ensures out == Walk(root, root, bits)
  {
    var curr := root;
    var written: seq<Byte> := [];
    var i := 0;
    assert bits[0..] == bits;
    if Walk(root, root, bits).Ok? {
      assert [] + Walk(root, root, bits).value == Walk(root, root, bits).value;
    }
    while i < |bits|
      invariant i <= |bits|
      invariant Walk(root, root, bits) == PrependAll(written, Walk(root, curr, bits[i..]))
    {
      assert bits[i..][0] == bits[i] && bits[i..][1..] == bits[i + 1..];
      var next := Child(curr, bits[i]);
      if next == Nil {
        return Err(MissingChild);
      }
      if IsLeaf(next) {
        var b: Byte := next.data % 256;
        PrependAllTwice(written, [b], Walk(root, root, bits[i + 1..]));
        written := written + [b];
        curr := root;
      } else {
        curr := next;
      }
      i := i + 1;
    }
    assert written + [] == written;
    out := Ok(written);
  }

  /**
    What compression promises from a fresh object when the input has two or
    more distinct bytes and every code fits its field: the container decodes
    to the input.
   */
  lemma CompressRoundTrip(input: seq<Byte>, m: map<Byte, nat>, heap: seq<Tree>, t: Tree, polled: seq<Tree>)
    requires forall b :: b in m <==> b in input
    requires LeavesOf(heap, m)
    requires multiset(Leaves(t)) == multiset(heap)
    requires AllLeaves(polled) && multiset(polled) == multiset(heap)
    requires t.Node? && forall s :: s in Codes(t, []) ==> |Codes(t, [])[s]| <= 127
    ensures Covers(Codes(t, []), input) && Covers(Codes(t, []), Syms(polled))
    ensures exists i, j :: 0 <= i < |input| && 0 <= j < |input| && input[i] != input[j]
    ensures Encode(input, Syms(polled), Codes(t, [])).Ok?
    ensures Decode(Encode(input, Syms(polled), Codes(t, [])).value) == Ok(input)
  {
    LeavesAndOrder(input, m, heap, t, polled);
    RoundTrip(input, t, Syms(polled));
    InputDistinct(input, m, heap, t);
  }

  /**
    From a fresh object, an input with a single distinct byte gets the empty
    code: the container is written and decodes to nothing.
   */
  lemma CompressSingle(input: seq<Byte>, m: map<Byte, nat>, heap: seq<Tree>, t: Tree, polled: seq<Tree>)
    requires forall b :: b in m <==> b in input
    requires LeavesOf(heap, m)
    requires multiset(Leaves(t)) == multiset(heap)
    requires AllLeaves(polled) && multiset(polled) == multiset(heap)
    requires t.Leaf?
    ensures forall i :: 0 <= i < |input| ==> input[i] == t.sym
    ensures Covers(Codes(t, []), input) && Covers(Codes(t, []), Syms(polled))
    ensures Encode(input, Syms(polled), Codes(t, [])).Ok?
    ensures Decode(Encode(input, Syms(polled), Codes(t, [])).value) == Ok([])
  {
    LeavesAndOrder(input, m, heap, t, polled);
    SingleInput(input, t);
    SingleOrder(Syms(polled), t);
    SingleLeafLoses(input, Syms(polled), t);
  }

  /** Every byte of an input whose bytes are all leaves of a one-leaf tree is that leaf's byte. */
  lemma SingleInput(input: seq<Byte>, t: Tree)
    requires t.Leaf? && forall i :: 0 <= i < |input| ==> input[i] in LeafSyms(t)
    ensures forall i :: 0 <= i < |input| ==> input[i] == t.sym
  {
    assert LeafSyms(t) == [t.sym];
  }

  /** The container of a one-leaf tree decodes to nothing. */
  lemma SingleLeafLoses(input: seq<Byte>, order: seq<Byte>, t: Tree)
    requires t.Leaf? && order == [t.sym]
    requires forall i :: 0 <= i < |input| ==> input[i] == t.sym
    ensures Covers(Codes(t, []), input) && Covers(Codes(t, []), order)
    ensures Encode(input, order, Codes(t, [])).Ok?
    ensures Decode(Encode(input, order, Codes(t, [])).value) == Ok([])
  {
    assert t == Leaf(t.sym, t.freq);
    SingleSymbolLosesData(input, t.sym, t.freq);
  }

  /**
    Compression from a fresh object, given what each step ensures: the input
    was not empty, the codes are prefix-free, the container is written exactly
    when every code fits, and it decodes to the input when the input has two
    distinct bytes and to nothing when it has one.
   */
  lemma CompressOutcome(input: seq<Byte>, m: map<Byte, nat>, heap: seq<Tree>, t: Tree, codes: map<Byte, Bits>, polled: seq<Tree>, out: Result<seq<Byte>>)
    requires forall b :: b in m <==> b in input
    requires LeavesOf(heap, m)
    requires multiset(Leaves(t)) == multiset(heap)
    requires codes == Codes(t, []) && Covers(codes, input)
    requires out.Ok? <==> forall k :: 0 <= k < |heap| ==> |codes[heap[k].sym]| <= 127
    requires out.Ok? ==> AllLeaves(polled) && multiset(polled) == multiset(heap)
    requires out.Ok? ==> Covers(codes, Syms(polled)) && out == Encode(input, Syms(polled), codes)
    ensures input != [] && PrefixFree(codes)
    ensures out.Ok? <==> forall s :: s in codes ==> |codes[s]| <= 127
    ensures out.Ok? && (exists i, j :: 0 <= i < |input| && 0 <= j < |input| && input[i] != input[j]) ==> Decode(out.value) == Ok(input)
    ensures out.Ok? && (forall i :: 0 <= i < |input| ==> input[i] == input[0]) ==> Decode(out.value) == Ok([])
  {
    assert |multiset(heap)| >= 1;
    EmptyHeap(input, m, heap);
    LeafSymsOfHeap(heap, t);
    CodesPrefixFree(t, []);
    HeapCodes(heap, t);
    if t.Leaf? {
      CompressSingle(input, m, heap, t, polled);
    } else if out.Ok? {
      CompressRoundTrip(input, m, heap, t, polled);
    }
  }

  /** A bound holds for the codes of all heap bytes exactly when it holds for the whole codebook of the tree. */
  lemma HeapCodes(heap: seq<Tree>, t: Tree)
    requires AllLeaves(heap) && multiset(Leaves(t)) == multiset(heap)
    ensures forall k :: 0 <= k < |heap| ==> heap[k].sym in Codes(t, [])
    ensures (forall k :: 0 <= k < |heap| ==> |Codes(t, [])[heap[k].sym]| <= 127) <==>
      (forall s :: s in Codes(t, []) ==> |Codes(t, [])[s]| <= 127)
  {
    var codes := Codes(t, []);
    forall k | 0 <= k < |heap| ensures heap[k].sym in codes {
      assert heap[k] in multiset(Leaves(t));
      var j :| 0 <= j < |Leaves(t)| && Leaves(t)[j] == heap[k];
      assert LeafSyms(t)[j] == heap[k].sym;
    }
    forall s | s in codes ensures exists k :: 0 <= k < |heap| && heap[k].sym == s {
      var j :| 0 <= j < |LeafSyms(t)| && LeafSyms(t)[j] == s;
      assert Leaves(t)[j] in multiset(heap);
      var k :| 0 <= k < |heap| && heap[k] == Leaves(t)[j];
    }
  }

  /** The leaves of the tree are the counted bytes, each once, and the codebook order permutes them. */
  lemma LeavesAndOrder(input: seq<Byte>, m: map<Byte, nat>, heap: seq<Tree>, t: Tree, polled: seq<Tree>)
    requires forall b :: b in m <==> b in input
    requires LeavesOf(heap, m)
    requires multiset(Leaves(t)) == multiset(heap)
    requires AllLeaves(polled) && multiset(polled) == multiset(heap)
    ensures NoDup(LeafSyms(t))
    ensures multiset(Syms(polled)) == multiset(LeafSyms(t))
    ensures forall i :: 0 <= i < |input| ==> input[i] in LeafSyms(t)
  {
    SymsPermutation(Leaves(t), heap);
    SymsPermutation(polled, heap);
    forall i | 0 <= i < |input| ensures input[i] in LeafSyms(t) {
      assert input[i] in m;
      assert input[i] in multiset(Syms(heap));
    }
  }

  /** A heap of two or more distinct leaves came from an input with two distinct bytes. */
  lemma InputDistinct(input: seq<Byte>, m: map<Byte, nat>, heap: seq<Tree>, t: Tree)
    requires forall b :: b in m <==> b in input
    requires LeavesOf(heap, m)
    requires multiset(Leaves(t)) == multiset(heap)
    requires t.Node? && NoDup(LeafSyms(t))
    ensures exists i, j :: 0 <= i < |input| && 0 <= j < |input| && input[i] != input[j]
  {
    SymsPermutation(Leaves(t), heap);
    var a, b := TwoLeaves(t);
    assert a in input by { assert a in multiset(Syms(heap)); }
    assert b in input by { assert b in multiset(Syms(heap)); }
    var i :| 0 <= i < |input| && input[i] == a;
    var j :| 0 <= j < |input| && input[j] == b;
  }

  /** The order of a one-leaf heap is that leaf's byte. */
  lemma SingleOrder(order: seq<Byte>, t: Tree)
    requires t.Leaf? && multiset(order) == multiset(LeafSyms(t))
    ensures order == [t.sym]
  {
    assert LeafSyms(t) == [t.sym];
    assert |order| == |multiset(order)| == 1;
    assert order[0] in multiset(LeafSyms(t));
  }

  /** A tree with an internal node has two distinct leaf bytes when no byte repeats. */
  lemma TwoLeaves(t: Tree) returns (a: Byte, b: Byte)
    requires t.Node? && NoDup(LeafSyms(t))
    ensures a in LeafSyms(t) && b in LeafSyms(t) && a != b
  {
    LeafSymsNode(t.freq, t.left, t.right);
    var l := LeafSyms(t.left);
    var r := LeafSyms(t.right);
    assert |Leaves(t.left)| >= 1 && |Leaves(t.right)| >= 1;
    NoDupSplit(l, r);
    a, b := l[0], r[0];
  }

  /** Every leaf byte of the heap, and every byte counted, has a code. */
  lemma HeapCovered(input: seq<Byte>, m: map<Byte, nat>, heap: seq<Tree>, n: nat, t: Tree, codes: map<Byte, Bits>)
    requires AllLeaves(heap) && n <= |heap| && LeavesOf(heap[n..], m)
    requires forall i :: 0 <= i < |input| ==> input[i] in m
    requires multiset(Leaves(t)) == multiset(heap)
    requires forall s :: s in LeafSyms(t) ==> s in codes
    ensures Covers(codes, input)
    ensures forall k :: 0 <= k < |heap| ==> heap[k].sym in codes
  {
    forall k | 0 <= k < |heap| ensures heap[k].sym in codes {
      assert heap[k] in multiset(Leaves(t));
      var j :| 0 <= j < |Leaves(t)| && Leaves(t)[j] == heap[k];
      assert LeafSyms(t)[j] == heap[k].sym;
    }
    forall i | 0 <= i < |input| ensures input[i] in codes {
      var tail := heap[n..];
      assert input[i] in Syms(tail);
      var k :| 0 <= k < |tail| && Syms(tail)[k] == input[i];
      assert tail[k] == heap[n + k];
    }
  }

  /** The heap of a fresh object is empty exactly when nothing was counted. */
  lemma EmptyHeap(input: seq<Byte>, m: map<Byte, nat>, heap: seq<Tree>)
    requires LeavesOf(heap, m)
    requires forall b :: b in m <==> b in input
    ensures heap == [] <==> input == []
  {
    if input != [] {
      assert input[0] in m;
      assert input[0] in Syms(heap);
    }
    if heap != [] {
      assert heap[0].sym in m;
    }
  }

  /** Counting and adding leaves from empty state: the heap holds a leaf per distinct input byte. */
  lemma FreshHeap(input: seq<Byte>, m0: map<Byte, nat>, m: map<Byte, nat>, h0: seq<Tree>, h: seq<Tree>)
    requires m0 == map[] && h0 == []
    requires forall b :: b in m <==> b in m0 || b in input
    requires forall b :: b in m ==> m[b] == CountOf(m0, b) + multiset(input)[b]
    requires |h| >= |h0| && LeavesOf(h[|h0|..], m)
    ensures forall b :: b in m <==> b in input
    ensures forall b :: b in m ==> m[b] == multiset(input)[b]
    ensures LeavesOf(h, m)
    ensures h == [] <==> input == []
  {
    assert h[|h0|..] == h;
    EmptyHeap(input, m, h);
  }

  /** `n` copies of byte `s`. */
  ghost function Copies(s: Byte, n: nat): (r: multiset<Byte>)
    ensures |r| == n && r[s] == n
    ensures forall b :: b != s ==> r[b] == 0
  {
    if n == 0 then multiset{} else Copies(s, n - 1) + multiset{s}
  }

  /** The bytes a queue of leaves stands for, each as often as its frequency says. */
  ghost function Bag(q: seq<Tree>): multiset<Byte>
    requires AllLeaves(q)
  {
    if q == [] then multiset{} else Bag(q[..|q| - 1]) + Copies(q[|q| - 1].sym, q[|q| - 1].freq)
  }

  lemma {:induction false} BagOf(q: seq<Tree>)
    requires AllLeaves(q) && NoDup(Syms(q))
    ensures |Bag(q)| == SumFreq(q)
    ensures forall b :: b !in Syms(q) ==> Bag(q)[b] == 0
    ensures forall k :: 0 <= k < |q| ==> Bag(q)[q[k].sym] == q[k].freq
  {
    if q != [] {
      var n := |q| - 1;
      var q', last := q[..n], q[n];
      assert q == q' + [last];
      SymsConcat(q', [last]);
      NoDupSplit(Syms(q'), [last.sym]);
      BagOf(q');
      forall k | 0 <= k < |q| ensures Bag(q)[q[k].sym] == q[k].freq {
        if k < n {
          assert q[k] == q'[k] && Syms(q')[k] == q[k].sym;
        }
      }
    }
  }

  /** The leaves of exact counts weigh, together, as much as the input is long. */
  lemma HeapTotal(input: seq<Byte>, m: map<Byte, nat>, heap: seq<Tree>)
    requires forall b :: b in m <==> b in input
    requires forall b :: b in m ==> m[b] == multiset(input)[b]
    requires LeavesOf(heap, m)
    ensures SumFreq(heap) == |input|
  {
    BagOf(heap);
    forall b ensures Bag(heap)[b] == multiset(input)[b] {
      if b in Syms(heap) {
        var k :| 0 <= k < |heap| && Syms(heap)[k] == b;
        assert heap[k].sym == b;
      } else {
        assert b !in m;
      }
    }
    assert Bag(heap) == multiset(input);
  }

  /**
    With at most 128 distinct input bytes the tree has at most 128 leaves, so
    every code has at most 127 bits and the header can be written.
   */
  lemma FewBytesFit(input: seq<Byte>, m: map<Byte, nat>, heap: seq<Tree>, t: Tree)
    requires forall b :: b in m <==> b in input
    requires LeavesOf(heap, m)
    requires multiset(Leaves(t)) == multiset(heap)
    requires |Alphabet(input)| <= 128
    ensures forall s :: s in Codes(t, []) ==> |Codes(t, [])[s]| <= 127
  {
    assert Alphabet(input) == Alphabet(Syms(heap)) by {
      forall b ensures b in Alphabet(input) <==> b in Alphabet(Syms(heap)) {
        if b in Alphabet(input) {
          assert b in input;
          var k :| 0 <= k < |heap| && Syms(heap)[k] == b;
        }
        if b in Alphabet(Syms(heap)) {
          var k :| 0 <= k < |Syms(heap)| && Syms(heap)[k] == b;
          var i :| 0 <= i < |input| && input[i] == b;
        }
      }
    }
    NoDupAlphabetSize(Syms(heap));
    assert |Leaves(t)| == |heap| by {
      assert |multiset(Leaves(t))| == |multiset(heap)|;
    }
    forall s | s in Codes(t, []) ensures |Codes(t, [])[s]| <= 127 {
      CodesDepth(t, [], s);
    }
  }

  /** The byte at each leaf of the tree occurs once, as in the heap. */
  lemma LeafSymsOfHeap(heap: seq<Tree>, t: Tree)
    requires AllLeaves(heap) && NoDup(Syms(heap))
    requires multiset(Leaves(t)) == multiset(heap)
    ensures NoDup(LeafSyms(t))
  {
    SymsPermutation(Leaves(t), heap);
  }

  /** One step of the decoder's header loop: done, out of bytes, or one entry read. */
  lemma ParseStep(c: seq<Byte>, pos: nat, count: int, t: DTree)
    requires t.DNode? && pos <= |c|
    ensures count <= 0 ==> ParseHeader(c, pos, count, t) == Ok((t, pos))
    ensures count > 0 && |c| - pos < 18 ==> ParseHeader(c, pos, count, t) == Err(EndOfFile)
    ensures count > 0 && pos + 18 <= |c| ==>
      var code := SkipZeros(BitsOfBytes(c[pos + 2..pos + 18]));
      && (code.Err? ==> ParseHeader(c, pos, count, t) == Err(code.error))
      && (code.Ok? ==>
            ParseHeader(c, pos, count, t) == ParseHeader(c, pos + 18, count - 1, Insert(t, code.value, ReadChar16(c[pos], c[pos + 1]))))
  {
  }

  lemma MapUnionEmpty<K, V>(e: map<K, V>, m: map<K, V>)
    requires e == map[]
    ensures e + m == m
  {
  }

  lemma MapUnionAssoc<K, V>(m: map<K, V>, a: map<K, V>, b: map<K, V>)
    ensures (m + a) + b == m + (a + b)
  {
  }

  lemma MapUpdateUnion<K, V>(m: map<K, V>, k: K, v: V)
    ensures m[k := v] == m + map[k := v]
  {
  }

  class Huffman {
    var freqMap: map<Byte, nat>
    var minHeap: seq<Tree>
    /** The encoder's `root`; `None` is null. */
    var root: Option<Tree>
    var huffmanCodes: map<Byte, Bits>
    /** The decoder's `root`, grown by `buildTree`. */
    var decodeRoot: DTree

    /** The heap only ever holds leaves. */
    ghost predicate Valid()
      reads this
    {
      AllLeaves(minHeap)
    }

    /** The state of a new `Huffman` object, before `compress` or `decompress`. */
    ghost predicate Initial()
      reads this
    {
      freqMap == map[] && minHeap == [] && root == None && huffmanCodes == map[] && decodeRoot == Nil
    }

    /** `freqMap` holds the exact count of every input byte and the heap one leaf per counted byte. */
    ghost predicate Counted(input: seq<Byte>)
      reads this`freqMap, this`minHeap
    {
      && (forall b :: b in freqMap <==> b in input)
      && (forall b :: b in freqMap ==> freqMap[b] == multiset(input)[b])
      && LeavesOf(minHeap, freqMap)
    }

    /**
      `root` is a tree over the heap's leaves in which parents weigh the sum
      of their children, the lighter on the left, it weighs the input length,
      and `huffmanCodes` is its codebook.
     */
    ghost predicate Built(input: seq<Byte>)
      reads this`minHeap, this`root, this`huffmanCodes
    {
      && root.Some?
      && multiset(Leaves(root.value)) == multiset(minHeap)
      && SumsHold(root.value) && LeftLighter(root.value)
      && root.value.freq == |input|
      && huffmanCodes == Codes(root.value, [])
    }

    constructor()
      ensures Valid() && Initial()
    {
      freqMap := map[];
      minHeap := [];
      root := None;
      huffmanCodes := map[];
      decodeRoot := Nil;
    }

    /**
      `createMinHeap`: adds the count of every input byte to `freqMap`, then
      adds one leaf per entry of `freqMap` to the heap.
     */
    method CreateMinHeap(input: seq<Byte>)
      requires Valid()
      modifies this`freqMap, this`minHeap
      ensures Valid()
      ensures forall b :: b in freqMap <==> b in old(freqMap) || b in input
      ensures forall b :: b in freqMap ==> freqMap[b] == CountOf(old(freqMap), b) + multiset(input)[b]
      ensures |minHeap| >= |old(minHeap)| && minHeap[..|old(minHeap)|] == old(minHeap)
      ensures LeavesOf(minHeap[|old(minHeap)|..], freqMap)
      ensures old(freqMap) == map[] && old(minHeap) == [] ==> Counted(input)
      ensures old(freqMap) == map[] && old(minHeap) == [] ==> (minHeap == [] <==> input == []) && SumFreq(minHeap) == |input|
    {
      ghost var m0, h0 := freqMap, minHeap;
      CountBytes(input);
      AddLeaves();
      if m0 == map[] && h0 == [] {
        FreshHeap(input, m0, freqMap, h0, minHeap);
        HeapTotal(input, freqMap, minHeap);
      }
    }

    /** The reading loop of `createMinHeap` (Huffman.java:39-42). */
    method CountBytes(input: seq<Byte>)
      modifies this`freqMap
      ensures forall b :: b in freqMap <==> b in old(freqMap) || b in input
      ensures forall b :: b in freqMap ==> freqMap[b] == CountOf(old(freqMap), b) + multiset(input)[b]
    {
      var i := 0;
      while i < |input|
        invariant i <= |input|
        invariant forall b :: b in freqMap <==> b in old(freqMap) || b in input[..i]
        invariant forall b :: b in freqMap ==> freqMap[b] == CountOf(old(freqMap), b) + multiset(input[..i])[b]
      {
        var ch := input[i];
        assert input[..i + 1] == input[..i] + [ch];
        freqMap := freqMap[ch := CountOf(freqMap, ch) + 1];
        i := i + 1;
      }
      assert input[..i] == input;
    }

    /** The heap-filling loop of `createMinHeap` (Huffman.java:46-48): one new leaf per map entry. */
    method AddLeaves()
      requires Valid()
      modifies this`minHeap
      ensures Valid()
      ensures |minHeap| >= |old(minHeap)| && minHeap[..|old(minHeap)|] == old(minHeap)
      ensures LeavesOf(minHeap[|old(minHeap)|..], freqMap)
    {
      var m := freqMap;
      var keys := m.Keys;
      ghost var h0 := minHeap;
      ghost var added: seq<Tree> := [];
      NoneAdded(m);
      while keys != {}
        invariant keys <= m.Keys
        invariant minHeap == h0 + added
        invariant LeavesExcept(added, m, keys)
        invariant AllLeaves(minHeap)
        decreases |keys|
      {
        var k :| k in keys;
        var leaf := Leaf(k, m[k]);
        AddLeafStep(added, m, keys, k);
        LeafSnoc(minHeap, leaf);
        SnocAssoc(h0, added, leaf);
        minHeap := minHeap + [leaf];
        added := added + [leaf];
        keys := keys - {k};
      }
      SplitAt(h0, added);
      AllAdded(added, m);
    }

    /** `createTree`: the root of the tree built from a copy of the heap. */
    method CreateTree()
      requires Valid()
      modifies this`root
      ensures Valid()
      ensures root.None? <==> minHeap == []
      ensures root.Some? ==> SumsHold(root.value) && LeftLighter(root.value)
      ensures root.Some? ==> root.value.freq == SumFreq(minHeap)
      ensures root.Some? ==> multiset(Leaves(root.value)) == multiset(minHeap)
    {
      root := MergeAll(minHeap);
    }
    /**
      `traverse`: a leaf has its path recorded as its code; otherwise the left
      subtree is walked with 0 appended, then the right with 1.
     */
    method Traverse(node: Tree, sb: Bits)
      modifies this`huffmanCodes
      ensures huffmanCodes == old(huffmanCodes) + Codes(node, sb)
      decreases node
    {
      if node.Leaf? {
        MapUpdateUnion(huffmanCodes, node.sym, sb);
        huffmanCodes := huffmanCodes[node.sym := sb];
      } else {
        ghost var m := huffmanCodes;
        Traverse(node.left, sb + [false]);
        Traverse(node.right, sb + [true]);
        MapUnionAssoc(m, Codes(node.left, sb + [false]), Codes(node.right, sb + [true]));
      }
    }

    /** `createCodes`: `traverse(root, "")`; with a null root the call fails (`ok` is false). */
    method CreateCodes() returns (ok: bool)
      modifies this`huffmanCodes
      ensures ok <==> root.Some?
      ensures ok ==> huffmanCodes == old(huffmanCodes) + Codes(root.value, [])
      ensures !ok ==> huffmanCodes == old(huffmanCodes)
    {
      if root.None? {
        return false;
      }
      Traverse(root.value, []);
      ok := true;
    }

    /**
      `saveEncodedFile` on input bytes `input`: the entry count, the codebook in
      heap order, the payload and the pad count. `polled` is the order the heap
      was polled in; an error means a code over 127 bits.
     */
    method SaveEncodedFile(input: seq<Byte>) returns (out: Result<seq<Byte>>, ghost polled: seq<Tree>)
      requires Valid()
      requires Covers(huffmanCodes, input)
      requires forall k :: 0 <= k < |minHeap| ==> minHeap[k].sym in huffmanCodes
      ensures out.Ok? <==> forall k :: 0 <= k < |minHeap| ==> |huffmanCodes[minHeap[k].sym]| <= 127
      ensures out.Err? ==> out.error == CodeTooLong
      ensures out.Ok? ==> AllLeaves(polled) && multiset(polled) == multiset(minHeap) && FreqSorted(polled)
      ensures out.Ok? ==> Covers(huffmanCodes, Syms(polled)) && out == Encode(input, Syms(polled), huffmanCodes)
    {
      var header;
      header, polled := WriteHeader(minHeap, huffmanCodes);
      if header.Err? {
        return Err(header.error), polled;
      }
      var payload := WritePayload(input, huffmanCodes);
      assert |Syms(polled)| == |multiset(polled)| == |minHeap|;
      out := Ok(Int32BE(|minHeap|) + header.value + payload);
      ghost var bits := EncodeBits(input, huffmanCodes);
      assert Int32BE(|minHeap|) + header.value + payload
        == Int32BE(|minHeap|) + header.value + Payload(bits) + [PadCount(|bits|)];
    }
    /**
      `saveDecodedFile` on container bytes `c`: reads the entry count, grows
      `decodeRoot` from a new node with one `buildTree` per entry, collects the
      bytes before the last, drops the padding and walks the bits.
     */
    method SaveDecodedFile(c: seq<Byte>) returns (out: Result<seq<Byte>>)
      modifies this`decodeRoot
      ensures out == Decode(c)
      ensures |c| >= 4 && ParseHeader(c, 4, ReadInt32(c[..4]), NewNode).Ok? ==>
        decodeRoot == ParseHeader(c, 4, ReadInt32(c[..4]), NewNode).value.0
    {
      if |c| < 4 {
        return Err(EndOfFile);
      }
      var header := ReadHeader(c, ReadInt32(c[..4]));
      if header.Err? {
        return Err(header.error);
      }
      out := ReadPayload(c, header.value, decodeRoot);
    }

    /**
      The header loop of `saveDecodedFile`, given the entry count read from
      the first four bytes: for each entry the char and the 16-byte field,
      inserting the code into a fresh decoding tree; gives the position
      after the header.
     */
    method ReadHeader(c: seq<Byte>, size: int) returns (r: Result<nat>)
      requires |c| >= 4
      modifies this`decodeRoot
      ensures r.Ok? ==> ParseHeader(c, 4, size, NewNode) == Ok((decodeRoot, r.value))
      ensures r.Err? ==> ParseHeader(c, 4, size, NewNode) == Err(r.error)
    {
      decodeRoot := NewNode;
      var pos := 4;
      var i := 0;
      ghost var goal := ParseHeader(c, 4, size, NewNode);
      while i < size
        invariant pos <= |c| && decodeRoot.DNode?
        invariant goal == ParseHeader(c, pos, size - i, decodeRoot)
        decreases size - i
      {
        ParseStep(c, pos, size - i, decodeRoot);
        if |c| - pos < 18 {
          return Err(EndOfFile);
        }
        var ch := ReadChar16(c[pos], c[pos + 1]);
        var code := ReadCode(c[pos + 2..pos + 18]);
        if code.Err? {
          return Err(code.error);
        }
        decodeRoot := Insert(decodeRoot, code.value, ch);
        pos := pos + 18;
        i := i + 1;
      }
      ParseStep(c, pos, size - i, decodeRoot);
      r := Ok(pos);
    }

    /**
      The steps of `compress` between counting and writing: merge the heap
      into a tree and assign the codes, which then cover every input byte
      counted into the heap from position `n` on.
     */
    method AssignCodes(input: seq<Byte>, ghost n: nat) returns (ok: bool)
      requires Valid() && n <= |minHeap| && LeavesOf(minHeap[n..], freqMap)
      requires forall i :: 0 <= i < |input| ==> input[i] in freqMap
      modifies this`root, this`huffmanCodes
      ensures ok <==> root.Some?
      ensures root.None? <==> minHeap == []
      ensures ok ==> Covers(huffmanCodes, input) && forall k :: 0 <= k < |minHeap| ==> minHeap[k].sym in huffmanCodes
      ensures ok ==> multiset(Leaves(root.value)) == multiset(minHeap) && root.value.freq == SumFreq(minHeap)
      ensures ok ==> SumsHold(root.value) && LeftLighter(root.value)
      ensures ok ==> huffmanCodes == old(huffmanCodes) + Codes(root.value, [])
      ensures !ok ==> huffmanCodes == old(huffmanCodes)
    {
      CreateTree();
      ok := CreateCodes();
      if ok {
        HeapCovered(input, freqMap, minHeap, n, root.value, huffmanCodes);
      }
    }

    /**
      The first three steps of `compress`: count the input into the heap,
      build the tree and assign the codes; `ok` is false when `createTree`
      leaves a null root.
     */
    method BuildCodes(input: seq<Byte>) returns (ok: bool)
      requires Valid()
      modifies this`freqMap, this`minHeap, this`root, this`huffmanCodes
      ensures Valid()
      ensures ok <==> root.Some?
      ensures ok ==> Covers(huffmanCodes, input) && forall k :: 0 <= k < |minHeap| ==> minHeap[k].sym in huffmanCodes
      ensures old(Initial()) ==> (ok <==> input != [])
      ensures old(Initial()) ==> Counted(input)
      ensures old(Initial()) && ok ==> Built(input)
    {
      ghost var init := Initial();
      ghost var n := |minHeap|;
      CreateMinHeap(input);
      ghost var c0 := huffmanCodes;
      ok := AssignCodes(input, n);
      if ok && init {
        MapUnionEmpty(c0, Codes(root.value, []));
      }
    }

    /** `compress`: count, build the tree, assign codes and write the container. */
    method Compress(input: seq<Byte>) returns (out: Result<seq<Byte>>)
      requires Valid()
      modifies this`freqMap, this`minHeap, this`root, this`huffmanCodes
      ensures Valid()
      ensures out.Err? ==> out.error == EmptyTree || out.error == CodeTooLong
      ensures old(Initial()) ==> (out == Err(EmptyTree) <==> input == [])
      ensures old(Initial()) ==> (forall b :: b in freqMap <==> b in input) && (forall b :: b in freqMap ==> freqMap[b] == multiset(input)[b])
      ensures old(Initial()) ==> LeavesOf(minHeap, freqMap)
      ensures old(Initial()) && input != [] ==> root.Some? && multiset(Leaves(root.value)) == multiset(minHeap)
      ensures old(Initial()) && input != [] ==> root.Some? && SumsHold(root.value) && LeftLighter(root.value)
      ensures old(Initial()) && input != [] ==> root.Some? && huffmanCodes == Codes(root.value, []) && PrefixFree(huffmanCodes)
      ensures old(Initial()) && input != [] ==> root.Some? && root.value.freq == |input|
      ensures old(Initial()) && input != [] ==> (out.Ok? <==> forall s :: s in huffmanCodes ==> |huffmanCodes[s]| <= 127)
      ensures old(Initial()) && input != [] && |Alphabet(input)| <= 128 ==> out.Ok?
      ensures old(Initial()) && out.Ok? && (exists i, j :: 0 <= i < |input| && 0 <= j < |input| && input[i] != input[j])
        ==> Decode(out.value) == Ok(input)
      ensures old(Initial()) && out.Ok? && (forall i :: 0 <= i < |input| ==> input[i] == input[0])
        ==> Decode(out.value) == Ok([])
    {
      ghost var init := Initial();
      var ok := BuildCodes(input);
      if !ok {
        return Err(EmptyTree);
      }
      ghost var polled;
      out, polled := SaveEncodedFile(input);
      if init {
        CompressOutcome(input, freqMap, minHeap, root.value, huffmanCodes, polled, out);
        if |Alphabet(input)| <= 128 {
          FewBytesFit(input, freqMap, minHeap, root.value);
        }
      }
    }

    /** `decompress`: `saveDecodedFile`. */
    method Decompress(c: seq<Byte>) returns (out: Result<seq<Byte>>)
      modifies this`decodeRoot
      ensures out == Decode(c)
      ensures |c| >= 4 && ParseHeader(c, 4, ReadInt32(c[..4]), NewNode).Ok? ==>
        decodeRoot == ParseHeader(c, 4, ReadInt32(c[..4]), NewNode).value.0
    {
      out := SaveDecodedFile(c);
    }
  }
}
