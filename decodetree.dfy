/**
  The decoder's tree (class `Node` of Huffman.java as `buildTree` grows it):
  children may be null, every node stores a char, and a node with two null
  children counts as a leaf. Insertion of codebook entries (Huffman.java:149-161)
  and the decode walk (Huffman.java:196-203).
 */
module DecodeTree {
  import opened Base
  import opened HuffmanTree

  /** `Nil` is Java's null; `data` is the char a node holds ('\0' unless set). */
  datatype DTree = Nil | DNode(data: Char16, left: DTree, right: DTree)

  /** `new Node()` */
  const NewNode: DTree := DNode(0, Nil, Nil)

  /** `curr.left` for bit 0 and `curr.right` for bit 1; null has no children. */
  function Child(t: DTree, bit: bool): (c: DTree)
    ensures c != Nil ==> t.DNode?
  {
    match t
    case Nil => Nil
    case DNode(_, l, r) => if bit then r else l
  }

  /** The node reached from `t` along path `p`, or `Nil` if the path leaves the tree. */
  function Follow(t: DTree, p: Bits): (r: DTree)
    ensures r != Nil ==> t != Nil
    decreases |p|
  {
    if p == [] then t else Follow(Child(t, p[0]), p[1..])
  }

  lemma {:induction false} FollowNil(p: Bits)
    ensures Follow(Nil, p) == Nil
    decreases |p|
  {
    if p != [] {
      FollowNil(p[1..]);
    }
  }

  lemma {:induction false} FollowSnoc(t: DTree, p: Bits, b: bool)
    ensures Follow(t, p + [b]) == Child(Follow(t, p), b)
    decreases |p|
  {
    if p == [] {
      assert [b][1..] == [];
    } else {
      assert (p + [b])[1..] == p[1..] + [b];
      FollowSnoc(Child(t, p[0]), p[1..], b);
    }
  }

  /**
    `buildTree(ch, code)` from node `t`: follows `code`, creating a node for
    every missing child, and stores `ch` in the node it ends at.
   */
  function Insert(t: DTree, code: Bits, ch: Char16): (r: DTree)
    requires t.DNode?
    ensures r.DNode?
    decreases |code|
  {
    if code == [] then t.(data := ch)
    else
      var next := Child(t, code[0]);
      var sub := Insert(if next == Nil then NewNode else next, code[1..], ch);
      if code[0] then t.(right := sub) else t.(left := sub)
  }

  /**
    Inserting a code adds exactly the nodes on its path, stores the char at
    its end, and leaves every other node (and its char) as it was; nodes it
    creates elsewhere on the path hold '\0'.
   */
  lemma {:induction false} InsertFollow(t: DTree, code: Bits, ch: Char16, p: Bits)
    requires t.DNode?
    ensures Follow(Insert(t, code, ch), p) != Nil <==> Follow(t, p) != Nil || p <= code
    ensures Follow(Insert(t, code, ch), p) != Nil ==>
      Follow(Insert(t, code, ch), p).data ==
        if p == code then ch else if Follow(t, p) != Nil then Follow(t, p).data else 0
    decreases |code|
  {
    var r := Insert(t, code, ch);
    if p == [] {
    } else if code == [] {
      assert Child(r, p[0]) == Child(t, p[0]);
    } else if p[0] != code[0] {
      assert Child(r, p[0]) == Child(t, p[0]);
    } else {
      var next := Child(t, code[0]);
      var base := if next == Nil then NewNode else next;
      assert Child(r, p[0]) == Insert(base, code[1..], ch);
      InsertFollow(base, code[1..], ch, p[1..]);
      if next == Nil {
        FollowNil(p[1..]);
        if p[1..] != [] {
          FollowNil(p[2..]);
        }
      }
      assert p <= code <==> p[1..] <= code[1..];
      assert p == code <==> p[1..] == code[1..] by {
        if p[1..] == code[1..] {
          assert p == [p[0]] + p[1..] && code == [code[0]] + code[1..];
        }
      }
    }
  }

  /**
    `t` holds exactly the paths of the codes of `syms` under `codes`: a node
    exists on a path iff the path is a prefix of some code, the node at a code
    holds that code's byte, and every other node holds '\0'.
   */
  ghost predicate Represents(t: DTree, syms: seq<Byte>, codes: map<Byte, Bits>)
    requires forall k :: 0 <= k < |syms| ==> syms[k] in codes
  {
    && t.DNode?
    && (forall p: Bits :: Follow(t, p) != Nil <==> (p == [] || exists k :: 0 <= k < |syms| && p <= codes[syms[k]]))
    && (forall k :: 0 <= k < |syms| ==> Follow(t, codes[syms[k]]).DNode? && Follow(t, codes[syms[k]]).data == syms[k])
    && (forall p: Bits :: Follow(t, p).DNode? && (forall k :: 0 <= k < |syms| ==> p != codes[syms[k]]) ==> Follow(t, p).data == 0)
  }

  lemma RepresentsNewNode(codes: map<Byte, Bits>)
    ensures Represents(NewNode, [], codes)
  {
    forall p: Bits | p != [] ensures Follow(NewNode, p) == Nil {
      FollowNil(p[1..]);
    }
  }

  /** Inserting one more entry of a prefix-free codebook keeps the description exact. */
  lemma RepresentsInsert(t: DTree, done: seq<Byte>, s: Byte, codes: map<Byte, Bits>)
    requires forall k :: 0 <= k < |done| ==> done[k] in codes
    requires s in codes && s !in done
    requires PrefixFree(codes)
    requires Represents(t, done, codes)
    ensures Represents(Insert(t, codes[s], s), done + [s], codes)
  {
    InsertPaths(t, done, s, codes);
    InsertCodes(t, done, s, codes);
    InsertZeros(t, done, s, codes);
  }

  /** After the insertion, the nodes are exactly the prefixes of the codes. */
  lemma InsertPaths(t: DTree, done: seq<Byte>, s: Byte, codes: map<Byte, Bits>)
    requires forall k :: 0 <= k < |done| ==> done[k] in codes
    requires s in codes && t.DNode?
    requires forall p: Bits :: Follow(t, p) != Nil <==> (p == [] || exists k :: 0 <= k < |done| && p <= codes[done[k]])
    ensures forall p: Bits :: Follow(Insert(t, codes[s], s), p) != Nil <==>
      (p == [] || exists k :: 0 <= k < |done + [s]| && p <= codes[(done + [s])[k]])
  {
    var c := codes[s];
    var t' := Insert(t, c, s);
    var all := done + [s];
    forall p: Bits ensures Follow(t', p) != Nil <==> (p == [] || exists k :: 0 <= k < |all| && p <= codes[all[k]]) {
      InsertFollow(t, c, s, p);
      if p <= c {
        assert all[|done|] == s;
      }
      if exists k :: 0 <= k < |all| && p <= codes[all[k]] {
        var k :| 0 <= k < |all| && p <= codes[all[k]];
        if k < |done| {
          assert all[k] == done[k];
        }
      }
      if exists k :: 0 <= k < |done| && p <= codes[done[k]] {
        var k :| 0 <= k < |done| && p <= codes[done[k]];
        assert all[k] == done[k];
      }
    }
  }

  /** After the insertion, the node at each code holds its byte. */
  lemma InsertCodes(t: DTree, done: seq<Byte>, s: Byte, codes: map<Byte, Bits>)
    requires forall k :: 0 <= k < |done| ==> done[k] in codes
    requires s in codes && s !in done && t.DNode?
    requires PrefixFree(codes)
    requires forall k :: 0 <= k < |done| ==> Follow(t, codes[done[k]]).DNode? && Follow(t, codes[done[k]]).data == done[k]
    ensures forall k :: 0 <= k < |done + [s]| ==>
      Follow(Insert(t, codes[s], s), codes[(done + [s])[k]]).DNode? &&
      Follow(Insert(t, codes[s], s), codes[(done + [s])[k]]).data == (done + [s])[k]
  {
    var c := codes[s];
    var t' := Insert(t, c, s);
    var all := done + [s];
    forall k | 0 <= k < |all| ensures Follow(t', codes[all[k]]).DNode? && Follow(t', codes[all[k]]).data == all[k] {
      InsertFollow(t, c, s, codes[all[k]]);
      if k < |done| {
        assert all[k] == done[k] != s;
        assert codes[all[k]] != c;
      }
    }
  }

  /** After the insertion, every node not at a code holds '\0'. */
  lemma InsertZeros(t: DTree, done: seq<Byte>, s: Byte, codes: map<Byte, Bits>)
    requires forall k :: 0 <= k < |done| ==> done[k] in codes
    requires s in codes && t.DNode?
    requires forall p: Bits :: Follow(t, p).DNode? && (forall k :: 0 <= k < |done| ==> p != codes[done[k]]) ==> Follow(t, p).data == 0
    ensures forall p: Bits :: Follow(Insert(t, codes[s], s), p).DNode? && (forall k :: 0 <= k < |done + [s]| ==> p != codes[(done + [s])[k]]) ==>
      Follow(Insert(t, codes[s], s), p).data == 0
  {
    var c := codes[s];
    var t' := Insert(t, c, s);
    var all := done + [s];
    forall p: Bits | Follow(t', p).DNode? && (forall k :: 0 <= k < |all| ==> p != codes[all[k]]) ensures Follow(t', p).data == 0 {
      InsertFollow(t, c, s, p);
      assert p != codes[all[|done|]];
      forall k | 0 <= k < |done| ensures p != codes[done[k]] {
        assert all[k] == done[k];
      }
    }
  }

  /** The decoder's header loop: `buildTree` for each entry in turn. */
  function InsertAll(t: DTree, syms: seq<Byte>, codes: map<Byte, Bits>): (r: DTree)
    requires t.DNode?
    requires forall k :: 0 <= k < |syms| ==> syms[k] in codes
    ensures r.DNode?
    decreases |syms|
  {
    if syms == [] then t else InsertAll(Insert(t, codes[syms[0]], syms[0]), syms[1..], codes)
  }

  lemma InsertAllStep(t: DTree, syms: seq<Byte>, codes: map<Byte, Bits>)
    requires t.DNode? && syms != []
    requires forall k :: 0 <= k < |syms| ==> syms[k] in codes
    ensures InsertAll(t, syms, codes) == InsertAll(Insert(t, codes[syms[0]], syms[0]), syms[1..], codes)
  {
  }

  /** Inserting the entries of a prefix-free codebook builds exactly their paths, whatever the order. */
  lemma {:induction false} InsertAllRepresents(t: DTree, done: seq<Byte>, rest: seq<Byte>, codes: map<Byte, Bits>)
    requires forall k :: 0 <= k < |done| ==> done[k] in codes
    requires forall k :: 0 <= k < |rest| ==> rest[k] in codes
    requires NoDup(done + rest) && PrefixFree(codes)
    requires Represents(t, done, codes)
    ensures Represents(InsertAll(t, rest, codes), done + rest, codes)
    decreases |rest|
  {
    if rest != [] {
      var s := rest[0];
      assert done + rest == done + [s] + rest[1..];
      NoDupSplit(done + [s], rest[1..]);
      NoDupSplit(done, [s]);
      assert s !in done;
      RepresentsInsert(t, done, s, codes);
      InsertAllRepresents(Insert(t, codes[s], s), done + [s], rest[1..], codes);
    } else {
      assert done + rest == done;
    }
  }

  /** Two trees with the same nodes and the same chars at them are equal. */
  lemma {:induction false} SameNodesSameTree(a: DTree, b: DTree)
    requires forall p: Bits :: (Follow(a, p) == Nil <==> Follow(b, p) == Nil)
    requires forall p: Bits :: Follow(a, p).DNode? ==> Follow(a, p).data == Follow(b, p).data
    ensures a == b
  {
    assert Follow(a, []) == a && Follow(b, []) == b;
    if a.DNode? {
      forall bit: bool ensures Child(a, bit) == Child(b, bit) {
        forall p: Bits ensures Follow(Child(a, bit), p) == Follow(a, [bit] + p) && Follow(Child(b, bit), p) == Follow(b, [bit] + p) {
          assert ([bit] + p)[1..] == p;
        }
        SameNodesSameTree(Child(a, bit), Child(b, bit));
      }
      assert a.left == Child(a, false) && a.right == Child(a, true);
    }
  }

  /** A tree is determined by the set of entries it represents, not by their order. */
  lemma RepresentsUnique(a: DTree, b: DTree, sa: seq<Byte>, sb: seq<Byte>, codes: map<Byte, Bits>)
    requires forall k :: 0 <= k < |sa| ==> sa[k] in codes
    requires forall k :: 0 <= k < |sb| ==> sb[k] in codes
    requires multiset(sa) == multiset(sb)
    requires NoDup(sa) && PrefixFree(codes)
    requires Represents(a, sa, codes) && Represents(b, sb, codes)
    ensures a == b
  {
    forall p: Bits ensures (Follow(a, p) == Nil <==> Follow(b, p) == Nil) {
      if exists k :: 0 <= k < |sa| && p <= codes[sa[k]] {
        var k :| 0 <= k < |sa| && p <= codes[sa[k]];
        var j := IndexOf(sb, sa[k]);
        assert p <= codes[sb[j]];
      }
      if exists k :: 0 <= k < |sb| && p <= codes[sb[k]] {
        var k :| 0 <= k < |sb| && p <= codes[sb[k]];
        var j := IndexOf(sa, sb[k]);
        assert p <= codes[sa[j]];
      }
    }
    forall p: Bits | Follow(a, p).DNode? ensures Follow(a, p).data == Follow(b, p).data {
      if exists k :: 0 <= k < |sa| && p == codes[sa[k]] {
        var k :| 0 <= k < |sa| && p == codes[sa[k]];
        var j := IndexOf(sb, sa[k]);
        assert p == codes[sb[j]];
      } else {
        forall k | 0 <= k < |sb| ensures p != codes[sb[k]] {
          var j := IndexOf(sa, sb[k]);
          assert codes[sb[k]] == codes[sa[j]];
        }
      }
    }
    SameNodesSameTree(a, b);
  }

  function IndexOf(s: seq<Byte>, x: Byte): (i: nat)
    requires x in multiset(s)
    ensures i < |s| && s[i] == x
  {
    if s[0] == x then 0 else
      assert multiset(s) == multiset{s[0]} + multiset(s[1..]) by {
        assert s == [s[0]] + s[1..];
      }
      1 + IndexOf(s[1..], x)
  }

  /** Java's leaf test `curr.left == null && curr.right == null`. */
  predicate IsLeaf(t: DTree)
  {
    t.DNode? && t.left == Nil && t.right == Nil
  }

  /**
    The decode walk from node `curr`: each bit moves to a child (a null child
    ends in a NullPointerException); at a leaf its char's low byte is written
    (`fos.write`) and the walk restarts at `root`. A walk that stops between
    leaves writes nothing more and reports nothing.
   */
  function Walk(root: DTree, curr: DTree, bits: Bits): (r: Result<seq<Byte>>)
    ensures r.Err? ==> r.error == MissingChild
    ensures r.Ok? ==> |r.value| <= |bits|
    decreases |bits|
  {
    if bits == [] then Ok([])
    else
      var next := Child(curr, bits[0]);
      if next == Nil then Err(MissingChild)
      else if IsLeaf(next) then
        var b: Byte := next.data % 256;
        PrependAll([b], Walk(root, root, bits[1..]))
      else Walk(root, next, bits[1..])
  }

  /** The node at a code of a prefix-free codebook is a leaf holding that code's byte. */
  lemma CodeEndsAtLeaf(d: DTree, syms: seq<Byte>, codes: map<Byte, Bits>, k: nat)
    requires forall i :: 0 <= i < |syms| ==> syms[i] in codes
    requires PrefixFree(codes) && Represents(d, syms, codes)
    requires k < |syms|
    ensures IsLeaf(Follow(d, codes[syms[k]])) && Follow(d, codes[syms[k]]).data == syms[k]
  {
    var c := codes[syms[k]];
    var n := Follow(d, c);
    forall b: bool ensures Child(n, b) == Nil {
      FollowSnoc(d, c, b);
      forall i | 0 <= i < |syms| ensures !(c + [b] <= codes[syms[i]]) {
        if syms[i] != syms[k] {
          assert !(c <= codes[syms[i]]);
          PrefixOfSnoc(c, b, codes[syms[i]]);
        }
      }
    }
    assert n.left == Child(n, false) && n.right == Child(n, true);
  }

  lemma PrefixOfSnoc(c: Bits, b: bool, x: Bits)
    ensures c + [b] <= x ==> c <= x
  {
    assert (c + [b])[..|c|] == c;
  }

  /**
    Walking a path from `curr` whose every node exists and whose last node is
    a leaf holding `sym` writes `sym` and continues from the root.
   */
  lemma {:induction false} WalkPath(d: DTree, curr: DTree, p: Bits, rest: Bits, sym: Byte)
    requires p != []
    requires forall i :: 0 < i <= |p| ==> Follow(curr, p[..i]) != Nil
    requires IsLeaf(Follow(curr, p)) && Follow(curr, p).data == sym
    ensures Walk(d, curr, p + rest) == PrependAll([sym], Walk(d, d, rest))
    decreases |p|
  {
    var bits := p + rest;
    var next := Child(curr, p[0]);
    assert bits[0] == p[0] && bits[1..] == p[1..] + rest;
    assert Follow(curr, p[..1]) == Follow(next, []) by {
      assert p[..1][1..] == [];
    }
    if |p| == 1 {
      assert p[..1] == p && p[1..] + rest == rest;
    } else {
      var q := p[1..];
      forall i | 0 < i <= |q| ensures Follow(next, q[..i]) == Follow(curr, p[..i + 1]) {
        assert p[..i + 1][1..] == q[..i];
      }
      assert p[..|p|] == p && q[..|q|] == q;
      assert Follow(next, q[..1]) == Child(next, q[0]) by {
        assert q[..1][1..] == [];
      }
      WalkPath(d, next, q, rest, sym);
    }
  }

  /**
    In a tree representing a prefix-free codebook whose codes are non-empty,
    walking one code from the root writes exactly that code's byte and
    returns to the root.
   */
  lemma WalkCode(d: DTree, syms: seq<Byte>, codes: map<Byte, Bits>, k: nat, rest: Bits)
    requires forall i :: 0 <= i < |syms| ==> syms[i] in codes
    requires PrefixFree(codes) && Represents(d, syms, codes)
    requires k < |syms| && codes[syms[k]] != []
    ensures Walk(d, d, codes[syms[k]] + rest) == PrependAll([syms[k]], Walk(d, d, rest))
  {
    var c := codes[syms[k]];
    forall i | 0 < i <= |c| ensures Follow(d, c[..i]) != Nil {
      assert c[..i] <= c;
    }
    CodeEndsAtLeaf(d, syms, codes, k);
    WalkPath(d, d, c, rest, syms[k]);
  }
}
