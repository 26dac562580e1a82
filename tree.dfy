/**
  The encoder's Huffman tree (class `Node` of Huffman.java as the encoder
  builds it): leaves carry a byte and its frequency, internal nodes carry the
  sum of their children's frequencies and always have both children.
  Also the queue bookkeeping used by tree construction and the code
  assignment of `traverse`.
 */
module HuffmanTree {
  import opened Base

  datatype Tree = Leaf(sym: Byte, freq: nat) | Node(freq: nat, left: Tree, right: Tree)

  /** Every internal node's frequency is the sum of its children's (Huffman.java:71). */
  ghost predicate SumsHold(t: Tree)
  {
    match t
    case Leaf(_, _) => true
    case Node(f, l, r) => f == l.freq + r.freq && SumsHold(l) && SumsHold(r)
  }

  ghost predicate AllLeaves(q: seq<Tree>)
  {
    forall k :: 0 <= k < |q| ==> q[k].Leaf?
  }

  /** The leaves of `t`, left to right. */
  function Leaves(t: Tree): (r: seq<Tree>)
    ensures |r| >= 1 && AllLeaves(r)
    ensures t.Leaf? ==> r == [t]
  {
    match t
    case Leaf(_, _) => [t]
    case Node(_, l, r) => Leaves(l) + Leaves(r)
  }

  /** The bytes of a sequence of leaves. */
  function Syms(q: seq<Tree>): (r: seq<Byte>)
    requires AllLeaves(q)
    ensures |r| == |q|
    ensures forall k :: 0 <= k < |q| ==> r[k] == q[k].sym
  {
    if q == [] then [] else Syms(q[..|q| - 1]) + [q[|q| - 1].sym]
  }

  lemma {:induction false} SymsConcat(a: seq<Tree>, b: seq<Tree>)
    requires AllLeaves(a) && AllLeaves(b)
    ensures AllLeaves(a + b) && Syms(a + b) == Syms(a) + Syms(b)
  {
    assert AllLeaves(a + b);
    assert Syms(a + b) == Syms(a) + Syms(b);
  }

  /** Permuting leaves permutes their bytes. */
  lemma {:induction false} SymsPermutation(a: seq<Tree>, b: seq<Tree>)
    requires AllLeaves(a) && AllLeaves(b) && multiset(a) == multiset(b)
    ensures multiset(Syms(a)) == multiset(Syms(b))
  {
    if a != [] {
      var n := |a| - 1;
      assert a[n] in multiset(b);
      assert a[n] in b;
      var i :| 0 <= i < |b| && b[i] == a[n];
      RemoveLast(a);
      SymsPermutation(RemoveAt(a, n), RemoveAt(b, i));
      SymsRemove(b, i);
      SymsRemove(a, n);
    }
  }

  lemma {:induction false} SymsRemove(b: seq<Tree>, i: nat)
    requires AllLeaves(b) && i < |b|
    ensures AllLeaves(RemoveAt(b, i))
    ensures multiset(Syms(b)) == multiset(Syms(RemoveAt(b, i))) + multiset{b[i].sym}
  {
    var b1, x, b2 := b[..i], b[i], b[i+1..];
    assert b == b1 + [x] + b2;
    SymsConcat(b1, b2);
    SymsConcat(b1 + [x], b2);
    SymsConcat(b1, [x]);
  }

  /** The bytes at the leaves of `t`, left to right. */
  function LeafSyms(t: Tree): seq<Byte>
  {
    Syms(Leaves(t))
  }

  lemma {:induction false} LeafSymsNode(f: nat, l: Tree, r: Tree)
    ensures LeafSyms(Node(f, l, r)) == LeafSyms(l) + LeafSyms(r)
  {
    SymsConcat(Leaves(l), Leaves(r));
  }

  /** The frequencies of a queue of nodes, summed. */
  function SumFreq(q: seq<Tree>): nat
  {
    if q == [] then 0 else SumFreq(q[..|q| - 1]) + q[|q| - 1].freq
  }

  /** The leaves of every node of a queue, in queue order. */
  function FlatLeaves(q: seq<Tree>): (r: seq<Tree>)
    ensures AllLeaves(r)
  {
    if q == [] then [] else FlatLeaves(q[..|q| - 1]) + Leaves(q[|q| - 1])
  }

  lemma QueueConcat(a: seq<Tree>, b: seq<Tree>)
    ensures SumFreq(a + b) == SumFreq(a) + SumFreq(b)
    ensures FlatLeaves(a + b) == FlatLeaves(a) + FlatLeaves(b)
  {
    SumConcat(a, b);
    FlatConcat(a, b);
  }

  lemma {:induction false} SumConcat(a: seq<Tree>, b: seq<Tree>)
    ensures SumFreq(a + b) == SumFreq(a) + SumFreq(b)
  {
    if b == [] {
      assert a + b == a;
    } else {
      var c := a + b;
      assert c[..|c| - 1] == a + b[..|b| - 1] && c[|c| - 1] == b[|b| - 1];
      SumConcat(a, b[..|b| - 1]);
    }
  }

  lemma {:induction false} FlatConcat(a: seq<Tree>, b: seq<Tree>)
    ensures FlatLeaves(a + b) == FlatLeaves(a) + FlatLeaves(b)
  {
    if b == [] {
      assert a + b == a;
    } else {
      var c := a + b;
      var b' := b[..|b| - 1];
      assert c[..|c| - 1] == a + b' && c[|c| - 1] == b[|b| - 1];
      FlatConcat(a, b');
      calc {
        FlatLeaves(c);
        FlatLeaves(a + b') + Leaves(b[|b| - 1]);
        (FlatLeaves(a) + FlatLeaves(b')) + Leaves(b[|b| - 1]);
        FlatLeaves(a) + (FlatLeaves(b') + Leaves(b[|b| - 1]));
        FlatLeaves(a) + FlatLeaves(b);
      }
    }
  }

  /** Removing one node from a queue removes its frequency and its leaves. */
  lemma {:induction false} QueueRemove(q: seq<Tree>, i: nat)
    requires i < |q|
    ensures SumFreq(RemoveAt(q, i)) + q[i].freq == SumFreq(q)
    ensures multiset(FlatLeaves(RemoveAt(q, i))) + multiset(Leaves(q[i])) == multiset(FlatLeaves(q))
  {
    var q1, x, q2 := q[..i], q[i], q[i+1..];
    assert q == q1 + [x] + q2;
    assert RemoveAt(q, i) == q1 + q2;
    QueueConcat(q1 + [x], q2);
    QueueAppend(q1, x);
    QueueConcat(q1, q2);
  }

  lemma {:induction false} QueueAppend(q: seq<Tree>, t: Tree)
    ensures SumFreq(q + [t]) == SumFreq(q) + t.freq
    ensures FlatLeaves(q + [t]) == FlatLeaves(q) + Leaves(t)
  {
    assert (q + [t])[..|q|] == q;
  }

  lemma SingleNodeQueue(q: seq<Tree>)
    requires |q| == 1
    ensures SumFreq(q) == q[0].freq && FlatLeaves(q) == Leaves(q[0])
  {
    assert q[..0] == [];
  }

  /** A queue of leaves is its own list of leaves. */
  lemma {:induction false} FlatLeavesOfLeaves(q: seq<Tree>)
    requires AllLeaves(q)
    ensures FlatLeaves(q) == q
  {
    if q != [] {
      FlatLeavesOfLeaves(q[..|q| - 1]);
      assert q == q[..|q| - 1] + [q[|q| - 1]];
    }
  }

  /** Every internal node's left child weighs no more than its right (Huffman.java:67-68). */
  ghost predicate LeftLighter(t: Tree)
  {
    match t
    case Leaf(_, _) => true
    case Node(_, l, r) => l.freq <= r.freq && LeftLighter(l) && LeftLighter(r)
  }

  /** The queue after one round of tree construction: the nodes at `i`, then at `j`, replaced by their parent. */
  function Merge(q: seq<Tree>, i: nat, j: nat): (r: seq<Tree>)
    requires i < |q| && j < |q| - 1
    ensures |r| == |q| - 1
  {
    var q1 := RemoveAt(q, i);
    RemoveAt(q1, j) + [Node(q[i].freq + q1[j].freq, q[i], q1[j])]
  }

  /** One round of tree construction keeps the total frequency. */
  lemma {:induction false} MergeKeepsSum(q: seq<Tree>, i: nat, j: nat)
    requires i < |q| && j < |q| - 1
    ensures SumFreq(Merge(q, i, j)) == SumFreq(q)
  {
    var q1 := RemoveAt(q, i);
    QueueRemove(q, i);
    QueueRemove(q1, j);
    QueueAppend(RemoveAt(q1, j), Node(q[i].freq + q1[j].freq, q[i], q1[j]));
  }

  /** One round of tree construction keeps the leaves. */
  lemma {:induction false} MergeKeepsLeaves(q: seq<Tree>, i: nat, j: nat)
    requires i < |q| && j < |q| - 1
    ensures multiset(FlatLeaves(Merge(q, i, j))) == multiset(FlatLeaves(q))
  {
    var q1 := RemoveAt(q, i);
    var q2 := RemoveAt(q1, j);
    var l, r := q[i], q1[j];
    QueueRemove(q, i);
    QueueRemove(q1, j);
    var p := Node(l.freq + r.freq, l, r);
    QueueAppend(q2, p);
    assert Leaves(p) == Leaves(l) + Leaves(r);
    assert FlatLeaves(Merge(q, i, j)) == FlatLeaves(q2) + (Leaves(l) + Leaves(r));
    MergeMultiset(FlatLeaves(q2), Leaves(l), Leaves(r), multiset(FlatLeaves(q1)), multiset(FlatLeaves(q)));
  }

  lemma MergeMultiset<T>(x: seq<T>, y: seq<T>, z: seq<T>, m1: multiset<T>, m: multiset<T>)
    requires multiset(x) + multiset(z) == m1 && m1 + multiset(y) == m
    ensures multiset(x + (y + z)) == m
  {
    assert multiset(x + (y + z)) == multiset(x) + (multiset(y) + multiset(z));
  }

  /**
    Merging two nodes of least frequency, the first lighter, keeps every node
    well formed: sums hold and left children are the lighter ones.
   */
  lemma MergeKeepsShape(q: seq<Tree>, i: nat, j: nat)
    requires IsMinAt(q, i) && IsMinAt(RemoveAt(q, i), j)
    requires forall k :: 0 <= k < |q| ==> SumsHold(q[k]) && LeftLighter(q[k])
    ensures forall k :: 0 <= k < |Merge(q, i, j)| ==> SumsHold(Merge(q, i, j)[k]) && LeftLighter(Merge(q, i, j)[k])
  {
    var q1 := RemoveAt(q, i);
    assert q1[j] == q[if j < i then j else j + 1];
  }

  predicate IsMinAt(q: seq<Tree>, i: int)
  {
    0 <= i < |q| && forall k :: 0 <= k < |q| ==> q[i].freq <= q[k].freq
  }

  /** The first node of least frequency, a witness that the queue has a minimum. */
  function MinIndex(q: seq<Tree>): (i: nat)
    requires q != []
    ensures IsMinAt(q, i)
  {
    if |q| == 1 then 0
    else
      var j := MinIndex(q[1..]);
      if q[0].freq <= q[1..][j].freq then 0 else j + 1
  }

  /** Following bit string `p` from `t` (0 = left, 1 = right) ends at the leaf for `s`. */
  ghost predicate LeafAt(t: Tree, p: Bits, s: Byte)
    decreases |p|
  {
    if p == [] then t.Leaf? && t.sym == s
    else t.Node? && LeafAt(if p[0] then t.right else t.left, p[1..], s)
  }

  /**
    `traverse(node, sb)`: the codes `t`'s leaves receive when the walk reaches
    `t` with `prefix` accumulated; the right subtree's entries are put last.
   */
  function Codes(t: Tree, prefix: Bits): (m: map<Byte, Bits>)
    ensures forall s :: s in m <==> s in LeafSyms(t)
  {
    match t
    case Leaf(s, _) => map[s := prefix]
    case Node(f, l, r) =>
      LeafSymsNode(f, l, r);
      Codes(l, prefix + [false]) + Codes(r, prefix + [true])
  }

  /** No code is a prefix of the code of another byte. */
  ghost predicate PrefixFree(m: map<Byte, Bits>)
  {
    forall a, b | a in m && b in m && a != b :: !(m[a] <= m[b])
  }

  lemma {:induction false} NoDupSplit<T>(a: seq<T>, b: seq<T>)
    requires NoDup(a + b)
    ensures NoDup(a) && NoDup(b)
    ensures forall x :: x in a ==> x !in b
  {
    assert multiset(a + b) == multiset(a) + multiset(b);
    forall x | x in multiset(a) ensures multiset(a)[x] == 1 {
      assert x in multiset(a + b);
    }
    forall x | x in multiset(b) ensures multiset(b)[x] == 1 {
      assert x in multiset(a + b);
    }
    forall x | x in a ensures x !in b {
      assert x in multiset(a);
      assert multiset(a + b)[x] == multiset(a)[x] + multiset(b)[x];
    }
  }

  /**
    Each code extends the prefix it was started with, leads from `t` to the
    leaf holding its byte, and is longer than the prefix below a Node.
   */
  lemma {:induction false} CodesArePaths(t: Tree, prefix: Bits, s: Byte)
    requires s in Codes(t, prefix)
    ensures prefix <= Codes(t, prefix)[s]
    ensures LeafAt(t, Codes(t, prefix)[s][|prefix|..], s)
    ensures t.Node? ==> |Codes(t, prefix)[s]| > |prefix|
  {
    var c := Codes(t, prefix)[s];
    match t
    case Leaf(_, _) =>
    case Node(f, l, r) =>
      var b := s in Codes(r, prefix + [true]);
      var child := if b then r else l;
      CodesChild(f, l, r, prefix, s);
      CodesArePaths(child, prefix + [b], s);
      PrefixStep(prefix, b, c);
  }

  lemma PrefixStep(prefix: Bits, b: bool, c: Bits)
    requires prefix + [b] <= c
    ensures prefix <= c && |c| > |prefix|
    ensures var p := c[|prefix|..]; p != [] && p[0] == b && p[1..] == c[|prefix + [b]|..]
  {
    assert c[|prefix|] == (prefix + [b])[|prefix|];
  }

  /** The code of a byte below a Node is its code in the subtree that holds it, the right one first. */
  lemma CodesChild(f: nat, l: Tree, r: Tree, prefix: Bits, s: Byte)
    requires s in Codes(Node(f, l, r), prefix)
    ensures var b := s in Codes(r, prefix + [true]);
      s in Codes(if b then r else l, prefix + [b]) &&
      Codes(if b then r else l, prefix + [b])[s] == Codes(Node(f, l, r), prefix)[s]
  {
  }

  /** The codes of a tree whose leaves hold distinct bytes are prefix-free. */
  lemma {:induction false} CodesPrefixFree(t: Tree, prefix: Bits)
    requires NoDup(LeafSyms(t))
    ensures PrefixFree(Codes(t, prefix))
  {
    match t
    case Leaf(_, _) =>
    case Node(f, l, r) =>
      LeafSymsNode(f, l, r);
      NoDupSplit(LeafSyms(l), LeafSyms(r));
      var pl, pr := prefix + [false], prefix + [true];
      CodesPrefixFree(l, pl);
      CodesPrefixFree(r, pr);
      var m, ml, mr := Codes(t, prefix), Codes(l, pl), Codes(r, pr);
      forall a, b | a in m && b in m && a != b ensures !(m[a] <= m[b]) {
        if (a in ml) != (b in ml) {
          var x, y := if a in ml then a else b, if a in ml then b else a;
          CodesArePaths(l, pl, x);
          CodesArePaths(r, pr, y);
          assert m[x][|prefix|] == pl[|prefix|];
          assert m[y][|prefix|] == pr[|prefix|];
        }
      }
  }

  /** Every leaf receives exactly the code spelling its path from the root. */
  lemma {:induction false} CodesComplete(t: Tree, prefix: Bits, p: Bits, s: Byte)
    requires NoDup(LeafSyms(t))
    requires LeafAt(t, p, s)
    ensures s in Codes(t, prefix) && Codes(t, prefix)[s] == prefix + p
    decreases |p|
  {
    if p == [] {
      assert prefix + p == prefix;
    } else {
      match t
      case Node(f, l, r) =>
        LeafSymsNode(f, l, r);
        NoDupSplit(LeafSyms(l), LeafSyms(r));
        var b := p[0];
        var child := if b then r else l;
        var other := if b then l else r;
        assert LeafAt(child, p[1..], s);
        CodesComplete(child, prefix + [b], p[1..], s);
        AppendHead(prefix, p);
        LeafAtMember(child, p[1..], s);
        assert s !in LeafSyms(other);
        assert s !in Codes(other, prefix + [!b]);
    }
  }

  lemma AppendHead(prefix: Bits, p: Bits)
    requires p != []
    ensures prefix + [p[0]] + p[1..] == prefix + p
  {
    assert [p[0]] + p[1..] == p;
  }

  lemma {:induction false} LeafAtMember(t: Tree, p: Bits, s: Byte)
    requires LeafAt(t, p, s)
    ensures s in LeafSyms(t)
    decreases |p|
  {
    if p != [] {
      LeafSymsNode(t.freq, t.left, t.right);
      LeafAtMember(if p[0] then t.right else t.left, p[1..], s);
    }
  }

  /** Below a Node every code has at least one bit. */
  lemma {:induction false} CodesNonEmpty(t: Tree, s: Byte)
    requires t.Node? && s in Codes(t, [])
    ensures |Codes(t, [])[s]| >= 1
  {
    CodesArePaths(t, [], s);
  }

  /** A code is at most as many bits past the prefix as the tree has leaves, less one. */
  lemma {:induction false} CodesDepth(t: Tree, prefix: Bits, s: Byte)
    requires s in Codes(t, prefix)
    ensures |Codes(t, prefix)[s]| <= |prefix| + |Leaves(t)| - 1
    decreases t
  {
    if t.Node? {
      var l, r := Codes(t.left, prefix + [false]), Codes(t.right, prefix + [true]);
      assert |Leaves(t)| == |Leaves(t.left)| + |Leaves(t.right)|;
      if s in r {
        CodesDepth(t.right, prefix + [true], s);
      } else {
        CodesDepth(t.left, prefix + [false], s);
      }
    }
  }
}
