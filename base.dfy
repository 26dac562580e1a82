/**
  Shared vocabulary of the codec: bytes, bit strings, the errors the Java
  code raises as exceptions, and a few facts about sequences.
 */
module Base {

  /** One unsigned byte, as `FileInputStream.read` returns it. */
  type Byte = x: int | 0 <= x < 256

  /** A Java `char`: 16 unsigned bits. */
  type Char16 = x: int | 0 <= x < 0x1_0000

  /** A bit string; `false` stands for the character '0' and `true` for '1'. */
  type Bits = seq<bool>

  /** The exceptions the codec can end in, named after their cause. */
  datatype Error =
    | EmptyTree        // `root` is null when the input was empty (NullPointerException)
    | CodeTooLong      // a code longer than 127 bits (negative `repeat` count)
    | EndOfFile        // the container ends inside a field (EOFException)
    | NoSentinel       // a 128-bit code field without a 1 bit (index out of range)
    | PaddingTooLarge  // the pad count exceeds the payload bits (negative `setLength`)
    | MissingChild     // the decode walk steps to a null child (NullPointerException)

  datatype Result<T> = Ok(value: T) | Err(error: Error)

  datatype Option<T> = None | Some(value: T)

  /** Prepends `s` to a successful result and leaves an error unchanged. */
  function PrependAll<T>(s: seq<T>, r: Result<seq<T>>): Result<seq<T>>
  {
    match r
    case Ok(v) => Ok(s + v)
    case Err(e) => Err(e)
  }

  lemma PrependAllTwice<T>(a: seq<T>, b: seq<T>, r: Result<seq<T>>)
    ensures PrependAll(a, PrependAll(b, r)) == PrependAll(a + b, r)
  {
    if r.Ok? {
      assert a + (b + r.value) == (a + b) + r.value;
    }
  }

  /** `"0".repeat(n)` */
  function Zeros(n: nat): (z: Bits)
    ensures |z| == n
    ensures forall i :: 0 <= i < n ==> !z[i]
  {
    seq(n, _ => false)
  }

  /** No element occurs twice. */
  ghost predicate NoDup<T>(s: seq<T>)
  {
    forall x | x in multiset(s) :: multiset(s)[x] == 1
  }

  lemma NoDupSnoc<T>(s: seq<T>, x: T)
    requires NoDup(s) && x !in s
    ensures NoDup(s + [x])
  {
    assert multiset(s + [x]) == multiset(s) + multiset{x};
    assert x !in multiset(s);
  }

  /** The set of distinct values in `s`. */
  function Alphabet<T>(s: seq<T>): set<T>
  {
    set i | 0 <= i < |s| :: s[i]
  }

  /** `s` without its element at index `i`. */
  function RemoveAt<T>(s: seq<T>, i: nat): (r: seq<T>)
    requires i < |s|
    ensures |r| == |s| - 1
    ensures multiset(r) == multiset(s) - multiset{s[i]}
    ensures forall k :: 0 <= k < |r| ==> r[k] == if k < i then s[k] else s[k + 1]
  {
    assert s == s[..i] + [s[i]] + s[i+1..];
    s[..i] + s[i+1..]
  }

  lemma RemoveLast<T>(s: seq<T>)
    requires s != []
    ensures RemoveAt(s, |s| - 1) == s[..|s| - 1]
  {
  }

  /** The tail of a sequence drawn from `s` is drawn from `s`. */
  lemma TailWithin<T>(x: seq<T>, s: seq<T>)
    requires x != [] && forall i :: 0 <= i < |x| ==> x[i] in s
    ensures forall i :: 0 <= i < |x[1..]| ==> x[1..][i] in s
  {
    forall i | 0 <= i < |x[1..]| ensures x[1..][i] in s {
      assert x[1..][i] == x[i + 1];
    }
  }

  lemma ConsTail<T>(x: seq<T>)
    requires x != []
    ensures [x[0]] + x[1..] == x
  {
  }

  /** The four parts of `a + b + p + [q]` can be sliced back out. */
  lemma Slices4<T>(a: seq<T>, b: seq<T>, p: seq<T>, q: T)
    ensures var c := a + b + p + [q];
      c[..|a|] == a && c[|a|..|a| + |b|] == b && c[|a| + |b|..|c| - 1] == p && c[|c| - 1] == q
  {
    var c := a + b + p + [q];
    assert c[..|a|] == a;
    assert c[|a|..|a| + |b|] == b;
    assert c[|a| + |b|..|c| - 1] == p;
  }

  /** The integers 0 .. n - 1. */
  function Range(n: nat): (r: set<int>)
    ensures |r| == n
    ensures forall x :: x in r <==> 0 <= x < n
  {
    if n == 0 then {} else Range(n - 1) + {n - 1}
  }

  /** A sequence of distinct bytes has at most 256 elements. */
  lemma NoDupBytes(s: seq<Byte>)
    requires NoDup(s)
    ensures |s| <= 256
  {
    NoDupAlphabetSize(s);
    var a, b := Alphabet(s), Range(256);
    assert a <= b;
    assert b == a + (b - a) && a !! (b - a);
  }

  lemma {:induction false} NoDupAlphabetSize<T>(s: seq<T>)
    requires NoDup(s)
    ensures |Alphabet(s)| == |s|
  {
    if s != [] {
      var t := s[..|s| - 1];
      var x := s[|s| - 1];
      assert s == t + [x];
      assert NoDup(t) by {
        forall y | y in multiset(t) ensures multiset(t)[y] == 1 {
          assert multiset(s)[y] == multiset(t)[y] + multiset([x])[y];
        }
      }
      NoDupAlphabetSize(t);
      assert x !in Alphabet(t) by {
        assert multiset(s)[x] == multiset(t)[x] + 1;
        assert x !in multiset(t);
      }
      assert Alphabet(s) == Alphabet(t) + {x} by {
        forall y | y in Alphabet(s) ensures y in Alphabet(t) + {x} {
          var i :| 0 <= i < |s| && s[i] == y;
          if i < |t| { assert t[i] == y; }
        }
        forall y | y in Alphabet(t) ensures y in Alphabet(s) {
          var i :| 0 <= i < |t| && t[i] == y;
          assert s[i] == y;
        }
      }
    }
  }
  /** A sequence has no more distinct values than elements. */
  lemma {:induction false} AlphabetSize<T>(s: seq<T>)
    ensures |Alphabet(s)| <= |s|
  {
    if s != [] {
      var t := s[..|s| - 1];
      assert Alphabet(s) <= Alphabet(t) + {s[|s| - 1]} by {
        forall y | y in Alphabet(s) ensures y in Alphabet(t) + {s[|s| - 1]} {
          var i :| 0 <= i < |s| && s[i] == y;
          if i < |t| { assert t[i] == y; }
        }
      }
      AlphabetSize(t);
      var a, b := Alphabet(s), Alphabet(t) + {s[|s| - 1]};
      assert b == a + (b - a) && a !! (b - a);
    }
  }
}
