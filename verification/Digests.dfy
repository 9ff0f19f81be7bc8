/** 32-byte digests under exclusive or. */
module Digests {

  type Digest = d: seq<bv8> | |d| == 32 witness seq(32, _ => 0)

  function Zero(): Digest {
    seq(32, _ => 0)
  }

  function Xor(a: Digest, b: Digest): Digest {
    seq(32, i requires 0 <= i < 32 => a[i] ^ b[i])
  }

  lemma XorCommutes(a: Digest, b: Digest)
    ensures Xor(a, b) == Xor(b, a)
  {
    forall i | 0 <= i < 32 ensures Xor(a, b)[i] == Xor(b, a)[i] {
    }
  }

  lemma XorAssociates(a: Digest, b: Digest, c: Digest)
    ensures Xor(Xor(a, b), c) == Xor(a, Xor(b, c))
  {
    var l, r := Xor(Xor(a, b), c), Xor(a, Xor(b, c));
    forall i | 0 <= i < 32 ensures l[i] == r[i] {
      assert (a[i] ^ b[i]) ^ c[i] == a[i] ^ (b[i] ^ c[i]);
    }
  }

  lemma XorUnit(a: Digest)
    ensures Xor(a, Zero()) == a && Xor(Zero(), a) == a && Xor(a, a) == Zero()
  {
    forall i | 0 <= i < 32 ensures Xor(a, Zero())[i] == a[i] && Xor(a, a)[i] == 0 {
      assert a[i] ^ a[i] == 0;
    }
    XorCommutes(a, Zero());
  }

  /** Cancelling on the left. */
  lemma XorTwice(a: Digest, b: Digest)
    ensures Xor(a, Xor(a, b)) == b
  {
    XorAssociates(a, a, b);
    XorUnit(a);
    XorUnit(b);
  }

  lemma XorCancels(a: Digest, b: Digest, c: Digest)
    ensures Xor(a, b) == Xor(a, c) <==> b == c
  {
    XorTwice(a, b);
    XorTwice(a, c);
  }

  // ----- sums -----

  function XorSum<T>(f: T -> Digest, s: seq<T>): Digest {
    if s == [] then Zero() else Xor(f(s[0]), XorSum(f, s[1..]))
  }

  lemma XorSwap(a: Digest, b: Digest, c: Digest)
    ensures Xor(a, Xor(b, c)) == Xor(b, Xor(a, c))
  {
    XorAssociates(a, b, c);
    XorCommutes(a, b);
    XorAssociates(b, a, c);
  }

  function Without<T>(s: seq<T>, i: nat): seq<T>
    requires i < |s|
  {
    s[..i] + s[i + 1..]
  }

  lemma WithoutMultiset<T>(s: seq<T>, i: nat)
    requires i < |s|
    ensures multiset(Without(s, i)) == multiset(s) - multiset{s[i]}
    ensures s[i] in multiset(s)
  {
    assert s == s[..i] + ([s[i]] + s[i + 1..]);
    assert multiset(s) == multiset(s[..i]) + (multiset{s[i]} + multiset(s[i + 1..]));
  }

  /** Any element can be taken out to the front. */
  lemma {:induction false} XorSumTakeOut<T>(f: T -> Digest, s: seq<T>, i: nat)
    requires i < |s|
    ensures XorSum(f, s) == Xor(f(s[i]), XorSum(f, Without(s, i)))
  {
    if i == 0 {
      assert Without(s, 0) == s[1..];
    } else {
      XorSumTakeOut(f, s[1..], i - 1);
      var w := Without(s[1..], i - 1);
      assert Without(s, i) == [s[0]] + w && ([s[0]] + w)[1..] == w;
      XorSwap(f(s[0]), f(s[i]), XorSum(f, w));
    }
  }

  predicate Odd(n: nat) {
    n != 0 && !Odd(n - 1)
  }

  lemma {:induction false} OddSum(p: nat, q: nat)
    ensures Odd(p + q) <==> Odd(p) != Odd(q)
  {
    if q > 0 {
      OddSum(p, q - 1);
    }
  }

  ghost predicate SameParity<T(!new)>(s: seq<T>, t: seq<T>) {
    forall x :: Odd(multiset(s)[x]) == Odd(multiset(t)[x])
  }

  lemma ConsMultiset<T>(s: seq<T>)
    requires |s| > 0
    ensures multiset(s) == multiset{s[0]} + multiset(s[1..])
  {
    assert s == [s[0]] + s[1..];
  }

  /** Taking out two equal elements changes neither the sum nor the parities. */
  lemma TakeOutPair<T(!new)>(f: T -> Digest, s: seq<T>) returns (r: seq<T>)
    requires |s| > 0 && multiset(s)[s[0]] >= 2
    ensures |r| == |s| - 2 && XorSum(f, r) == XorSum(f, s)
    ensures SameParity(r, s)
  {
    ConsMultiset(s);
    assert multiset(s[1..])[s[0]] >= 1;
    var i :| 0 <= i < |s[1..]| && s[1..][i] == s[0];
    r := Without(s[1..], i);
    WithoutMultiset(s[1..], i);
    XorSumTakeOut(f, s[1..], i);
    XorTwice(f(s[0]), XorSum(f, r));
    forall x ensures Odd(multiset(r)[x]) == Odd(multiset(s)[x]) {
      assert multiset(s)[x] == if x == s[0] then multiset(r)[x] + 2 else multiset(r)[x];
      OddSum(multiset(r)[x], 2);
      assert !Odd(2);
    }
  }

  /** A sum depends only on which elements occur an odd number of times. */
  lemma {:induction false} SumDependsOnParity<T(!new)>(f: T -> Digest, s: seq<T>, t: seq<T>)
    requires SameParity(s, t)
    ensures XorSum(f, s) == XorSum(f, t)
    decreases |s| + |t|
  {
    if |s| > 0 && multiset(s)[s[0]] >= 2 {
      var r := TakeOutPair(f, s);
      SumDependsOnParity(f, r, t);
    } else if |t| > 0 && multiset(t)[t[0]] >= 2 {
      var r := TakeOutPair(f, t);
      SumDependsOnParity(f, s, r);
    } else if |s| > 0 {
      SharedElement(s, t);
      var i :| 0 <= i < |t| && t[i] == s[0];
      WithoutMultiset(s, 0);
      WithoutMultiset(t, i);
      XorSumTakeOut(f, s, 0);
      XorSumTakeOut(f, t, i);
      RemoveKeepsParity(s, t, Without(s, 0), Without(t, i), s[0]);
      SumDependsOnParity(f, Without(s, 0), Without(t, i));
    } else if |t| > 0 {
      SharedElement(t, s);
    }
  }

  /** An element that occurs exactly once on one side also occurs on the other. */
  lemma SharedElement<T(!new)>(s: seq<T>, t: seq<T>)
    requires |s| > 0 && multiset(s)[s[0]] < 2 && SameParity(s, t)
    ensures s[0] in t
  {
    assert s[0] in multiset(s);
    assert multiset(s)[s[0]] == 1 && Odd(1);
    assert Odd(multiset(t)[s[0]]);
    assert s[0] in multiset(t);
  }

  lemma OddMinusOne(p: nat)
    requires p > 0
    ensures Odd(p - 1) == !Odd(p)
  {
  }

  lemma RemoveKeepsParity<T(!new)>(s: seq<T>, t: seq<T>, s': seq<T>, t': seq<T>, x: T)
    requires SameParity(s, t) && x in multiset(s) && x in multiset(t)
    requires multiset(s') == multiset(s) - multiset{x} && multiset(t') == multiset(t) - multiset{x}
    ensures SameParity(s', t')
  {
    OddMinusOne(multiset(s)[x]);
    OddMinusOne(multiset(t)[x]);
    forall y ensures Odd(multiset(s')[y]) == Odd(multiset(t')[y]) {
      assert Odd(multiset(s)[y]) == Odd(multiset(t)[y]);
      if y == x {
        assert multiset(s')[y] == multiset(s)[y] - 1 && multiset(t')[y] == multiset(t)[y] - 1;
      } else {
        assert multiset(s')[y] == multiset(s)[y] && multiset(t')[y] == multiset(t)[y];
      }
    }
  }
}
