/** Generic sequence and map helpers: order-preserving filtering, subsequences,
    Python's `list.remove`, and the last-wins dictionary fold. */
module Seqs {

  /** `a` can be obtained from `b` by deleting elements (greedy left-to-right match). */
  predicate IsSubsequence<T(==)>(a: seq<T>, b: seq<T>)
    decreases |b|
  {
    if a == [] then true
    else if b == [] then false
    else if a[0] == b[0] then IsSubsequence(a[1..], b[1..])
    else IsSubsequence(a, b[1..])
  }

  lemma {:induction false} SubsequenceMultiset<T>(a: seq<T>, b: seq<T>)
    requires IsSubsequence(a, b)
    ensures multiset(a) <= multiset(b)
    decreases |b|
  {
    if a == [] {
    } else if a[0] == b[0] {
      SubsequenceMultiset(a[1..], b[1..]);
      assert a == [a[0]] + a[1..];
      assert b == [b[0]] + b[1..];
    } else {
      SubsequenceMultiset(a, b[1..]);
      assert b == [b[0]] + b[1..];
    }
  }

  /** The elements of `s` that satisfy `p`, in their original order. */
  function Filter<T(!new)>(s: seq<T>, p: T -> bool): (r: seq<T>)
    ensures forall i :: 0 <= i < |r| ==> p(r[i])
    ensures IsSubsequence(r, s)
  {
    if s == [] then []
    else
      var rest := Filter(s[1..], p);
      assert s == [s[0]] + s[1..];
      if p(s[0]) then [s[0]] + rest
      else
        assert rest == [] || rest[0] != s[0];
        rest
  }

  /** Filter keeps every copy of every element that satisfies `p`. */
  lemma {:induction false} FilterCounts<T(!new)>(s: seq<T>, p: T -> bool)
    ensures forall x :: p(x) ==> multiset(Filter(s, p))[x] == multiset(s)[x]
  {
    if s != [] {
      FilterCounts(s[1..], p);
      assert s == [s[0]] + s[1..];
    }
  }

  lemma {:induction false} FilterAppend<T(!new)>(a: seq<T>, b: seq<T>, p: T -> bool)
    ensures Filter(a + b, p) == Filter(a, p) + Filter(b, p)
  {
    if a == [] {
      assert a + b == b;
    } else {
      assert (a + b)[1..] == a[1..] + b;
      FilterAppend(a[1..], b, p);
    }
  }

  /** Filtering twice with the same predicate changes nothing the second time. */
  lemma FilterIdempotent<T(!new)>(s: seq<T>, p: T -> bool)
    ensures Filter(Filter(s, p), p) == Filter(s, p)
  {
    var r := Filter(s, p);
    SubsequenceReflexive(r);
    FilterUnique(r, p, r);
  }

  /** Filtering with two predicates that agree on the elements of `s` gives the same result. */
  lemma {:induction false} FilterCongruent<T(!new)>(s: seq<T>, p: T -> bool, q: T -> bool)
    requires forall i :: 0 <= i < |s| ==> p(s[i]) == q(s[i])
    ensures Filter(s, p) == Filter(s, q)
  {
    if s != [] {
      FilterCongruent(s[1..], p, q);
    }
  }

  /** The three properties in Filter's contract pin its result down: any subsequence of `s`
      made only of `p`-elements and keeping every `p`-element of `s` is Filter(s, p). */
  lemma {:induction false} FilterUnique<T(!new)>(s: seq<T>, p: T -> bool, t: seq<T>)
    requires IsSubsequence(t, s)
    requires forall i :: 0 <= i < |t| ==> p(t[i])
    requires forall x :: p(x) ==> multiset(t)[x] == multiset(s)[x]
    ensures t == Filter(s, p)
    decreases |s|
  {
    if s != [] {
      assert s == [s[0]] + s[1..];
      if p(s[0]) {
        assert t != [] by { assert multiset(s)[s[0]] > 0; }
        assert t == [t[0]] + t[1..];
        assert t[0] == s[0] by {
          if t[0] != s[0] {
            SubsequenceMultiset(t, s[1..]);
            assert false;
          }
        }
        FilterUnique(s[1..], p, t[1..]);
      } else {
        if t != [] {
          assert t[0] != s[0];
        }
        FilterUnique(s[1..], p, t);
      }
    }
  }

  /** The position of the first occurrence of `x` in `xs`. */
  function IndexOf<T(==)>(xs: seq<T>, x: T): (i: nat)
    requires x in xs
    ensures i < |xs| && xs[i] == x && x !in xs[..i]
  {
    if xs[0] == x then 0
    else
      var j := IndexOf(xs[1..], x);
      assert xs[..j + 1] == [xs[0]] + xs[1..][..j];
      j + 1
  }

  /** A sequence is what comes before position `k`, the element there, and what comes after. */
  lemma SplitAround<T>(xs: seq<T>, k: nat)
    requires k < |xs|
    ensures xs == xs[..k] + [xs[k]] + xs[k + 1..]
  {
  }

  /** Python's `if x in xs: xs.remove(x)`: the first occurrence of `x`, if any, is deleted. */
  function RemoveFirst<T(==)>(xs: seq<T>, x: T): (r: seq<T>)
    ensures x in xs ==> |r| == |xs| - 1
    ensures x !in xs ==> r == xs
    ensures IsSubsequence(r, xs)
  {
    if xs == [] then []
    else if xs[0] == x then
      assert xs == [xs[0]] + xs[1..];
      SubsequenceOfTail(xs);
      xs[1..]
    else
      var rest := RemoveFirst(xs[1..], x);
      assert xs == [xs[0]] + xs[1..];
      [xs[0]] + rest
  }

  /** RemoveFirst deletes exactly the element at the first occurrence of `x`. */
  lemma {:induction false} RemoveFirstAt<T>(xs: seq<T>, x: T)
    requires x in xs
    ensures RemoveFirst(xs, x) == xs[..IndexOf(xs, x)] + xs[IndexOf(xs, x) + 1..]
  {
    RemoveFirstSplit(xs, x, IndexOf(xs, x));
  }

  lemma {:induction false} RemoveFirstSplit<T>(xs: seq<T>, x: T, i: nat)
    requires i < |xs| && xs[i] == x && x !in xs[..i]
    ensures RemoveFirst(xs, x) == xs[..i] + xs[i + 1..]
  {
    if i == 0 {
      assert xs[..0] + xs[1..] == xs[1..];
    } else {
      assert xs[..i] == [xs[0]] + xs[1..i];
      var tail := xs[1..];
      assert tail[..i - 1] == xs[1..i];
      RemoveFirstSplit(tail, x, i - 1);
      ConsSplit(xs, i);
    }
  }

  lemma ConsSplit<T>(xs: seq<T>, i: nat)
    requires 0 < i < |xs|
    ensures [xs[0]] + (xs[1..][..i - 1] + xs[1..][i..]) == xs[..i] + xs[i + 1..]
  {
    assert xs[1..][..i - 1] == xs[1..i];
    assert xs[1..][i..] == xs[i + 1..];
    assert xs[..i] == [xs[0]] + xs[1..i];
  }

  /** RemoveFirst takes away one copy of `x`, if there is one, and keeps every other element. */
  lemma {:induction false} RemoveFirstCounts<T>(xs: seq<T>, x: T)
    ensures multiset(RemoveFirst(xs, x)) == multiset(xs) - multiset{x}
  {
    if xs != [] {
      assert xs == [xs[0]] + xs[1..];
      if xs[0] != x {
        RemoveFirstCounts(xs[1..], x);
        assert multiset(RemoveFirst(xs, x)) == multiset{xs[0]} + multiset(RemoveFirst(xs[1..], x));
      }
    }
  }

  /** Two guarded removals take away one copy of each of the two elements, where present. */
  lemma RemoveBothCounts<T>(xs: seq<T>, x: T, y: T)
    ensures multiset(RemoveFirst(RemoveFirst(xs, x), y)) == multiset(xs) - multiset{x} - multiset{y}
  {
    RemoveFirstCounts(xs, x);
    RemoveFirstCounts(RemoveFirst(xs, x), y);
  }

  lemma {:induction false} SubsequenceTrans<T>(a: seq<T>, b: seq<T>, c: seq<T>)
    requires IsSubsequence(a, b) && IsSubsequence(b, c)
    ensures IsSubsequence(a, c)
    decreases |c|
  {
    if a != [] && b != [] && c != [] {
      if b[0] == c[0] {
        if a[0] == b[0] {
          SubsequenceTrans(a[1..], b[1..], c[1..]);
        } else {
          SubsequenceTrans(a, b[1..], c[1..]);
        }
      } else {
        SubsequenceTrans(a, b, c[1..]);
        SubsequenceExtend(a, c);
      }
    }
  }

  /** A subsequence of the tail is a subsequence of the whole. */
  lemma {:induction false} SubsequenceExtend<T>(a: seq<T>, c: seq<T>)
    requires c != [] && IsSubsequence(a, c[1..])
    ensures IsSubsequence(a, c)
    decreases |c|, 0
  {
    if a != [] && a[0] == c[0] {
      SubsequenceDropHead(a, c[1..]);
    }
  }

  /** Dropping the first element of a subsequence leaves a subsequence. */
  lemma {:induction false} SubsequenceDropHead<T>(a: seq<T>, c: seq<T>)
    requires a != [] && IsSubsequence(a, c)
    ensures IsSubsequence(a[1..], c)
    decreases |c|, 1
  {
    if a[0] == c[0] {
      SubsequenceExtend(a[1..], c);
    } else {
      SubsequenceDropHead(a, c[1..]);
      SubsequenceExtend(a[1..], c);
    }
  }

  lemma {:induction false} SubsequenceReflexive<T>(s: seq<T>)
    ensures IsSubsequence(s, s)
  {
    if s != [] {
      SubsequenceReflexive(s[1..]);
    }
  }

  lemma SubsequenceOfTail<T>(s: seq<T>)
    requires s != []
    ensures IsSubsequence(s[1..], s)
  {
    if s[1..] != [] && s[1..][0] == s[0] {
      SubsequenceOfTail(s[1..]);
      assert s[1..][1..] == s[2..];
    } else {
      SubsequenceReflexive(s[1..]);
    }
  }

  /** The concatenation of a sequence of sequences. */
  function Flatten<T>(xss: seq<seq<T>>): seq<T>
  {
    if xss == [] then [] else xss[0] + Flatten(xss[1..])
  }

  lemma {:induction false} FlattenHas<T>(xss: seq<seq<T>>, b: nat, j: nat)
    requires b < |xss| && j < |xss[b]|
    ensures xss[b][j] in Flatten(xss)
  {
    if b == 0 {
      assert Flatten(xss)[j] == xss[0][j];
    } else {
      FlattenHas(xss[1..], b - 1, j);
    }
  }

  /** `pairs[i]` is the last pair in the sequence that carries its key. */
  predicate LastForKey<K(==), V>(pairs: seq<(K, V)>, i: nat)
    requires i < |pairs|
  {
    forall j :: i < j < |pairs| ==> pairs[j].0 != pairs[i].0
  }

  /** The dictionary built by `d[k] = v` for each pair in order: a later key overwrites an earlier one. */
  function LastWins<K(==), V>(pairs: seq<(K, V)>): (m: map<K, V>)
    ensures |m| <= |pairs|
    decreases |pairs|
  {
    if pairs == [] then map[]
    else
      var n := |pairs| - 1;
      LastWins(pairs[..n])[pairs[n].0 := pairs[n].1]
  }

  /** A key is in the dictionary exactly when some pair carries it. */
  lemma {:induction false} LastWinsKeys<K, V>(pairs: seq<(K, V)>, k: K)
    ensures k in LastWins(pairs) <==> exists i :: 0 <= i < |pairs| && pairs[i].0 == k
    decreases |pairs|
  {
    if pairs != [] {
      var n := |pairs| - 1;
      LastWinsKeys(pairs[..n], k);
      if pairs[n].0 != k {
        if exists i :: 0 <= i < |pairs| && pairs[i].0 == k {
          var i :| 0 <= i < |pairs| && pairs[i].0 == k;
          assert pairs[..n][i] == pairs[i];
        }
      }
    }
  }

  /** The value under a key is the one from the last pair carrying that key. */
  lemma {:induction false} LastWinsValue<K, V>(pairs: seq<(K, V)>, i: nat)
    requires i < |pairs| && LastForKey(pairs, i)
    ensures pairs[i].0 in LastWins(pairs) && LastWins(pairs)[pairs[i].0] == pairs[i].1
    decreases |pairs|
  {
    var n := |pairs| - 1;
    if i < n {
      assert pairs[..n][i] == pairs[i];
      LastWinsValue(pairs[..n], i);
    }
  }

  /** The `(key, value)` pairs a loop like `d[key(x)] = val(x)` stores, one per element in order. */
  function Pairs<A, K, V>(xs: seq<A>, key: A -> K, val: A -> V): (ps: seq<(K, V)>)
    ensures |ps| == |xs|
    ensures forall i :: 0 <= i < |xs| ==> ps[i] == (key(xs[i]), val(xs[i]))
  {
    seq(|xs|, i requires 0 <= i < |xs| => (key(xs[i]), val(xs[i])))
  }

  /** The keys of such a dictionary are exactly the keys of the elements. */
  lemma PairsKeys<A, K, V>(xs: seq<A>, key: A -> K, val: A -> V, k: K)
    ensures k in LastWins(Pairs(xs, key, val)) <==> exists i :: 0 <= i < |xs| && key(xs[i]) == k
  {
    var ps := Pairs(xs, key, val);
    LastWinsKeys(ps, k);
    if exists i :: 0 <= i < |xs| && key(xs[i]) == k {
      var i :| 0 <= i < |xs| && key(xs[i]) == k;
      assert ps[i].0 == k;
    }
  }

  /** The value under a key comes from the last element with that key. */
  lemma PairsValue<A, K, V>(xs: seq<A>, key: A -> K, val: A -> V, i: nat)
    requires i < |xs|
    requires forall j :: i < j < |xs| ==> key(xs[j]) != key(xs[i])
    ensures key(xs[i]) in LastWins(Pairs(xs, key, val))
    ensures LastWins(Pairs(xs, key, val))[key(xs[i])] == val(xs[i])
  {
    var ps := Pairs(xs, key, val);
    assert LastForKey(ps, i);
    LastWinsValue(ps, i);
  }

  /** Storing a key twice keeps the second value. */
  lemma PairsOverwrite<A, K, V>(a: A, b: A, key: A -> K, val: A -> V)
    requires key(a) == key(b)
    ensures LastWins(Pairs([a, b], key, val)) == map[key(b) := val(b)]
  {
    var ps := Pairs([a, b], key, val);
    assert ps[..1] == [(key(a), val(a))];
    assert ps[..1][..0] == [];
  }
}
