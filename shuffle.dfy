/**
  The argument reconciler of query.go: `ErrShuffle.ShuffleArgs` rewrites a
  slice of bound arguments in place, moving the value at every old position
  `i` that has an entry in the shuffle map to position `shuffle[i]`, and every
  other value to its own position. It works through a temporary slice of the
  same length, which starts out filled with Go's `nil` and is copied back.
*/
module Shuffle {

  /** Every index of `args` that has an entry maps inside `args`; Go panics otherwise. */
  predicate InRange(shuffle: map<int, int>, n: nat)
  {
    forall i :: 0 <= i < n && i in shuffle ==> 0 <= shuffle[i] < n
  }

  /** The position that the value found at `oldPos` is written to. */
  function Target(shuffle: map<int, int>, oldPos: int): int
  {
    if oldPos in shuffle then shuffle[oldPos] else oldPos
  }

  /** The range guard of `ShuffleArgs` holds exactly when every position's target is a position. */
  lemma TargetInRange(shuffle: map<int, int>, n: nat)
    ensures InRange(shuffle, n) <==> forall i :: 0 <= i < n ==> 0 <= Target(shuffle, i) < n
  {
    if forall i :: 0 <= i < n ==> 0 <= Target(shuffle, i) < n {
      forall i | 0 <= i < n && i in shuffle
        ensures 0 <= shuffle[i] < n
      {
        assert Target(shuffle, i) == shuffle[i];
      }
    }
  }

  /** The temporary slice after the first `k` rounds of the first loop. */
  function ShuffledPrefix<T>(shuffle: map<int, int>, args: seq<T>, k: nat, nilValue: T): (r: seq<T>)
    requires k <= |args| && InRange(shuffle, |args|)
    ensures |r| == |args|
  {
    if k == 0 then seq(|args|, _ => nilValue)
    else ShuffledPrefix(shuffle, args, k - 1, nilValue)[Target(shuffle, k - 1) := args[k - 1]]
  }

  /** The arguments as ShuffleArgs leaves them; never longer or shorter than before. */
  function Shuffled<T>(shuffle: map<int, int>, args: seq<T>, nilValue: T): (r: seq<T>)
    requires InRange(shuffle, |args|)
    ensures |r| == |args|
  {
    ShuffledPrefix(shuffle, args, |args|, nilValue)
  }

  method ShuffleArgs<T>(shuffle: map<int, int>, args: array<T>, nilValue: T)
    requires InRange(shuffle, args.Length)
    modifies args
    ensures args[..] == Shuffled(shuffle, old(args[..]), nilValue)
  {
    var shuffled := new T[args.Length](_ => nilValue);
    for oldPos := 0 to args.Length
      modifies shuffled
      invariant shuffled[..] == ShuffledPrefix(shuffle, args[..], oldPos, nilValue)
    {
      var x := args[oldPos];
      if oldPos in shuffle {
        var newPos := shuffle[oldPos];
        shuffled[newPos] := x;
      } else {
        shuffled[oldPos] := x;
      }
    }
    ghost var result := shuffled[..];
    assert args[..] == old(args[..]);
    assert result == ShuffledPrefix(shuffle, args[..], args.Length, nilValue);
    assert result == Shuffled(shuffle, old(args[..]), nilValue);
    for i := 0 to shuffled.Length
      invariant shuffled[..] == result
      invariant args[..i] == result[..i]
    {
      args[i] := shuffled[i];
    }
    assert args[..] == args[..args.Length];
  }

  /** After `k` rounds, a position holds the value of the last index below `k` that writes to it. */
  lemma {:induction false} ShuffledPrefixWritten<T>(shuffle: map<int, int>, args: seq<T>, k: nat, nilValue: T, i: nat)
    requires k <= |args| && InRange(shuffle, |args|) && i < k
    requires forall i' :: i < i' < k ==> Target(shuffle, i') != Target(shuffle, i)
    ensures 0 <= Target(shuffle, i) < |args|
    ensures ShuffledPrefix(shuffle, args, k, nilValue)[Target(shuffle, i)] == args[i]
  {
    if i < k - 1 {
      assert Target(shuffle, k - 1) != Target(shuffle, i);
      ShuffledPrefixWritten(shuffle, args, k - 1, nilValue, i);
    }
  }

  /** After `k` rounds, a position that no index below `k` writes still holds nil. */
  lemma {:induction false} ShuffledPrefixUnwritten<T>(shuffle: map<int, int>, args: seq<T>, k: nat, nilValue: T, j: nat)
    requires k <= |args| && InRange(shuffle, |args|) && j < |args|
    requires forall i :: 0 <= i < k ==> Target(shuffle, i) != j
    ensures ShuffledPrefix(shuffle, args, k, nilValue)[j] == nilValue
  {
    if k > 0 {
      assert Target(shuffle, k - 1) != j;
      ShuffledPrefixUnwritten(shuffle, args, k - 1, nilValue, j);
    }
  }

  /** The value at `i` lands at its target unless a later index writes the same slot. */
  lemma ShuffledLastWriter<T>(shuffle: map<int, int>, args: seq<T>, nilValue: T, i: nat)
    requires InRange(shuffle, |args|) && i < |args|
    requires forall i' :: i < i' < |args| ==> Target(shuffle, i') != Target(shuffle, i)
    ensures 0 <= Target(shuffle, i) < |args|
    ensures Shuffled(shuffle, args, nilValue)[Target(shuffle, i)] == args[i]
  {
    ShuffledPrefixWritten(shuffle, args, |args|, nilValue, i);
  }

  /** A position that no index writes ends up nil. */
  lemma ShuffledUnwritten<T>(shuffle: map<int, int>, args: seq<T>, nilValue: T, j: nat)
    requires InRange(shuffle, |args|) && j < |args|
    requires forall i :: 0 <= i < |args| ==> Target(shuffle, i) != j
    ensures Shuffled(shuffle, args, nilValue)[j] == nilValue
  {
    ShuffledPrefixUnwritten(shuffle, args, |args|, nilValue, j);
  }

  /** An index without an entry, which no entry targets, keeps its value. */
  lemma ShuffledUntouched<T>(shuffle: map<int, int>, args: seq<T>, nilValue: T, i: nat)
    requires InRange(shuffle, |args|) && i < |args| && i !in shuffle
    requires forall k :: 0 <= k < |args| && k in shuffle ==> shuffle[k] != i
    ensures Shuffled(shuffle, args, nilValue)[i] == args[i]
  {
    ShuffledLastWriter(shuffle, args, nilValue, i);
  }

  /** The entries whose key is an index of a list of length `n`. */
  function Restrict(shuffle: map<int, int>, n: nat): map<int, int>
  {
    map i | i in shuffle && 0 <= i < n :: shuffle[i]
  }

  /** Entries whose key is not an index of `args` have no effect. */
  lemma {:induction false} ShuffledIgnoresOutOfRangeKeys<T>(shuffle: map<int, int>, args: seq<T>, nilValue: T)
    requires InRange(shuffle, |args|)
    ensures InRange(Restrict(shuffle, |args|), |args|)
    ensures Shuffled(shuffle, args, nilValue) == Shuffled(Restrict(shuffle, |args|), args, nilValue)
  {
    var r := Restrict(shuffle, |args|);
    var k := 0;
    while k < |args|
      invariant k <= |args|
      invariant ShuffledPrefix(shuffle, args, k, nilValue) == ShuffledPrefix(r, args, k, nilValue)
    {
      assert Target(shuffle, k) == Target(r, k);
      k := k + 1;
    }
  }

  /** No two indices of a list of length `n` are written to the same position. */
  predicate InjectiveTargets(shuffle: map<int, int>, n: nat)
  {
    forall i, i' :: 0 <= i < n && 0 <= i' < n && i != i' ==> Target(shuffle, i) != Target(shuffle, i')
  }

  /** If `b[p[i]] == a[i]` for an injective `p` into the indices, `b` is a permutation of `a`. */
  lemma {:induction false} MultisetOfInjectiveImage<T>(a: seq<T>, b: seq<T>, p: seq<int>)
    requires |a| == |b| == |p|
    requires forall i :: 0 <= i < |p| ==> 0 <= p[i] < |p| && b[p[i]] == a[i]
    requires forall i, i' :: 0 <= i < i' < |p| ==> p[i] != p[i']
    ensures multiset(a) == multiset(b)
  {
    if |p| > 0 {
      var n := |p| - 1;
      var j := p[n];
      var b' := b[..j] + b[j + 1..];
      var p' := seq(n, i requires 0 <= i < n => if p[i] < j then p[i] else p[i] - 1);
      forall i | 0 <= i < n
        ensures 0 <= p'[i] < n && b'[p'[i]] == a[..n][i]
      {
        assert p[i] != j;
      }
      forall i, i' | 0 <= i < i' < n
        ensures p'[i] != p'[i']
      {
        assert p[i] != p[i'];
      }
      MultisetOfInjectiveImage(a[..n], b', p');
      assert a == a[..n] + [a[n]];
      assert b == b[..j] + [b[j]] + b[j + 1..];
    }
  }

  /**
    When no two indices are written to the same position, every value lands at
    its target and the result is a permutation of the input.
  */
  lemma ShuffledInjective<T>(shuffle: map<int, int>, args: seq<T>, nilValue: T)
    requires InRange(shuffle, |args|) && InjectiveTargets(shuffle, |args|)
    ensures forall i :: 0 <= i < |args| ==> Shuffled(shuffle, args, nilValue)[Target(shuffle, i)] == args[i]
    ensures multiset(Shuffled(shuffle, args, nilValue)) == multiset(args)
  {
    var r := Shuffled(shuffle, args, nilValue);
    forall i | 0 <= i < |args|
      ensures r[Target(shuffle, i)] == args[i]
    {
      ShuffledLastWriter(shuffle, args, nilValue, i);
    }
    var p := seq(|args|, i requires 0 <= i < |args| => Target(shuffle, i));
    MultisetOfInjectiveImage(args, r, p);
  }

  /**
    The entries with a key below `n` map their keys injectively into their own
    key set; a finite injective self-map is a bijection of that key set onto itself.
  */
  predicate PermutesOwnKeys(shuffle: map<int, int>, n: nat)
  {
    && (forall i :: 0 <= i < n && i in shuffle ==> 0 <= shuffle[i] < n && shuffle[i] in shuffle)
    && (forall i, i' :: 0 <= i < n && 0 <= i' < n && i in shuffle && i' in shuffle && i != i' ==>
          shuffle[i] != shuffle[i'])
  }

  /** A shuffle map that permutes its own keys makes ShuffleArgs a permutation of the arguments. */
  lemma ShuffledPermutation<T>(shuffle: map<int, int>, args: seq<T>, nilValue: T)
    requires PermutesOwnKeys(shuffle, |args|)
    ensures InRange(shuffle, |args|)
    ensures multiset(Shuffled(shuffle, args, nilValue)) == multiset(args)
  {
    assert InjectiveTargets(shuffle, |args|);
    ShuffledInjective(shuffle, args, nilValue);
  }

  /** The values that `m` gives the keys in `keys`. */
  function Image(m: map<int, int>, keys: set<int>): set<int>
    requires keys <= m.Keys
  {
    set k | k in keys :: m[k]
  }

  lemma {:induction false} ImageCardinality(m: map<int, int>, keys: set<int>)
    requires keys <= m.Keys
    ensures |Image(m, keys)| <= |keys|
    decreases keys
  {
    if k :| k in keys {
      ImageCardinality(m, keys - {k});
      assert Image(m, keys) == Image(m, keys - {k}) + {m[k]};
    } else {
      assert Image(m, keys) == {};
    }
  }

  /** With distinct values on `keys`, the image is as large as `keys`. */
  lemma {:induction false} InjectiveImageCardinality(m: map<int, int>, keys: set<int>)
    requires keys <= m.Keys
    requires forall k, k' :: k in keys && k' in keys && k != k' ==> m[k] != m[k']
    ensures |Image(m, keys)| == |keys|
    decreases keys
  {
    if k :| k in keys {
      InjectiveImageCardinality(m, keys - {k});
      assert Image(m, keys) == Image(m, keys - {k}) + {m[k]};
      assert m[k] !in Image(m, keys - {k});
    } else {
      assert forall x :: x in keys <==> x in {};
      assert keys == {};
    }
  }

  /** The indices of a list of length `n`. */
  function Interval(n: nat): (r: set<int>)
    ensures forall j :: j in r <==> 0 <= j < n
    ensures |r| == n
  {
    if n == 0 then {} else Interval(n - 1) + {n - 1}
  }

  lemma SubsetCardinality(a: set<int>, b: set<int>)
    requires a <= b
    ensures |a| <= |b|
    ensures |a| == |b| ==> a == b
  {
    assert b == a + (b - a);
    assert a * (b - a) == {};
    if |a| == |b| {
      assert |b - a| == 0;
    }
  }

  /** Some key of `m` maps to `j`. */
  predicate Covered(m: map<int, int>, j: int)
  {
    exists k :: k in m && m[k] == j
  }

  lemma CoveredInterval(m: map<int, int>, n: nat)
    requires forall j :: 0 <= j < n ==> Covered(m, j)
    ensures Interval(n) <= Image(m, m.Keys)
  {
    forall j | j in Interval(n)
      ensures j in Image(m, m.Keys)
    {
      assert Covered(m, j);
      var k :| k in m && m[k] == j;
    }
  }

  /** Keys in [0, n) whose values cover [0, n) are all of [0, n). */
  lemma CoveringMapKeys(m: map<int, int>, n: nat)
    requires forall k :: k in m ==> 0 <= k < n
    requires forall j :: 0 <= j < n ==> Covered(m, j)
    ensures m.Keys == Interval(n) && |m.Keys| == n && |Image(m, m.Keys)| == n
  {
    CoveredInterval(m, n);
    SubsetCardinality(Interval(n), Image(m, m.Keys));
    ImageCardinality(m, m.Keys);
    SubsetCardinality(m.Keys, Interval(n));
  }

  /**
    A map whose keys lie in [0, n) and whose values cover [0, n) is a
    permutation of [0, n): every index is a key and no two keys share a value.
  */
  lemma CoveringMapIsPermutation(m: map<int, int>, n: nat)
    requires forall k :: k in m ==> 0 <= k < n
    requires forall j :: 0 <= j < n ==> Covered(m, j)
    ensures forall k :: 0 <= k < n ==> k in m
    ensures forall k, k' :: k in m && k' in m && k != k' ==> m[k] != m[k']
  {
    CoveringMapKeys(m, n);
    forall k, k' | k in m && k' in m && k != k'
      ensures m[k] != m[k']
    {
      if m[k] == m[k'] {
        var rest := m.Keys - {k'};
        assert k in rest && m[k'] in Image(m, rest);
        assert Image(m, rest) == Image(m, m.Keys);
        assert m.Keys == rest + {k'} && k' !in rest;
        assert |rest| == n - 1;
        ImageCardinality(m, rest);
      }
    }
  }

  /**
    Conversely, a map defined on exactly [0, n), with values in [0, n) and no
    two keys sharing a value, covers [0, n).
  */
  lemma InjectiveMapCovers(m: map<int, int>, n: nat)
    requires forall k :: k in m <==> 0 <= k < n
    requires forall k :: k in m ==> 0 <= m[k] < n
    requires forall k, k' :: k in m && k' in m && k != k' ==> m[k] != m[k']
    ensures forall j :: 0 <= j < n ==> Covered(m, j)
  {
    ImageIsInterval(m, n);
    forall j | 0 <= j < n
      ensures Covered(m, j)
    {
      ImageCovered(m, j);
    }
  }

  lemma ImageIsInterval(m: map<int, int>, n: nat)
    requires forall k :: k in m <==> 0 <= k < n
    requires forall k :: k in m ==> 0 <= m[k] < n
    requires forall k, k' :: k in m && k' in m && k != k' ==> m[k] != m[k']
    ensures Image(m, m.Keys) == Interval(n)
  {
    KeysAreInterval(m, n);
    InjectiveImageCardinality(m, m.Keys);
    ImageWithin(m, n);
    SubsetCardinality(Image(m, m.Keys), Interval(n));
  }

  lemma KeysAreInterval(m: map<int, int>, n: nat)
    requires forall k :: k in m <==> 0 <= k < n
    ensures m.Keys == Interval(n)
  {
  }

  lemma ImageWithin(m: map<int, int>, n: nat)
    requires forall k :: k in m ==> 0 <= m[k] < n
    ensures Image(m, m.Keys) <= Interval(n)
  {
    forall j | j in Image(m, m.Keys)
      ensures j in Interval(n)
    {
      var k :| k in m.Keys && m[k] == j;
    }
  }

  lemma ImageCovered(m: map<int, int>, j: int)
    requires j in Image(m, m.Keys)
    ensures Covered(m, j)
  {
    assert exists k :: k in m.Keys && m[k] == j;
    var k :| k in m.Keys && m[k] == j;
  }

  /** `m` is a bijection of [0, n) onto itself. */
  predicate PermutationOf(m: map<int, int>, n: nat)
  {
    && (forall o :: o in m ==> 0 <= o < n && 0 <= m[o] < n)
    && (forall o :: 0 <= o < n ==> o in m)
    && (forall j :: 0 <= j < n ==> Covered(m, j))
    && (forall o, o' :: o in m && o' in m && o != o' ==> m[o] != m[o'])
  }

  /** A permutation of the first `n` positions is a valid, collision-free shuffle of any longer list. */
  lemma PermutationTargets(m: map<int, int>, n: nat, len: nat)
    requires PermutationOf(m, n) && n <= len
    ensures InRange(m, len) && InjectiveTargets(m, len)
    ensures forall i :: n <= i < len ==> Target(m, i) == i
  {
  }
}
