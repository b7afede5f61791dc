/** Grouping, summing and ordering of sequences: what GROUP BY, SUM and ORDER BY mean. */
module Groups {

  /** SUM(weight) over the elements whose key is `k`. */
  function GroupSum<T, K(==)>(xs: seq<T>, key: T -> K, weight: T -> int, k: K): int {
    if xs == [] then 0
    else (if key(xs[0]) == k then weight(xs[0]) else 0) + GroupSum(xs[1..], key, weight, k)
  }

  function Whole<T>(x: T): () {
    ()
  }

  function One<T>(x: T): int {
    1
  }

  /** SUM(weight) over all elements. */
  function Total<T>(xs: seq<T>, weight: T -> int): int {
    GroupSum(xs, Whole<T>, weight, ())
  }

  function MapSlice<T, U>(xs: seq<T>, f: T -> U): (r: seq<U>)
    ensures |r| == |xs| && forall i | 0 <= i < |xs| :: r[i] == f(xs[i])
  {
    if xs == [] then [] else [f(xs[0])] + MapSlice(xs[1..], f)
  }

  function Filter<T>(xs: seq<T>, p: T -> bool): seq<T> {
    if xs == [] then []
    else if p(xs[0]) then [xs[0]] + Filter(xs[1..], p)
    else Filter(xs[1..], p)
  }

  /** The keys that occur, each once. */
  function Distinct<K(==)>(keys: seq<K>): seq<K> {
    if keys == [] then []
    else
      var rest := Distinct(keys[1..]);
      if keys[0] in rest then rest else [keys[0]] + rest
  }

  ghost predicate NoRepeats<K>(keys: seq<K>) {
    forall i, j | 0 <= i < j < |keys| :: keys[i] != keys[j]
  }

  ghost predicate Covers<T, K>(xs: seq<T>, key: T -> K, keys: seq<K>) {
    forall x | x in xs :: key(x) in keys
  }

  lemma {:induction false} DistinctMeaning<K>(keys: seq<K>)
    ensures NoRepeats(Distinct(keys))
    ensures (forall k | k in keys :: k in Distinct(keys)) && (forall k | k in Distinct(keys) :: k in keys)
  {
    if keys != [] {
      DistinctMeaning(keys[1..]);
    }
  }

  lemma {:induction false} FilterMembers<T>(xs: seq<T>, p: T -> bool)
    ensures forall x | x in Filter(xs, p) :: x in xs && p(x)
    ensures forall x | x in xs && p(x) :: x in Filter(xs, p)
  {
    if xs != [] {
      FilterMembers(xs[1..], p);
    }
  }

  lemma GroupSumCons<T, K>(x: T, xs: seq<T>, key: T -> K, weight: T -> int, k: K)
    ensures GroupSum([x] + xs, key, weight, k) == (if key(x) == k then weight(x) else 0) + GroupSum(xs, key, weight, k)
  {
    assert ([x] + xs)[1..] == xs;
  }

  lemma FilterCons<T>(x: T, xs: seq<T>, p: T -> bool)
    ensures Filter([x] + xs, p) == (if p(x) then [x] else []) + Filter(xs, p)
  {
    assert ([x] + xs)[1..] == xs;
  }

  lemma {:induction false} FilterAppend<T>(a: seq<T>, b: seq<T>, p: T -> bool)
    ensures Filter(a + b, p) == Filter(a, p) + Filter(b, p)
  {
    if a == [] {
      assert a + b == b;
    } else {
      assert a + b == [a[0]] + (a[1..] + b);
      FilterCons(a[0], a[1..] + b, p);
      FilterAppend(a[1..], b, p);
    }
  }

  lemma {:induction false} GroupSumAppend<T, K>(a: seq<T>, b: seq<T>, key: T -> K, weight: T -> int, k: K)
    ensures GroupSum(a + b, key, weight, k) == GroupSum(a, key, weight, k) + GroupSum(b, key, weight, k)
  {
    if a == [] {
      assert a + b == b;
    } else {
      assert (a + b)[1..] == a[1..] + b;
      GroupSumAppend(a[1..], b, key, weight, k);
    }
  }

  /******* Sums of groups *******/

  /** The elements with another key. */
  function Without<T, K(==)>(xs: seq<T>, key: T -> K, k: K): (r: seq<T>)
    ensures |r| <= |xs|
  {
    if xs == [] then []
    else if key(xs[0]) == k then Without(xs[1..], key, k)
    else [xs[0]] + Without(xs[1..], key, k)
  }

  lemma {:induction false} WithoutMembers<T, K>(xs: seq<T>, key: T -> K, k: K)
    ensures forall x | x in Without(xs, key, k) :: x in xs && key(x) != k
    ensures forall x | x in xs && key(x) != k :: x in Without(xs, key, k)
  {
    if xs != [] {
      WithoutMembers(xs[1..], key, k);
    }
  }

  lemma {:induction false} WithoutKeepsOthers<T, K>(xs: seq<T>, key: T -> K, weight: T -> int, k: K, other: K)
    requires other != k
    ensures GroupSum(Without(xs, key, k), key, weight, other) == GroupSum(xs, key, weight, other)
  {
    if xs != [] {
      WithoutKeepsOthers(xs[1..], key, weight, k, other);
      GroupSumCons(xs[0], Without(xs[1..], key, k), key, weight, other);
    }
  }

  /** Taking one group out of a coarser sum leaves the sum over the rest. */
  lemma {:induction false} TakeOut<T, K, A>(xs: seq<T>, key: T -> K, weight: T -> int, k: K, coarse: T -> A, mine: A,
      a: A)
    requires forall x | x in xs && key(x) == k :: coarse(x) == mine
    ensures GroupSum(xs, coarse, weight, a)
         == (if mine == a then GroupSum(xs, key, weight, k) else 0) + GroupSum(Without(xs, key, k), coarse, weight, a)
  {
    if xs != [] {
      assert xs[0] in xs;
      TakeOut(xs[1..], key, weight, k, coarse, mine, a);
      GroupSumCons(xs[0], Without(xs[1..], key, k), coarse, weight, a);
    }
  }

  /**
   Conservation: when every element falls in one of the groups, adding the groups' sums up by a
   coarser key gives the coarser sums of the elements themselves.
   */
  lemma {:induction false} GroupsConserve<T, K, R, A>(
      xs: seq<T>, key: T -> K, weight: T -> int, keys: seq<K>,
      row: K -> R, rowKey: R -> A, rowWeight: R -> int, coarse: T -> A, a: A)
    requires NoRepeats(keys) && Covers(xs, key, keys)
    requires forall k | k in keys :: rowWeight(row(k)) == GroupSum(xs, key, weight, k)
    requires forall x | x in xs :: rowKey(row(key(x))) == coarse(x)
    ensures GroupSum(MapSlice(keys, row), rowKey, rowWeight, a) == GroupSum(xs, coarse, weight, a)
    decreases |keys|
  {
    if keys != [] {
      var k, rest := keys[0], Without(xs, key, keys[0]);
      WithoutMembers(xs, key, k);
      forall x | x in rest ensures x in xs && key(x) in keys[1..] {
        var i :| 0 <= i < |keys| && keys[i] == key(x);
        assert keys[1..][i-1] == key(x);
      }
      forall other | other in keys[1..] ensures rowWeight(row(other)) == GroupSum(rest, key, weight, other) {
        var i :| 0 <= i < |keys[1..]| && keys[1..][i] == other;
        assert keys[i+1] == other;
        WithoutKeepsOthers(xs, key, weight, k, other);
      }
      GroupsConserve(rest, key, weight, keys[1..], row, rowKey, rowWeight, coarse, a);
      TakeOut(xs, key, weight, k, coarse, rowKey(row(k)), a);
    }
  }

  lemma {:induction false} WeightsOnly<T, K>(xs: seq<T>, key: T -> K, v: T -> int, w: T -> int, k: K)
    requires forall x | x in xs :: v(x) == w(x)
    ensures GroupSum(xs, key, v, k) == GroupSum(xs, key, w, k)
  {
    if xs != [] {
      assert xs[0] in xs;
      WeightsOnly(xs[1..], key, v, w, k);
    }
  }

  lemma {:induction false} WeightsAdd<T, K>(xs: seq<T>, key: T -> K, u: T -> int, v: T -> int, w: T -> int, k: K)
    requires forall x | x in xs :: w(x) == u(x) + v(x)
    ensures GroupSum(xs, key, w, k) == GroupSum(xs, key, u, k) + GroupSum(xs, key, v, k)
  {
    if xs != [] {
      assert xs[0] in xs;
      WeightsAdd(xs[1..], key, u, v, w, k);
    }
  }

  lemma {:induction false} TotalsAlign<T, U>(xs: seq<T>, ys: seq<U>, f: T -> int, g: U -> int)
    requires |xs| == |ys| && forall i | 0 <= i < |xs| :: f(xs[i]) == g(ys[i])
    ensures Total(xs, f) == Total(ys, g)
  {
    if xs != [] {
      assert forall i | 0 <= i < |xs| - 1 :: xs[1..][i] == xs[i+1] && ys[1..][i] == ys[i+1];
      TotalsAlign(xs[1..], ys[1..], f, g);
    }
  }

  /** Filtering rows is the same as giving the others weight 0. */
  lemma {:induction false} FilterIsWeightZero<T, K>(xs: seq<T>, p: T -> bool, key: T -> K, v: T -> int, w: T -> int,
      k: K)
    requires forall x | x in xs :: w(x) == if p(x) then v(x) else 0
    ensures GroupSum(Filter(xs, p), key, v, k) == GroupSum(xs, key, w, k)
  {
    if xs != [] {
      assert xs[0] in xs;
      FilterIsWeightZero(xs[1..], p, key, v, w, k);
      GroupSumCons(xs[0], Filter(xs[1..], p), key, v, k);
    }
  }

  lemma {:induction false} NonNegativeSum<T, K>(xs: seq<T>, key: T -> K, weight: T -> int, k: K)
    requires forall x | x in xs :: weight(x) >= 0
    ensures 0 <= GroupSum(xs, key, weight, k) <= Total(xs, weight)
  {
    if xs != [] {
      assert xs[0] in xs;
      NonNegativeSum(xs[1..], key, weight, k);
    }
  }

  lemma {:induction false} CountIsLength<T>(xs: seq<T>)
    ensures Total(xs, One<T>) == |xs|
  {
    if xs != [] {
      CountIsLength(xs[1..]);
    }
  }

  /******* Ascending integer keys *******/

  ghost predicate Ascending(ks: seq<int>) {
    forall i, j | 0 <= i < j < |ks| :: ks[i] < ks[j]
  }

  function InsertKey(k: int, ks: seq<int>): (r: seq<int>)
    requires Ascending(ks)
    ensures r != [] && r[0] == (if ks == [] || k < ks[0] then k else ks[0])
    ensures Ascending(r) && forall x :: x in r <==> x == k || x in ks
  {
    if ks == [] || k < ks[0] then [k] + ks
    else if k == ks[0] then ks
    else [ks[0]] + InsertKey(k, ks[1..])
  }

  /** SELECT DISTINCT key ... ORDER BY key. */
  function SortedKeys<T>(xs: seq<T>, key: T -> int): (r: seq<int>)
    ensures Ascending(r)
  {
    if xs == [] then [] else InsertKey(key(xs[0]), SortedKeys(xs[1..], key))
  }

  lemma {:induction false} SortedKeysMeaning<T>(xs: seq<T>, key: T -> int)
    ensures Covers(xs, key, SortedKeys(xs, key)) && NoRepeats(SortedKeys(xs, key))
    ensures forall k :: k in SortedKeys(xs, key) ==> exists x :: x in xs && key(x) == k
  {
    if xs != [] {
      var x, rest := xs[0], xs[1..];
      SortedKeysMeaning(rest, key);
      forall k | k in SortedKeys(xs, key) ensures exists x :: x in xs && key(x) == k {
        if k in SortedKeys(rest, key) {
          var y :| y in rest && key(y) == k;
          assert y in xs;
        } else {
          assert x in xs && key(x) == k;
        }
      }
    }
  }

  /** An ascending sequence is determined by its members. */
  lemma {:induction false} AscendingUnique(a: seq<int>, b: seq<int>)
    requires Ascending(a) && Ascending(b) && forall k :: k in a <==> k in b
    ensures a == b
  {
    assert b != [] ==> b[0] in b;
    if a != [] {
      assert a[0] in a;
      assert a[0] == b[0];
      assert forall k :: k in a[1..] <==> k in a && k != a[0];
      assert forall k :: k in b[1..] <==> k in b && k != b[0];
      AscendingUnique(a[1..], b[1..]);
    }
  }

  lemma {:induction false} NoRepeatsCardinality<K>(ks: seq<K>)
    requires NoRepeats(ks)
    ensures |set k | k in ks| == |ks|
  {
    if ks != [] {
      NoRepeatsCardinality(ks[1..]);
      assert (set k | k in ks) == (set k | k in ks[1..]) + {ks[0]};
    }
  }

  /******* Cutting a sequence in two by a predicate *******/

  lemma {:induction false} SumSplits<T, K>(xs: seq<T>, p: T -> bool, q: T -> bool, key: T -> K, weight: T -> int, k: K)
    requires forall x | x in xs :: q(x) <==> !p(x)
    ensures GroupSum(xs, key, weight, k)
      == GroupSum(Filter(xs, p), key, weight, k) + GroupSum(Filter(xs, q), key, weight, k)
  {
    if xs != [] {
      assert xs[0] in xs;
      SumSplits(xs[1..], p, q, key, weight, k);
      GroupSumCons(xs[0], Filter(xs[1..], p), key, weight, k);
      GroupSumCons(xs[0], Filter(xs[1..], q), key, weight, k);
    }
  }

  lemma {:induction false} SumOfNone<T, K>(xs: seq<T>, key: T -> K, weight: T -> int, k: K)
    requires forall x | x in xs :: key(x) != k
    ensures GroupSum(xs, key, weight, k) == 0
  {
    if xs != [] {
      assert xs[0] in xs;
      SumOfNone(xs[1..], key, weight, k);
    }
  }

  lemma {:induction false} FilterTwice<T>(xs: seq<T>, p: T -> bool, q: T -> bool, r: T -> bool)
    requires forall x | x in xs :: r(x) <==> p(x) && q(x)
    ensures Filter(Filter(xs, p), q) == Filter(xs, r)
  {
    if xs != [] {
      assert xs[0] in xs;
      FilterTwice(xs[1..], p, q, r);
      FilterCons(xs[0], Filter(xs[1..], p), q);
    }
  }

  lemma {:induction false} FilterAgree<T>(xs: seq<T>, p: T -> bool, q: T -> bool)
    requires forall x | x in xs :: p(x) <==> q(x)
    ensures Filter(xs, p) == Filter(xs, q)
  {
    if xs != [] {
      assert xs[0] in xs;
      FilterAgree(xs[1..], p, q);
    }
  }

  lemma FiltersAgreeIff<T>(xs: seq<T>, p: T -> bool, q: T -> bool)
    ensures Filter(xs, p) == Filter(xs, q) <==> forall x | x in xs :: p(x) <==> q(x)
  {
    if Filter(xs, p) == Filter(xs, q) {
      FilterMembers(xs, p);
      FilterMembers(xs, q);
    } else if forall x | x in xs :: p(x) <==> q(x) {
      FilterAgree(xs, p, q);
    }
  }

  lemma {:induction false} FilterNone<T>(xs: seq<T>, p: T -> bool)
    requires forall x | x in xs :: !p(x)
    ensures Filter(xs, p) == []
  {
    if xs != [] {
      assert xs[0] in xs;
      FilterNone(xs[1..], p);
    }
  }

  lemma {:induction false} FilterAll<T>(xs: seq<T>, p: T -> bool)
    requires forall x | x in xs :: p(x)
    ensures Filter(xs, p) == xs
  {
    if xs != [] {
      assert xs[0] in xs;
      FilterAll(xs[1..], p);
      assert [xs[0]] + xs[1..] == xs;
    }
  }

  /** Converting what a filter keeps is filtering what was converted. */
  lemma {:induction false} MapOfFilter<T, U>(xs: seq<T>, f: T -> U, p: T -> bool, q: U -> bool)
    requires forall x | x in xs :: p(x) == q(f(x))
    ensures MapSlice(Filter(xs, p), f) == Filter(MapSlice(xs, f), q)
  {
    if xs != [] {
      assert xs[0] in xs;
      MapOfFilter(xs[1..], f, p, q);
      FilterCons(f(xs[0]), MapSlice(xs[1..], f), q);
      if p(xs[0]) {
        assert ([xs[0]] + Filter(xs[1..], p))[1..] == Filter(xs[1..], p);
      }
    }
  }

  lemma {:induction false} FilterCommutes<T>(xs: seq<T>, p: T -> bool, q: T -> bool)
    ensures Filter(Filter(xs, p), q) == Filter(Filter(xs, q), p)
  {
    if xs != [] {
      FilterCommutes(xs[1..], p, q);
      FilterCons(xs[0], Filter(xs[1..], p), q);
      FilterCons(xs[0], Filter(xs[1..], q), p);
    }
  }

  /** When the elements satisfying `p` have the smaller keys, the keys of the whole are those of the parts in turn. */
  lemma SortedKeysSplit<T>(xs: seq<T>, key: T -> int, p: T -> bool, q: T -> bool, cut: int)
    requires forall x | x in xs :: q(x) <==> !p(x)
    requires forall x | x in xs :: p(x) <==> key(x) <= cut
    ensures SortedKeys(xs, key) == SortedKeys(Filter(xs, p), key) + SortedKeys(Filter(xs, q), key)
    ensures forall k | k in SortedKeys(Filter(xs, p), key) :: k <= cut
    ensures forall k | k in SortedKeys(Filter(xs, q), key) :: k > cut
  {
    var all, lo, hi := SortedKeys(xs, key), SortedKeys(Filter(xs, p), key), SortedKeys(Filter(xs, q), key);
    FilterMembers(xs, p);
    FilterMembers(xs, q);
    SortedKeysMeaning(xs, key);
    SortedKeysMeaning(Filter(xs, p), key);
    SortedKeysMeaning(Filter(xs, q), key);
    forall k | k in lo ensures k <= cut && k in all {
      var x :| x in Filter(xs, p) && key(x) == k;
    }
    forall k | k in hi ensures k > cut && k in all {
      var x :| x in Filter(xs, q) && key(x) == k;
    }
    forall k | k in all ensures k in lo + hi {
      var x :| x in xs && key(x) == k;
      assert x in Filter(xs, p) || x in Filter(xs, q);
    }
    assert Ascending(lo + hi) by {
      forall i, j | 0 <= i < j < |lo + hi| ensures (lo + hi)[i] < (lo + hi)[j] {
        if i < |lo| <= j {
          assert lo[i] in lo && hi[j-|lo|] in hi;
        }
      }
    }
    AscendingUnique(all, lo + hi);
  }

  lemma {:induction false} MapSliceSame<T, U>(xs: seq<T>, f: T -> U, g: T -> U)
    requires forall x | x in xs :: f(x) == g(x)
    ensures MapSlice(xs, f) == MapSlice(xs, g)
  {
    if xs != [] {
      assert xs[0] in xs;
      MapSliceSame(xs[1..], f, g);
    }
  }

  lemma {:induction false} MapSlicePrepend<T, U>(a: seq<T>, b: seq<T>, f: T -> U)
    ensures MapSlice(a + b, f) == MapSlice(a, f) + MapSlice(b, f)
  {
    if a == [] {
      assert a + b == b;
    } else {
      assert (a + b)[1..] == a[1..] + b;
      MapSlicePrepend(a[1..], b, f);
    }
  }

  lemma MapSliceAppend<T, U>(a: seq<T>, b: seq<T>, f: T -> U, g: T -> U, h: T -> U)
    requires (forall x | x in a :: f(x) == g(x)) && (forall x | x in b :: f(x) == h(x))
    ensures MapSlice(a + b, f) == MapSlice(a, g) + MapSlice(b, h)
  {
    MapSlicePrepend(a, b, f);
    MapSliceSame(a, f, g);
    MapSliceSame(b, f, h);
  }

  /** Distinct integers in a range fill it exactly when there are as many as it has places. */
  lemma {:induction false} AscendingFills(ks: seq<int>, lo: int, hi: int)
    requires Ascending(ks) && lo <= hi + 1 && forall k | k in ks :: lo <= k <= hi
    ensures |ks| <= hi - lo + 1
    ensures |ks| == hi - lo + 1 <==> forall k | lo <= k <= hi :: k in ks
    decreases hi - lo
  {
    assert ks != [] ==> ks[0] in ks;
    if lo <= hi {
      if ks != [] && ks[|ks|-1] == hi {
        var init := ks[..|ks|-1];
        assert ks == init + [hi];
        forall k | k in init ensures lo <= k <= hi - 1 {
          assert k in ks;
          var i :| 0 <= i < |init| && init[i] == k;
          assert ks[i] < ks[|ks|-1];
        }
        AscendingFills(init, lo, hi - 1);
        assert forall k | lo <= k <= hi - 1 :: k in ks <==> k in init;
      } else {
        forall k | k in ks ensures k <= hi - 1 {
          var i :| 0 <= i < |ks| && ks[i] == k;
          assert ks[|ks|-1] in ks;
        }
        AscendingFills(ks, lo, hi - 1);
        assert hi !in ks;
      }
    }
  }

  lemma {:induction false} SplitAscending(ks: seq<int>, lo: int) returns (j: nat)
    requires Ascending(ks)
    ensures j <= |ks| && (forall i | 0 <= i < j :: ks[i] < lo) && forall i | j <= i < |ks| :: ks[i] >= lo
  {
    if ks == [] || ks[0] >= lo {
      j := 0;
    } else {
      j := SplitAscending(ks[1..], lo);
      forall i | 0 <= i < j + 1 ensures ks[i] < lo {
        if i > 0 { assert ks[1..][i-1] == ks[i]; }
      }
      forall i | j + 1 <= i < |ks| ensures ks[i] >= lo {
        assert ks[1..][i-1] == ks[i];
      }
      j := j + 1;
    }
  }

  /** The last `n` of the keys, or all of them. */
  function LastOf(ks: seq<int>, n: nat): seq<int> {
    if |ks| <= n then ks else ks[|ks|-n..]
  }

  lemma UpperPart(ks: seq<int>, lo: int, hi: int, j: nat)
    requires Ascending(ks) && lo <= hi + 1 && forall k | k in ks :: k <= hi
    requires j <= |ks| && (forall i | 0 <= i < j :: ks[i] < lo) && forall i | j <= i < |ks| :: ks[i] >= lo
    ensures |ks| - j <= hi - lo + 1
    ensures |ks| - j == hi - lo + 1 <==> forall k | lo <= k <= hi :: k in ks
  {
    var upper := ks[j..];
    forall k | k in upper ensures lo <= k <= hi {
      var i :| 0 <= i < |upper| && upper[i] == k;
      assert ks[j+i] == k && k in ks;
    }
    forall k | lo <= k <= hi ensures k in ks <==> k in upper {
      if k in ks {
        var i :| 0 <= i < |ks| && ks[i] == k;
        assert upper[i-j] == k;
      }
    }
    AscendingFills(upper, lo, hi);
  }

  lemma InLast(ks: seq<int>, d: nat, i: nat)
    requires Ascending(ks) && d <= |ks| && i < |ks|
    ensures ks[i] in ks[d..] <==> d <= i
  {
    if d <= i {
      assert ks[d..][i-d] == ks[i];
    }
  }

  /**
   The last `n` keys are the keys of the last `n` places exactly when no key lies before these
   places or every place is taken.
   */
  lemma LastKeysFill(ks: seq<int>, n: nat, lo: int, hi: int)
    requires Ascending(ks) && n == hi - lo + 1 && forall k | k in ks :: k <= hi
    ensures (forall k | k in ks :: k >= lo <==> k in LastOf(ks, n))
       <==> (forall k | k in ks :: k >= lo) || (forall k | lo <= k <= hi :: k in ks)
  {
    var j := SplitAscending(ks, lo);
    UpperPart(ks, lo, hi, j);
    var d := if |ks| <= n then 0 else |ks| - n;
    assert LastOf(ks, n) == ks[d..];
    forall i: nat | i < |ks| ensures ks[i] in ks && (ks[i] in LastOf(ks, n) <==> d <= i) && (ks[i] >= lo <==> j <= i) {
      InLast(ks, d, i);
    }
    assert d < j ==> ks[d] in LastOf(ks, n);
    assert j > 0 ==> ks[0] in ks;
  }

  /******* ORDER BY *******/

  ghost predicate TotalOrder<T(!new)>(leq: (T, T) -> bool) {
    && (forall a, b :: leq(a, b) || leq(b, a))
    && (forall a, b, c :: leq(a, b) && leq(b, c) ==> leq(a, c))
  }

  ghost predicate Sorted<T>(leq: (T, T) -> bool, xs: seq<T>) {
    forall i, j | 0 <= i < j < |xs| :: leq(xs[i], xs[j])
  }

  function Insert<T>(leq: (T, T) -> bool, x: T, xs: seq<T>): seq<T> {
    if xs == [] || leq(x, xs[0]) then [x] + xs else [xs[0]] + Insert(leq, x, xs[1..])
  }

  function OrderBy<T>(leq: (T, T) -> bool, xs: seq<T>): seq<T> {
    if xs == [] then [] else Insert(leq, xs[0], OrderBy(leq, xs[1..]))
  }

  lemma {:induction false} InsertPermutes<T>(leq: (T, T) -> bool, x: T, xs: seq<T>)
    ensures multiset(Insert(leq, x, xs)) == multiset{x} + multiset(xs)
  {
    if xs == [] || leq(x, xs[0]) {
    } else {
      InsertPermutes(leq, x, xs[1..]);
      assert xs == [xs[0]] + xs[1..];
    }
  }

  lemma {:induction false} InsertSorted<T(!new)>(leq: (T, T) -> bool, x: T, xs: seq<T>)
    requires TotalOrder(leq) && Sorted(leq, xs)
    ensures Sorted(leq, Insert(leq, x, xs))
  {
    if xs == [] || leq(x, xs[0]) {
    } else {
      InsertSorted(leq, x, xs[1..]);
      InsertPermutes(leq, x, xs[1..]);
      var rest := Insert(leq, x, xs[1..]);
      forall j | 0 <= j < |rest| ensures leq(xs[0], rest[j]) {
        assert rest[j] in multiset(rest);
        assert rest[j] == x || rest[j] in xs[1..];
      }
    }
  }

  /** ORDER BY permutes the rows into order. */
  lemma {:induction false} OrderByMeaning<T(!new)>(leq: (T, T) -> bool, xs: seq<T>)
    requires TotalOrder(leq)
    ensures Sorted(leq, OrderBy(leq, xs)) && multiset(OrderBy(leq, xs)) == multiset(xs)
  {
    if xs != [] {
      OrderByMeaning(leq, xs[1..]);
      InsertSorted(leq, xs[0], OrderBy(leq, xs[1..]));
      InsertPermutes(leq, xs[0], OrderBy(leq, xs[1..]));
      assert xs == [xs[0]] + xs[1..];
    }
  }

  /** What is in order stays as it is. */
  lemma {:induction false} OrderBySorted<T>(leq: (T, T) -> bool, xs: seq<T>)
    requires Sorted(leq, xs)
    ensures OrderBy(leq, xs) == xs
  {
    if xs != [] {
      assert forall i, j | 0 <= i < j < |xs[1..]| :: leq(xs[1..][i], xs[1..][j]) by {
        assert forall i | 0 <= i < |xs[1..]| :: xs[1..][i] == xs[i+1];
      }
      OrderBySorted(leq, xs[1..]);
    }
  }

  lemma {:induction false} InsertKeepsSum<T, K>(leq: (T, T) -> bool, x: T, xs: seq<T>, key: T -> K, weight: T -> int,
      k: K)
    ensures GroupSum(Insert(leq, x, xs), key, weight, k)
      == (if key(x) == k then weight(x) else 0) + GroupSum(xs, key, weight, k)
  {
    if xs == [] || leq(x, xs[0]) {
      assert ([x] + xs)[1..] == xs;
    } else {
      InsertKeepsSum(leq, x, xs[1..], key, weight, k);
      assert Insert(leq, x, xs)[1..] == Insert(leq, x, xs[1..]);
    }
  }

  lemma {:induction false} OrderByKeepsSum<T, K>(leq: (T, T) -> bool, xs: seq<T>, key: T -> K, weight: T -> int, k: K)
    ensures GroupSum(OrderBy(leq, xs), key, weight, k) == GroupSum(xs, key, weight, k)
  {
    if xs != [] {
      OrderByKeepsSum(leq, xs[1..], key, weight, k);
      InsertKeepsSum(leq, xs[0], OrderBy(leq, xs[1..]), key, weight, k);
    }
  }

  lemma {:induction false} InsertMembers<T>(leq: (T, T) -> bool, x: T, xs: seq<T>)
    ensures forall y | y in Insert(leq, x, xs) :: y == x || y in xs
    ensures x in Insert(leq, x, xs) && forall y | y in xs :: y in Insert(leq, x, xs)
  {
    if xs == [] || leq(x, xs[0]) {
    } else {
      InsertMembers(leq, x, xs[1..]);
    }
  }

  lemma {:induction false} OrderByMembers<T>(leq: (T, T) -> bool, xs: seq<T>)
    ensures (forall y | y in OrderBy(leq, xs) :: y in xs) && (forall y | y in xs :: y in OrderBy(leq, xs))
  {
    if xs != [] {
      OrderByMembers(leq, xs[1..]);
      InsertMembers(leq, xs[0], OrderBy(leq, xs[1..]));
    }
  }

  lemma {:induction false} InsertNoRepeats<T>(leq: (T, T) -> bool, x: T, xs: seq<T>)
    requires NoRepeats(xs) && x !in xs
    ensures NoRepeats(Insert(leq, x, xs))
  {
    if xs != [] && !leq(x, xs[0]) {
      var rest := Insert(leq, x, xs[1..]);
      InsertNoRepeats(leq, x, xs[1..]);
      InsertMembers(leq, x, xs[1..]);
      assert xs[0] !in xs[1..];
      forall j | 0 <= j < |rest| ensures rest[j] != xs[0] {
        assert rest[j] in rest;
      }
    }
  }

  lemma {:induction false} OrderByNoRepeats<T>(leq: (T, T) -> bool, xs: seq<T>)
    requires NoRepeats(xs)
    ensures NoRepeats(OrderBy(leq, xs))
  {
    if xs != [] {
      OrderByNoRepeats(leq, xs[1..]);
      OrderByMembers(leq, xs[1..]);
      InsertNoRepeats(leq, xs[0], OrderBy(leq, xs[1..]));
    }
  }

  ghost predicate Antisymmetric<T(!new)>(leq: (T, T) -> bool) {
    forall a, b :: leq(a, b) && leq(b, a) ==> a == b
  }

  lemma SortedHead<T(!new)>(leq: (T, T) -> bool, a: seq<T>, x: T)
    requires (forall y :: leq(y, y)) && Sorted(leq, a) && x in a
    ensures leq(a[0], x)
  {
    var i :| 0 <= i < |a| && a[i] == x;
  }

  lemma TailHolds<T>(a: seq<T>, b: seq<T>)
    requires a != [] && b != [] && a[0] == b[0] && NoRepeats(a) && forall x | x in a :: x in b
    ensures NoRepeats(a[1..]) && forall x | x in a[1..] :: x in b[1..]
  {
    forall x | x in a[1..] ensures x in b[1..] {
      var i :| 0 <= i < |a[1..]| && a[1..][i] == x;
      assert x in a && x != a[0];
      var j :| 0 <= j < |b| && b[j] == x;
      assert b[1..][j-1] == x;
    }
  }

  /** Under an order that tells all elements apart, a sorted sequence is given by what it holds. */
  lemma {:induction false} SortedUnique<T(!new)>(leq: (T, T) -> bool, a: seq<T>, b: seq<T>)
    requires (forall x :: leq(x, x)) && Antisymmetric(leq) && Sorted(leq, a) && Sorted(leq, b) && NoRepeats(a)
      && NoRepeats(b)
    requires (forall x | x in a :: x in b) && (forall x | x in b :: x in a)
    ensures a == b
  {
    assert a != [] ==> a[0] in a;
    assert b != [] ==> b[0] in b;
    if a != [] {
      SortedHead(leq, a, b[0]);
      SortedHead(leq, b, a[0]);
      TailHolds(a, b);
      TailHolds(b, a);
      SortedUnique(leq, a[1..], b[1..]);
      assert a == [a[0]] + a[1..] && b == [b[0]] + b[1..];
    }
  }
}
