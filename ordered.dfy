/** Ordered-sequence utilities shared by the inventory, the ledger and the donor
    registry: filtering, identity-based removal, sorted insertion and a stable sort,
    all parameterised by a key function and a "less than" relation on keys. */
module Ordered {

  /** `less` is a strict weak order: asymmetric, and "not less" is transitive. */
  ghost predicate StrictWeakOrder<K(!new)>(less: (K, K) -> bool) {
    && (forall a, b :: less(a, b) ==> !less(b, a))
    && (forall a, b, c :: !less(a, b) && !less(b, c) ==> !less(a, c))
  }

  /** Ascending by `key`: no later element is less than an earlier one. */
  predicate SortedBy<T, K>(s: seq<T>, key: T -> K, less: (K, K) -> bool) {
    forall i, j :: 0 <= i < j < |s| ==> !less(key(s[j]), key(s[i]))
  }

  /** No element occurs twice (the lists hold each object at most once). */
  predicate Distinct<T(==)>(s: seq<T>) {
    forall i, j :: 0 <= i < j < |s| ==> s[i] != s[j]
  }

  function IntLess(a: int, b: int): bool { a < b }

  /** Lexicographic comparison of strings by code point, as Python's `<` on `str`. */
  function LexLess(a: string, b: string): bool {
    if |b| == 0 then false
    else if |a| == 0 then true
    else if a[0] != b[0] then a[0] < b[0]
    else LexLess(a[1..], b[1..])
  }

  // ---------------------------------------------------------------------------
  // Filtering and removal

  /** The elements of `s` satisfying `f`, in their order in `s`. */
  function Filter<T>(s: seq<T>, f: T -> bool): (r: seq<T>)
    ensures |r| <= |s|
  {
    if s == [] then []
    else if f(s[0]) then [s[0]] + Filter(s[1..], f)
    else Filter(s[1..], f)
  }

  function Complement<T>(f: T -> bool): T -> bool {
    x => !f(x)
  }

  /** `s` with every element that occurs in `rm` taken out, the rest in order. */
  function Without<T(==)>(s: seq<T>, rm: seq<T>): (r: seq<T>)
    ensures |r| <= |s|
  {
    if s == [] then []
    else if s[0] in rm then Without(s[1..], rm)
    else [s[0]] + Without(s[1..], rm)
  }

  /** Python's `list.remove(x)`: drops the first element that is `x`. */
  function RemoveFirst<T(==)>(s: seq<T>, x: T): (r: seq<T>)
    requires x in s
    ensures |r| == |s| - 1
  {
    if s[0] == x then s[1..]
    else [s[0]] + RemoveFirst(s[1..], x)
  }

  lemma {:induction false} RemoveFirstMultiset<T>(s: seq<T>, x: T)
    requires x in s
    ensures multiset(RemoveFirst(s, x)) == multiset(s) - multiset{x}
  {
    assert s == [s[0]] + s[1..];
    if s[0] != x {
      RemoveFirstMultiset(s[1..], x);
    }
  }

  // ---------------------------------------------------------------------------
  // Sorted insertion and stable sort

  /** The first position whose element's key is not less than the key of `x`. */
  function InsertPos<T, K>(s: seq<T>, key: T -> K, less: (K, K) -> bool, x: T): (k: nat)
    ensures k <= |s|
    ensures forall i :: 0 <= i < k ==> less(key(s[i]), key(x))
    ensures k < |s| ==> !less(key(s[k]), key(x))
  {
    if s == [] || !less(key(s[0]), key(x)) then 0
    else 1 + InsertPos(s[1..], key, less, x)
  }

  /** Inserts `x` just before the first element whose key is not less than its own. */
  function SortedInsert<T, K>(s: seq<T>, key: T -> K, less: (K, K) -> bool, x: T): (r: seq<T>)
    ensures |r| == |s| + 1
  {
    var k := InsertPos(s, key, less, x);
    s[..k] + [x] + s[k..]
  }

  /** Stable ascending sort by `key`: each head element is inserted before the
      equal-keyed elements of the sorted rest, so equal keys keep their order. */
  function SortBy<T, K>(s: seq<T>, key: T -> K, less: (K, K) -> bool): (r: seq<T>)
    ensures |r| == |s|
  {
    if s == [] then []
    else SortedInsert(SortBy(s[1..], key, less), key, less, s[0])
  }

  // ---------------------------------------------------------------------------
  // Lemmas: orders

  lemma IntLessIsStrictWeakOrder()
    ensures StrictWeakOrder(IntLess)
  {
  }

  lemma {:induction false} LexLessAsymmetric(a: string, b: string)
    ensures LexLess(a, b) ==> !LexLess(b, a)
  {
    if |a| > 0 && |b| > 0 && a[0] == b[0] {
      LexLessAsymmetric(a[1..], b[1..]);
    }
  }

  lemma {:induction false} LexLessTransitive(a: string, b: string, c: string)
    ensures LexLess(a, b) && LexLess(b, c) ==> LexLess(a, c)
  {
    if |a| > 0 && |b| > 0 && |c| > 0 && a[0] == b[0] && b[0] == c[0] {
      LexLessTransitive(a[1..], b[1..], c[1..]);
    }
  }

  lemma {:induction false} LexLessTotal(a: string, b: string)
    ensures a == b || LexLess(a, b) || LexLess(b, a)
  {
    if |a| > 0 && |b| > 0 && a[0] == b[0] {
      LexLessTotal(a[1..], b[1..]);
      if a[1..] == b[1..] {
        assert a == [a[0]] + a[1..] && b == [b[0]] + b[1..];
      }
    }
  }

  lemma LexLessIsStrictWeakOrder()
    ensures StrictWeakOrder(LexLess)
  {
    forall a: string, b: string ensures LexLess(a, b) ==> !LexLess(b, a) {
      LexLessAsymmetric(a, b);
    }
    forall a: string, b: string, c: string
      ensures !LexLess(a, b) && !LexLess(b, c) ==> !LexLess(a, c)
    {
      LexLessTotal(a, b);
      LexLessTotal(b, c);
      LexLessTransitive(c, b, a);
      LexLessAsymmetric(a, c);
    }
  }

  // ---------------------------------------------------------------------------
  // Lemmas: filtering and removal

  /** The filtered sequence holds exactly the elements that satisfy `f`. */
  lemma {:induction false} FilterMembers<T>(s: seq<T>, f: T -> bool)
    ensures forall x :: x in Filter(s, f) ==> x in s && f(x)
    ensures forall x :: x in s && f(x) ==> x in Filter(s, f)
  {
    if s != [] {
      FilterMembers(s[1..], f);
      assert s == [s[0]] + s[1..];
    }
  }

  /** The removal keeps exactly the elements that do not occur in `rm`. */
  lemma {:induction false} WithoutMembers<T>(s: seq<T>, rm: seq<T>)
    ensures forall x :: x in Without(s, rm) ==> x in s && x !in rm
    ensures forall x :: x in s && x !in rm ==> x in Without(s, rm)
  {
    if s != [] {
      WithoutMembers(s[1..], rm);
      assert s == [s[0]] + s[1..];
    }
  }

  lemma {:induction false} FilterAppend<T>(s: seq<T>, t: seq<T>, f: T -> bool)
    ensures Filter(s + t, f) == Filter(s, f) + Filter(t, f)
  {
    if s == [] {
      assert s + t == t;
    } else {
      assert (s + t)[1..] == s[1..] + t;
      FilterAppend(s[1..], t, f);
    }
  }

  /** One loop step that scans `s` from the front. */
  lemma FilterStep<T>(s: seq<T>, i: nat, f: T -> bool)
    requires i < |s|
    ensures Filter(s[..i + 1], f) == Filter(s[..i], f) + (if f(s[i]) then [s[i]] else [])
  {
    assert s[..i + 1] == s[..i] + [s[i]];
    FilterAppend(s[..i], [s[i]], f);
  }

  /** Filtering a prefix gives a prefix of the filtered sequence. */
  lemma FilterPrefix<T>(s: seq<T>, i: nat, f: T -> bool)
    requires i <= |s|
    ensures Filter(s, f) == Filter(s[..i], f) + Filter(s[i..], f)
  {
    assert s == s[..i] + s[i..];
    FilterAppend(s[..i], s[i..], f);
  }

  lemma {:induction false} FilterDistinct<T>(s: seq<T>, f: T -> bool)
    requires Distinct(s)
    ensures Distinct(Filter(s, f))
  {
    if s != [] {
      FilterDistinct(s[1..], f);
      FilterMembers(s[1..], f);
    }
  }

  lemma {:induction false} FilterSorted<T, K>(s: seq<T>, key: T -> K, less: (K, K) -> bool, f: T -> bool)
    requires SortedBy(s, key, less)
    ensures SortedBy(Filter(s, f), key, less)
  {
    if s != [] {
      FilterSorted(s[1..], key, less, f);
      FilterMembers(s[1..], f);
      var r := Filter(s[1..], f);
      if f(s[0]) {
        forall y | y in r ensures !less(key(y), key(s[0])) {
          assert y in s[1..];
          var j :| 0 <= j < |s[1..]| && s[1..][j] == y;
          assert s[j + 1] == y;
        }
      }
    }
  }

  lemma {:induction false} FilterIdempotent<T>(s: seq<T>, f: T -> bool)
    ensures Filter(Filter(s, f), f) == Filter(s, f)
  {
    if s != [] {
      FilterIdempotent(s[1..], f);
    }
  }

  /** Filtering by the complement of `f` leaves nothing that satisfies `f`. */
  lemma {:induction false} FilterComplementEmpty<T>(s: seq<T>, f: T -> bool)
    ensures Filter(Filter(s, Complement(f)), f) == []
  {
    if s != [] {
      FilterComplementEmpty(s[1..], f);
    }
  }

  lemma {:induction false} WithoutNothing<T>(s: seq<T>)
    ensures Without(s, []) == s
  {
    if s != [] {
      WithoutNothing(s[1..]);
    }
  }

  /** Only the members of `rm` that occur in `s` matter. */
  lemma {:induction false} WithoutSameOnS<T>(s: seq<T>, rm1: seq<T>, rm2: seq<T>)
    requires forall x :: x in s ==> (x in rm1 <==> x in rm2)
    ensures Without(s, rm1) == Without(s, rm2)
  {
    if s != [] {
      WithoutSameOnS(s[1..], rm1, rm2);
    }
  }

  /** Removing one more element by identity extends the removal list by it. */
  lemma {:induction false} RemoveFirstWithout<T>(s: seq<T>, rm: seq<T>, x: T)
    requires Distinct(s)
    requires x in s && x !in rm
    ensures x in Without(s, rm)
    ensures RemoveFirst(Without(s, rm), x) == Without(s, rm + [x])
  {
    if s[0] == x {
      assert x !in s[1..];
      WithoutSameOnS(s[1..], rm, rm + [x]);
    } else if s[0] in rm {
      RemoveFirstWithout(s[1..], rm, x);
    } else {
      RemoveFirstWithout(s[1..], rm, x);
    }
  }

  /** Step `k` of a loop that removes the elements of `rm` from `s` one by one. */
  lemma RemoveNext<T>(s: seq<T>, rm: seq<T>, k: nat)
    requires Distinct(s) && Distinct(rm)
    requires k < |rm| && rm[k] in s
    ensures rm[k] in Without(s, rm[..k])
    ensures RemoveFirst(Without(s, rm[..k]), rm[k]) == Without(s, rm[..k + 1])
  {
    assert rm[..k + 1] == rm[..k] + [rm[k]];
    RemoveFirstWithout(s, rm[..k], rm[k]);
  }

  /** In a sequence without repetitions an element differs from all before it. */
  lemma DistinctBefore<T>(s: seq<T>, k: nat)
    requires Distinct(s) && k < |s|
    ensures forall j :: 0 <= j < k ==> s[j] != s[k]
  {
  }

  /** Index form of the membership facts of `Filter`. */
  lemma FilterAt<T>(s: seq<T>, f: T -> bool)
    ensures forall j :: 0 <= j < |Filter(s, f)| ==> Filter(s, f)[j] in s && f(Filter(s, f)[j])
  {
    FilterMembers(s, f);
  }

  /** Removing the elements that satisfy `f` keeps exactly those that do not. */
  lemma {:induction false} WithoutFilter<T>(s: seq<T>, f: T -> bool)
    requires Distinct(s)
    ensures Without(s, Filter(s, f)) == Filter(s, Complement(f))
  {
    if s != [] {
      WithoutFilter(s[1..], f);
      FilterMembers(s, f);
      FilterMembers(s[1..], f);
      assert s[0] !in s[1..];
      WithoutSameOnS(s[1..], Filter(s, f), Filter(s[1..], f));
    }
  }

  lemma {:induction false} WithoutDistinct<T>(s: seq<T>, rm: seq<T>)
    requires Distinct(s)
    ensures Distinct(Without(s, rm))
  {
    if s != [] {
      WithoutDistinct(s[1..], rm);
      WithoutMembers(s[1..], rm);
    }
  }

  lemma {:induction false} WithoutSorted<T, K>(s: seq<T>, rm: seq<T>, key: T -> K, less: (K, K) -> bool)
    requires SortedBy(s, key, less)
    ensures SortedBy(Without(s, rm), key, less)
  {
    if s != [] {
      WithoutSorted(s[1..], rm, key, less);
      WithoutMembers(s[1..], rm);
      var r := Without(s[1..], rm);
      forall y | y in r ensures !less(key(y), key(s[0])) {
        assert y in s[1..];
        var j :| 0 <= j < |s[1..]| && s[1..][j] == y;
        assert s[j + 1] == y;
      }
    }
  }

  /** What is removed and what is kept together make up the original. */
  lemma {:induction false} WithoutPartition<T>(s: seq<T>, rm: seq<T>)
    requires Distinct(s) && Distinct(rm)
    requires forall x :: x in rm ==> x in s
    ensures multiset(s) == multiset(Without(s, rm)) + multiset(rm)
  {
    if rm == [] {
      WithoutNothing(s);
    } else {
      var n := |rm| - 1;
      var init := rm[..n];
      var x := rm[n];
      assert rm == init + [x];
      LastIsFresh(rm);
      DistinctPrefix(rm, n);
      assert forall y :: y in init ==> y in rm;
      WithoutPartition(s, init);
      RemoveFirstWithout(s, init, x);
      RemoveFirstMultiset(Without(s, init), x);
    }
  }

  lemma DistinctPrefix<T>(s: seq<T>, n: nat)
    requires Distinct(s) && n <= |s|
    ensures Distinct(s[..n])
  {
  }

  lemma LastIsFresh<T>(s: seq<T>)
    requires Distinct(s) && s != []
    ensures s[|s| - 1] !in s[..|s| - 1]
  {
  }

  // ---------------------------------------------------------------------------
  // Lemmas: sorted insertion and stable sort

  /** Where each element of the old sequence ends up after a sorted insertion. */
  lemma SortedInsertAt<T, K>(s: seq<T>, key: T -> K, less: (K, K) -> bool, x: T, i: nat)
    requires i <= |s|
    ensures var k := InsertPos(s, key, less, x);
      SortedInsert(s, key, less, x)[i] == if i < k then s[i] else if i == k then x else s[i - 1]
  {
  }

  /** Sorted insertion adds exactly one occurrence of `x`. */
  lemma SortedInsertMultiset<T, K>(s: seq<T>, key: T -> K, less: (K, K) -> bool, x: T)
    ensures multiset(SortedInsert(s, key, less, x)) == multiset(s) + multiset{x}
  {
    var k := InsertPos(s, key, less, x);
    assert s == s[..k] + s[k..];
  }

  /** The inserted sequence holds the old elements and `x`, and nothing else. */
  lemma SortedInsertMembers<T, K>(s: seq<T>, key: T -> K, less: (K, K) -> bool, x: T)
    ensures x in SortedInsert(s, key, less, x)
    ensures forall y :: y in s ==> y in SortedInsert(s, key, less, x)
    ensures forall y :: y in SortedInsert(s, key, less, x) ==> y in s || y == x
  {
    SortedInsertMultiset(s, key, less, x);
    assert forall y :: y in SortedInsert(s, key, less, x) <==> y in multiset(s) + multiset{x};
  }

  /** Sorted insertion keeps a sorted sequence sorted. */
  lemma SortedInsertKeepsOrder<T, K(!new)>(s: seq<T>, key: T -> K, less: (K, K) -> bool, x: T)
    requires StrictWeakOrder(less)
    requires SortedBy(s, key, less)
    ensures SortedBy(SortedInsert(s, key, less, x), key, less)
  {
    var k := InsertPos(s, key, less, x);
    var r := SortedInsert(s, key, less, x);
    forall i, j | 0 <= i < j < |r| ensures !less(key(r[j]), key(r[i])) {
      SortedInsertAt(s, key, less, x, i);
      SortedInsertAt(s, key, less, x, j);
      if j < k {
        assert !less(key(s[j]), key(s[i]));
      } else if j == k {
        assert less(key(s[i]), key(x));
      } else if i < k {
        assert less(key(s[i]), key(x));
        assert !less(key(s[j - 1]), key(s[k]));
        assert !less(key(s[k]), key(x));
      } else if i == k {
        assert !less(key(s[j - 1]), key(s[k]));
      } else {
        assert !less(key(s[j - 1]), key(s[i - 1]));
      }
    }
  }

  /** The new element lands before every element with an equal key (the tie rule). */
  lemma SortedInsertBeforeEqual<T, K>(s: seq<T>, key: T -> K, less: (K, K) -> bool, x: T, j: nat)
    requires j < |s| && !less(key(s[j]), key(x))
    ensures var k := InsertPos(s, key, less, x);
      k <= j && SortedInsert(s, key, less, x)[k] == x && SortedInsert(s, key, less, x)[j + 1] == s[j]
  {
    var k := InsertPos(s, key, less, x);
    assert k <= j;
    SortedInsertAt(s, key, less, x, k);
    SortedInsertAt(s, key, less, x, j + 1);
  }

  /** Inserting an element that is not yet present keeps the elements distinct. */
  lemma SortedInsertDistinct<T, K>(s: seq<T>, key: T -> K, less: (K, K) -> bool, x: T)
    requires Distinct(s) && x !in s
    ensures Distinct(SortedInsert(s, key, less, x))
  {
    var k := InsertPos(s, key, less, x);
    var r := SortedInsert(s, key, less, x);
    forall i, j | 0 <= i < j < |r| ensures r[i] != r[j] {
      SortedInsertAt(s, key, less, x, i);
      SortedInsertAt(s, key, less, x, j);
      if i == k {
        assert r[j] == s[j - 1];
      } else if j == k {
        assert r[i] == s[i];
      } else {
        var i' := if i < k then i else i - 1;
        var j' := if j < k then j else j - 1;
        assert r[i] == s[i'] && r[j] == s[j'] && i' < j';
      }
    }
  }

  lemma {:induction false} SortByMultiset<T, K>(s: seq<T>, key: T -> K, less: (K, K) -> bool)
    ensures multiset(SortBy(s, key, less)) == multiset(s)
  {
    if s != [] {
      SortByMultiset(s[1..], key, less);
      SortedInsertMultiset(SortBy(s[1..], key, less), key, less, s[0]);
      assert s == [s[0]] + s[1..];
    }
  }

  lemma {:induction false} SortBySorted<T, K(!new)>(s: seq<T>, key: T -> K, less: (K, K) -> bool)
    requires StrictWeakOrder(less)
    ensures SortedBy(SortBy(s, key, less), key, less)
  {
    if s != [] {
      SortBySorted(s[1..], key, less);
      SortedInsertKeepsOrder(SortBy(s[1..], key, less), key, less, s[0]);
    }
  }

  /** The elements whose key is equivalent to `c` (neither less nor greater). */
  function SameKey<T, K>(key: T -> K, less: (K, K) -> bool, c: K): T -> bool {
    x => !less(key(x), c) && !less(c, key(x))
  }

  lemma {:induction false} FilterNone<T>(s: seq<T>, f: T -> bool)
    requires forall i :: 0 <= i < |s| ==> !f(s[i])
    ensures Filter(s, f) == []
  {
    if s != [] {
      FilterNone(s[1..], f);
    }
  }

  /** An element strictly below `x` is not in the equal-key class of `x`'s key. */
  lemma BelowNotSameKey<T, K(!new)>(key: T -> K, less: (K, K) -> bool, c: K, x: T, y: T)
    requires StrictWeakOrder(less)
    requires SameKey(key, less, c)(x) && less(key(y), key(x))
    ensures !SameKey(key, less, c)(y)
  {
  }

  /** When `x` is in the class of `c`, nothing an insertion puts before `x` is. */
  lemma FrontOutsideClass<T, K(!new)>(t: seq<T>, key: T -> K, less: (K, K) -> bool, c: K, x: T)
    requires StrictWeakOrder(less) && SameKey(key, less, c)(x)
    ensures Filter(t[..InsertPos(t, key, less, x)], SameKey(key, less, c)) == []
  {
    var front := t[..InsertPos(t, key, less, x)];
    forall i | 0 <= i < |front| ensures !SameKey(key, less, c)(front[i]) {
      BelowNotSameKey(key, less, c, x, t[i]);
    }
    FilterNone(front, SameKey(key, less, c));
  }

  /** The sort is stable: the elements of every equal-key class come out in
      the order they went in. */
  lemma {:induction false} SortByStable<T, K(!new)>(s: seq<T>, key: T -> K, less: (K, K) -> bool, c: K)
    requires StrictWeakOrder(less)
    ensures Filter(SortBy(s, key, less), SameKey(key, less, c)) == Filter(s, SameKey(key, less, c))
  {
    if s != [] {
      var f := SameKey(key, less, c);
      var x := s[0];
      var t := SortBy(s[1..], key, less);
      var k := InsertPos(t, key, less, x);
      var front := t[..k];
      var back := t[k..];
      assert SortBy(s, key, less) == front + [x] + back;
      SortByStable(s[1..], key, less, c);
      FilterAppend(front + [x], back, f);
      FilterAppend(front, [x], f);
      FilterPrefix(t, k, f);
      assert [x][1..] == [];
      if f(x) {
        FrontOutsideClass(t, key, less, c, x);
        assert Filter(s, f) == [x] + Filter(s[1..], f);
      } else {
        assert Filter(s, f) == Filter(s[1..], f);
      }
    }
  }

  lemma SortedTail<T, K>(s: seq<T>, key: T -> K, less: (K, K) -> bool)
    requires s != [] && SortedBy(s, key, less)
    ensures SortedBy(s[1..], key, less)
  {
    var t := s[1..];
    forall i, j | 0 <= i < j < |t| ensures !less(key(t[j]), key(t[i])) {
      assert t[i] == s[i + 1] && t[j] == s[j + 1];
    }
  }

  /** Sorting an already sorted sequence changes nothing. */
  lemma {:induction false} SortByIdentityOnSorted<T, K>(s: seq<T>, key: T -> K, less: (K, K) -> bool)
    requires SortedBy(s, key, less)
    ensures SortBy(s, key, less) == s
  {
    if s != [] {
      var t := s[1..];
      SortedTail(s, key, less);
      SortByIdentityOnSorted(t, key, less);
      if t != [] {
        assert !less(key(s[1]), key(s[0]));
        assert t[0] == s[1];
      }
      assert InsertPos(t, key, less, s[0]) == 0;
      assert SortedInsert(t, key, less, s[0]) == [s[0]] + t;
      assert s == [s[0]] + t;
    }
  }

  /** A rearrangement of a sequence without repetitions has none either. */
  lemma PermutationDistinct<T>(s: seq<T>, r: seq<T>)
    requires Distinct(s) && multiset(r) == multiset(s)
    ensures Distinct(r)
  {
    forall i, j | 0 <= i < j < |r| ensures r[i] != r[j] {
      if r[i] == r[j] {
        DistinctCount(s, r[i]);
        CountTwo(r, i, j);
      }
    }
  }

  lemma SortByDistinct<T, K>(s: seq<T>, key: T -> K, less: (K, K) -> bool)
    requires Distinct(s)
    ensures Distinct(SortBy(s, key, less))
  {
    SortByMultiset(s, key, less);
    PermutationDistinct(s, SortBy(s, key, less));
  }

  lemma {:induction false} DistinctCount<T>(s: seq<T>, x: T)
    requires Distinct(s)
    ensures multiset(s)[x] <= 1
  {
    if s != [] {
      DistinctCount(s[1..], x);
      assert s == [s[0]] + s[1..];
      if s[0] == x {
        assert x !in s[1..];
      }
    }
  }

  lemma CountTwo<T>(s: seq<T>, i: nat, j: nat)
    requires i < j < |s| && s[i] == s[j]
    ensures multiset(s)[s[i]] >= 2
  {
    assert s == s[..j] + [s[j]] + s[j + 1..];
    assert s[i] in s[..j];
  }
}
