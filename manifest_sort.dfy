/**
 * `Manifest.Sort(comparator)`: a manifest is an ordered sequence of resource
 * records, and sorting returns a new sequence holding the same records
 * reordered by the comparator. The input is not changed. For a comparator
 * whose ties are records of the same kind, each kind's records keep their
 * input order.
 */
module Manifest {
  import opened Resources

  /** An ordering policy: `less(a, b)` holds when `a` must be placed before `b`. */
  type Comparator = (Resource, Resource) -> bool

  /** `a` before `b` rules out `b` before `a`. */
  ghost predicate Asymmetric(less: Comparator) {
    forall x, y :: less(x, y) ==> !less(y, x)
  }

  /** If `x` goes before `z`, every `y` goes after `x` or before `z`. */
  ghost predicate Splits(less: Comparator) {
    forall x, y, z :: less(x, z) ==> less(x, y) || less(y, z)
  }

  /** What a comparator handed to a sort must be. */
  ghost predicate StrictWeakOrder(less: Comparator) {
    Asymmetric(less) && Splits(less)
  }

  /** The comparator never separates two records of the same kind. */
  ghost predicate SameKindTies(less: Comparator) {
    forall x: Resource, y: Resource :: x.kind == y.kind ==> !less(x, y)
  }

  /** Two records tie exactly when they have the same kind. */
  ghost predicate TiesAreKinds(less: Comparator) {
    forall x: Resource, y: Resource :: !less(x, y) && !less(y, x) <==> x.kind == y.kind
  }

  /** No record is placed after one that must go before it. */
  ghost predicate Sorted(m: seq<Resource>, less: Comparator) {
    forall i, j :: 0 <= i < j < |m| ==> !less(m[j], m[i])
  }

  /** Every record goes strictly before every later one. */
  ghost predicate StrictlySorted(m: seq<Resource>, less: Comparator) {
    forall i, j :: 0 <= i < j < |m| ==> less(m[i], m[j])
  }

  /** The records of `m` whose kind is `kind`, in manifest order. */
  function OfKind(m: seq<Resource>, kind: string): (r: seq<Resource>)
    ensures forall i :: 0 <= i < |r| ==> r[i].kind == kind
    ensures |r| <= |m|
  {
    if |m| == 0 then []
    else (if m[0].kind == kind then [m[0]] else []) + OfKind(m[1..], kind)
  }

  /**
   * Places `x` into `m` just before the first record that does not go before
   * it; `x` stays ahead of every record it ties with.
   */
  function Insert(x: Resource, m: seq<Resource>, less: Comparator): (r: seq<Resource>)
    ensures |r| == |m| + 1
  {
    if |m| == 0 || !less(m[0], x) then [x] + m
    else [m[0]] + Insert(x, m[1..], less)
  }

  /** The sorted manifest: each record is inserted into the sorted rest. */
  function Sort(m: seq<Resource>, less: Comparator): (r: seq<Resource>)
    ensures |r| == |m|
  {
    if |m| == 0 then [] else Insert(m[0], Sort(m[1..], less), less)
  }

  // ---------------------------------------------------------------------------
  // Strict weak orders

  lemma Transitive(less: Comparator, x: Resource, y: Resource, z: Resource)
    requires StrictWeakOrder(less) && less(x, y) && less(y, z)
    ensures less(x, z)
  {
  }

  // ---------------------------------------------------------------------------
  // The result holds the same records (a permutation)

  lemma {:induction false} InsertPermutation(x: Resource, m: seq<Resource>, less: Comparator)
    ensures multiset(Insert(x, m, less)) == multiset(m) + multiset{x}
  {
    if |m| > 0 && less(m[0], x) {
      InsertPermutation(x, m[1..], less);
      assert m == [m[0]] + m[1..];
    }
  }

  /**
   * `x` lands after the records of `a`, which all go before it, and ahead of
   * the rest, whose first record does not go before it.
   */
  lemma {:induction false} InsertAt(x: Resource, a: seq<Resource>, b: seq<Resource>, less: Comparator)
    requires forall i :: 0 <= i < |a| ==> less(a[i], x)
    requires |b| == 0 || !less(b[0], x)
    ensures Insert(x, a + b, less) == a + [x] + b
  {
    if |a| > 0 {
      assert (a + b)[0] == a[0] && (a + b)[1..] == a[1..] + b;
      InsertAt(x, a[1..], b, less);
      assert a + [x] + b == [a[0]] + (a[1..] + [x] + b);
    } else {
      assert a + b == b;
    }
  }

  /** Sorting neither drops nor duplicates a record. */
  lemma {:induction false} SortPermutation(m: seq<Resource>, less: Comparator)
    ensures multiset(Sort(m, less)) == multiset(m)
  {
    if |m| > 0 {
      SortPermutation(m[1..], less);
      InsertPermutation(m[0], Sort(m[1..], less), less);
      assert m == [m[0]] + m[1..];
    }
  }

  // ---------------------------------------------------------------------------
  // The result is ordered

  lemma {:induction false} InsertSorted(x: Resource, m: seq<Resource>, less: Comparator)
    requires StrictWeakOrder(less) && Sorted(m, less)
    ensures Sorted(Insert(x, m, less), less)
  {
    var r := Insert(x, m, less);
    if |m| == 0 || !less(m[0], x) {
      forall j | 1 <= j < |r| ensures !less(r[j], x) {
        var y, first := r[j], m[0];
        assert y == m[j - 1];
        assert less(y, x) ==> less(y, first) || less(first, x);
      }
    } else {
      var rest := Insert(x, m[1..], less);
      InsertSorted(x, m[1..], less);
      InsertPermutation(x, m[1..], less);
      forall j | 0 <= j < |rest| ensures !less(rest[j], m[0]) {
        assert rest[j] in multiset(rest);
        if rest[j] != x {
          assert rest[j] in multiset(m[1..]);
          var k :| 0 <= k < |m[1..]| && m[1..][k] == rest[j];
          assert m[k + 1] == rest[j];
        }
      }
      assert r == [m[0]] + rest;
    }
  }

  /** Every pair of positions is in comparator order. */
  lemma {:induction false} SortSorted(m: seq<Resource>, less: Comparator)
    requires StrictWeakOrder(less)
    ensures Sorted(Sort(m, less), less)
  {
    if |m| > 0 {
      SortSorted(m[1..], less);
      InsertSorted(m[0], Sort(m[1..], less), less);
    }
  }

  // ---------------------------------------------------------------------------
  // Records of one kind keep their input order (stability)

  lemma {:induction false} InsertOfKind(x: Resource, m: seq<Resource>, less: Comparator, kind: string)
    requires SameKindTies(less)
    ensures OfKind(Insert(x, m, less), kind) == (if x.kind == kind then [x] else []) + OfKind(m, kind)
  {
    var r := Insert(x, m, less);
    if |m| == 0 || !less(m[0], x) {
      assert r[1..] == m;
    } else {
      var rest := Insert(x, m[1..], less);
      assert r[1..] == rest;
      InsertOfKind(x, m[1..], less, kind);
      assert m[0].kind != x.kind;
      assert OfKind(r, kind) == (if m[0].kind == kind then [m[0]] else []) + OfKind(rest, kind);
      assert OfKind(m, kind) == (if m[0].kind == kind then [m[0]] else []) + OfKind(m[1..], kind);
      if x.kind == kind {
        assert OfKind(r, kind) == [x] + OfKind(m[1..], kind);
      } else if m[0].kind == kind {
        assert OfKind(r, kind) == [m[0]] + OfKind(m[1..], kind);
      }
    }
  }

  /** For every kind, the records of that kind appear in input order. */
  lemma {:induction false} SortKeepsKindOrder(m: seq<Resource>, less: Comparator, kind: string)
    requires SameKindTies(less)
    ensures OfKind(Sort(m, less), kind) == OfKind(m, kind)
  {
    if |m| > 0 {
      SortKeepsKindOrder(m[1..], less, kind);
      InsertOfKind(m[0], Sort(m[1..], less), less, kind);
    }
  }

  // ---------------------------------------------------------------------------
  // Sorting a sorted manifest changes nothing

  lemma {:induction false} SortOfSorted(m: seq<Resource>, less: Comparator)
    requires Sorted(m, less)
    ensures Sort(m, less) == m
  {
    if |m| > 0 {
      SortOfSorted(m[1..], less);
      assert m == [m[0]] + m[1..];
    }
  }

  /** Sorting twice gives the same order as sorting once. */
  lemma SortIdempotent(m: seq<Resource>, less: Comparator)
    requires StrictWeakOrder(less)
    ensures Sort(Sort(m, less), less) == Sort(m, less)
  {
    SortSorted(m, less);
    SortOfSorted(Sort(m, less), less);
  }

  // ---------------------------------------------------------------------------
  // Sort is the only ordering that is sorted and keeps each kind's input order

  /** A record is among `OfKind(m, kind)` exactly when it is in `m` with that kind. */
  lemma {:induction false} OfKindMember(m: seq<Resource>, kind: string, x: Resource)
    ensures x in OfKind(m, kind) <==> x in m && x.kind == kind
  {
    if |m| > 0 {
      OfKindMember(m[1..], kind, x);
      assert m == [m[0]] + m[1..];
    }
  }

  lemma OfKindTail(m: seq<Resource>, kind: string)
    requires |m| > 0
    ensures OfKind(m[1..], kind) == if m[0].kind == kind then OfKind(m, kind)[1..] else OfKind(m, kind)
  {
  }

  lemma {:induction false} SortedStableUnique(t: seq<Resource>, u: seq<Resource>, less: Comparator)
    requires StrictWeakOrder(less) && TiesAreKinds(less)
    requires Sorted(t, less) && Sorted(u, less)
    requires forall kind :: OfKind(t, kind) == OfKind(u, kind)
    ensures t == u
  {
    if |t| == 0 || |u| == 0 {
      // a record on one side would have to appear among its kind on the other
      var k := if |t| > 0 then t[0].kind else if |u| > 0 then u[0].kind else "";
      assert OfKind(t, k) == OfKind(u, k);
    } else {
      OfKindMember(u, u[0].kind, u[0]);
      OfKindMember(t, u[0].kind, u[0]);
      OfKindMember(t, t[0].kind, t[0]);
      OfKindMember(u, t[0].kind, t[0]);
      var a :| 0 <= a < |t| && t[a] == u[0];
      var b :| 0 <= b < |u| && u[b] == t[0];
      assert !less(t[a], t[0]) by { if a > 0 { assert !less(t[a], t[0]); } else { assert !less(t[0], t[0]); } }
      assert !less(u[b], u[0]) by { if b > 0 { assert !less(u[b], u[0]); } else { assert !less(u[0], u[0]); } }
      var k := t[0].kind;
      assert u[0].kind == k;
      assert OfKind(t, k)[0] == t[0];
      assert OfKind(u, k)[0] == u[0];
      forall kind ensures OfKind(t[1..], kind) == OfKind(u[1..], kind) {
        OfKindTail(t, kind);
        OfKindTail(u, kind);
      }
      SortedStableUnique(t[1..], u[1..], less);
      assert t == [t[0]] + t[1..] && u == [u[0]] + u[1..];
    }
  }

  /**
   * When ties are exactly equal kinds, a manifest that is sorted and lists each
   * kind's records in input order is exactly the sorted manifest.
   */
  lemma SortCharacterised(m: seq<Resource>, t: seq<Resource>, less: Comparator)
    requires StrictWeakOrder(less) && TiesAreKinds(less)
    requires Sorted(t, less)
    requires forall kind :: OfKind(t, kind) == OfKind(m, kind)
    ensures t == Sort(m, less)
  {
    SortSorted(m, less);
    assert SameKindTies(less);
    forall kind ensures OfKind(t, kind) == OfKind(Sort(m, less), kind) {
      SortKeepsKindOrder(m, less, kind);
    }
    SortedStableUnique(t, Sort(m, less), less);
  }

  // ---------------------------------------------------------------------------
  // When no two records tie, the order is fixed by the comparator alone

  lemma {:induction false} ChainStrictlySorted(m: seq<Resource>, less: Comparator)
    requires StrictWeakOrder(less)
    requires forall i :: 0 < i < |m| ==> less(m[i - 1], m[i])
    ensures StrictlySorted(m, less)
  {
    if |m| > 1 {
      ChainStrictlySorted(m[1..], less);
      forall j | 1 < j < |m| ensures less(m[0], m[j]) {
        assert less(m[1], m[j]) by { assert m[1..][0] == m[1] && m[1..][j - 1] == m[j]; }
        Transitive(less, m[0], m[1], m[j]);
      }
    }
  }

  /** The first records agree: neither may come after the other. */
  lemma SameFirst(u: seq<Resource>, t: seq<Resource>, less: Comparator)
    requires StrictWeakOrder(less)
    requires Sorted(u, less) && StrictlySorted(t, less) && multiset(u) == multiset(t)
    requires |u| > 0 && |t| > 0
    ensures u[0] == t[0]
  {
    assert u[0] in multiset(t) && t[0] in multiset(u);
    var a :| 0 <= a < |t| && t[a] == u[0];
    var b :| 0 <= b < |u| && u[b] == t[0];
    var t0, ta, u0, ub := t[0], t[a], u[0], u[b];
    assert a > 0 ==> less(t0, ta);
    assert b > 0 ==> !less(ub, u0);
    assert !less(t0, t0);
  }

  /**
   * A sorted manifest holding the same records as a strictly sorted one is
   * that manifest.
   */
  lemma {:induction false} SortedMatchesStrict(u: seq<Resource>, t: seq<Resource>, less: Comparator)
    requires StrictWeakOrder(less)
    requires Sorted(u, less) && StrictlySorted(t, less) && multiset(u) == multiset(t)
    ensures u == t
  {
    assert |t| == |multiset(t)| == |multiset(u)| == |u|;
    if |u| > 0 {
      SameFirst(u, t, less);
      assert multiset(u[1..]) == multiset(t[1..]) by {
        assert u == [u[0]] + u[1..] && t == [t[0]] + t[1..];
        assert multiset(u[1..]) == multiset(u) - multiset{u[0]};
        assert multiset(t[1..]) == multiset(t) - multiset{t[0]};
      }
      assert Sorted(u[1..], less) && StrictlySorted(t[1..], less);
      SortedMatchesStrict(u[1..], t[1..], less);
      assert u == [u[0]] + u[1..] && t == [t[0]] + t[1..];
    }
  }

  /** When the records of `t` are strictly ordered, sorting any rearrangement of them gives `t`. */
  lemma SortOfRearrangement(m: seq<Resource>, t: seq<Resource>, less: Comparator)
    requires StrictWeakOrder(less)
    requires StrictlySorted(t, less) && multiset(m) == multiset(t)
    ensures Sort(m, less) == t
  {
    SortSorted(m, less);
    SortPermutation(m, less);
    SortedMatchesStrict(Sort(m, less), t, less);
  }
}
