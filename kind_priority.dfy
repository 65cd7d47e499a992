/**
 * The kind-priority ordering policy: a fixed table from kind name to rank
 * (lower rank is created first), recognised kinds before unrecognised ones,
 * and unrecognised kinds ordered among themselves by their names.
 */
module KindPriority {
  import opened Wrappers
  import opened Resources
  import opened Manifest

  /**
   * The recognised kinds in creation order; the rank of a kind is its index.
   * Exact match, case-sensitive.
   */
  const PriorityOrder: seq<string> :=
    ["Namespace", "ServiceAccount", "Secret", "ConfigMap",
     "CustomResourceDefinition", "Service", "Deployment", "Job"]

  /** The first position of `k` in `s` at or after `from`, if any. */
  function IndexFrom(s: seq<string>, k: string, from: nat): (r: Option<nat>)
    requires from <= |s|
    decreases |s| - from
    ensures r.None? <==> forall j :: from <= j < |s| ==> s[j] != k
    ensures r.Some? ==> from <= r.value < |s| && s[r.value] == k
    ensures r.Some? ==> forall j :: from <= j < r.value ==> s[j] != k
  {
    if from == |s| then None
    else if s[from] == k then Some(from)
    else IndexFrom(s, k, from + 1)
  }

  /**
   * The rank of a kind: its position in the table, or None exactly when the
   * table does not list it.
   */
  function Rank(kind: string): (r: Option<nat>)
    ensures r.Some? <==> kind in PriorityOrder
    ensures r.Some? ==> r.value < |PriorityOrder| && PriorityOrder[r.value] == kind
  {
    IndexFrom(PriorityOrder, kind, 0)
  }

  predicate Recognised(kind: string) {
    Rank(kind).Some?
  }

  /**
   * Go's string `<`: byte-wise lexicographic order. Over Unicode code points
   * this agrees with the order of their UTF-8 encodings.
   */
  predicate StrLess(a: string, b: string): (r: bool)
    ensures |a| < |b| && a == b[..|a|] ==> r
    ensures r ==> a != b && |b| > 0
    ensures r && |a| > 0 ==> a[0] <= b[0]
  {
    exists k :: 0 <= k < |b| && k <= |a| && a[..k] == b[..k] && (k == |a| || a[k] < b[k])
  }

  /**
   * The comparator returned by ByKindPriority(): `Less(lhs, rhs)` holds when
   * `lhs` must be placed before `rhs`.
   */
  predicate Less(lhs: Resource, rhs: Resource): (r: bool)
    ensures Recognised(lhs.kind) && Recognised(rhs.kind) ==> (r <==> Rank(lhs.kind).value < Rank(rhs.kind).value)
    ensures Recognised(lhs.kind) != Recognised(rhs.kind) ==> (r <==> Recognised(lhs.kind))
    ensures !Recognised(lhs.kind) && !Recognised(rhs.kind) ==> (r <==> StrLess(lhs.kind, rhs.kind))
  {
    match (Rank(lhs.kind), Rank(rhs.kind))
    case (Some(a), Some(b)) => a < b
    case (Some(_), None) => true
    case (None, Some(_)) => false
    case (None, None) => StrLess(lhs.kind, rhs.kind)
  }

  /**
   * The rank alone, with every unrecognised kind tied: the order that a stable
   * sort would leave unrecognised kinds in is their input order.
   */
  predicate RankOnlyLess(lhs: Resource, rhs: Resource): (r: bool)
    ensures r ==> Recognised(lhs.kind)
    ensures Recognised(lhs.kind) && !Recognised(rhs.kind) ==> r
  {
    match (Rank(lhs.kind), Rank(rhs.kind))
    case (Some(a), Some(b)) => a < b
    case (Some(_), None) => true
    case (_, _) => false
  }

  // ---------------------------------------------------------------------------
  // The rank table

  /** Every listed kind's rank is its position. */
  lemma RankOfPosition(i: nat)
    requires i < |PriorityOrder|
    ensures Rank(PriorityOrder[i]) == Some(i)
  {
  }

  /** The creation order the kind-priority tests pin down. */
  lemma RankChain()
    ensures Rank("Namespace") == Some(0)
    ensures Rank("Namespace").value < Rank("ServiceAccount").value
    ensures Rank("ServiceAccount").value < Rank("Secret").value
    ensures Rank("Secret").value < Rank("ConfigMap").value
    ensures Rank("ConfigMap").value < Rank("CustomResourceDefinition").value
    ensures Rank("CustomResourceDefinition").value < Rank("Service").value
    ensures Rank("Service").value < Rank("Deployment").value
    ensures Rank("Deployment").value < Rank("Job").value
  {
    // Proof hint: each kind's rank is its position in the table.
    RankOfPosition(0); RankOfPosition(1); RankOfPosition(2); RankOfPosition(3);
    RankOfPosition(4); RankOfPosition(5); RankOfPosition(6); RankOfPosition(7);
  }

  /** The kinds the tests use as unrecognised, and a missing kind, are not in the table. */
  lemma UnlistedKinds()
    ensures !Recognised("UnknownKind")
    ensures !Recognised("AnotherUnknown")
    ensures !Recognised("")
  {
  }

  /** Two recognised kinds with the same rank are the same kind. */
  lemma RankInjective(a: string, b: string)
    requires Recognised(a) && Rank(a) == Rank(b)
    ensures a == b
  {
  }

  // ---------------------------------------------------------------------------
  // Go's string order is a strict total order

  lemma StrLessIrreflexive(a: string)
    ensures !StrLess(a, a)
  {
  }

  lemma StrLessTransitive(a: string, b: string, c: string)
    requires StrLess(a, b) && StrLess(b, c)
    ensures StrLess(a, c)
  {
  }

  /** The length of the longest common prefix of `a` and `b`, counted from `i`. */
  lemma {:induction false} CommonPrefix(a: string, b: string, i: nat) returns (k: nat)
    requires i <= |a| && i <= |b| && a[..i] == b[..i]
    decreases |a| - i
    ensures i <= k <= |a| && k <= |b| && a[..k] == b[..k]
    ensures k == |a| || k == |b| || a[k] != b[k]
  {
    if i == |a| || i == |b| || a[i] != b[i] {
      k := i;
    } else {
      assert a[..i + 1] == a[..i] + [a[i]] && b[..i + 1] == b[..i] + [b[i]];
      k := CommonPrefix(a, b, i + 1);
    }
  }

  lemma StrLessTotal(a: string, b: string)
    ensures a == b || StrLess(a, b) || StrLess(b, a)
  {
    var k := CommonPrefix(a, b, 0);
    if k == |a| && k == |b| {
      assert a == a[..k] && b == b[..k];
    }
  }

  // ---------------------------------------------------------------------------
  // The comparator is a strict weak order whose ties are exactly equal kinds

  lemma LessIrreflexive(x: Resource)
    ensures !Less(x, x)
  {
  }

  lemma LessTransitive(x: Resource, y: Resource, z: Resource)
    requires Less(x, y) && Less(y, z)
    ensures Less(x, z)
  {
    // Proof hint: the unrecognised case goes through string transitivity.
    if !Recognised(x.kind) {
      StrLessTransitive(x.kind, y.kind, z.kind);
    }
  }

  lemma LessAsymmetric(x: Resource, y: Resource)
    requires Less(x, y)
    ensures !Less(y, x)
  {
  }

  /** Neither record goes before the other exactly when both have the same kind. */
  lemma TiedIffSameKind(x: Resource, y: Resource)
    ensures !Less(x, y) && !Less(y, x) <==> x.kind == y.kind
  {
    if x.kind == y.kind {
      StrLessIrreflexive(x.kind);
    } else if Recognised(x.kind) && Recognised(y.kind) {
      if Rank(x.kind) == Rank(y.kind) {
        RankInjective(x.kind, y.kind);
      }
    } else {
      StrLessTotal(x.kind, y.kind);
    }
  }

  /**
   * If `x` goes before `z`, every `y` goes after `x` or before `z`; this is what
   * lets a sort compare only neighbours.
   */
  lemma LessSplit(x: Resource, y: Resource, z: Resource)
    requires Less(x, z)
    ensures Less(x, y) || Less(y, z)
  {
    TiedIffSameKind(x, y);
    TiedIffSameKind(y, z);
    if !Less(x, y) && !Less(y, z) && x.kind != y.kind && y.kind != z.kind {
      LessTransitive(z, y, x);
      LessAsymmetric(x, z);
    }
  }

  /** A recognised kind goes before every unrecognised kind. */
  lemma RecognisedBeforeUnrecognised(x: Resource, y: Resource)
    requires Recognised(x.kind) && !Recognised(y.kind)
    ensures Less(x, y) && !Less(y, x)
  {
  }

  /** A Namespace goes before every record of another kind. */
  lemma NamespaceLeast(ns: Resource, y: Resource)
    requires ns.kind == "Namespace" && y.kind != "Namespace"
    ensures Less(ns, y)
  {
  }

  // ---------------------------------------------------------------------------
  // ByKindPriority() as the comparator handed to Manifest.Sort

  /**
   * `Less` is a strict weak order, and it ties two records exactly when they
   * have the same kind.
   */
  lemma LessOrders()
    ensures StrictWeakOrder(Less)
    ensures TiesAreKinds(Less) && SameKindTies(Less)
  {
    forall x, y | Less(x, y) ensures !Less(y, x) {
      LessAsymmetric(x, y);
    }
    forall x, y, z | Less(x, z) ensures Less(x, y) || Less(y, z) {
      LessSplit(x, y, z);
    }
    forall x, y ensures !Less(x, y) && !Less(y, x) <==> x.kind == y.kind {
      TiedIffSameKind(x, y);
    }
  }

  /**
   * The kind-priority comparator as a value that Manifest.Sort accepts: fit
   * for sorting, with ties exactly between records of the same kind.
   */
  function ByKindPriority(): (less: Comparator)
    ensures StrictWeakOrder(less)
    ensures TiesAreKinds(less) && SameKindTies(less)
  {
    LessOrders();
    Less
  }

  /** `RankOnlyLess` is a strict weak order that never separates records of one kind. */
  lemma RankOnlyLessOrders()
    ensures StrictWeakOrder(RankOnlyLess) && SameKindTies(RankOnlyLess)
  {
  }

  /**
   * The rank-only policy as a comparator value: fit for sorting, and every
   * two unrecognised records tie.
   */
  function RankOnly(): (less: Comparator)
    ensures StrictWeakOrder(less) && SameKindTies(less)
    ensures forall x: Resource, y: Resource :: !Recognised(x.kind) && !Recognised(y.kind) ==> !less(x, y)
  {
    RankOnlyLessOrders();
    RankOnlyLess
  }

  /** In a sorted manifest no record goes before an earlier one. */
  lemma SortedPair(m: seq<Resource>, i: nat, j: nat)
    requires i < j < |m|
    ensures !Less(Sort(m, ByKindPriority())[j], Sort(m, ByKindPriority())[i])
  {
    SortSorted(m, ByKindPriority());
  }

  /** After sorting, no recognised kind follows an unrecognised one. */
  lemma RecognisedFirst(m: seq<Resource>, i: nat, j: nat)
    requires i < j < |m|
    ensures Recognised(Sort(m, ByKindPriority())[j].kind) ==> Recognised(Sort(m, ByKindPriority())[i].kind)
  {
    SortedPair(m, i, j);
  }

  /** After sorting, recognised kinds appear in table order. */
  lemma RecognisedByRank(m: seq<Resource>, i: nat, j: nat)
    requires i < j < |m|
    requires Recognised(Sort(m, ByKindPriority())[i].kind) && Recognised(Sort(m, ByKindPriority())[j].kind)
    ensures Rank(Sort(m, ByKindPriority())[i].kind).value <= Rank(Sort(m, ByKindPriority())[j].kind).value
  {
    SortedPair(m, i, j);
  }

  /** After sorting, unrecognised kinds appear in order of their names. */
  lemma UnrecognisedByName(m: seq<Resource>, i: nat, j: nat)
    requires i < j < |m|
    requires !Recognised(Sort(m, ByKindPriority())[i].kind) && !Recognised(Sort(m, ByKindPriority())[j].kind)
    ensures var a, b := Sort(m, ByKindPriority())[i].kind, Sort(m, ByKindPriority())[j].kind;
            a == b || StrLess(a, b)
  {
    var r := Sort(m, ByKindPriority());
    SortedPair(m, i, j);
    StrLessTotal(r[i].kind, r[j].kind);
  }

  /** After sorting, every Namespace comes before every record of another kind. */
  lemma NamespaceFirst(m: seq<Resource>, i: nat, j: nat)
    requires i < j < |m|
    ensures Sort(m, ByKindPriority())[j].kind == "Namespace" ==> Sort(m, ByKindPriority())[i].kind == "Namespace"
  {
    var r := Sort(m, ByKindPriority());
    SortedPair(m, i, j);
    if r[j].kind == "Namespace" && r[i].kind != "Namespace" {
      NamespaceLeast(r[j], r[i]);
    }
  }
}
