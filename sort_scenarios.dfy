/** The two kind-priority test scenarios, stated on the model. */
module SortScenarios {
  import opened Resources
  import opened KindPriority
  import opened Manifest

  /**
   * Sorting `[x] + m` puts `x` after the records of the sorted `m` that go
   * before it and ahead of the rest.
   */
  lemma SortCons(x: Resource, m: seq<Resource>, a: seq<Resource>, b: seq<Resource>, less: Comparator)
    requires Sort(m, less) == a + b
    requires forall i :: 0 <= i < |a| ==> less(a[i], x)
    requires |b| == 0 || !less(b[0], x)
    ensures Sort([x] + m, less) == a + [x] + b
  {
    assert ([x] + m)[1..] == m;
    InsertAt(x, a, b, less);
  }

  /** The kinds of the first scenario, in the order the test expects, each go before the next. */
  lemma ByKindNeighbours(j: Resource, d: Resource, ns: Resource, se: Resource,
                         sv: Resource, cm: Resource, crd: Resource, sa: Resource)
    requires j.kind == "Job" && d.kind == "Deployment" && ns.kind == "Namespace"
    requires se.kind == "Secret" && sv.kind == "Service" && cm.kind == "ConfigMap"
    requires crd.kind == "CustomResourceDefinition" && sa.kind == "ServiceAccount"
    ensures Less(ns, sa) && Less(sa, se) && Less(se, cm) && Less(cm, crd)
    ensures Less(crd, sv) && Less(sv, d) && Less(d, j)
  {
    RankChain();
  }

  /** The last four records of the first scenario sort into ServiceAccount, ConfigMap, CRD, Service order. */
  lemma ByKindLastFour(sv: Resource, cm: Resource, crd: Resource, sa: Resource, less: Comparator)
    requires less(sa, crd) && less(sa, cm) && !less(crd, cm)
    requires less(sa, sv) && less(cm, sv) && less(crd, sv)
    ensures Sort([sv, cm, crd, sa], less) == [sa, cm, crd, sv]
  {
    SortCons(sa, [], [], [], less);
    assert [sa] + [] == [sa];
    SortCons(crd, [sa], [sa], [], less);
    assert [crd] + [sa] == [crd, sa] && [sa] + [crd] + [] == [sa] + [crd];
    SortCons(cm, [crd, sa], [sa], [crd], less);
    assert [cm] + [crd, sa] == [cm, crd, sa] && [sa] + [cm] + [crd] == [sa, cm, crd] + [];
    SortCons(sv, [cm, crd, sa], [sa, cm, crd], [], less);
    assert [sv] + [cm, crd, sa] == [sv, cm, crd, sa];
  }

  /** Secret and then Namespace are inserted into the sorted last four. */
  lemma ByKindMiddle(ns: Resource, se: Resource, sv: Resource, cm: Resource, crd: Resource, sa: Resource,
                     less: Comparator)
    requires Sort([sv, cm, crd, sa], less) == [sa, cm, crd, sv]
    requires less(sa, se) && !less(cm, se) && !less(sa, ns)
    ensures Sort([ns, se, sv, cm, crd, sa], less) == [ns, sa, se, cm, crd, sv]
  {
    assert [sa, cm, crd, sv] == [sa] + [cm, crd, sv];
    SortCons(se, [sv, cm, crd, sa], [sa], [cm, crd, sv], less);
    assert [se] + [sv, cm, crd, sa] == [se, sv, cm, crd, sa];
    assert [sa] + [se] + [cm, crd, sv] == [] + [sa, se, cm, crd, sv];
    SortCons(ns, [se, sv, cm, crd, sa], [], [sa, se, cm, crd, sv], less);
    assert [ns] + [se, sv, cm, crd, sa] == [ns, se, sv, cm, crd, sa];
  }

  /** Deployment and then Job are inserted after the sorted first six. */
  lemma ByKindFront(j: Resource, d: Resource, ns: Resource, se: Resource,
                    sv: Resource, cm: Resource, crd: Resource, sa: Resource, less: Comparator)
    requires Sort([ns, se, sv, cm, crd, sa], less) == [ns, sa, se, cm, crd, sv]
    requires StrictlySorted([ns, sa, se, cm, crd, sv, d, j], less)
    ensures Sort([j, d, ns, se, sv, cm, crd, sa], less) == [ns, sa, se, cm, crd, sv, d, j]
  {
    var t := [ns, sa, se, cm, crd, sv, d, j];
    assert t[0] == ns && t[1] == sa && t[2] == se && t[3] == cm && t[4] == crd && t[5] == sv && t[6] == d && t[7] == j;
    var front := [ns, sa, se, cm, crd, sv];
    assert forall i :: 0 <= i < |front| ==> less(front[i], d) by { assert forall i :: 0 <= i < |front| ==> front[i] == t[i]; }
    assert front + [] == front;
    SortCons(d, [ns, se, sv, cm, crd, sa], front, [], less);
    assert [d] + [ns, se, sv, cm, crd, sa] == [d, ns, se, sv, cm, crd, sa];
    var front7 := front + [d];
    assert forall i :: 0 <= i < |front7| ==> less(front7[i], j) by { assert forall i :: 0 <= i < |front7| ==> front7[i] == t[i]; }
    assert front + [d] + [] == front7 + [];
    SortCons(j, [d, ns, se, sv, cm, crd, sa], front7, [], less);
    assert [j] + [d, ns, se, sv, cm, crd, sa] == [j, d, ns, se, sv, cm, crd, sa];
  }

  /**
   * Eight records whose expected order is strict under `less` sort into that
   * order, followed one inserted record at a time.
   */
  lemma ByKindSteps(j: Resource, d: Resource, ns: Resource, se: Resource,
                    sv: Resource, cm: Resource, crd: Resource, sa: Resource, less: Comparator)
    requires Asymmetric(less) && StrictlySorted([ns, sa, se, cm, crd, sv, d, j], less)
    ensures Sort([j, d, ns, se, sv, cm, crd, sa], less) == [ns, sa, se, cm, crd, sv, d, j]
  {
    var t := [ns, sa, se, cm, crd, sv, d, j];
    assert t[0] == ns && t[1] == sa && t[2] == se && t[3] == cm && t[4] == crd && t[5] == sv && t[6] == d && t[7] == j;
    ByKindLastFour(sv, cm, crd, sa, less);
    ByKindMiddle(ns, se, sv, cm, crd, sa, less);
    ByKindFront(j, d, ns, se, sv, cm, crd, sa, less);
  }

  /** The same eight records sort into that order under any comparator that chains them. */
  lemma ByKindFromNeighbours(j: Resource, d: Resource, ns: Resource, se: Resource,
                             sv: Resource, cm: Resource, crd: Resource, sa: Resource, less: Comparator)
    requires StrictWeakOrder(less)
    requires less(ns, sa) && less(sa, se) && less(se, cm) && less(cm, crd)
    requires less(crd, sv) && less(sv, d) && less(d, j)
    ensures Sort([j, d, ns, se, sv, cm, crd, sa], less) == [ns, sa, se, cm, crd, sv, d, j]
  {
    var t := [ns, sa, se, cm, crd, sv, d, j];
    assert forall i :: 0 < i < |t| ==> less(t[i - 1], t[i]) by {
      assert t[0] == ns && t[1] == sa && t[2] == se && t[3] == cm && t[4] == crd && t[5] == sv && t[6] == d && t[7] == j;
    }
    ChainStrictlySorted(t, less);
    ByKindSteps(j, d, ns, se, sv, cm, crd, sa, less);
  }

  /**
   * Job, Deployment, Namespace, Secret, Service, ConfigMap,
   * CustomResourceDefinition and ServiceAccount records, in that order, sort
   * into Namespace, ServiceAccount, Secret, ConfigMap, CustomResourceDefinition,
   * Service, Deployment, Job.
   */
  lemma ByKind(j: Resource, d: Resource, ns: Resource, se: Resource,
               sv: Resource, cm: Resource, crd: Resource, sa: Resource)
    requires j.kind == "Job" && d.kind == "Deployment" && ns.kind == "Namespace"
    requires se.kind == "Secret" && sv.kind == "Service" && cm.kind == "ConfigMap"
    requires crd.kind == "CustomResourceDefinition" && sa.kind == "ServiceAccount"
    ensures Sort([j, d, ns, se, sv, cm, crd, sa], ByKindPriority()) == [ns, sa, se, cm, crd, sv, d, j]
  {
    ByKindNeighbours(j, d, ns, se, sv, cm, crd, sa);
    ByKindFromNeighbours(j, d, ns, se, sv, cm, crd, sa, ByKindPriority());
  }

  /** In the second scenario's expected order, each record goes before the next. */
  lemma UnknownKindsNeighbours(u: Resource, ns: Resource, a: Resource, d: Resource)
    requires u.kind == "UnknownKind" && ns.kind == "Namespace"
    requires a.kind == "AnotherUnknown" && d.kind == "Deployment"
    ensures Less(ns, d) && Less(d, a) && Less(a, u)
  {
    RankChain();
    UnlistedKinds();
    assert a.kind[..0] == u.kind[..0] && a.kind[0] < u.kind[0];
  }

  /** Four records sort into the order in which each goes before the next, under any comparator. */
  lemma UnknownKindsFromNeighbours(u: Resource, ns: Resource, a: Resource, d: Resource, less: Comparator)
    requires StrictWeakOrder(less)
    requires less(ns, d) && less(d, a) && less(a, u)
    ensures Sort([u, ns, a, d], less) == [ns, d, a, u]
  {
    Transitive(less, ns, d, a);
    Transitive(less, d, a, u);
    assert !less(d, ns);
    SortCons(d, [], [], [], less);
    SortCons(a, [d], [d], [], less);
    SortCons(ns, [a, d], [], [d, a], less);
    SortCons(u, [ns, a, d], [ns, d, a], [], less);
  }

  /**
   * UnknownKind, Namespace, AnotherUnknown and Deployment records sort into
   * Namespace, Deployment, AnotherUnknown, UnknownKind: recognised kinds first
   * in rank order, then unrecognised kinds by name.
   */
  lemma ByKindWithUnknownKinds(u: Resource, ns: Resource, a: Resource, d: Resource)
    requires u.kind == "UnknownKind" && ns.kind == "Namespace"
    requires a.kind == "AnotherUnknown" && d.kind == "Deployment"
    ensures Sort([u, ns, a, d], ByKindPriority()) == [ns, d, a, u]
  {
    UnknownKindsNeighbours(u, ns, a, d);
    UnknownKindsFromNeighbours(u, ns, a, d, ByKindPriority());
  }

  /** Under the rank-only policy the second scenario's two unrecognised kinds tie. */
  lemma RankOnlyNeighbours(u: Resource, ns: Resource, a: Resource, d: Resource)
    requires u.kind == "UnknownKind" && ns.kind == "Namespace"
    requires a.kind == "AnotherUnknown" && d.kind == "Deployment"
    ensures RankOnlyLess(d, a) && !RankOnlyLess(d, ns) && RankOnlyLess(ns, u)
    ensures RankOnlyLess(d, u) && !RankOnlyLess(a, u)
  {
  }

  /** A stable sort under a comparator with these facts keeps UnknownKind ahead of AnotherUnknown. */
  lemma TiedUnknownsSteps(u: Resource, ns: Resource, a: Resource, d: Resource, less: Comparator)
    requires less(d, a) && !less(d, ns) && less(ns, u) && less(d, u) && !less(a, u)
    ensures Sort([u, ns, a, d], less) == [ns, d, u, a]
  {
    SortCons(d, [], [], [], less);
    SortCons(a, [d], [d], [], less);
    SortCons(ns, [a, d], [], [d, a], less);
    SortCons(u, [ns, a, d], [ns, d], [a], less);
  }

  /**
   * Ties broken by input order alone would put UnknownKind before
   * AnotherUnknown, which is not the order the second scenario expects;
   * the name order of `Less` gives the expected one.
   */
  lemma InputOrderMissesScenario(u: Resource, ns: Resource, a: Resource, d: Resource)
    requires u.kind == "UnknownKind" && ns.kind == "Namespace"
    requires a.kind == "AnotherUnknown" && d.kind == "Deployment"
    ensures Sort([u, ns, a, d], RankOnly()) == [ns, d, u, a]
    ensures Sort([u, ns, a, d], RankOnly()) != Sort([u, ns, a, d], ByKindPriority())
  {
    RankOnlyNeighbours(u, ns, a, d);
    TiedUnknownsSteps(u, ns, a, d, RankOnly());
    ByKindWithUnknownKinds(u, ns, a, d);
    assert [ns, d, u, a][2] != [ns, d, a, u][2];
  }
}
