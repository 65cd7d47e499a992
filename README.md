# Kind-priority sorting of a manifest

This project models how manifestival orders the resources of a manifest for
creation: `m.Sort(ByKindPriority())`. A manifest is an ordered list of
Kubernetes resource records. `Sort` takes a comparator and returns a new
manifest with the same records reordered. The input manifest is not changed.
`ByKindPriority()` builds the comparator from a fixed table of kinds:

- a recognised kind goes before an unrecognised one;
- two recognised kinds go in table order (Namespace, ServiceAccount, Secret,
  ConfigMap, CustomResourceDefinition, Service, Deployment, Job);
- two unrecognised kinds go in Go string order of their names.

Records of the same kind tie, and the sort keeps them in input order. Under
this comparator those are the only ties.

The sort implementation is not part of this model. Its behaviour is taken from
the two scenarios in `sort_test.go`. `Manifest.Sort` is an insertion sort
that is generic over its comparator, as `Sort` is in the library.
`KindPriority.Less` is the kind-priority comparator.

**Tie-break for unrecognised kinds.** A stable sort in which all
unrecognised kinds tie would keep them in input order; the second test rules
that out. Its input lists UnknownKind before AnotherUnknown, and it expects
AnotherUnknown first. The model orders unrecognised kinds by kind name.
`SortScenarios.InputOrderMissesScenario` proves the point: if unrecognised
kinds tied (`KindPriority.RankOnly`), the result would be Namespace,
Deployment, UnknownKind, AnotherUnknown, which is not the order the test
expects.

Modules:

- `Wrappers`: `Option`.
- `Resources`: a resource record, reduced to its kind and name.
- `Manifest`: the generic insertion sort, with its permutation, order,
  idempotence and uniqueness lemmas. Stability is proved for comparators whose
  ties are records of the same kind.
- `KindPriority`: the rank table, Go string order, the comparator, and what
  the comparator implies for a sorted manifest.
- `SortScenarios`: the two test scenarios, proved for any records of those
  kinds.

## Model

| member | source | states |
|---|---|---|
| KindPriority.IndexFrom | sort_test.go:102-111 | the lookup finds the first position of a kind in the table, or reports that the table does not list it |
| KindPriority.Rank | sort_test.go:102-111 | a kind has a rank exactly when the table lists it, and that rank is its position in the table (through `IndexFrom`) |
| KindPriority.RankOfPosition | sort_test.go:102-111 | every listed kind's rank is its position; the table lists no kind twice |
| KindPriority.RankChain | sort_test.go:102-111 | Namespace has rank 0, and the ranks increase through ServiceAccount, Secret, ConfigMap, CustomResourceDefinition, Service, Deployment, Job |
| KindPriority.UnlistedKinds | sort_test.go:120-159 | UnknownKind, AnotherUnknown and the empty (missing) kind have no rank |
| KindPriority.RankInjective | sort_test.go:102-111 | two recognised kinds with the same rank are the same kind |
| KindPriority.StrLess | sort_test.go:179-180 | Go string order: a proper prefix goes first; a name never goes before itself; a name goes before only a non-empty one, and never before one with a smaller first character |
| KindPriority.CommonPrefix | sort_test.go:179-180 | returns the length of the longest common prefix of two names |
| KindPriority.StrLessIrreflexive | sort_test.go:175-181 | no name goes before itself in string order |
| KindPriority.StrLessTransitive | sort_test.go:175-181 | string order is transitive |
| KindPriority.StrLessTotal | sort_test.go:175-181 | of two different names, one goes before the other |
| KindPriority.Less | sort_test.go:94 | the four-case rule: two recognised kinds compare by rank; a recognised kind goes before an unrecognised one and never after it; two unrecognised kinds compare by string order of their names |
| KindPriority.LessIrreflexive | sort_test.go:94 | no record goes before itself |
| KindPriority.LessTransitive | sort_test.go:94 | the kind-priority order is transitive |
| KindPriority.LessAsymmetric | sort_test.go:94 | two records never both go before each other |
| KindPriority.TiedIffSameKind | sort_test.go:94 | neither of two records goes before the other exactly when they have the same kind |
| KindPriority.LessSplit | sort_test.go:94 | if x goes before z, then every y goes after x or before z |
| KindPriority.RecognisedBeforeUnrecognised | sort_test.go:175-181 | a recognised kind goes before an unrecognised one and never after it |
| KindPriority.NamespaceLeast | sort_test.go:101-104 | a Namespace goes before every record of another kind |
| KindPriority.LessOrders | sort_test.go:94 | `Less` is a strict weak order whose ties are exactly the records of the same kind |
| KindPriority.ByKindPriority | sort_test.go:94 | the comparator handed to `Sort` is a strict weak order whose ties are exactly the records of the same kind |
| KindPriority.RankOnlyLess | sort_test.go:175-181 | the rank-only policy: only a recognised kind can go first, and it goes before every unrecognised kind |
| KindPriority.RankOnlyLessOrders | sort_test.go:175-181 | the rank-only policy is a strict weak order that never separates records of one kind |
| KindPriority.RankOnly | sort_test.go:175-181 | the rank-only comparator is a strict weak order in which every two unrecognised records tie |
| KindPriority.SortedPair | sort_test.go:113-117 | after sorting, no record goes before an earlier record |
| KindPriority.RecognisedFirst | sort_test.go:175-181 | after sorting, no recognised kind follows an unrecognised one |
| KindPriority.RecognisedByRank | sort_test.go:101-117 | after sorting, recognised kinds appear in non-decreasing rank |
| KindPriority.UnrecognisedByName | sort_test.go:175-181 | after sorting, unrecognised kinds appear in string order of their names |
| KindPriority.NamespaceFirst | sort_test.go:101-104 | after sorting, every Namespace precedes every record of another kind |
| Manifest.Insert | sort_test.go:94 | inserting adds one record (contents: `InsertAt`, `InsertPermutation`, `InsertSorted`, `InsertOfKind`) |
| Manifest.Sort | sort_test.go:94 | `m.Sort(...)` returns as many records as it was given (contents: `SortPermutation`, `SortSorted`, `SortKeepsKindOrder`, `SortCharacterised`) |
| Manifest.OfKind | sort_test.go:94 | the records of one kind are all of that kind and no more than the manifest holds |
| Manifest.OfKindMember | sort_test.go:94 | a record is among a kind's records exactly when it is in the manifest with that kind |
| Manifest.Transitive | sort_test.go:94 | a comparator fit for sorting is transitive |
| Manifest.InsertAt | sort_test.go:94 | a record is inserted after the records that go before it and ahead of the first one that does not |
| Manifest.InsertPermutation | sort_test.go:94 | inserting adds exactly that record |
| Manifest.SortPermutation | sort_test.go:94-99 | sorting returns the same records, as a multiset, so the count is unchanged |
| Manifest.InsertSorted | sort_test.go:94 | inserting into a sorted manifest keeps it sorted |
| Manifest.SortSorted | sort_test.go:93-117 | the sorted manifest has every pair of positions in comparator order |
| Manifest.InsertOfKind | sort_test.go:94 | insertion puts the new record ahead of every record of its own kind, and the other records of that kind keep their order |
| Manifest.SortKeepsKindOrder | sort_test.go:94 | for every kind, that kind's records keep their input order (stability) |
| Manifest.SortOfSorted | sort_test.go:94 | sorting an already sorted manifest returns it unchanged |
| Manifest.SortIdempotent | sort_test.go:94 | sorting twice gives the same manifest as sorting once |
| Manifest.SortedStableUnique | sort_test.go:94 | two sorted manifests with the same records of each kind, in the same order, are equal |
| Manifest.SortCharacterised | sort_test.go:94 | the sorted manifest is the only order that is sorted and keeps each kind's input order |
| Manifest.ChainStrictlySorted | sort_test.go:101-117 | if every record goes before the next, every record goes before all later ones |
| Manifest.SameFirst | sort_test.go:94 | a sorted and a strictly sorted arrangement of the same records start with the same record |
| Manifest.SortedMatchesStrict | sort_test.go:94 | a sorted manifest with the same records as a strictly sorted one is equal to it |
| Manifest.SortOfRearrangement | sort_test.go:94 | if no two records tie, sorting any arrangement of them gives the one strict order |
| SortScenarios.SortCons | sort_test.go:94 | sorting a record followed by m places that record into the sorted m |
| SortScenarios.ByKindNeighbours | sort_test.go:101-111 | each kind of the first scenario's expected order goes before the next |
| SortScenarios.ByKindLastFour | sort_test.go:10-118 | the last four input records sort into ServiceAccount, ConfigMap, CRD, Service |
| SortScenarios.ByKindMiddle | sort_test.go:10-118 | adding the Secret and Namespace records gives the first six expected positions |
| SortScenarios.ByKindFront | sort_test.go:10-118 | adding the Deployment and Job records gives the full expected order |
| SortScenarios.ByKindSteps | sort_test.go:10-118 | under any comparator that orders the eight records strictly, they sort into the expected order |
| SortScenarios.ByKindFromNeighbours | sort_test.go:10-118 | the same holds when each expected neighbour goes before the next |
| SortScenarios.ByKind | sort_test.go:10-118 | Job, Deployment, Namespace, Secret, Service, ConfigMap, CRD, ServiceAccount records sort into Namespace, ServiceAccount, Secret, ConfigMap, CRD, Service, Deployment, Job |
| SortScenarios.UnknownKindsNeighbours | sort_test.go:175-181 | Namespace goes before Deployment, Deployment before AnotherUnknown, and AnotherUnknown before UnknownKind |
| SortScenarios.UnknownKindsFromNeighbours | sort_test.go:120-188 | four records chained by any strict weak order sort into that chain |
| SortScenarios.ByKindWithUnknownKinds | sort_test.go:120-188 | UnknownKind, Namespace, AnotherUnknown, Deployment records sort into Namespace, Deployment, AnotherUnknown, UnknownKind |
| SortScenarios.RankOnlyNeighbours | sort_test.go:120-159 | under the rank-only policy, the two unrecognised kinds tie |
| SortScenarios.TiedUnknownsSteps | sort_test.go:120-188 | with the two unknowns tied, a stable sort keeps UnknownKind ahead of AnotherUnknown |
| SortScenarios.InputOrderMissesScenario | sort_test.go:120-188 | ordering the unknowns by input order alone gives a different result from the one the test expects |

## Left out

- Decoding YAML into records (`internal/sources/yaml_test.go`): the sort only sees already-decoded records.
- Unstructured objects: apiVersion, metadata and the other fields are reduced to kind and name, because the comparator reads only the kind. A missing kind is the empty string.
- `Slice`, `ManifestFrom` and the manifest's error path: building a manifest is not part of the sorting core.
- The rest of the production priority table (for example StatefulSet and DaemonSet): only the eight kinds the tests fix are listed. The proofs need:
  - Namespace at position 0 (`KindPriority.NamespaceLeast`, `KindPriority.NamespaceFirst`);
  - the eight kinds in exactly this order (`KindPriority.RankChain`, `SortScenarios.ByKindNeighbours`, and through it `SortScenarios.ByKind`);
  - UnknownKind and AnotherUnknown absent from the table (`KindPriority.UnlistedKinds`, `SortScenarios.UnknownKindsNeighbours` and `SortScenarios.RankOnlyNeighbours`, and through them `SortScenarios.ByKindWithUnknownKinds` and `SortScenarios.InputOrderMissesScenario`).
  - The step lemmas (`SortScenarios.SortCons`, `ByKindLastFour`, `ByKindMiddle`, `ByKindFront`, `ByKindSteps`, `ByKindFromNeighbours`, `UnknownKindsFromNeighbours`, `TiedUnknownsSteps`) take the comparator as a parameter and do not read the table.
- Two different kinds sharing one rank: not modelled. A kind's rank is its position in the table, so distinct kinds always have distinct ranks, and the model has no rule for ordering two different kinds of equal rank. The following rely on distinct ranks:
  - `KindPriority.RankInjective`;
  - `KindPriority.TiedIffSameKind`;
  - the `TiesAreKinds` half of `KindPriority.LessOrders` and of `KindPriority.ByKindPriority`'s contract;
  - through it, `Manifest.SortedStableUnique` and `Manifest.SortCharacterised` applied to `ByKindPriority()`.
- Which key orders unrecognised kinds: the tests cannot tell the kind name (`AnotherUnknown` < `UnknownKind`) from the record's `metadata.name` (`test-another` < `test-unknown`, sort_test.go:128, sort_test.go:146), since both give the expected order. The model uses the kind name. Under a record-name key, the records of one unrecognised kind would be ordered by record name, so `Manifest.SortKeepsKindOrder` would not describe them.
- The library's sort implementation is not part of this model. The insertion sort stands in for whatever stable sort it uses. Only the result is modelled, not the running time.
- Unicode: Go compares strings byte by byte over UTF-8. The model compares code points, which gives the same order.
