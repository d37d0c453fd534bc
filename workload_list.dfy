/** The Workloads list page: narrowing the fetched workloads by the active filters
    (`WorkloadListFilters.filterBy`) and ordering the list items by a chosen field
    (`WorkloadListFilters.sortWorkloadsItems`). */
module WorkloadList {
  import opened Text
  import opened Lists
  import opened Sorting
  import opened ActiveFilters

  /** The fields of a workload that the filters and comparators read. */
  datatype WorkloadOverview = WorkloadOverview(
    name: string,
    workloadType: string,
    istioSidecar: bool,
    appLabel: bool,
    versionLabel: bool)

  /** A row of the list: a workload and its namespace (the health handle is not modelled). */
  datatype WorkloadListItem = WorkloadListItem(namespace: string, workload: WorkloadOverview)

  /** The fetched workloads of a namespace; `FilterBy` assigns `workloads` the filtered list. */
  class WorkloadNamespaceResponse {
    var namespace: string
    var workloads: seq<WorkloadOverview>

    constructor (namespace: string, workloads: seq<WorkloadOverview>)
      ensures this.namespace == namespace && this.workloads == workloads
    {
      this.namespace := namespace;
      this.workloads := workloads;
    }
  }

  const WorkloadTypeCategory: string := "Workload Type"
  const WorkloadNameCategory: string := "Workload Name"
  const IstioSidecarCategory: string := "Istio Sidecar"
  const AppLabelCategory: string := "App Label"
  const VersionLabelCategory: string := "Version Label"

  /** The names of the `WorkloadType` enumeration; each member's value is its own name. */
  const WorkloadTypes: seq<string> :=
    ["CronJob", "DaemonSet", "Deployment", "DeploymentConfig", "Job", "Pod",
     "ReplicaSet", "ReplicationController", "StatefulSet"]

  /** `WorkloadType[value]` as a search string: the kind itself for a known kind. An
      unknown value looks up `undefined`, which `includes` turns into the text "undefined". */
  function TypeToken(value: string): (r: string) {
    if value in WorkloadTypes then value else "undefined"
  }

  /** `includeName`: true as soon as one of `names` occurs in `name`. */
  method IncludeName(name: string, names: seq<string>) returns (included: bool)
    ensures included <==> IncludesAny(name, names)
  {
    for i := 0 to |names|
      invariant forall k :: 0 <= k < i ==> !Contains(name, names[k])
    {
      if Contains(name, names[i]) {
        return true;
      }
    }
    return false;
  }

  /** A workload passes the type stage when no type is selected or its type contains one. */
  predicate TypeSelected(w: WorkloadOverview, types: seq<string>) {
    |types| == 0 || IncludesAny(w.workloadType, types)
  }

  /** A workload passes the name stage when no name is selected or its name contains one. */
  predicate NameSelected(w: WorkloadOverview, names: seq<string>) {
    |names| == 0 || IncludesAny(w.name, names)
  }

  /** A workload passes the label stage when each defined flag has the requested value. */
  predicate LabelsMatch(w: WorkloadOverview, istioSidecar: Option<bool>, app: Option<bool>, version: Option<bool>) {
    && PresenceMatches(w.istioSidecar, istioSidecar)
    && PresenceMatches(w.appLabel, app)
    && PresenceMatches(w.versionLabel, version)
  }

  /** `filterByType`: the list itself when no type is selected, otherwise exactly the
      workloads whose type contains a selected token, in their original order. */
  function FilterByType(items: seq<WorkloadOverview>, filter: seq<string>): (r: seq<WorkloadOverview>)
    ensures |filter| == 0 ==> r == items
    ensures KeepsExactly(r, items, (w: WorkloadOverview) => TypeSelected(w, filter))
  {
    if |filter| == 0 then
      KeepsAll(items, (w: WorkloadOverview) => TypeSelected(w, filter));
      items
    else
      Filter(items, (w: WorkloadOverview) => IncludesAny(w.workloadType, filter))
  }

  /** `filterByName`: the list itself when no name is selected, otherwise exactly the
      workloads whose name contains a selected string, in their original order. */
  function FilterByName(items: seq<WorkloadOverview>, names: seq<string>): (r: seq<WorkloadOverview>)
    ensures |names| == 0 ==> r == items
    ensures KeepsExactly(r, items, (w: WorkloadOverview) => NameSelected(w, names))
  {
    if |names| == 0 then
      KeepsAll(items, (w: WorkloadOverview) => NameSelected(w, names));
      items
    else
      Filter(items, (w: WorkloadOverview) => IncludesAny(w.name, names))
  }

  /** `filterByLabel`: each axis given as `None` (`undefined`) is left unfiltered; each
      defined axis keeps exactly the workloads whose flag equals the requested value. */
  method FilterByLabel(items: seq<WorkloadOverview>, istioSidecar: Option<bool>, app: Option<bool>, version: Option<bool>)
    returns (result: seq<WorkloadOverview>)
    ensures KeepsExactly(result, items, (w: WorkloadOverview) => LabelsMatch(w, istioSidecar, app, version))
  {
    ghost var bySidecar := (w: WorkloadOverview) => PresenceMatches(w.istioSidecar, istioSidecar);
    ghost var byApp := (w: WorkloadOverview) => PresenceMatches(w.appLabel, app);
    ghost var byVersion := (w: WorkloadOverview) => PresenceMatches(w.versionLabel, version);
    ghost var bySidecarApp := (w: WorkloadOverview) => bySidecar(w) && byApp(w);

    result := items;
    if istioSidecar.Some? {
      var exact := (w: WorkloadOverview) => w.istioSidecar == istioSidecar.value;
      result := Filter(result, exact);
      KeepsExactlySame(result, items, exact, bySidecar);
    } else {
      KeepsAll(result, bySidecar);
    }
    assert KeepsExactly(result, items, bySidecar);

    ghost var afterSidecar := result;
    if app.Some? {
      var exact := (w: WorkloadOverview) => w.appLabel == app.value;
      result := Filter(result, exact);
      KeepsExactlySame(result, afterSidecar, exact, byApp);
    } else {
      KeepsAll(result, byApp);
    }
    assert KeepsExactly(result, afterSidecar, byApp);
    KeepsExactlyCompose(items, afterSidecar, result, bySidecar, byApp, bySidecarApp);

    ghost var afterApp := result;
    if version.Some? {
      var exact := (w: WorkloadOverview) => w.versionLabel == version.value;
      result := Filter(result, exact);
      KeepsExactlySame(result, afterApp, exact, byVersion);
    } else {
      KeepsAll(result, byVersion);
    }
    assert KeepsExactly(result, afterApp, byVersion);
    KeepsExactlyCompose(items, afterApp, result, bySidecarApp, byVersion,
      (w: WorkloadOverview) => LabelsMatch(w, istioSidecar, app, version));
  }

  /** What `filterBy` reads from the active filters. */
  datatype Selection = Selection(
    types: seq<string>,
    names: seq<string>,
    istioSidecar: Option<bool>,
    appLabel: Option<bool>,
    versionLabel: Option<bool>)

  /** The selection of `filterBy`: de-duplicated type tokens and names, and for each
      presence category the choice of its first filter. */
  function Selected(filters: seq<ActiveFilter>): (sel: Selection)
    ensures forall t :: t in sel.types <==>
      exists v :: ActiveFilter(WorkloadTypeCategory, v) in filters && t == TypeToken(v)
    ensures forall i, j :: 0 <= i < j < |sel.types| ==> sel.types[i] != sel.types[j]
    ensures forall n :: n in sel.names <==> ActiveFilter(WorkloadNameCategory, n) in filters
    ensures forall i, j :: 0 <= i < j < |sel.names| ==> sel.names[i] != sel.names[j]
  {
    var values := ValuesIn(filters, WorkloadTypeCategory);
    var tokens := seq(|values|, i requires 0 <= i < |values| => TypeToken(values[i]));
    assert forall t :: t in tokens <==> exists v :: v in values && t == TypeToken(v) by {
      forall t ensures t in tokens <==> exists v :: v in values && t == TypeToken(v) {
        if t in tokens {
          var i :| 0 <= i < |tokens| && tokens[i] == t;
          assert values[i] in values;
        }
        if exists v :: v in values && t == TypeToken(v) {
          var v :| v in values && t == TypeToken(v);
          var i :| 0 <= i < |values| && values[i] == v;
          assert tokens[i] == t;
        }
      }
    }
    Selection(
      RemoveDuplicates(tokens),
      RemoveDuplicates(ValuesIn(filters, WorkloadNameCategory)),
      PresenceSelected(filters, IstioSidecarCategory),
      PresenceSelected(filters, AppLabelCategory),
      PresenceSelected(filters, VersionLabelCategory))
  }

  /** A workload survives `filterBy` when it passes every stage: categories combine by
      AND, the selections within the type and name categories by OR. */
  predicate Admits(sel: Selection, w: WorkloadOverview) {
    && TypeSelected(w, sel.types)
    && NameSelected(w, sel.names)
    && LabelsMatch(w, sel.istioSidecar, sel.appLabel, sel.versionLabel)
  }

  /** `filterBy`: narrows `response.workloads` to exactly the workloads the selection
      admits, keeping their order. With no active filter nothing is removed. */
  method FilterBy(response: WorkloadNamespaceResponse, filters: seq<ActiveFilter>)
    modifies response`workloads
    ensures KeepsExactly(response.workloads, old(response.workloads),
      (w: WorkloadOverview) => Admits(Selected(filters), w))
    ensures filters == [] ==> response.workloads == old(response.workloads)
  {
    ghost var original := response.workloads;
    var typeValues := ValuesIn(filters, WorkloadTypeCategory);
    var workloadTypeFilters :=
      RemoveDuplicates(seq(|typeValues|, i requires 0 <= i < |typeValues| => TypeToken(typeValues[i])));

    response.workloads := FilterByType(response.workloads, workloadTypeFilters);
    ghost var afterType := response.workloads;

    var workloadNamesSelected := RemoveDuplicates(ValuesIn(filters, WorkloadNameCategory));
    var istioSidecar := PresenceSelected(filters, IstioSidecarCategory);
    var appLabel := PresenceSelected(filters, AppLabelCategory);
    var versionLabel := PresenceSelected(filters, VersionLabelCategory);

    response.workloads := FilterByName(response.workloads, workloadNamesSelected);
    ghost var afterName := response.workloads;
    var labelled := FilterByLabel(response.workloads, istioSidecar, appLabel, versionLabel);
    response.workloads := labelled;

    ghost var sel := Selected(filters);
    assert sel == Selection(workloadTypeFilters, workloadNamesSelected, istioSidecar, appLabel, versionLabel);
    ghost var byType := (w: WorkloadOverview) => TypeSelected(w, sel.types);
    ghost var byTypeName := (w: WorkloadOverview) => TypeSelected(w, sel.types) && NameSelected(w, sel.names);
    KeepsExactlyCompose(original, afterType, afterName, byType,
      (w: WorkloadOverview) => NameSelected(w, sel.names), byTypeName);
    KeepsExactlyCompose(original, afterName, response.workloads, byTypeName,
      (w: WorkloadOverview) => LabelsMatch(w, sel.istioSidecar, sel.appLabel, sel.versionLabel),
      (w: WorkloadOverview) => Admits(sel, w));

    if filters == [] {
      NoFiltersAdmitAll(original);
      KeepsExactlyIsFilter(response.workloads, original, (w: WorkloadOverview) => Admits(sel, w));
      FilterAllPass(original, (w: WorkloadOverview) => Admits(sel, w));
    }
  }

  /** With no active filter every workload is admitted. */
  lemma NoFiltersAdmitAll(items: seq<WorkloadOverview>)
    ensures forall i :: 0 <= i < |items| ==> Admits(Selected([]), items[i])
  {
    assert Selected([]).types == [];
  }

  /** Applying `filterBy` a second time with the same filters changes nothing: a list that
      `filterBy` produced keeps all of itself. */
  lemma FilterByIdempotent(items: seq<WorkloadOverview>, once: seq<WorkloadOverview>,
                           twice: seq<WorkloadOverview>, filters: seq<ActiveFilter>)
    requires KeepsExactly(once, items, (w: WorkloadOverview) => Admits(Selected(filters), w))
    requires KeepsExactly(twice, once, (w: WorkloadOverview) => Admits(Selected(filters), w))
    ensures twice == once
  {
    var admits := (w: WorkloadOverview) => Admits(Selected(filters), w);
    KeepsExactlyIsFilter(once, items, admits);
    KeepsExactlyIsFilter(twice, once, admits);
    FilterIdempotent(items, admits);
  }

  /** A filter whose category `filterBy` does not know, inserted anywhere among the
      active filters, leaves the selection unchanged. */
  lemma UnknownCategoryIgnored(filters: seq<ActiveFilter>, k: nat, f: ActiveFilter)
    requires k <= |filters|
    requires f.category !in [WorkloadTypeCategory, WorkloadNameCategory, IstioSidecarCategory,
                             AppLabelCategory, VersionLabelCategory]
    ensures Selected(filters[..k] + [f] + filters[k..]) == Selected(filters)
  {
    OtherCategoryIgnored(filters, k, f, WorkloadTypeCategory);
    OtherCategoryIgnored(filters, k, f, WorkloadNameCategory);
    OtherCategoryIgnored(filters, k, f, IstioSidecarCategory);
    OtherCategoryIgnored(filters, k, f, AppLabelCategory);
    OtherCategoryIgnored(filters, k, f, VersionLabelCategory);
  }

  /** Type matching is by substring: selecting `Deployment` also keeps a
      `DeploymentConfig`, while selecting `DeploymentConfig` does not keep a `Deployment`. */
  lemma TypeFilterIsSubstringMatch(w: WorkloadOverview)
    ensures w.workloadType == "DeploymentConfig" ==> TypeSelected(w, ["Deployment"])
    ensures w.workloadType == "Deployment" ==> !TypeSelected(w, ["DeploymentConfig"])
  {
    if w.workloadType == "DeploymentConfig" {
      assert OccursAt(w.workloadType, "Deployment", 0);
      assert ["Deployment"][0] == "Deployment";
    }
  }

  /** A single `Istio Sidecar = Present` filter keeps exactly the workloads with a sidecar;
      any other value of that filter keeps exactly the ones without. */
  lemma SidecarPresentFilter(w: WorkloadOverview, value: string)
    ensures Admits(Selected([ActiveFilter(IstioSidecarCategory, value)]), w) <==>
      w.istioSidecar == (value == Present)
  {
    var filters := [ActiveFilter(IstioSidecarCategory, value)];
    var sel := Selected(filters);
    assert filters[0].category == IstioSidecarCategory;
    assert sel.istioSidecar == Some(value == Present);
    assert sel.appLabel == None && sel.versionLabel == None;
    assert |sel.names| == 0;
    assert |ValuesIn(filters, WorkloadTypeCategory)| == 0;
  }

  /** The sortable fields (all but the error rate). */
  datatype SortField = Namespace | WorkloadName | WorkloadType | IstioSidecar | AppLabel | VersionLabel

  /** The `compare` function of each sort field. */
  function Compare(field: SortField, a: WorkloadListItem, b: WorkloadListItem): (r: int) {
    match field
    case Namespace =>
      var sortValue := LocaleCompare(a.namespace, b.namespace);
      if sortValue == 0 then LocaleCompare(a.workload.name, b.workload.name) else sortValue
    case WorkloadName => LocaleCompare(a.workload.name, b.workload.name)
    case WorkloadType => LocaleCompare(a.workload.workloadType, b.workload.workloadType)
    case IstioSidecar =>
      PresentFirst(a.workload.istioSidecar, b.workload.istioSidecar, LocaleCompare(a.workload.name, b.workload.name))
    case AppLabel =>
      PresentFirst(a.workload.appLabel, b.workload.appLabel, LocaleCompare(a.workload.name, b.workload.name))
    case VersionLabel =>
      PresentFirst(a.workload.versionLabel, b.workload.versionLabel, LocaleCompare(a.workload.name, b.workload.name))
  }

  /** The flag a presence field sorts on. */
  function Flag(field: SortField, w: WorkloadOverview): (r: bool)
    requires field.IstioSidecar? || field.AppLabel? || field.VersionLabel?
  {
    match field
    case IstioSidecar => w.istioSidecar
    case AppLabel => w.appLabel
    case VersionLabel => w.versionLabel
  }

  /** The namespace comparator orders by namespace and, within one namespace, by name. */
  lemma NamespaceOrder(a: WorkloadListItem, b: WorkloadListItem)
    ensures Compare(Namespace, a, b) < 0 <==>
      LexLess(a.namespace, b.namespace) ||
      (a.namespace == b.namespace && LexLess(a.workload.name, b.workload.name))
    ensures Compare(Namespace, a, b) == 0 <==>
      a.namespace == b.namespace && a.workload.name == b.workload.name
  {
    LocaleCompareLess(a.namespace, b.namespace);
    LocaleCompareLess(a.workload.name, b.workload.name);
  }

  /** The name and type comparators order by that one string. */
  lemma SingleFieldOrder(a: WorkloadListItem, b: WorkloadListItem)
    ensures Compare(WorkloadName, a, b) < 0 <==> LexLess(a.workload.name, b.workload.name)
    ensures Compare(WorkloadName, a, b) == 0 <==> a.workload.name == b.workload.name
    ensures Compare(WorkloadType, a, b) < 0 <==> LexLess(a.workload.workloadType, b.workload.workloadType)
    ensures Compare(WorkloadType, a, b) == 0 <==> a.workload.workloadType == b.workload.workloadType
  {
    LocaleCompareLess(a.workload.name, b.workload.name);
    LocaleCompareLess(a.workload.workloadType, b.workload.workloadType);
  }

  /** The presence comparators put a workload with the flag set before one without, and
      order workloads with equal flags by name. */
  lemma PresenceOrder(field: SortField, a: WorkloadListItem, b: WorkloadListItem)
    requires field.IstioSidecar? || field.AppLabel? || field.VersionLabel?
    ensures Flag(field, a.workload) && !Flag(field, b.workload) ==> Compare(field, a, b) < 0
    ensures !Flag(field, a.workload) && Flag(field, b.workload) ==> Compare(field, a, b) > 0
    ensures Flag(field, a.workload) == Flag(field, b.workload) ==>
      (Compare(field, a, b) < 0 <==> LexLess(a.workload.name, b.workload.name)) &&
      (Compare(field, a, b) == 0 <==> a.workload.name == b.workload.name)
  {
    LocaleCompareLess(a.workload.name, b.workload.name);
  }

  /** Every comparator gives opposite answers for swapped arguments. */
  lemma CompareAntisymmetric(field: SortField, a: WorkloadListItem, b: WorkloadListItem)
    ensures Compare(field, a, b) == -Compare(field, b, a)
  {
    LocaleCompareAntisymmetric(a.namespace, b.namespace);
    LocaleCompareAntisymmetric(a.workload.name, b.workload.name);
    LocaleCompareAntisymmetric(a.workload.workloadType, b.workload.workloadType);
  }

  /** Every comparator's "no later than" is transitive. */
  lemma CompareTransitive(field: SortField, a: WorkloadListItem, b: WorkloadListItem, c: WorkloadListItem)
    requires Compare(field, a, b) <= 0 && Compare(field, b, c) <= 0
    ensures Compare(field, a, c) <= 0
  {
    var an, bn, cn := a.workload.name, b.workload.name, c.workload.name;
    match field
    case Namespace =>
      var sa, sb, sc := a.namespace, b.namespace, c.namespace;
      LocaleCompareAntisymmetric(sa, sb);
      LocaleCompareAntisymmetric(sb, sc);
      if LocaleCompare(sa, sb) < 0 || LocaleCompare(sb, sc) < 0 {
        LocaleCompareTransitive(sa, sb, sc);
      } else {
        LocaleCompareTransitive(an, bn, cn);
      }
    case WorkloadName => LocaleCompareTransitive(an, bn, cn);
    case WorkloadType =>
      LocaleCompareTransitive(a.workload.workloadType, b.workload.workloadType, c.workload.workloadType);
    case IstioSidecar =>
      if a.workload.istioSidecar == c.workload.istioSidecar { LocaleCompareTransitive(an, bn, cn); }
    case AppLabel =>
      if a.workload.appLabel == c.workload.appLabel { LocaleCompareTransitive(an, bn, cn); }
    case VersionLabel =>
      if a.workload.versionLabel == c.workload.versionLabel { LocaleCompareTransitive(an, bn, cn); }
  }

  /** The comparator `sortWorkloadsItems` hands to the sort: `compare` itself when
      ascending, `(a, b) => compare(b, a)` when descending. */
  function Comparator(sortField: SortField, isAscending: bool): (r: (WorkloadListItem, WorkloadListItem) -> int) {
    if isAscending then (a, b) => Compare(sortField, a, b)
    else (a, b) => Compare(sortField, b, a)
  }

  /** Both directions of every sort field satisfy what the sort asks of a comparator. */
  lemma ComparatorIsTotalPreorder(sortField: SortField, isAscending: bool)
    ensures IsTotalPreorder(Comparator(sortField, isAscending))
  {
    var cmp := Comparator(sortField, isAscending);
    forall x, y ensures Sign(cmp(x, y)) == -Sign(cmp(y, x)) {
      CompareAntisymmetric(sortField, x, y);
    }
    forall x, y, z | cmp(x, y) <= 0 && cmp(y, z) <= 0 ensures cmp(x, z) <= 0 {
      if isAscending {
        CompareTransitive(sortField, x, y, z);
      } else {
        CompareTransitive(sortField, z, y, x);
      }
    }
  }

  /** `sortWorkloadsItems` for every field but the error rate: sorts `unsorted` in place
      and returns it, a permutation of the input ordered by the chosen direction's
      comparator; an already ordered list comes back unchanged. */
  method SortWorkloadsItems(unsorted: array<WorkloadListItem>, sortField: SortField, isAscending: bool)
    returns (sorted: array<WorkloadListItem>)
    modifies unsorted
    ensures sorted == unsorted
    ensures multiset(sorted[..]) == multiset(old(unsorted[..]))
    ensures SortedBy(sorted[..], Comparator(sortField, isAscending))
    ensures SameTies(old(unsorted[..]), sorted[..], Comparator(sortField, isAscending))
    ensures SortedBy(old(unsorted[..]), Comparator(sortField, isAscending)) ==> sorted[..] == old(unsorted[..])
  {
    ComparatorIsTotalPreorder(sortField, isAscending);
    Sort(unsorted, Comparator(sortField, isAscending));
    sorted := unsorted;
  }

  /** A list in ascending order of a field, read backwards, is in descending order. */
  lemma ReversedAscendingIsDescending(s: seq<WorkloadListItem>, sortField: SortField)
    requires SortedBy(s, Comparator(sortField, true))
    ensures SortedBy(Reversed(s), Comparator(sortField, false))
  {
    ReversedSortedBySwapped(s, Comparator(sortField, true));
    var r := Reversed(s);
    forall i, j | 0 <= i < j < |r| ensures Comparator(sortField, false)(r[i], r[j]) <= 0 {
      assert Swapped(Comparator(sortField, true))(r[i], r[j]) <= 0;
    }
  }

  /** Sorting the same items by one field ascending and descending: when no two
      different items compare equal under that field, the descending result is exactly
      the ascending one read backwards. */
  lemma DescendingIsReversedAscending(items: seq<WorkloadListItem>, up: seq<WorkloadListItem>, down: seq<WorkloadListItem>,
                                      sortField: SortField)
    requires NoDistinctTies(items, Comparator(sortField, true))
    requires multiset(up) == multiset(items) && SortedBy(up, Comparator(sortField, true))
    requires multiset(down) == multiset(items) && SortedBy(down, Comparator(sortField, false))
    ensures down == Reversed(up)
  {
    var cmp := Comparator(sortField, true);
    ComparatorIsTotalPreorder(sortField, true);
    assert NoDistinctTies(up, cmp) by {
      forall x, y | x in up && y in up && cmp(x, y) == 0 ensures x == y {
        assert x in multiset(items) && y in multiset(items);
      }
    }
    assert SortedBy(down, Swapped(cmp)) by {
      forall i, j | 0 <= i < j < |down| ensures Swapped(cmp)(down[i], down[j]) <= 0 {
        assert Comparator(sortField, false)(down[i], down[j]) <= 0;
      }
    }
    SwappedSortIsReversed(up, down, cmp);
  }

  /** Two workloads of the same type keep their input order when sorted by type, in
      either direction: the sort is stable, so ties are not reversed by descending. */
  lemma TypeSortKeepsTies(x: WorkloadListItem, y: WorkloadListItem, isAscending: bool, s: seq<WorkloadListItem>)
    requires x.workload.workloadType == y.workload.workloadType
    requires multiset(s) == multiset([x, y])
    requires SortedBy(s, Comparator(WorkloadType, isAscending))
    requires SameTies([x, y], s, Comparator(WorkloadType, isAscending))
    ensures s == [x, y]
  {
    var cmp := Comparator(WorkloadType, isAscending);
    ComparatorIsTotalPreorder(WorkloadType, isAscending);
    SingleFieldOrder(x, y);
    SingleFieldOrder(y, x);
    assert SortedBy([x, y], cmp);
    SortedUnique([x, y], s, cmp);
  }

  /** Sorting `[{name: "a", namespace: "z"}, {name: "b", namespace: "a"}]` by namespace
      ascending gives `[{name: "b", namespace: "a"}, {name: "a", namespace: "z"}]`. */
  lemma NamespaceSortExample(w: WorkloadOverview, v: WorkloadOverview, s: seq<WorkloadListItem>)
    requires w.name == "a" && v.name == "b"
    requires multiset(s) == multiset([WorkloadListItem("z", w), WorkloadListItem("a", v)])
    requires SortedBy(s, Comparator(Namespace, true))
    ensures s == [WorkloadListItem("a", v), WorkloadListItem("z", w)]
  {
    var x, y := WorkloadListItem("z", w), WorkloadListItem("a", v);
    assert |s| == 2 by {
      assert |multiset(s)| == 2;
    }
    assert LocaleCompare("z", "a") == 1;
    assert s[0] in multiset(s) && s[1] in multiset(s);
    assert Compare(Namespace, s[0], s[1]) <= 0;
    if s[0] == x {
      assert false;
    }
    assert s[0] == y;
    assert multiset(s) == multiset{y, s[1]} by {
      assert s == [y, s[1]];
    }
  }
}
