/** The Applications list page: narrowing the fetched applications by the active filters
    (`AppListFilters.filterBy`) and ordering the list items by a chosen field
    (`AppListFilters.sortAppsItems`). */
module AppList {
  import opened Text
  import opened Lists
  import opened Sorting
  import opened ActiveFilters

  /** The fields of an application that the filters read. */
  datatype AppOverview = AppOverview(name: string, istioSidecar: bool)

  /** A row of the list (the health handle is not modelled). */
  datatype AppListItem = AppListItem(namespace: string, name: string, istioSidecar: bool)

  /** The fetched applications of a namespace; `FilterBy` assigns `applications` the filtered list. */
  class AppListResponse {
    var namespace: string
    var applications: seq<AppOverview>

    constructor (namespace: string, applications: seq<AppOverview>)
      ensures this.namespace == namespace && this.applications == applications
    {
      this.namespace := namespace;
      this.applications := applications;
    }
  }

  const AppNameCategory: string := "App Name"
  const IstioSidecarCategory: string := "Istio Sidecar"

  /** An application passes the name filter when no name is selected or its name
      contains a selected string. */
  predicate NameSelected(name: string, names: seq<string>) {
    |names| == 0 || IncludesAny(name, names)
  }

  /** The callback `filterByName` hands to `filter`: the flag `appNameFiltered` starts
      true, turns false when names are selected, and turns true again at the first
      selected string that occurs in the name. */
  method AppNameFiltered(name: string, names: seq<string>) returns (appNameFiltered: bool)
    ensures appNameFiltered <==> NameSelected(name, names)
  {
    appNameFiltered := true;
    if |names| > 0 {
      appNameFiltered := false;
      var i := 0;
      while i < |names|
        invariant 0 <= i <= |names|
        invariant !appNameFiltered
        invariant forall k :: 0 <= k < i ==> !Contains(name, names[k])
      {
        if Contains(name, names[i]) {
          appNameFiltered := true;
          break;
        }
        i := i + 1;
      }
    }
  }

  /** `filterByName`: every application when no name is selected, otherwise exactly the
      applications whose name contains a selected string, in their original order. */
  function FilterByName(items: seq<AppOverview>, names: seq<string>): (r: seq<AppOverview>)
    ensures |names| == 0 ==> r == items
    ensures KeepsExactly(r, items, (a: AppOverview) => NameSelected(a.name, names))
  {
    var r := Filter(items, (a: AppOverview) => NameSelected(a.name, names));
    assert |names| == 0 ==> r == items by {
      if |names| == 0 {
        FilterAllPass(items, (a: AppOverview) => NameSelected(a.name, names));
      }
    }
    r
  }

  /** `filterByIstioSidecar`: exactly the applications whose sidecar flag equals
      `istioSidecar`, in their original order. */
  function FilterByIstioSidecar(items: seq<AppOverview>, istioSidecar: bool): (r: seq<AppOverview>)
    ensures KeepsExactly(r, items, (a: AppOverview) => a.istioSidecar == istioSidecar)
    ensures forall i :: 0 <= i < |r| ==> r[i].istioSidecar == istioSidecar
  {
    var r := Filter(items, (a: AppOverview) => a.istioSidecar == istioSidecar);
    assert forall i :: 0 <= i < |r| ==> r[i].istioSidecar == istioSidecar by {
      forall i | 0 <= i < |r| ensures r[i].istioSidecar == istioSidecar {
        assert multiset(r)[r[i]] > 0;
      }
    }
    r
  }

  /** What `filterBy` reads from the active filters. */
  datatype Selection = Selection(names: seq<string>, istioSidecar: Option<bool>)

  /** The selection of `filterBy`: the de-duplicated selected names, and the sidecar
      choice of the first `Istio Sidecar` filter. */
  function Selected(filters: seq<ActiveFilter>): (sel: Selection)
    ensures forall n :: n in sel.names <==> ActiveFilter(AppNameCategory, n) in filters
    ensures forall i, j :: 0 <= i < j < |sel.names| ==> sel.names[i] != sel.names[j]
  {
    Selection(RemoveDuplicates(ValuesIn(filters, AppNameCategory)), PresenceSelected(filters, IstioSidecarCategory))
  }

  /** An application survives `filterBy` when it passes both the sidecar and the name filter. */
  predicate Admits(sel: Selection, a: AppOverview) {
    PresenceMatches(a.istioSidecar, sel.istioSidecar) && NameSelected(a.name, sel.names)
  }

  /** `filterBy`: narrows `appsList.applications` to exactly the applications the
      selection admits, keeping their order. When no filter has a category it knows,
      nothing is removed. */
  method FilterBy(appsList: AppListResponse, filters: seq<ActiveFilter>)
    modifies appsList`applications
    ensures KeepsExactly(appsList.applications, old(appsList.applications),
      (a: AppOverview) => Admits(Selected(filters), a))
    ensures (forall i :: 0 <= i < |filters| ==>
               filters[i].category != AppNameCategory && filters[i].category != IstioSidecarCategory) ==>
      appsList.applications == old(appsList.applications)
  {
    ghost var original := appsList.applications;
    var appNamesSelected := ValuesIn(filters, AppNameCategory);
    appNamesSelected := RemoveDuplicates(appNamesSelected);

    var istioSidecar := PresenceSelected(filters, IstioSidecarCategory);
    ghost var bySidecar := (a: AppOverview) => PresenceMatches(a.istioSidecar, istioSidecar);
    ghost var byName := (a: AppOverview) => NameSelected(a.name, appNamesSelected);
    if istioSidecar.Some? {
      appsList.applications := FilterByIstioSidecar(appsList.applications, istioSidecar.value);
    } else {
      KeepsAll(original, bySidecar);
    }
    assert KeepsExactly(appsList.applications, original, bySidecar);

    ghost var afterSidecar := appsList.applications;
    if |appNamesSelected| > 0 {
      appsList.applications := FilterByName(appsList.applications, appNamesSelected);
    } else {
      KeepsAll(afterSidecar, byName);
    }
    ghost var sel := Selected(filters);
    assert sel == Selection(appNamesSelected, istioSidecar);
    KeepsExactlyCompose(original, afterSidecar, appsList.applications, bySidecar, byName,
      (a: AppOverview) => Admits(sel, a));

    if forall i :: 0 <= i < |filters| ==>
         filters[i].category != AppNameCategory && filters[i].category != IstioSidecarCategory {
      assert |appNamesSelected| == 0 && istioSidecar.None?;
    }
  }

  /** Applying `filterBy` a second time with the same filters changes nothing. */
  lemma FilterByIdempotent(items: seq<AppOverview>, once: seq<AppOverview>,
                           twice: seq<AppOverview>, filters: seq<ActiveFilter>)
    requires KeepsExactly(once, items, (a: AppOverview) => Admits(Selected(filters), a))
    requires KeepsExactly(twice, once, (a: AppOverview) => Admits(Selected(filters), a))
    ensures twice == once
  {
    var admits := (a: AppOverview) => Admits(Selected(filters), a);
    KeepsExactlyIsFilter(once, items, admits);
    KeepsExactlyIsFilter(twice, once, admits);
    FilterIdempotent(items, admits);
  }

  /** Choosing a filter that is already active once more changes nothing: a repeated
      name is removed as a duplicate, and a repeated sidecar choice comes after the
      first one, which decides. */
  lemma RepeatedFilterIgnored(filters: seq<ActiveFilter>, k: nat, a: AppOverview)
    requires k < |filters|
    ensures Admits(Selected(filters + [filters[k]]), a) == Admits(Selected(filters), a)
  {
    var more := filters + [filters[k]];
    var sel, sel' := Selected(filters), Selected(more);
    assert forall n :: n in sel'.names <==> n in sel.names;
    SameMembersSameMatch(a.name, sel'.names, sel.names);
    if filters[k].category == IstioSidecarCategory {
      LaterPresenceIgnored(filters, filters[k], IstioSidecarCategory);
    } else {
      OtherCategoryIgnored(filters, |filters|, filters[k], IstioSidecarCategory);
      assert filters[..|filters|] + [filters[k]] + filters[|filters|..] == more;
    }
  }

  /** Two name lists with the same members select the same applications. */
  lemma SameMembersSameMatch(name: string, xs: seq<string>, ys: seq<string>)
    requires forall n :: n in xs <==> n in ys
    ensures IncludesAny(name, xs) == IncludesAny(name, ys)
    ensures |xs| == 0 <==> |ys| == 0
  {
    if IncludesAny(name, xs) {
      var i :| 0 <= i < |xs| && Contains(name, xs[i]);
      assert xs[i] in ys;
    }
    if IncludesAny(name, ys) {
      var i :| 0 <= i < |ys| && Contains(name, ys[i]);
      assert ys[i] in xs;
    }
    if |xs| > 0 {
      assert xs[0] in ys;
    }
    if |ys| > 0 {
      assert ys[0] in xs;
    }
  }

  /** A filter whose category `filterBy` does not know, inserted anywhere among the
      active filters, leaves the selection unchanged. */
  lemma UnknownCategoryIgnored(filters: seq<ActiveFilter>, k: nat, f: ActiveFilter)
    requires k <= |filters|
    requires f.category != AppNameCategory && f.category != IstioSidecarCategory
    ensures Selected(filters[..k] + [f] + filters[k..]) == Selected(filters)
  {
    OtherCategoryIgnored(filters, k, f, AppNameCategory);
    OtherCategoryIgnored(filters, k, f, IstioSidecarCategory);
  }

  /** The sortable fields (all but the error rate). */
  datatype SortField = Namespace | AppName | IstioSidecar

  /** The `compare` function of each sort field. */
  function Compare(field: SortField, a: AppListItem, b: AppListItem): (r: int) {
    match field
    case Namespace =>
      var sortValue := LocaleCompare(a.namespace, b.namespace);
      if sortValue == 0 then LocaleCompare(a.name, b.name) else sortValue
    case AppName => LocaleCompare(a.name, b.name)
    case IstioSidecar => PresentFirst(a.istioSidecar, b.istioSidecar, LocaleCompare(a.name, b.name))
  }

  /** The namespace comparator orders by namespace and, within one namespace, by name;
      the name comparator by name alone. */
  lemma NamespaceAndNameOrder(a: AppListItem, b: AppListItem)
    ensures Compare(Namespace, a, b) < 0 <==>
      LexLess(a.namespace, b.namespace) || (a.namespace == b.namespace && LexLess(a.name, b.name))
    ensures Compare(Namespace, a, b) == 0 <==> a.namespace == b.namespace && a.name == b.name
    ensures Compare(AppName, a, b) < 0 <==> LexLess(a.name, b.name)
    ensures Compare(AppName, a, b) == 0 <==> a.name == b.name
  {
    LocaleCompareLess(a.namespace, b.namespace);
    LocaleCompareLess(a.name, b.name);
  }

  /** The sidecar comparator puts applications with a sidecar first and orders
      applications with equal flags by name. */
  lemma SidecarOrder(a: AppListItem, b: AppListItem)
    ensures a.istioSidecar && !b.istioSidecar ==> Compare(IstioSidecar, a, b) < 0
    ensures !a.istioSidecar && b.istioSidecar ==> Compare(IstioSidecar, a, b) > 0
    ensures a.istioSidecar == b.istioSidecar ==>
      (Compare(IstioSidecar, a, b) < 0 <==> LexLess(a.name, b.name)) &&
      (Compare(IstioSidecar, a, b) == 0 <==> a.name == b.name)
  {
    LocaleCompareLess(a.name, b.name);
  }

  /** Every comparator gives opposite answers for swapped arguments. */
  lemma CompareAntisymmetric(field: SortField, a: AppListItem, b: AppListItem)
    ensures Compare(field, a, b) == -Compare(field, b, a)
  {
    LocaleCompareAntisymmetric(a.namespace, b.namespace);
    LocaleCompareAntisymmetric(a.name, b.name);
  }

  /** Every comparator's "no later than" is transitive. */
  lemma CompareTransitive(field: SortField, a: AppListItem, b: AppListItem, c: AppListItem)
    requires Compare(field, a, b) <= 0 && Compare(field, b, c) <= 0
    ensures Compare(field, a, c) <= 0
  {
    match field
    case Namespace =>
      LocaleCompareAntisymmetric(a.namespace, b.namespace);
      LocaleCompareAntisymmetric(b.namespace, c.namespace);
      if LocaleCompare(a.namespace, b.namespace) < 0 || LocaleCompare(b.namespace, c.namespace) < 0 {
        LocaleCompareTransitive(a.namespace, b.namespace, c.namespace);
      } else {
        LocaleCompareTransitive(a.name, b.name, c.name);
      }
    case AppName => LocaleCompareTransitive(a.name, b.name, c.name);
    case IstioSidecar =>
      if a.istioSidecar == c.istioSidecar { LocaleCompareTransitive(a.name, b.name, c.name); }
  }

  /** The comparator `sortAppsItems` hands to the sort: `compare` itself when ascending,
      `(a, b) => compare(b, a)` when descending. */
  function Comparator(sortField: SortField, isAscending: bool): (r: (AppListItem, AppListItem) -> int) {
    if isAscending then (a, b) => Compare(sortField, a, b)
    else (a, b) => Compare(sortField, b, a)
  }

  /** Both directions of every sort field satisfy what the sort asks of a comparator. */
  lemma ComparatorIsTotalPreorder(sortField: SortField, isAscending: bool)
    ensures IsTotalPreorder(Comparator(sortField, isAscending))
  {
    var cmp := Comparator(sortField, isAscending);
    forall x, y ensures Sign(cmp(x, y)) == -Sign(cmp(y, x)) {
      CompareAntisymmetric(sortField, x, y);
    }
    forall x, y, z | cmp(x, y) <= 0 && cmp(y, z) <= 0 ensures cmp(x, z) <= 0 {
      if isAscending {
        CompareTransitive(sortField, x, y, z);
      } else {
        CompareTransitive(sortField, z, y, x);
      }
    }
  }

  /** `sortAppsItems` for every field but the error rate: sorts `unsorted` in place and
      returns it, a permutation of the input ordered by the chosen direction's
      comparator; an already ordered list comes back unchanged. */
  method SortAppsItems(unsorted: array<AppListItem>, sortField: SortField, isAscending: bool)
    returns (sorted: array<AppListItem>)
    modifies unsorted
    ensures sorted == unsorted
    ensures multiset(sorted[..]) == multiset(old(unsorted[..]))
    ensures SortedBy(sorted[..], Comparator(sortField, isAscending))
    ensures SameTies(old(unsorted[..]), sorted[..], Comparator(sortField, isAscending))
    ensures SortedBy(old(unsorted[..]), Comparator(sortField, isAscending)) ==> sorted[..] == old(unsorted[..])
  {
    ComparatorIsTotalPreorder(sortField, isAscending);
    Sort(unsorted, Comparator(sortField, isAscending));
    sorted := unsorted;
  }

  /** A list in ascending order of a field, read backwards, is in descending order. */
  lemma ReversedAscendingIsDescending(s: seq<AppListItem>, sortField: SortField)
    requires SortedBy(s, Comparator(sortField, true))
    ensures SortedBy(Reversed(s), Comparator(sortField, false))
  {
    ReversedSortedBySwapped(s, Comparator(sortField, true));
    var r := Reversed(s);
    forall i, j | 0 <= i < j < |r| ensures Comparator(sortField, false)(r[i], r[j]) <= 0 {
      assert Swapped(Comparator(sortField, true))(r[i], r[j]) <= 0;
    }
  }

  /** Sorting the same items by one field ascending and descending: when no two
      different items compare equal under that field, the descending result is exactly
      the ascending one read backwards. */
  lemma DescendingIsReversedAscending(items: seq<AppListItem>, up: seq<AppListItem>, down: seq<AppListItem>,
                                      sortField: SortField)
    requires NoDistinctTies(items, Comparator(sortField, true))
    requires multiset(up) == multiset(items) && SortedBy(up, Comparator(sortField, true))
    requires multiset(down) == multiset(items) && SortedBy(down, Comparator(sortField, false))
    ensures down == Reversed(up)
  {
    var cmp := Comparator(sortField, true);
    ComparatorIsTotalPreorder(sortField, true);
    assert NoDistinctTies(up, cmp) by {
      forall x, y | x in up && y in up && cmp(x, y) == 0 ensures x == y {
        assert x in multiset(items) && y in multiset(items);
      }
    }
    assert SortedBy(down, Swapped(cmp)) by {
      forall i, j | 0 <= i < j < |down| ensures Swapped(cmp)(down[i], down[j]) <= 0 {
        assert Comparator(sortField, false)(down[i], down[j]) <= 0;
      }
    }
    SwappedSortIsReversed(up, down, cmp);
  }

  /** Two applications of the same name (in different namespaces, say) keep their input
      order when sorted by name, in either direction: the sort is stable, so ties are
      not reversed by descending. */
  lemma NameSortKeepsTies(x: AppListItem, y: AppListItem, isAscending: bool, s: seq<AppListItem>)
    requires x.name == y.name
    requires multiset(s) == multiset([x, y])
    requires SortedBy(s, Comparator(AppName, isAscending))
    requires SameTies([x, y], s, Comparator(AppName, isAscending))
    ensures s == [x, y]
  {
    var cmp := Comparator(AppName, isAscending);
    ComparatorIsTotalPreorder(AppName, isAscending);
    NamespaceAndNameOrder(x, y);
    NamespaceAndNameOrder(y, x);
    assert SortedBy([x, y], cmp);
    SortedUnique([x, y], s, cmp);
  }
}
