/** The user's active filter selections, as both list pages read them. */
module ActiveFilters {
  import opened Lists

  datatype Option<T> = None | Some(value: T)

  /** One `(category, value)` pair chosen in the filter toolbar, such as
      `("Istio Sidecar", "Present")` or `("App Name", "reviews")`. */
  datatype ActiveFilter = ActiveFilter(category: string, value: string)

  /** The value that a presence filter must carry to ask for the flag to be set. */
  const Present: string := "Present"

  /** `filters.filter(f => f.category === category).map(f => f.value)`: the selected
      values of one category, in the order they were chosen. */
  function ValuesIn(filters: seq<ActiveFilter>, category: string): (r: seq<string>)
    ensures forall v :: v in r <==> ActiveFilter(category, v) in filters
    ensures KeepsExactly(seq(|r|, i requires 0 <= i < |r| => ActiveFilter(category, r[i])),
                         filters, (f: ActiveFilter) => f.category == category)
  {
    var selected := Filter(filters, (f: ActiveFilter) => f.category == category);
    assert forall f :: f in selected <==> f in filters && f.category == category by {
      forall f ensures f in selected <==> f in filters && f.category == category {
        assert f in selected <==> multiset(selected)[f] > 0;
      }
    }
    var r := seq(|selected|, i requires 0 <= i < |selected| => selected[i].value);
    assert forall v :: v in r <==> ActiveFilter(category, v) in filters by {
      forall v ensures v in r <==> ActiveFilter(category, v) in filters {
        if v in r {
          var i :| 0 <= i < |r| && r[i] == v;
          assert selected[i] in selected;
        }
        if ActiveFilter(category, v) in filters {
          var i :| 0 <= i < |selected| && selected[i] == ActiveFilter(category, v);
          assert r[i] == v;
        }
      }
    }
    assert seq(|r|, i requires 0 <= i < |r| => ActiveFilter(category, r[i])) == selected by {
      forall i | 0 <= i < |selected| ensures selected[i] == ActiveFilter(category, r[i]) {
        assert selected[i] in selected;
      }
    }
    r
  }

  /** The expected value of a presence flag. With no filter in the category the axis is
      not filtered (`None`); otherwise only the FIRST filter of the category counts, and
      it asks for the flag to be set exactly when its value is `"Present"`. */
  function PresenceSelected(filters: seq<ActiveFilter>, category: string): (r: Option<bool>)
    ensures r.None? <==> forall i :: 0 <= i < |filters| ==> filters[i].category != category
    ensures r.Some? ==>
      exists i :: 0 <= i < |filters| && filters[i].category == category &&
        (forall j :: 0 <= j < i ==> filters[j].category != category) &&
        r.value == (filters[i].value == Present)
  {
    var selected := Filter(filters, (f: ActiveFilter) => f.category == category);
    FilterFirst(filters, (f: ActiveFilter) => f.category == category);
    if |selected| > 0 then Some(selected[0].value == Present) else None
  }

  /** A presence flag passes when the axis is not filtered or the flag has the expected value. */
  predicate PresenceMatches(flag: bool, expected: Option<bool>) {
    expected.None? || flag == expected.value
  }

  /** Once a category has a filter, adding another filter of that category at the end
      does not change the presence choice: the first filter wins. */
  lemma LaterPresenceIgnored(filters: seq<ActiveFilter>, f: ActiveFilter, category: string)
    requires exists i :: 0 <= i < |filters| && filters[i].category == category
    ensures PresenceSelected(filters + [f], category) == PresenceSelected(filters, category)
  {
    var p := (g: ActiveFilter) => g.category == category;
    FilterConcat(filters, [f], p);
    FilterFirst(filters, p);
  }

  /** A filter of another category, inserted anywhere, changes neither the selected
      values nor the presence choice of `category`. */
  lemma OtherCategoryIgnored(filters: seq<ActiveFilter>, k: nat, f: ActiveFilter, category: string)
    requires k <= |filters| && f.category != category
    ensures ValuesIn(filters[..k] + [f] + filters[k..], category) == ValuesIn(filters, category)
    ensures PresenceSelected(filters[..k] + [f] + filters[k..], category) == PresenceSelected(filters, category)
  {
    var p := (g: ActiveFilter) => g.category == category;
    var before, after := filters[..k], filters[k..];
    assert Filter([f], p) == [] by {
      FilterFirst([f], p);
    }
    calc {
      Filter(before + [f] + after, p);
      { FilterConcat(before + [f], after, p); }
      Filter(before + [f], p) + Filter(after, p);
      { FilterConcat(before, [f], p); }
      Filter(before, p) + Filter(after, p);
      { FilterConcat(before, after, p); }
      Filter(before + after, p);
      { assert before + after == filters; }
      Filter(filters, p);
    }
  }
}
