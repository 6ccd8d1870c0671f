/** The component documentation page: grouping the components by category
    for the side navigation, finding the component named by the route, the
    active navigation item, and the cells of the API table. */
module ComponentDoc {
  import opened Wrappers
  import opened Seqs

  /** `ComponentMeta`. */
  datatype ComponentMeta = ComponentMeta(id: string, name: string, description: string,
                                         tags: seq<string>, category: string)

  function CategoryIs(category: string): ComponentMeta -> bool {
    (c: ComponentMeta) => c.category == category
  }

  /** The categories that occur among the components. */
  function Categories(components: seq<ComponentMeta>): set<string> {
    set c | c in components :: c.category
  }

  /** One `reduce` step of `groupByCategory`: the component is appended to
      its category's group, which is created if it does not exist yet. */
  function AddToGroup(groups: map<string, seq<ComponentMeta>>, c: ComponentMeta): map<string, seq<ComponentMeta>> {
    if c.category in groups then groups[c.category := groups[c.category] + [c]]
    else groups[c.category := [c]]
  }

  /** The grouping `groupByCategory` is meant to build: the steps applied to
      the components in input order, starting from no groups. */
  function Grouped(components: seq<ComponentMeta>): map<string, seq<ComponentMeta>> {
    if components == [] then map[]
    else AddToGroup(Grouped(components[..|components| - 1]), components[|components| - 1])
  }

  /** One step adds the component's category to the groups, appends the
      component at the end of its group (a new group holds it alone), and
      leaves every other group as it was. */
  lemma AddToGroupAppends(groups: map<string, seq<ComponentMeta>>, c: ComponentMeta)
    ensures AddToGroup(groups, c).Keys == groups.Keys + {c.category}
    ensures AddToGroup(groups, c)[c.category] == (if c.category in groups then groups[c.category] else []) + [c]
    ensures forall k :: k in groups && k != c.category ==> AddToGroup(groups, c)[k] == groups[k]
  {
  }

  /** One step keeps group `k` equal to the filter by `k`, given that the
      groups before it were. */
  lemma AddToGroupIsFilter(init: seq<ComponentMeta>, c: ComponentMeta, k: string)
    requires Grouped(init).Keys == Categories(init)
    requires forall k' :: k' in Grouped(init) ==> Grouped(init)[k'] == Filter(init, CategoryIs(k'))
    requires k in AddToGroup(Grouped(init), c)
    ensures AddToGroup(Grouped(init), c)[k] == Filter(init + [c], CategoryIs(k))
  {
    FilterSnoc(init, c, CategoryIs(k));
    if k == c.category && k !in Grouped(init) {
      FilterKeepsNone(init, CategoryIs(k));
    }
  }

  /** What the grouping holds: one group per category present, and in it
      exactly that category's components, in input order. */
  lemma {:induction false} GroupedIsFilter(components: seq<ComponentMeta>)
    ensures Grouped(components).Keys == Categories(components)
    ensures forall k :: k in Grouped(components) ==> Grouped(components)[k] == Filter(components, CategoryIs(k))
  {
    if components != [] {
      var init, c := components[..|components| - 1], components[|components| - 1];
      assert components == init + [c];
      GroupedIsFilter(init);
      assert Categories(components) == Categories(init) + {c.category};
      forall k | k in Grouped(components)
        ensures Grouped(components)[k] == Filter(components, CategoryIs(k))
      {
        AddToGroupIsFilter(init, c, k);
      }
    }
  }

  /** `groupByCategory(components)`: a loop that creates a category's list on
      first sight and pushes each component onto it. */
  method GroupByCategory(components: seq<ComponentMeta>) returns (groups: map<string, seq<ComponentMeta>>)
    ensures groups == Grouped(components)
  {
    groups := map[];
    var i := 0;
    while i < |components|
      invariant 0 <= i <= |components|
      invariant groups == Grouped(components[..i])
    {
      var c := components[i];
      assert components[..i + 1][..i] == components[..i];
      ghost var before := groups;
      if c.category !in groups {
        groups := groups[c.category := []];
      }
      groups := groups[c.category := groups[c.category] + [c]];
      assert groups == AddToGroup(before, c) by {
        assert [] + [c] == [c];
      }
      i := i + 1;
    }
    assert components[..|components|] == components;
  }

  /** Every component is in the group of its category and in no other. */
  lemma EachInExactlyItsGroup(components: seq<ComponentMeta>, i: nat)
    requires i < |components|
    ensures var c := components[i];
            && c.category in Grouped(components) && c in Grouped(components)[c.category]
            && forall k :: k in Grouped(components) && k != c.category ==> c !in Grouped(components)[k]
  {
    var c := components[i];
    GroupedIsFilter(components);
    FilterMembership(components, CategoryIs(c.category), c);
    forall k | k in Grouped(components) && k != c.category
      ensures c !in Grouped(components)[k]
    {
      FilterMembership(components, CategoryIs(k), c);
    }
  }

  /** The groups are exactly the categories present, and none is empty. */
  lemma GroupsNonEmpty(components: seq<ComponentMeta>)
    ensures Grouped(components).Keys == Categories(components)
    ensures forall k :: k in Grouped(components) ==> |Grouped(components)[k]| > 0
  {
    GroupedIsFilter(components);
    forall k | k in Grouped(components)
      ensures |Grouped(components)[k]| > 0
    {
      var c :| c in components && c.category == k;
      FilterMembership(components, CategoryIs(k), c);
    }
  }

  /** Within a group, earlier components come first: grouping a concatenation
      puts the first part's members of each category before the second's. */
  lemma GroupsKeepOrder(a: seq<ComponentMeta>, b: seq<ComponentMeta>, k: string)
    requires k in Grouped(a + b)
    ensures Grouped(a + b)[k] == Filter(a, CategoryIs(k)) + Filter(b, CategoryIs(k))
  {
    GroupedIsFilter(a + b);
    FilterAppend(a, b, CategoryIs(k));
  }

  /** The names every plain JavaScript object inherits from `Object.prototype`.
      Reading one of them from the `{}` accumulator yields a truthy value
      that is not an array. */
  const ObjectPrototypeNames: set<string> := {
    "constructor", "hasOwnProperty", "isPrototypeOf", "propertyIsEnumerable",
    "toString", "toLocaleString", "valueOf", "__proto__",
    "__defineGetter__", "__defineSetter__", "__lookupGetter__", "__lookupSetter__"
  }

  /** `groupByCategory` as written, over a plain-object accumulator: a
      category that names an inherited member is not initialised (the
      inherited value is truthy) and `push` is then not a function, so the
      call throws (`None`). */
  function GroupByCategoryAsWritten(components: seq<ComponentMeta>): (r: Option<map<string, seq<ComponentMeta>>>)
    ensures r.Some? ==> r.value.Keys == Categories(components)
  {
    if components == [] then Some(map[])
    else
      var c := components[|components| - 1];
      assert components == components[..|components| - 1] + [c];
      assert Categories(components) == Categories(components[..|components| - 1]) + {c.category};
      match GroupByCategoryAsWritten(components[..|components| - 1])
      case None => None
      case Some(acc) =>
        if c.category in acc then Some(acc[c.category := acc[c.category] + [c]])
        else if c.category in ObjectPrototypeNames then None
        else Some(acc[c.category := [c]])
  }

  /** No category of `s + [c]` is inherited when none of `s`'s is and `c`'s is not. */
  lemma NoneInherited(s: seq<ComponentMeta>, c: ComponentMeta)
    requires forall i :: 0 <= i < |s| ==> s[i].category !in ObjectPrototypeNames
    requires c.category !in ObjectPrototypeNames
    ensures forall i :: 0 <= i < |s + [c]| ==> (s + [c])[i].category !in ObjectPrototypeNames
  {
    forall i | 0 <= i < |s + [c]|
      ensures (s + [c])[i].category !in ObjectPrototypeNames
    {
      if i < |s| {
        assert (s + [c])[i] == s[i];
      }
    }
  }

  /** The code as written throws exactly when some category names an
      inherited member, and otherwise builds the intended grouping. */
  lemma {:induction false} AsWrittenThrowsOnInheritedNames(components: seq<ComponentMeta>)
    ensures GroupByCategoryAsWritten(components).None? <==>
            exists i :: 0 <= i < |components| && components[i].category in ObjectPrototypeNames
    ensures GroupByCategoryAsWritten(components).Some? ==> GroupByCategoryAsWritten(components).value == Grouped(components)
  {
    if components != [] {
      var init, c := components[..|components| - 1], components[|components| - 1];
      assert components == init + [c];
      AsWrittenThrowsOnInheritedNames(init);
      if exists i :: 0 <= i < |init| && init[i].category in ObjectPrototypeNames {
        var i :| 0 <= i < |init| && init[i].category in ObjectPrototypeNames;
        assert components[i] == init[i];
      } else if c.category in Grouped(init) {
        GroupedIsFilter(init);
        var d :| d in init && d.category == c.category;
        var i :| 0 <= i < |init| && init[i] == d;
        NoneInherited(init, c);
      } else if c.category in ObjectPrototypeNames {
        assert components[|components| - 1].category in ObjectPrototypeNames;
      } else {
        NoneInherited(init, c);
      }
    }
  }

  /** A one-component list whose category is "constructor": the code as
      written throws, the intended grouping has one group. */
  lemma ConstructorCategoryCounterexample(c: ComponentMeta)
    requires c.category == "constructor"
    ensures GroupByCategoryAsWritten([c]).None?
    ensures Grouped([c]) == map["constructor" := [c]]
  {
    assert [c][..0] == [];
  }

  function IdIs(id: string): ComponentMeta -> bool {
    (c: ComponentMeta) => c.id == id
  }

  /** What the page shows for the route's id. */
  datatype DocView = NotFound | Page(meta: ComponentMeta)

  /** `meta = components.find(c => c.id === id)`; without it the not-found
      message is rendered instead of the page. */
  function DocPage(components: seq<ComponentMeta>, id: string): (v: DocView)
    ensures v.NotFound? <==> forall i :: 0 <= i < |components| ==> components[i].id != id
    ensures v.Page? ==> exists i :: 0 <= i < |components| && components[i] == v.meta && v.meta.id == id &&
                                    forall j :: 0 <= j < i ==> components[j].id != id
  {
    match Find(components, IdIs(id))
    case None => NotFound
    case Some(meta) => Page(meta)
  }

  /** A navigation item is highlighted when it is the shown component. */
  function IsActive(item: ComponentMeta, meta: ComponentMeta): (active: bool)
    ensures item == meta ==> active
    ensures active <==> item.id == meta.id
  {
    item.id == meta.id
  }

  /** On a found page, a navigation item is active exactly when its id is the
      route's id, whether or not ids repeat. */
  lemma ActiveIffRouteId(components: seq<ComponentMeta>, id: string, i: nat)
    requires DocPage(components, id).Page? && i < |components|
    ensures IsActive(components[i], DocPage(components, id).meta) <==> components[i].id == id
  {
  }

  predicate UniqueIds(components: seq<ComponentMeta>) {
    forall i, j :: 0 <= i < j < |components| ==> components[i].id != components[j].id
  }

  /** With unique ids, exactly one navigation item is active on a found page:
      the shown component. */
  lemma ExactlyOneActive(components: seq<ComponentMeta>, id: string) returns (index: nat)
    requires UniqueIds(components)
    requires DocPage(components, id).Page?
    ensures index < |components| && components[index] == DocPage(components, id).meta
    ensures forall i :: 0 <= i < |components| ==> (IsActive(components[i], DocPage(components, id).meta) <==> i == index)
  {
    var meta := DocPage(components, id).meta;
    index :| index < |components| && components[index] == meta && meta.id == id;
  }

  /** A row of the API table: `defaultValue` and `version` may be missing. */
  datatype ApiRow = ApiRow(name: string, description: string, typ: string,
                           defaultValue: Option<string>, version: Option<string>)

  /** The five cells of an API row; a missing default or version shows as '-'. */
  function ApiCells(row: ApiRow): (cells: seq<string>)
    ensures |cells| == 5
    ensures cells[..3] == [row.name, row.description, row.typ]
    ensures row.defaultValue.Some? ==> cells[3] == row.defaultValue.value
    ensures row.version.Some? ==> cells[4] == row.version.value
    ensures row.defaultValue.None? ==> cells[3] == "-"
    ensures row.version.None? ==> cells[4] == "-"
  {
    [row.name, row.description, row.typ, row.defaultValue.GetOr("-"), row.version.GetOr("-")]
  }

  /** The two row backgrounds of the API table. */
  datatype Stripe = Background | Tinted

  /** Even rows get the page background, odd rows the tint. */
  function ApiRowStripe(index: nat): (s: Stripe)
    ensures s == Background <==> index % 2 == 0
  {
    if index % 2 == 0 then Background else Tinted
  }

  /** Neighbouring rows always differ in background. */
  lemma StripesAlternate(index: nat)
    ensures ApiRowStripe(index) != ApiRowStripe(index + 1)
  {
  }
}
