/** The skills catalogue of the profile data: skills read from the master profile, each
    with its category resolved by slug, the slug filter behind `getSkills`, and the
    search-and-group step behind the skills page. The master profile's two lists are
    arguments. */
module Skills {
  import opened Outcomes
  import opened Text

  datatype Category = Category(slug: string, name: string)

  /** The fields that are copied through unchanged. */
  datatype Details = Details(color: string, logo: string, description: string, shortDescription: string)

  /** A skill as the master profile lists it; a missing or `null` category is `""`. */
  datatype RawSkill = RawSkill(slug: string, name: string, details: Details, category: string)

  /** A skill with its category resolved; `None` is `undefined`. */
  datatype Skill = Skill(slug: string, name: string, details: Details, category: Option<Category>)

  /** One group of the skills page. */
  datatype Group = Group(category: Category, items: seq<Skill>)

  const OthersCategory: Category := Category("others", "Others")

  // ---------------------------------------------------------------------------------
  // Category resolution
  // ---------------------------------------------------------------------------------

  /** `categories.find(cat => cat.slug === slug)`. */
  function FindCategory(cats: seq<Category>, slug: string): (r: Option<Category>)
    ensures r.None? <==> forall i :: 0 <= i < |cats| ==> cats[i].slug != slug
    ensures r.Some? ==> r.value in cats && r.value.slug == slug
  {
    if |cats| == 0 then None
    else if cats[0].slug == slug then Some(cats[0])
    else
      var r := FindCategory(cats[1..], slug);
      assert forall i :: 1 <= i < |cats| ==> cats[i] == cats[1..][i - 1];
      r
  }

  /** The category found is the first one with the slug. */
  lemma {:induction false} FindCategoryFirst(cats: seq<Category>, slug: string, i: nat)
    requires i < |cats| && cats[i].slug == slug
    requires forall j :: 0 <= j < i ==> cats[j].slug != slug
    ensures FindCategory(cats, slug) == Some(cats[i])
  {
    if i > 0 {
      assert cats[1..][i - 1] == cats[i];
      FindCategoryFirst(cats[1..], slug, i - 1);
    }
  }

  /** One entry of `items`: the fields copied, and the category looked up by slug when the
      raw category is truthy. */
  function Resolve(cats: seq<Category>, raw: RawSkill): (r: Skill)
    ensures r.slug == raw.slug && r.name == raw.name && r.details == raw.details
    ensures r.category.Some? <==> Truthy(raw.category) && exists i :: 0 <= i < |cats| && cats[i].slug == raw.category
    ensures r.category.Some? ==> r.category.value in cats && r.category.value.slug == raw.category
  {
    Skill(raw.slug, raw.name, raw.details, if Truthy(raw.category) then FindCategory(cats, raw.category) else None)
  }

  /** `items`: every master skill, resolved, in master order. */
  function Items(cats: seq<Category>, raws: seq<RawSkill>): (r: seq<Skill>)
    ensures |r| == |raws|
    ensures forall i :: 0 <= i < |r| ==> r[i] == Resolve(cats, raws[i])
  {
    seq(|raws|, i requires 0 <= i < |raws| => Resolve(cats, raws[i]))
  }

  // ---------------------------------------------------------------------------------
  // getSkills
  // ---------------------------------------------------------------------------------

  /** An item passes the slug filter: every item when no slug is given, else the listed
      ones. */
  predicate Listed(slugs: seq<string>, x: Skill) {
    |slugs| == 0 || x.slug in slugs
  }

  /** `getSkills(...slugs)`: the items that pass the filter, in items order. */
  function GetSkills(items: seq<Skill>, slugs: seq<string>): (r: seq<Skill>)
    ensures |r| <= |items|
    ensures forall x :: x in r <==> x in items && (|slugs| == 0 || x.slug in slugs)
  {
    if |items| == 0 then []
    else (if Listed(slugs, items[0]) then [items[0]] else []) + GetSkills(items[1..], slugs)
  }

  /** `getSkillsBySlug` forwards its arguments to `getSkills` unchanged. */
  function GetSkillsBySlug(items: seq<Skill>, slugs: seq<string>): (r: seq<Skill>)
    ensures r == GetSkills(items, slugs)
  {
    GetSkills(items, slugs)
  }

  /** With no slug, every item is returned, in order. */
  lemma {:induction false} GetSkillsNoSlugs(items: seq<Skill>)
    ensures GetSkills(items, []) == items
  {
    if |items| > 0 {
      GetSkillsNoSlugs(items[1..]);
      assert items == [items[0]] + items[1..];
    }
  }

  /** The filter works item by item: the result for consecutive runs of items is the
      result for the first run followed by that for the second, and a single item is
      kept exactly when it is listed. Together these fix the order: items order. */
  lemma {:induction false} GetSkillsAppend(a: seq<Skill>, b: seq<Skill>, slugs: seq<string>)
    ensures GetSkills(a + b, slugs) == GetSkills(a, slugs) + GetSkills(b, slugs)
    ensures forall x :: GetSkills([x], slugs) == if Listed(slugs, x) then [x] else []
  {
    if |a| > 0 {
      assert (a + b)[1..] == a[1..] + b;
      assert (a + b)[0] == a[0];
      GetSkillsAppend(a[1..], b, slugs);
      AppendAssoc(if Listed(slugs, a[0]) then [a[0]] else [], GetSkills(a[1..], slugs), GetSkills(b, slugs));
    } else {
      assert a + b == b;
    }
    forall x ensures GetSkills([x], slugs) == if Listed(slugs, x) then [x] else [] {
      assert [x][1..] == [];
    }
  }

  /** Each item occurs in the result as often as in the items when listed, and not at all
      otherwise: repeating a slug adds nothing. */
  lemma {:induction false} GetSkillsCount(items: seq<Skill>, slugs: seq<string>, x: Skill)
    ensures multiset(GetSkills(items, slugs))[x] == if Listed(slugs, x) then multiset(items)[x] else 0
  {
    if |items| > 0 {
      GetSkillsCount(items[1..], slugs, x);
      assert items == [items[0]] + items[1..];
    }
  }

  /** Only the set of slugs matters, not their order or repetition. */
  lemma {:induction false} GetSkillsSlugSet(items: seq<Skill>, s1: seq<string>, s2: seq<string>)
    requires forall s :: s in s1 <==> s in s2
    ensures GetSkills(items, s1) == GetSkills(items, s2)
  {
    if |s1| > 0 {
      assert s1[0] in s2;
    }
    if |s2| > 0 {
      assert s2[0] in s1;
    }
    if |items| > 0 {
      GetSkillsSlugSet(items[1..], s1, s2);
    }
  }

  // ---------------------------------------------------------------------------------
  // groupByCategory
  // ---------------------------------------------------------------------------------

  /** The search filter: a whitespace-only query keeps every item; otherwise the item's
      name, lower-cased, must contain the trimmed query, lower-cased. */
  predicate Matches(query: string, x: Skill) {
    !Truthy(Trim(query)) || Contains(Lower(x.name), Lower(Trim(query)))
  }

  /** The state of the `forEach`: the category groups so far and the items without a
      category. */
  datatype Acc = Acc(out: seq<Group>, others: seq<Skill>)

  /** `out.find(it => it.category.slug === slug)`, as a position. */
  function GroupIndex(out: seq<Group>, slug: string): (r: Option<nat>)
    ensures r.None? <==> forall i :: 0 <= i < |out| ==> out[i].category.slug != slug
    ensures r.Some? ==> r.value < |out| && out[r.value].category.slug == slug
    ensures r.Some? ==> forall j :: 0 <= j < r.value ==> out[j].category.slug != slug
  {
    if |out| == 0 then None
    else if out[0].category.slug == slug then Some(0)
    else
      match GroupIndex(out[1..], slug)
      case None =>
        assert forall i :: 1 <= i < |out| ==> out[i] == out[1..][i - 1];
        None
      case Some(i) => Some(i + 1)
  }

  /** A kept item joins the others when it has no category, else the group of its
      category's slug, which is opened at the end when there is none yet. */
  function Add(acc: Acc, x: Skill): Acc {
    if x.category.None? then Acc(acc.out, acc.others + [x])
    else
      match GroupIndex(acc.out, x.category.value.slug)
      case None => Acc(acc.out + [Group(x.category.value, [x])], acc.others)
      case Some(i) => Acc(acc.out[i := Group(acc.out[i].category, acc.out[i].items + [x])], acc.others)
  }

  /** The `forEach` over the items, in order. */
  function Scan(items: seq<Skill>, query: string): Acc {
    if |items| == 0 then Acc([], [])
    else
      var acc := Scan(items[..|items| - 1], query);
      var x := items[|items| - 1];
      if Matches(query, x) then Add(acc, x) else acc
  }

  /** `groupByCategory(query)`: the category groups, then the `Others` group when it is
      not empty. */
  function GroupByCategory(items: seq<Skill>, query: string): seq<Group> {
    var acc := Scan(items, query);
    if |acc.others| != 0 then acc.out + [Group(OthersCategory, acc.others)] else acc.out
  }

  // An independent description of the groups, by filtering.

  /** The items the search keeps, in items order. */
  function Kept(items: seq<Skill>, query: string): (r: seq<Skill>)
    ensures forall x :: x in r <==> x in items && Matches(query, x)
  {
    if |items| == 0 then []
    else
      var init := items[..|items| - 1];
      var x := items[|items| - 1];
      assert items == init + [x];
      Kept(init, query) + (if Matches(query, x) then [x] else [])
  }

  predicate InCategory(x: Skill, slug: string) {
    x.category.Some? && x.category.value.slug == slug
  }

  /** The items of the category with slug `slug`, in order. */
  function Members(xs: seq<Skill>, slug: string): (r: seq<Skill>)
    ensures forall y :: y in r <==> y in xs && InCategory(y, slug)
  {
    if |xs| == 0 then []
    else
      var init := xs[..|xs| - 1];
      var x := xs[|xs| - 1];
      assert xs == init + [x];
      Members(init, slug) + (if InCategory(x, slug) then [x] else [])
  }

  /** The items without a category, in order. */
  function Uncategorised(xs: seq<Skill>): (r: seq<Skill>)
    ensures forall y :: y in r <==> y in xs && y.category.None?
  {
    if |xs| == 0 then []
    else
      var init := xs[..|xs| - 1];
      var x := xs[|xs| - 1];
      assert xs == init + [x];
      Uncategorised(init) + (if x.category.None? then [x] else [])
  }

  /** The category slugs in order of first occurrence. */
  function SlugOrder(xs: seq<Skill>): (r: seq<string>)
    ensures forall i, j :: 0 <= i < j < |r| ==> r[i] != r[j]
    ensures forall s :: s in r <==> exists y :: y in xs && InCategory(y, s)
  {
    if |xs| == 0 then []
    else
      var init := xs[..|xs| - 1];
      var x := xs[|xs| - 1];
      assert xs == init + [x];
      var before := SlugOrder(init);
      if x.category.Some? && x.category.value.slug !in before then
        assert InCategory(x, x.category.value.slug);
        before + [x.category.value.slug]
      else
        before
  }

  /** The group of one slug: the category of its first item, and its items. */
  function GroupOf(xs: seq<Skill>, slug: string): (r: Group)
    ensures r.category.slug == slug
  {
    var ms := Members(xs, slug);
    Group(if |ms| > 0 then assert ms[0] in ms; ms[0].category.value else Category(slug, ""), ms)
  }

  function CategoryGroups(xs: seq<Skill>): (r: seq<Group>)
    ensures |r| == |SlugOrder(xs)|
  {
    seq(|SlugOrder(xs)|, i requires 0 <= i < |SlugOrder(xs)| => GroupOf(xs, SlugOrder(xs)[i]))
  }

  /** The groups of a list of kept items: one per category slug in order of first
      occurrence, holding that category's items in order, then the items without a
      category, when there are any. */
  function Reference(xs: seq<Skill>): seq<Group> {
    CategoryGroups(xs) + (if |Uncategorised(xs)| != 0 then [Group(OthersCategory, Uncategorised(xs))] else [])
  }

  /** A list seen as its front part and its last item. */
  lemma SnocParts(k: seq<Skill>, x: Skill)
    ensures |k + [x]| > 0 && (k + [x])[..|k + [x]| - 1] == k && (k + [x])[|k + [x]| - 1] == x
  {
  }

  /** The category groups list the slugs in order. */
  lemma GroupSlugs(k: seq<Skill>)
    ensures forall i :: 0 <= i < |CategoryGroups(k)| ==> CategoryGroups(k)[i].category.slug == SlugOrder(k)[i]
  {
  }

  /** A category slug is listed exactly when the category has items. */
  lemma MembersPresent(k: seq<Skill>, slug: string)
    ensures |Members(k, slug)| > 0 <==> slug in SlugOrder(k)
  {
    if |Members(k, slug)| > 0 {
      assert Members(k, slug)[0] in Members(k, slug);
    }
  }

  /** One more item only changes the items of its own category. */
  lemma MembersSnoc(k: seq<Skill>, x: Skill, t: string)
    ensures Members(k + [x], t) == Members(k, t) + (if InCategory(x, t) then [x] else [])
  {
    SnocParts(k, x);
  }

  /** One more item only changes the slugs when its category is new. */
  lemma SlugOrderSnoc(k: seq<Skill>, x: Skill)
    ensures SlugOrder(k + [x]) ==
      if x.category.Some? && x.category.value.slug !in SlugOrder(k) then SlugOrder(k) + [x.category.value.slug]
      else SlugOrder(k)
  {
    SnocParts(k, x);
  }

  /** One more item joins the end of its own category's group and leaves the others. */
  lemma GroupOfSnoc(k: seq<Skill>, x: Skill, t: string)
    ensures !InCategory(x, t) ==> GroupOf(k + [x], t) == GroupOf(k, t)
    ensures InCategory(x, t) && |Members(k, t)| > 0 ==>
      GroupOf(k + [x], t) == Group(GroupOf(k, t).category, GroupOf(k, t).items + [x])
    ensures InCategory(x, t) && |Members(k, t)| == 0 ==> GroupOf(k + [x], t) == Group(x.category.value, [x])
  {
    MembersSnoc(k, x, t);
    var ms := Members(k, t);
    if InCategory(x, t) && |ms| > 0 {
      assert (ms + [x])[0] == ms[0];
    }
  }

  /** An item without a category leaves the category groups as they were. */
  lemma AddUncategorised(k: seq<Skill>, x: Skill)
    requires x.category.None?
    ensures Add(Acc(CategoryGroups(k), Uncategorised(k)), x) == Acc(CategoryGroups(k + [x]), Uncategorised(k + [x]))
  {
    SnocParts(k, x);
    SlugOrderSnoc(k, x);
    var (cg, cg2) := (CategoryGroups(k), CategoryGroups(k + [x]));
    forall j | 0 <= j < |cg| ensures cg2[j] == cg[j] {
      GroupOfSnoc(k, x, SlugOrder(k)[j]);
    }
    assert cg2 == cg;
  }

  /** A group with the slug and none before it is the one `find` returns. */
  lemma GroupIndexAt(out: seq<Group>, slug: string, i: nat)
    requires i < |out| && out[i].category.slug == slug
    requires forall j :: 0 <= j < i ==> out[j].category.slug != slug
    ensures GroupIndex(out, slug) == Some(i)
  {
  }

  /** An item of a category that already has a group joins the end of that group. */
  lemma AddExisting(k: seq<Skill>, x: Skill, i: nat)
    requires x.category.Some? && i < |SlugOrder(k)| && SlugOrder(k)[i] == x.category.value.slug
    ensures Add(Acc(CategoryGroups(k), Uncategorised(k)), x) == Acc(CategoryGroups(k + [x]), Uncategorised(k + [x]))
  {
    var (slug, so, cg, cg2) := (x.category.value.slug, SlugOrder(k), CategoryGroups(k), CategoryGroups(k + [x]));
    SnocParts(k, x);
    GroupSlugs(k);
    SlugOrderSnoc(k, x);
    GroupIndexAt(cg, slug, i);
    MembersPresent(k, slug);
    var out := cg[i := Group(cg[i].category, cg[i].items + [x])];
    assert Add(Acc(cg, Uncategorised(k)), x) == Acc(out, Uncategorised(k));
    forall j | 0 <= j < |cg| ensures cg2[j] == out[j] {
      GroupOfSnoc(k, x, so[j]);
    }
    assert cg2 == out;
  }

  /** The groups after an item of a new category: one more group, holding just it. */
  lemma CategoryGroupsNew(k: seq<Skill>, x: Skill)
    requires x.category.Some? && x.category.value.slug !in SlugOrder(k)
    ensures CategoryGroups(k + [x]) == CategoryGroups(k) + [Group(x.category.value, [x])]
  {
    var (slug, cg, cg2) := (x.category.value.slug, CategoryGroups(k), CategoryGroups(k + [x]));
    SlugOrderSnoc(k, x);
    MembersPresent(k, slug);
    var out := cg + [Group(x.category.value, [x])];
    forall j | 0 <= j < |out| ensures cg2[j] == out[j] {
      if j < |cg| {
        assert SlugOrder(k + [x])[j] == SlugOrder(k)[j] != slug;
        GroupOfSnoc(k, x, SlugOrder(k)[j]);
      } else {
        assert SlugOrder(k + [x])[j] == slug;
        GroupOfSnoc(k, x, slug);
      }
    }
  }

  /** An item of a category without a group opens a new group at the end. */
  lemma AddNew(k: seq<Skill>, x: Skill)
    requires x.category.Some? && x.category.value.slug !in SlugOrder(k)
    ensures Add(Acc(CategoryGroups(k), Uncategorised(k)), x) == Acc(CategoryGroups(k + [x]), Uncategorised(k + [x]))
  {
    var (slug, cg) := (x.category.value.slug, CategoryGroups(k));
    SnocParts(k, x);
    GroupSlugs(k);
    assert forall j :: 0 <= j < |cg| ==> cg[j].category.slug != slug;
    CategoryGroupsNew(k, x);
  }

  /** Adding a kept item to the groups of `k` gives the groups of `k` followed by it. */
  lemma AddIsSnoc(k: seq<Skill>, x: Skill)
    ensures Add(Acc(CategoryGroups(k), Uncategorised(k)), x) == Acc(CategoryGroups(k + [x]), Uncategorised(k + [x]))
  {
    if x.category.None? {
      AddUncategorised(k, x);
    } else if x.category.value.slug in SlugOrder(k) {
      var i :| 0 <= i < |SlugOrder(k)| && SlugOrder(k)[i] == x.category.value.slug;
      AddExisting(k, x, i);
    } else {
      AddNew(k, x);
    }
  }

  /** The `forEach` builds exactly the category groups and the others of the kept items. */
  lemma {:induction false} ScanIsReference(items: seq<Skill>, query: string)
    ensures Scan(items, query) == Acc(CategoryGroups(Kept(items, query)), Uncategorised(Kept(items, query)))
  {
    if |items| > 0 {
      var init := items[..|items| - 1];
      var x := items[|items| - 1];
      ScanIsReference(init, query);
      var k := Kept(init, query);
      if Matches(query, x) {
        assert Kept(items, query) == k + [x];
        AddIsSnoc(k, x);
      } else {
        assert Kept(items, query) == k;
      }
    }
  }

  /** `groupByCategory` is the reference grouping of the items the search keeps. */
  lemma GroupByCategoryIsReference(items: seq<Skill>, query: string)
    ensures GroupByCategory(items, query) == Reference(Kept(items, query))
  {
    ScanIsReference(items, query);
  }

  /** A whitespace-only search keeps every item, in order. */
  lemma {:induction false} BlankSearchKeepsAll(items: seq<Skill>, query: string)
    requires AllSpace(query)
    ensures Kept(items, query) == items
  {
    TrimEmptyIff(query);
    if |items| > 0 {
      var init := items[..|items| - 1];
      BlankSearchKeepsAll(init, query);
      assert items == init + [items[|items| - 1]];
    }
  }

  /** A non-blank search keeps exactly the items whose lower-cased name contains the
      trimmed, lower-cased query. */
  lemma SearchKeeps(items: seq<Skill>, query: string, x: Skill)
    requires !AllSpace(query)
    ensures x in Kept(items, query) <==> x in items && Contains(Lower(x.name), Lower(Trim(query)))
  {
    TrimEmptyIff(query);
  }

  /** Every group holds at least one item, and every category group holds only items of
      its own category, the first of which supplies the group's category. */
  lemma ReferenceGroupsNonEmpty(xs: seq<Skill>)
    ensures forall i :: 0 <= i < |Reference(xs)| ==> |Reference(xs)[i].items| > 0
    ensures forall i :: 0 <= i < |SlugOrder(xs)| ==>
      && Reference(xs)[i].category.slug == SlugOrder(xs)[i]
      && |Reference(xs)[i].items| > 0
      && Reference(xs)[i].items[0].category == Some(Reference(xs)[i].category)
      && (forall y :: y in Reference(xs)[i].items ==> InCategory(y, SlugOrder(xs)[i]))
  {
    var (r, so) := (Reference(xs), SlugOrder(xs));
    forall i | 0 <= i < |so|
      ensures r[i] == GroupOf(xs, so[i]) && |r[i].items| > 0
    {
      MembersPresent(xs, so[i]);
    }
    if |Uncategorised(xs)| != 0 {
      assert r[|r| - 1] == Group(OthersCategory, Uncategorised(xs));
    }
  }

  /** The `Others` group comes last and exists exactly when some item has no category. */
  lemma ReferenceOthersLast(xs: seq<Skill>)
    ensures |Reference(xs)| == |SlugOrder(xs)| + (if |Uncategorised(xs)| != 0 then 1 else 0)
    ensures (exists y :: y in xs && y.category.None?) <==> |Reference(xs)| == |SlugOrder(xs)| + 1
    ensures |Reference(xs)| == |SlugOrder(xs)| + 1 ==>
      Reference(xs)[|Reference(xs)| - 1] == Group(OthersCategory, Uncategorised(xs))
  {
    var u := Uncategorised(xs);
    if |u| != 0 {
      assert u[0] in u;
    }
  }

  /** The category groups hold the items of their category, and the `Others` group the
      items without one. */
  lemma ReferenceItems(xs: seq<Skill>)
    ensures forall i :: 0 <= i < |SlugOrder(xs)| ==> Reference(xs)[i].items == Members(xs, SlugOrder(xs)[i])
    ensures |Reference(xs)| > |SlugOrder(xs)| ==> Reference(xs)[|SlugOrder(xs)|].items == Uncategorised(xs)
    ensures |Reference(xs)| <= |SlugOrder(xs)| + 1
  {
  }

  /** Every grouped item is one of the items. */
  lemma ReferenceItemsFrom(xs: seq<Skill>)
    ensures forall i, y :: 0 <= i < |Reference(xs)| && y in Reference(xs)[i].items ==> y in xs
  {
    ReferenceItems(xs);
  }

  /** The group an item is in. */
  lemma GroupOfItem(xs: seq<Skill>, y: Skill) returns (i: nat)
    requires y in xs
    ensures i < |Reference(xs)| && y in Reference(xs)[i].items
  {
    var so := SlugOrder(xs);
    ReferenceItems(xs);
    if y.category.None? {
      assert y in Uncategorised(xs);
      i := |so|;
    } else {
      var s := y.category.value.slug;
      assert InCategory(y, s);
      assert s in so;
      i :| 0 <= i < |so| && so[i] == s;
      assert y in Members(xs, s);
    }
  }

  /** Every item is in some group. */
  lemma ReferenceCovers(xs: seq<Skill>)
    ensures forall y :: y in xs ==> exists i :: 0 <= i < |Reference(xs)| && y in Reference(xs)[i].items
  {
    forall y | y in xs ensures exists i :: 0 <= i < |Reference(xs)| && y in Reference(xs)[i].items {
      var i := GroupOfItem(xs, y);
    }
  }

  /** No item is in two groups. */
  lemma ReferenceDisjoint(xs: seq<Skill>)
    ensures forall i, j, y :: 0 <= i < j < |Reference(xs)| && y in Reference(xs)[i].items ==> y !in Reference(xs)[j].items
  {
    var (r, so) := (Reference(xs), SlugOrder(xs));
    ReferenceItems(xs);
    forall i, j, y | 0 <= i < j < |r| && y in r[i].items ensures y !in r[j].items {
      if j < |so| {
        assert InCategory(y, so[i]) && so[i] != so[j];
      }
    }
  }

  /** The groups partition the items: every item is in some group, every grouped item is
      one of the items, and no item is in two groups. */
  lemma ReferencePartition(xs: seq<Skill>)
    ensures forall i, y :: 0 <= i < |Reference(xs)| && y in Reference(xs)[i].items ==> y in xs
    ensures forall y :: y in xs ==> exists i :: 0 <= i < |Reference(xs)| && y in Reference(xs)[i].items
    ensures forall i, j, y :: 0 <= i < j < |Reference(xs)| && y in Reference(xs)[i].items ==> y !in Reference(xs)[j].items
  {
    ReferenceItemsFrom(xs);
    ReferenceCovers(xs);
    ReferenceDisjoint(xs);
  }

  /** The skills page, as the search and the grouping together promise it: each group is
      non-empty, the grouped items are exactly the items the search keeps, and no item is
      in two groups. */
  lemma GroupByCategoryPartition(items: seq<Skill>, query: string)
    ensures var g := GroupByCategory(items, query);
      && (forall i :: 0 <= i < |g| ==> |g[i].items| > 0)
      && (forall i, y :: 0 <= i < |g| && y in g[i].items ==> y in items && Matches(query, y))
      && (forall y :: y in items && Matches(query, y) ==> exists i :: 0 <= i < |g| && y in g[i].items)
      && (forall i, j, y :: 0 <= i < j < |g| && y in g[i].items ==> y !in g[j].items)
  {
    GroupByCategoryIsReference(items, query);
    ReferenceGroupsNonEmpty(Kept(items, query));
    ReferencePartition(Kept(items, query));
  }
}
