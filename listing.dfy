/** The read side that groups items: the unified dish listing, which merges
    items of the same trimmed name across hotels, and the hotel menu page,
    which files each item under its first category. */
module Listing {
  import opened Wrappers
  import opened Text
  import opened Order
  import opened Schema
  import opened Serializers

  /** Items grouped by a key, as a `defaultdict(list)` filled in a loop:
      the keys in the order they first occur, and under each key its items
      in input order. */
  datatype Groups = Groups(keys: seq<string>, members: map<string, seq<Item>>)

  /** `grouped[k].append(it)` */
  function Add(g: Groups, k: string, it: Item): Groups {
    if k in g.members then g.(members := g.members[k := g.members[k] + [it]])
    else Groups(g.keys + [k], g.members[k := [it]])
  }

  /** The grouping loop over `qs`, in order. */
  function Group(qs: seq<Item>, key: Item -> string): Groups
    decreases |qs|
  {
    if qs == [] then Groups([], map[])
    else Add(Group(qs[..|qs| - 1], key), key(qs[|qs| - 1]), qs[|qs| - 1])
  }

  /** The grouping loop as the views run it, one item at a time. */
  method GroupBy(qs: seq<Item>, key: Item -> string) returns (g: Groups)
    ensures g == Group(qs, key)
  {
    g := Groups([], map[]);
    var i := 0;
    while i < |qs|
      invariant 0 <= i <= |qs|
      invariant g == Group(qs[..i], key)
    {
      assert qs[..i + 1][..i] == qs[..i];
      var k := key(qs[i]);
      if k in g.members {
        g := g.(members := g.members[k := g.members[k] + [qs[i]]]);
      } else {
        g := Groups(g.keys + [k], g.members[k := [qs[i]]]);
      }
      i := i + 1;
    }
    assert qs[..i] == qs;
  }

  /** The items of `qs` whose key is `k`, in input order: the reference
      the grouping is measured against. */
  function With(qs: seq<Item>, key: Item -> string, k: string): seq<Item>
    decreases |qs|
  {
    if qs == [] then []
    else With(qs[..|qs| - 1], key, k) + (if key(qs[|qs| - 1]) == k then [qs[|qs| - 1]] else [])
  }

  predicate Distinct(ks: seq<string>) {
    forall i, j :: 0 <= i < j < |ks| ==> ks[i] != ks[j]
  }

  /** Every item listed under `k` has key `k`, and none is lost: `k` lists
      nothing exactly when no item has that key. */
  lemma {:induction false} WithFacts(qs: seq<Item>, key: Item -> string, k: string)
    ensures forall m :: m in With(qs, key, k) ==> key(m) == k
    ensures With(qs, key, k) == [] <==> forall j :: 0 <= j < |qs| ==> key(qs[j]) != k
    decreases |qs|
  {
    if qs != [] {
      var init := qs[..|qs| - 1];
      WithFacts(init, key, k);
      if With(init, key, k) != [] {
        var j :| 0 <= j < |init| && key(init[j]) == k;
        assert qs[j] == init[j];
      }
      forall j | 0 <= j < |init| ensures qs[j] == init[j] { }
    }
  }

  /** The first item listed under `k` is the first item of `qs` with that
      key. */
  lemma {:induction false} WithHead(qs: seq<Item>, key: Item -> string, k: string)
    requires With(qs, key, k) != []
    ensures exists i :: 0 <= i < |qs| && key(qs[i]) == k && (forall j :: 0 <= j < i ==> key(qs[j]) != k)
                        && With(qs, key, k)[0] == qs[i]
    decreases |qs|
  {
    var init := qs[..|qs| - 1];
    var last := qs[|qs| - 1];
    var w := With(init, key, k);
    assert With(qs, key, k) == w + (if key(last) == k then [last] else []);
    if w != [] {
      WithHead(init, key, k);
      var i :| 0 <= i < |init| && key(init[i]) == k && (forall j :: 0 <= j < i ==> key(init[j]) != k)
               && w[0] == init[i];
      forall j | 0 <= j < i ensures key(qs[j]) != k {
        assert qs[j] == init[j];
      }
      assert qs[i] == init[i] && With(qs, key, k)[0] == w[0];
    } else {
      WithFacts(init, key, k);
      forall j | 0 <= j < |qs| - 1 ensures key(qs[j]) != k {
        assert qs[j] == init[j];
      }
      assert key(last) == k && With(qs, key, k)[0] == last;
    }
  }

  /** The groups are exactly the distinct keys, in first-occurrence order,
      each holding the items with that key in input order. */
  lemma {:induction false} GroupShape(qs: seq<Item>, key: Item -> string)
    ensures var g := Group(qs, key);
            Distinct(g.keys)
            && (forall k :: k in g.keys <==> k in g.members)
            && (forall k :: k in g.members ==> g.members[k] == With(qs, key, k) && g.members[k] != [])
            && (forall k :: k !in g.members ==> With(qs, key, k) == [])
    decreases |qs|
  {
    if qs != [] {
      var init := qs[..|qs| - 1];
      GroupShape(init, key);
      var p := Group(init, key);
      var k := key(qs[|qs| - 1]);
      if k !in p.members {
        forall i | 0 <= i < |p.keys| ensures p.keys[i] != k { assert p.keys[i] in p.members; }
      }
    }
  }

  /** The number of items in the groups named by `ks`. */
  function Total(ks: seq<string>, m: map<string, seq<Item>>): nat
    decreases |ks|
  {
    if ks == [] then 0
    else Total(ks[..|ks| - 1], m) + (if ks[|ks| - 1] in m then |m[ks[|ks| - 1]]| else 0)
  }

  lemma {:induction false} TotalFresh(ks: seq<string>, m: map<string, seq<Item>>, k: string, v: seq<Item>)
    requires k !in ks
    ensures Total(ks, m[k := v]) == Total(ks, m)
    decreases |ks|
  {
    if ks != [] {
      TotalFresh(ks[..|ks| - 1], m, k, v);
    }
  }

  lemma {:induction false} TotalUpdate(ks: seq<string>, m: map<string, seq<Item>>, k: string, v: seq<Item>)
    requires Distinct(ks) && k in ks && k in m
    ensures Total(ks, m[k := v]) == Total(ks, m) - |m[k]| + |v|
    decreases |ks|
  {
    var init := ks[..|ks| - 1];
    if ks[|ks| - 1] == k {
      assert k !in init;
      TotalFresh(init, m, k, v);
    } else {
      assert Distinct(init);
      TotalUpdate(init, m, k, v);
    }
  }

  /** Every item lands in exactly one group: the groups hold as many items
      as the input. */
  lemma {:induction false} GroupTotal(qs: seq<Item>, key: Item -> string)
    ensures Total(Group(qs, key).keys, Group(qs, key).members) == |qs|
    decreases |qs|
  {
    if qs != [] {
      var init := qs[..|qs| - 1];
      GroupTotal(init, key);
      GroupShape(init, key);
      var p := Group(init, key);
      var k := key(qs[|qs| - 1]);
      if k in p.members {
        TotalUpdate(p.keys, p.members, k, p.members[k] + [qs[|qs| - 1]]);
      } else {
        TotalFresh(p.keys, p.members, k, [qs[|qs| - 1]]);
      }
    }
  }

  // ---------------------------------------------------------------------
  // The unified dish listing.

  /** The items with `is_visible` set, in key order. */
  function VisibleItems(st: Store): (r: seq<Item>)
    ensures forall k :: 0 <= k < |r| ==> r[k].visible
    ensures forall a :: a in st.items && st.items[a].visible ==> st.items[a] in r
    ensures |r| == |set a | a in st.items && st.items[a].visible|
  {
    var keys := set a | a in st.items && st.items[a].visible;
    var ids := SortedIds(keys);
    assert forall i :: 0 <= i < |ids| ==> ids[i] in keys by {
      forall i | 0 <= i < |ids| ensures ids[i] in keys { assert ids[i] in ids; }
    }
    var r := seq(|ids|, i requires 0 <= i < |ids| => st.items[ids[i]]);
    forall a | a in keys ensures st.items[a] in r {
      var i :| 0 <= i < |ids| && ids[i] == a;
      assert r[i] == st.items[a];
    }
    r
  }

  /** The grouping key of the unified listing. */
  function TrimmedName(it: Item): string {
    Strip(it.name)
  }

  /** A hotel as the listing shows it: its name and its logo URL. */
  datatype HotelRef = HotelRef(name: string, logo: Option<string>)

  /** One dish: the fields of the group's first item, and one hotel entry
      per item of the group. */
  datatype Dish = Dish(name: string, price: Option<real>, description: Option<string>, image: Option<string>,
                       manuals: seq<string>, hotels: seq<HotelRef>)

  /** The listing's image: the remote URL first, then the stored file under
      `/media/`, else none. */
  function DishImage(it: Item): (r: Option<string>)
    ensures Present(it.imageUrl) ==> r == it.imageUrl
    ensures !Present(it.imageUrl) && Present(it.imageLocal) ==> r == Some("/media/" + it.imageLocal.value)
    ensures r.None? <==> !Present(it.imageUrl) && !Present(it.imageLocal)
  {
    if Present(it.imageUrl) then it.imageUrl
    else if Present(it.imageLocal) then Some("/media/" + it.imageLocal.value)
    else None
  }

  /** The hotel of an item; an item whose hotel is missing, which a
      consistent store never holds, shows as nameless. */
  function HotelRefOf(st: Store, mediaUrl: string, it: Item): HotelRef {
    if it.hotel in st.hotels then
      var h := st.hotels[it.hotel];
      HotelRef(h.name, LogoUrl(h, mediaUrl))
    else HotelRef([], None)
  }

  function DishOf(st: Store, mediaUrl: string, group: seq<Item>): Dish
    requires group != []
  {
    var first := group[0];
    Dish(first.name, first.price, first.description, DishImage(first), ManualNames(st, first),
         HotelRefs(st, mediaUrl, group))
  }

  /** One hotel entry per item, in order. */
  function HotelRefs(st: Store, mediaUrl: string, group: seq<Item>): (r: seq<HotelRef>)
    ensures |r| == |group|
    ensures forall j :: 0 <= j < |r| ==> r[j] == HotelRefOf(st, mediaUrl, group[j])
  {
    seq(|group|, j requires 0 <= j < |group| => HotelRefOf(st, mediaUrl, group[j]))
  }

  /** Every key names a non-empty group. */
  predicate Listable(g: Groups) {
    forall k :: k in g.keys ==> k in g.members && g.members[k] != []
  }

  /** One dish per group, in key order. */
  function Dishes(st: Store, mediaUrl: string, g: Groups): (r: seq<Dish>)
    requires Listable(g)
    ensures |r| == |g.keys|
  {
    seq(|g.keys|, i requires 0 <= i < |g.keys| => DishOf(st, mediaUrl, g.members[g.keys[i]]))
  }

  /** `UnifiedMenuAPI.list` before the shuffle and the paging. */
  function Unified(st: Store, mediaUrl: string): seq<Dish> {
    UnifiedOf(st, mediaUrl, VisibleItems(st))
  }

  /** The dishes of a query result `qs`, grouped by trimmed name. */
  function UnifiedOf(st: Store, mediaUrl: string, qs: seq<Item>): seq<Dish> {
    GroupShape(qs, TrimmedName);
    Dishes(st, mediaUrl, Group(qs, TrimmedName))
  }

  /** The number of hotel entries across the dishes. */
  function HotelEntries(ds: seq<Dish>): nat
    decreases |ds|
  {
    if ds == [] then 0 else HotelEntries(ds[..|ds| - 1]) + |ds[|ds| - 1].hotels|
  }

  lemma HotelEntriesCount(st: Store, mediaUrl: string, g: Groups, n: nat)
    requires n <= |g.keys| && Listable(g)
    ensures HotelEntries(Dishes(st, mediaUrl, g)[..n]) == Total(g.keys[..n], g.members)
  {
    var ds := Dishes(st, mediaUrl, g);
    forall i | 0 <= i < |ds| ensures g.keys[i] in g.members && |ds[i].hotels| == |g.members[g.keys[i]]| {
      assert g.keys[i] in g.keys;
    }
    EntriesMatchTotal(ds, g.keys, g.members, n);
  }

  /** Dishes whose hotel lists are as long as their groups have, prefix by
      prefix, as many hotel entries as the groups have items. */
  lemma {:induction false} EntriesMatchTotal(ds: seq<Dish>, ks: seq<string>, m: map<string, seq<Item>>, n: nat)
    requires n <= |ds| == |ks|
    requires forall i :: 0 <= i < |ds| ==> ks[i] in m && |ds[i].hotels| == |m[ks[i]]|
    ensures HotelEntries(ds[..n]) == Total(ks[..n], m)
    decreases n
  {
    if n > 0 {
      EntriesMatchTotal(ds, ks, m, n - 1);
      assert ds[..n][..n - 1] == ds[..n - 1];
      assert ks[..n][..n - 1] == ks[..n - 1];
    }
  }

  /** The i-th dish shows the i-th group, and its trimmed name is that
      group's key. */
  lemma UnifiedAt(st: Store, mediaUrl: string, qs: seq<Item>, i: nat)
    requires i < |Group(qs, TrimmedName).keys|
    ensures var g := Group(qs, TrimmedName);
            var r := UnifiedOf(st, mediaUrl, qs);
            |r| == |g.keys| && g.keys[i] in g.members && With(qs, TrimmedName, g.keys[i]) != []
            && r[i] == DishOf(st, mediaUrl, With(qs, TrimmedName, g.keys[i]))
            && Strip(r[i].name) == g.keys[i]
  {
    var g := Group(qs, TrimmedName);
    GroupShape(qs, TrimmedName);
    var w := g.members[g.keys[i]];
    WithFacts(qs, TrimmedName, g.keys[i]);
    assert w[0] in w;
  }

  /** No two dishes share a trimmed name, and every item's trimmed
      name has its dish. */
  lemma UnifiedOnePerName(st: Store, mediaUrl: string, qs: seq<Item>)
    ensures var r := UnifiedOf(st, mediaUrl, qs);
            && (forall i, j :: 0 <= i < j < |r| ==> Strip(r[i].name) != Strip(r[j].name))
            && (forall k :: 0 <= k < |qs| ==> exists i :: 0 <= i < |r| && Strip(r[i].name) == Strip(qs[k].name))
  {
    var g := Group(qs, TrimmedName);
    GroupShape(qs, TrimmedName);
    var r := UnifiedOf(st, mediaUrl, qs);
    assert |r| == |g.keys|;
    forall i, j | 0 <= i < j < |r| ensures Strip(r[i].name) != Strip(r[j].name) {
      UnifiedAt(st, mediaUrl, qs, i);
      UnifiedAt(st, mediaUrl, qs, j);
    }
    forall k | 0 <= k < |qs| ensures exists i :: 0 <= i < |r| && Strip(r[i].name) == Strip(qs[k].name) {
      var key := TrimmedName(qs[k]);
      WithFacts(qs, TrimmedName, key);
      assert key in g.keys;
      var i :| 0 <= i < |g.keys| && g.keys[i] == key;
      UnifiedAt(st, mediaUrl, qs, i);
    }
  }

  /** The hotel entries of all dishes add up to the number of items. */
  lemma UnifiedHotelCount(st: Store, mediaUrl: string, qs: seq<Item>)
    ensures HotelEntries(UnifiedOf(st, mediaUrl, qs)) == |qs|
  {
    var g := Group(qs, TrimmedName);
    GroupShape(qs, TrimmedName);
    GroupTotal(qs, TrimmedName);
    HotelEntriesCount(st, mediaUrl, g, |g.keys|);
    assert g.keys[..|g.keys|] == g.keys;
    var r := UnifiedOf(st, mediaUrl, qs);
    assert r == Dishes(st, mediaUrl, g);
    assert r[..|r|] == r;
  }

  /** A dish lists one hotel per item of its name, in item order,
      and shows the fields of the first of those items. */
  lemma UnifiedDish(st: Store, mediaUrl: string, qs: seq<Item>, i: nat)
    requires i < |UnifiedOf(st, mediaUrl, qs)|
    ensures var d := UnifiedOf(st, mediaUrl, qs)[i];
            var w := With(qs, TrimmedName, Strip(d.name));
            d.hotels == HotelRefs(st, mediaUrl, w)
            && exists k :: 0 <= k < |qs| && Strip(qs[k].name) == Strip(d.name)
                           && (forall j :: 0 <= j < k ==> Strip(qs[j].name) != Strip(d.name))
                           && d.name == qs[k].name && d.price == qs[k].price && d.description == qs[k].description
                           && d.image == DishImage(qs[k]) && d.manuals == ManualNames(st, qs[k])
  {
    UnifiedAt(st, mediaUrl, qs, i);
    var g := Group(qs, TrimmedName);
    var key := g.keys[i];
    WithHead(qs, TrimmedName, key);
    var k :| 0 <= k < |qs| && TrimmedName(qs[k]) == key
             && (forall j :: 0 <= j < k ==> TrimmedName(qs[j]) != key) && With(qs, TrimmedName, key)[0] == qs[k];
  }

  // ---------------------------------------------------------------------
  // The hotel menu page.

  /** The items of hotel `h`, in key order. */
  function HotelItems(st: Store, h: Id): (r: seq<Item>)
    ensures forall k :: 0 <= k < |r| ==> r[k].hotel == h
    ensures forall a :: a in ItemsOf(st, h) ==> a in st.items && st.items[a] in r
    ensures |r| == |ItemsOf(st, h)|
  {
    var ids := SortedIds(ItemsOf(st, h));
    assert forall i :: 0 <= i < |ids| ==> ids[i] in ItemsOf(st, h) by {
      forall i | 0 <= i < |ids| ensures ids[i] in ItemsOf(st, h) { assert ids[i] in ids; }
    }
    var r := seq(|ids|, i requires 0 <= i < |ids| => st.items[ids[i]]);
    forall a | a in ItemsOf(st, h) ensures st.items[a] in r {
      var i :| 0 <= i < |ids| && ids[i] == a;
      assert r[i] == st.items[a];
    }
    r
  }

  /** The name of an item's first category (categories are ordered by
      name), or `"Uncategorized"`. */
  function FirstCategoryName(st: Store, it: Item): (r: string)
    ensures var names := set c | c in it.categories && c in st.categories :: st.categories[c];
            (names == {} ==> r == "Uncategorized") && (names != {} ==> IsLeast(r, names))
  {
    var names := set c | c in it.categories && c in st.categories :: st.categories[c];
    if names == {} then "Uncategorized" else Least(names)
  }

  /** One heading of the menu page and the items under it. */
  datatype Section = Section(category: string, items: seq<Item>)

  /** The grouping key of the menu page. */
  function CategoryKey(st: Store): Item -> string {
    it => FirstCategoryName(st, it)
  }

  /** The groups under their keys, in name order. */
  function Sections(g: Groups): (r: seq<Section>)
    ensures |r| == |g.members|
  {
    var heads := SortedNames(g.members.Keys);
    seq(|heads|, i requires 0 <= i < |heads| => Section(heads[i], g.members[heads[i]]))
  }

  /** `hotel_menu_view`: the hotel's items grouped under their first
      category, headings in name order. */
  function HotelMenu(st: Store, h: Id): seq<Section> {
    Sections(Group(HotelItems(st, h), CategoryKey(st)))
  }

  /** The page for key `h`: `get_object_or_404` answers 404 (`None`) when
      no hotel has that key, and the grouped menu otherwise. */
  function HotelMenuPage(st: Store, h: Id): (r: Option<seq<Section>>)
    ensures r.None? <==> h !in st.hotels
    ensures r.Some? ==> r.value == HotelMenu(st, h)
  {
    if h in st.hotels then Some(HotelMenu(st, h)) else None
  }

  /** The headings are in strictly ascending order, and each lists exactly
      the hotel's items filed under it, in key order. */
  lemma HotelMenuSorted(st: Store, h: Id)
    ensures var qs := HotelItems(st, h);
            var r := HotelMenu(st, h);
            && (forall i, j :: 0 <= i < j < |r| ==> LexLess(r[i].category, r[j].category))
            && (forall i :: 0 <= i < |r| ==> r[i].items == With(qs, CategoryKey(st), r[i].category) && r[i].items != [])
  {
    var qs := HotelItems(st, h);
    var g := Group(qs, CategoryKey(st));
    GroupShape(qs, CategoryKey(st));
    SectionsShape(g);
  }

  /** The sections list each group once, under headings in strictly
      ascending order. */
  lemma SectionsShape(g: Groups)
    ensures var r := Sections(g);
            && (forall i, j :: 0 <= i < j < |r| ==> LexLess(r[i].category, r[j].category))
            && (forall i :: 0 <= i < |r| ==> r[i].category in g.members && r[i].items == g.members[r[i].category])
  {
    var heads := SortedNames(g.members.Keys);
    var r := Sections(g);
    forall i | 0 <= i < |r| ensures r[i].category == heads[i] && heads[i] in g.members {
      assert heads[i] in heads;
    }
  }

  /** Every item of the hotel appears under the name of its first
      category. */
  lemma HotelMenuCovers(st: Store, h: Id, k: nat)
    requires k < |HotelItems(st, h)|
    ensures var it := HotelItems(st, h)[k];
            var r := HotelMenu(st, h);
            exists i :: 0 <= i < |r| && r[i].category == FirstCategoryName(st, it) && it in r[i].items
  {
    var qs := HotelItems(st, h);
    var key := CategoryKey(st);
    var g := Group(qs, key);
    GroupShape(qs, key);
    var c := key(qs[k]);
    WithFacts(qs, key, c);
    assert c in g.members;
    var heads := SortedNames(g.members.Keys);
    assert c in heads;
    var i :| 0 <= i < |heads| && heads[i] == c;
    var r := HotelMenu(st, h);
    assert r == Sections(g);
    assert r[i] == Section(c, With(qs, key, c));
    WithMember(qs, key, k);
  }

  /** An item is listed under its own key. */
  lemma {:induction false} WithMember(qs: seq<Item>, key: Item -> string, k: nat)
    requires k < |qs|
    ensures qs[k] in With(qs, key, key(qs[k]))
    decreases |qs|
  {
    var init := qs[..|qs| - 1];
    if k < |init| {
      WithMember(init, key, k);
      assert init[k] == qs[k];
    }
  }
}
