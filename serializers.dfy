/** The JSON shapes of items and hotels: image and logo precedence, the two
    category name lists, and the visible-only menu of a hotel. */
module Serializers {
  import opened Wrappers
  import opened Order
  import opened Schema

  /** The placeholder served for an item without any image. */
  const Placeholder := "no_image.jpg"

  /** `MenuItemSerializer.get_image`: the stored file under the media URL,
      else the remote URL as given, else the placeholder under the media
      URL. */
  function ItemImage(it: Item, mediaUrl: string): (r: string)
    ensures Present(it.imageLocal) ==> r == mediaUrl + it.imageLocal.value
    ensures !Present(it.imageLocal) && Present(it.imageUrl) ==> r == it.imageUrl.value
    ensures !Present(it.imageLocal) && !Present(it.imageUrl) ==> r == mediaUrl + Placeholder
  {
    if Present(it.imageLocal) then mediaUrl + it.imageLocal.value
    else if Present(it.imageUrl) then it.imageUrl.value
    else mediaUrl + Placeholder
  }

  /** An item's image is never null and never empty. */
  lemma ItemImageNeverEmpty(it: Item, mediaUrl: string)
    ensures |ItemImage(it, mediaUrl)| > 0
  {
    assert |mediaUrl + Placeholder| == |mediaUrl| + |Placeholder|;
  }

  /** `get_categories`: the names of the item's categories, in name order
      (`Category` is ordered by name). */
  function CategoryNames(st: Store, it: Item): (r: seq<string>)
    ensures Ascending(r)
    ensures forall n :: n in r <==> exists c :: c in it.categories && c in st.categories && st.categories[c] == n
  {
    SortedNames(set c | c in it.categories && c in st.categories :: st.categories[c])
  }

  /** `get_manual_categories`: the names of the item's manual categories, in
      name order. */
  function ManualNames(st: Store, it: Item): (r: seq<string>)
    ensures Ascending(r)
    ensures forall n :: n in r <==> exists m :: m in it.manuals && m in st.manuals && st.manuals[m] == n
  {
    SortedNames(set m | m in it.manuals && m in st.manuals :: st.manuals[m])
  }

  /** The two lists are independent: each reads only its own link set and
      its own table. */
  lemma CategoryListsIndependent(st: Store, it: Item, manuals: map<Id, string>, links: set<Id>)
    ensures CategoryNames(st.(manuals := manuals), it.(manuals := links)) == CategoryNames(st, it)
    ensures ManualNames(st.(categories := manuals), it.(categories := links)) == ManualNames(st, it)
  {
    var a := set c | c in it.categories && c in st.categories :: st.categories[c];
    var b := set c | c in it.(manuals := links).categories && c in st.(manuals := manuals).categories
                 :: st.(manuals := manuals).categories[c];
    assert a == b;
    var m := set c | c in it.manuals && c in st.manuals :: st.manuals[c];
    var n := set c | c in it.(categories := links).manuals && c in st.(categories := manuals).manuals
                 :: st.(categories := manuals).manuals[c];
    assert m == n;
  }

  /** `get_logo`: the logo's URL under the media URL, or null exactly when
      the hotel has no logo. */
  function LogoUrl(h: Hotel, mediaUrl: string): (r: Option<string>)
    ensures r.None? <==> !Present(h.logo)
    ensures r.Some? ==> r.value == mediaUrl + h.logo.value && |r.value| > |mediaUrl|
  {
    if Present(h.logo) then Some(mediaUrl + h.logo.value) else None
  }

  /** A serialized menu item. */
  datatype ItemView = ItemView(id: Id, name: string, price: Option<real>, categories: seq<string>,
                               manuals: seq<string>, description: Option<string>, image: string,
                               visible: bool)

  function ItemViewOf(st: Store, mediaUrl: string, id: Id): ItemView
    requires id in st.items
  {
    var it := st.items[id];
    ItemView(id, it.name, it.price, CategoryNames(st, it), ManualNames(st, it), it.description,
             ItemImage(it, mediaUrl), it.visible)
  }

  /** The keys of a hotel's visible items. */
  function VisibleOf(st: Store, h: Id): set<Id> {
    set a | a in st.items && st.items[a].hotel == h && st.items[a].visible
  }

  /** `HotelDetailSerializer.get_menu`: exactly the hotel's visible items,
      each once, in key order. */
  function HotelDetailMenu(st: Store, mediaUrl: string, h: Id): (r: seq<ItemView>)
    ensures |r| == |VisibleOf(st, h)|
    ensures forall i :: 0 <= i < |r| ==> r[i].visible && r[i].id in st.items && st.items[r[i].id].hotel == h
    ensures forall i, j :: 0 <= i < j < |r| ==> r[i].id < r[j].id
    ensures forall a :: a in VisibleOf(st, h) ==> exists i :: 0 <= i < |r| && r[i].id == a
    ensures forall i :: 0 <= i < |r| ==> r[i].id in st.items && r[i] == ItemViewOf(st, mediaUrl, r[i].id)
  {
    var ids := SortedIds(VisibleOf(st, h));
    VisibleIds(st, h, ids);
    var r := seq(|ids|, i requires 0 <= i < |ids| => ItemViewOf(st, mediaUrl, ids[i]));
    Cover(ids, r);
    r
  }

  /** The listed keys are the hotel's visible items. */
  lemma VisibleIds(st: Store, h: Id, ids: seq<Id>)
    requires ids == SortedIds(VisibleOf(st, h))
    ensures forall i :: 0 <= i < |ids| ==> ids[i] in st.items && st.items[ids[i]].hotel == h && st.items[ids[i]].visible
  {
    forall i | 0 <= i < |ids| ensures ids[i] in st.items && st.items[ids[i]].hotel == h && st.items[ids[i]].visible {
      assert ids[i] in ids;
      assert ids[i] in VisibleOf(st, h);
    }
  }

  /** Items listed key by key cover every key. */
  lemma Cover(ids: seq<Id>, r: seq<ItemView>)
    requires |r| == |ids| && forall i :: 0 <= i < |r| ==> r[i].id == ids[i]
    ensures forall a :: a in ids ==> exists i :: 0 <= i < |r| && r[i].id == a
  {
    forall a | a in ids ensures exists i :: 0 <= i < |r| && r[i].id == a {
      var i :| 0 <= i < |ids| && ids[i] == a;
      assert r[i].id == a;
    }
  }

  /** A serialized hotel: `menu_count` counts all its items, visible or
      not. */
  datatype HotelView = HotelView(id: Id, name: string, menuCount: nat, logo: Option<string>)

  function HotelViewOf(st: Store, mediaUrl: string, h: Id): (r: HotelView)
    requires h in st.hotels
    ensures r.menuCount == |ItemsOf(st, h)| && r.menuCount >= |VisibleOf(st, h)|
    ensures r.logo.None? <==> !Present(st.hotels[h].logo)
    ensures r.logo.Some? ==> r.logo.value == mediaUrl + st.hotels[h].logo.value
    ensures r.id == h && r.name == st.hotels[h].name
  {
    assert VisibleOf(st, h) <= ItemsOf(st, h);
    SubsetCard(VisibleOf(st, h), ItemsOf(st, h));
    HotelView(h, st.hotels[h].name, |ItemsOf(st, h)|, LogoUrl(st.hotels[h], mediaUrl))
  }
}
