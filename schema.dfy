/** The database: hotels, menu items, the spreadsheet-fed categories and the
    hand-made manual categories, with the constraints the models declare. */
module Schema {
  import opened Wrappers
  import opened Text
  import opened ImageFetch

  /** Primary keys. */
  type Id = int

  /** A hotel: its unique name and the stored path of its logo. */
  datatype Hotel = Hotel(name: string, logo: Option<string>)

  /** A menu item. `categories` and `manuals` are the two many-to-many
      links, to categories and to manual categories. */
  datatype Item = Item(hotel: Id, name: string, price: Option<real>, description: Option<string>,
                       imageUrl: Option<string>, imageLocal: Option<string>, visible: bool,
                       categories: set<Id>, manuals: set<Id>)

  /** The four tables and the next primary key to hand out. */
  datatype Store = Store(hotels: map<Id, Hotel>, items: map<Id, Item>, categories: map<Id, string>,
                         manuals: map<Id, string>, next: Id)

  /** The empty database; keys start at 1. */
  const Empty := Store(map[], map[], map[], map[], 1)

  /** Python truthiness of a nullable text or file field. */
  predicate Present(o: Option<string>) {
    o.Some? && o.value != []
  }

  /** `Hotel.name` is `unique=True`: exact, case-sensitive comparison. */
  predicate UniqueHotelNames(hotels: map<Id, Hotel>) {
    forall a, b :: a in hotels && b in hotels && a != b ==> hotels[a].name != hotels[b].name
  }

  /** `Category.name` and `ManualCategory.name` are `unique=True`. */
  predicate UniqueNames(names: map<Id, string>) {
    forall a, b :: a in names && b in names && a != b ==> names[a] != names[b]
  }

  /** `unique_together = ('hotel', 'item_name')` */
  predicate UniqueItemKeys(items: map<Id, Item>) {
    forall a, b :: a in items && b in items && a != b ==>
      items[a].hotel != items[b].hotel || items[a].name != items[b].name
  }

  /** Every foreign key and every link names an existing row. */
  predicate Linked(st: Store) {
    forall a :: a in st.items ==>
      st.items[a].hotel in st.hotels
      && st.items[a].categories <= st.categories.Keys
      && st.items[a].manuals <= st.manuals.Keys
  }

  /** Every key in use lies below the next key to hand out. */
  predicate KeysBelow(st: Store) {
    1 <= st.next
    && (forall a :: a in st.hotels ==> 1 <= a < st.next)
    && (forall a :: a in st.items ==> 1 <= a < st.next)
    && (forall a :: a in st.categories ==> 1 <= a < st.next)
    && (forall a :: a in st.manuals ==> 1 <= a < st.next)
  }

  predicate Valid(st: Store) {
    UniqueHotelNames(st.hotels) && UniqueNames(st.categories) && UniqueNames(st.manuals)
    && UniqueItemKeys(st.items) && Linked(st) && KeysBelow(st)
  }

  lemma EmptyIsValid()
    ensures Valid(Empty)
  {
  }

  /** A created item: visible (`default=True`) and without links. */
  function NewItem(hotel: Id, name: string, price: Option<real>, description: Option<string>,
                   imageUrl: Option<string>, imageLocal: Option<string>): Item {
    Item(hotel, name, price, description, imageUrl, imageLocal, true, {}, {})
  }

  /** The items of one hotel (`hotel.menu_items`). */
  function ItemsOf(st: Store, h: Id): set<Id> {
    set a | a in st.items && st.items[a].hotel == h
  }

  /** The items with the key `(hotel, item_name)`. */
  function ItemsKeyed(items: map<Id, Item>, h: Id, name: string): set<Id> {
    set a | a in items && items[a].hotel == h && items[a].name == name
  }

  /** `hotel_image_upload_path`: `menu_images/<slugified hotel name>/<file>`. */
  function UploadPath(hotelName: string, filename: string, slugify: Slugify): string {
    "menu_images/" + slugify(hotelName) + "/" + filename
  }

  /** The folder `download_image` stores into is the one the upload path
      names, as long as the hotel name slugs to something. */
  lemma DownloadFolderIsUploadFolder(hotelName: string, filename: string, slugify: Slugify)
    requires slugify(hotelName) != []
    ensures RelativePath(slugify(hotelName), filename) == UploadPath(hotelName, filename, slugify)
  {
    var slug := slugify(hotelName);
    assert "menu_images/" + (slug + "/") + filename == "menu_images/" + slug + "/" + filename;
  }

  /** The only element of a one-element set. */
  function Only(s: set<Id>): (r: Id)
    requires |s| == 1
    ensures s == {r}
  {
    SingletonUnique(s);
    HasMember(s);
    var x :| x in s; x
  }

  lemma HasMember(s: set<Id>)
    requires s != {}
    ensures exists x :: x in s
  {
    if forall x :: x !in s {
      assert false;
    }
  }

  lemma SingletonUnique(s: set<Id>)
    requires |s| == 1
    ensures forall a, b :: a in s && b in s ==> a == b
    ensures forall a :: a in s ==> s == {a}
  {
    HasMember(s);
    var x :| x in s;
    assert |s - {x}| == 0;
    assert s == {x};
  }

  /** `MenuItem.objects.filter(hotel=hotel).delete()` */
  function ClearHotel(st: Store, h: Id): Store {
    st.(items := map a | a in st.items && st.items[a].hotel != h :: st.items[a])
  }

  /** Relinking one item to existing rows keeps the constraints. */
  lemma RelinkValid(st: Store, pk: Id, it: Item)
    requires Valid(st) && pk in st.items
    requires it.hotel == st.items[pk].hotel && it.name == st.items[pk].name
    requires it.categories <= st.categories.Keys && it.manuals <= st.manuals.Keys
    ensures Valid(st.(items := st.items[pk := it]))
  {
    var items := st.items[pk := it];
    assert forall a :: a in items ==> items[a].hotel == st.items[a].hotel && items[a].name == st.items[a].name;
  }

  /** Changing a hotel's logo keeps the constraints. */
  lemma SetLogoValid(st: Store, h: Id, logo: Option<string>)
    requires Valid(st) && h in st.hotels
    ensures Valid(st.(hotels := st.hotels[h := st.hotels[h].(logo := logo)]))
  {
    var hs := st.hotels[h := st.hotels[h].(logo := logo)];
    assert hs.Keys == st.hotels.Keys;
    assert forall a :: a in hs ==> hs[a].name == st.hotels[a].name;
  }

  /** Clearing a hotel's items keeps the constraints. */
  lemma ClearHotelValid(st: Store, h: Id)
    requires Valid(st)
    ensures Valid(ClearHotel(st, h))
  {
  }

  /** Deleting a hotel: `on_delete=CASCADE` removes its items with it. */
  function DeleteHotel(st: Store, h: Id): Store {
    ClearHotel(st, h).(hotels := st.hotels - {h})
  }

  /** After deleting a hotel none of its items remain, every other item is
      untouched, and the constraints still hold. */
  lemma DeleteHotelCascades(st: Store, h: Id)
    requires Valid(st)
    ensures var r := DeleteHotel(st, h);
            Valid(r) && h !in r.hotels && ItemsOf(r, h) == {}
            && (forall a :: a in st.items && st.items[a].hotel != h ==> a in r.items && r.items[a] == st.items[a])
            && r.items.Keys <= st.items.Keys
  {
  }

  /** A subset is no larger than its superset. */
  lemma SubsetCard(a: set<Id>, b: set<Id>)
    requires a <= b
    ensures |a| <= |b|
  {
    assert b == a + (b - a);
  }
}
