/** The spreadsheet import behind the API upload (`import_xlsx_to_db`): the
    hotel's items are cleared, then each row is created, or merged into the
    item of the same name made earlier in the same import. */
module Importer {
  import opened Wrappers
  import opened Text
  import opened Cells
  import opened Headers
  import opened Rows
  import opened FileNames
  import opened ImageFetch
  import opened Schema
  import opened Lookup
  import opened Upload

  /** The keys of the `defaults` and merge dictionaries. `category` is not a
      field of a menu item, which has only the `categories` link. */
  datatype Field = PriceField | CategoryField | DescriptionField | ImageUrlField | ImageLocalField

  /** A key that names a field of `MenuItem`. */
  predicate Declared(f: Field) {
    f != CategoryField
  }

  /** The dictionary keys as the import writes them. */
  const WrittenKeys: seq<Field> := [PriceField, CategoryField, DescriptionField, ImageUrlField, ImageLocalField]

  /** The keys with the non-field `category` left out. */
  const CorrectedKeys: seq<Field> := [PriceField, DescriptionField, ImageUrlField, ImageLocalField]

  /** The values a row offers for each key. */
  datatype Offer = Offer(price: Option<real>, category: Option<string>, description: Option<string>,
                         imageUrl: Option<string>, imageLocal: Option<string>)

  /** A field's value: the price, or one of the text fields. */
  datatype Value = Num(num: Option<real>) | Text(text: Option<string>)

  /** Python truthiness of an offered value. */
  predicate Offered(o: Offer, f: Field) {
    match f
    case PriceField => o.price.Some? && o.price.value != 0.0
    case CategoryField => Present(o.category)
    case DescriptionField => Present(o.description)
    case ImageUrlField => Present(o.imageUrl)
    case ImageLocalField => Present(o.imageLocal)
  }

  function Wanted(o: Offer, f: Field): Value
    requires Declared(f)
  {
    match f
    case PriceField => Num(o.price)
    case DescriptionField => Text(o.description)
    case ImageUrlField => Text(o.imageUrl)
    case ImageLocalField => Text(o.imageLocal)
  }

  /** `getattr(obj, field)` for a declared field. */
  function Get(it: Item, f: Field): Value
    requires Declared(f)
  {
    match f
    case PriceField => Num(it.price)
    case DescriptionField => Text(it.description)
    case ImageUrlField => Text(it.imageUrl)
    case ImageLocalField => Text(it.imageLocal)
  }

  /** `setattr(obj, field, value)` for a declared field. */
  function Assign(it: Item, o: Offer, f: Field): (r: Item)
    requires Declared(f)
    ensures Get(r, f) == Wanted(o, f)
    ensures forall g :: Declared(g) && g != f ==> Get(r, g) == Get(it, g)
    ensures r.hotel == it.hotel && r.name == it.name && r.visible == it.visible
    ensures r.categories == it.categories && r.manuals == it.manuals
  {
    match f
    case PriceField => it.(price := o.price)
    case DescriptionField => it.(description := o.description)
    case ImageUrlField => it.(imageUrl := o.imageUrl)
    case ImageLocalField => it.(imageLocal := o.imageLocal)
  }

  /** The item after the merge loop and whether anything was set. */
  datatype Merged = Merged(item: Item, changed: bool)

  /** The merge loop over the keys in order: a truthy value that differs
      from the item's is set. `getattr` on a key that is not a field raises
      (`None`), and then nothing is saved. */
  function Merge(it: Item, o: Offer, keys: seq<Field>): Option<Merged>
    decreases |keys|
  {
    if keys == [] then Some(Merged(it, false))
    else match Merge(it, o, keys[..|keys| - 1])
      case None => None
      case Some(m) =>
        var f := keys[|keys| - 1];
        if !Offered(o, f) then Some(m)
        else if !Declared(f) then None
        else if Get(m.item, f) != Wanted(o, f) then Some(Merged(Assign(m.item, o, f), true))
        else Some(m)
  }

  /** The `changed` loop over the field map, in order: a truthy value that
      differs from the current one overwrites it, and a key that is not a
      field of the item raises as soon as its value is truthy. */
  method MergeFields(it: Item, o: Offer, keys: seq<Field>) returns (r: Option<Merged>)
    ensures r == Merge(it, o, keys)
  {
    var item := it;
    var changed := false;
    var i := 0;
    while i < |keys|
      invariant 0 <= i <= |keys|
      invariant Merge(it, o, keys[..i]) == Some(Merged(item, changed))
    {
      var f := keys[i];
      assert keys[..i + 1][..i] == keys[..i];
      if Offered(o, f) {
        if !Declared(f) {
          MergeStops(it, o, keys, i + 1);
          return None;
        }
        if Get(item, f) != Wanted(o, f) {
          item := Assign(item, o, f);
          changed := true;
        }
      }
      i := i + 1;
    }
    assert keys[..i] == keys;
    r := Some(Merged(item, changed));
  }

  /** Once the merge has raised, the remaining keys are not looked at. */
  lemma {:induction false} MergeStops(it: Item, o: Offer, keys: seq<Field>, i: nat)
    requires i <= |keys| && Merge(it, o, keys[..i]).None?
    ensures Merge(it, o, keys).None?
    decreases |keys| - i
  {
    if i < |keys| {
      assert keys[..i + 1][..i] == keys[..i];
      MergeStops(it, o, keys, i + 1);
    } else {
      assert keys[..i] == keys;
    }
  }

  /** The merge fails exactly when a key that is not a field has a truthy
      value. */
  predicate Raises(o: Offer, keys: seq<Field>) {
    exists k :: 0 <= k < |keys| && !Declared(keys[k]) && Offered(o, keys[k])
  }

  /** Where the merge succeeds, each field ends up holding the offered value
      when its key is listed and the value truthy, and its old value
      otherwise; the key, the visibility and the links never change; and the
      item counts as changed exactly when some field took a new value. */
  lemma {:induction false} MergeFacts(it: Item, o: Offer, keys: seq<Field>)
    ensures Merge(it, o, keys).None? <==> Raises(o, keys)
    ensures Merge(it, o, keys).Some? ==>
      var m := Merge(it, o, keys).value;
      && (forall f :: Declared(f) ==>
            Get(m.item, f) == (if f in keys && Offered(o, f) then Wanted(o, f) else Get(it, f)))
      && m.item.hotel == it.hotel && m.item.name == it.name && m.item.visible == it.visible
      && m.item.categories == it.categories && m.item.manuals == it.manuals
      && (m.changed <==> exists f :: Declared(f) && f in keys && Offered(o, f) && Get(it, f) != Wanted(o, f))
    decreases |keys|
  {
    if keys != [] {
      var init := keys[..|keys| - 1];
      var f := keys[|keys| - 1];
      MergeFacts(it, o, init);
      assert keys == init + [f];
      assert Raises(o, keys) <==> Raises(o, init) || (!Declared(f) && Offered(o, f)) by {
        if Raises(o, init) {
          var k :| 0 <= k < |init| && !Declared(init[k]) && Offered(o, init[k]);
          assert keys[k] == init[k];
        }
        if Raises(o, keys) {
          var k :| 0 <= k < |keys| && !Declared(keys[k]) && Offered(o, keys[k]);
          if k < |init| { assert init[k] == keys[k]; }
        }
      }
      assert forall g :: g in keys <==> g in init || g == f;
      var p := Merge(it, o, init);
      if p.Some? && Offered(o, f) && Declared(f) {
        var m := p.value;
        if Get(m.item, f) != Wanted(o, f) {
          assert Get(it, f) != Wanted(o, f);
        }
      }
    }
  }

  /** A merge that changes nothing leaves the item as it was. */
  lemma UnchangedMergeKeepsItem(it: Item, o: Offer, keys: seq<Field>)
    requires Merge(it, o, keys).Some? && !Merge(it, o, keys).value.changed
    ensures Merge(it, o, keys).value.item == it
  {
    MergeFacts(it, o, keys);
    var m := Merge(it, o, keys).value;
    forall f | Declared(f) ensures Get(m.item, f) == Get(it, f) {
      assert !(f in keys && Offered(o, f) && Get(it, f) != Wanted(o, f));
    }
    assert Get(m.item, PriceField) == Get(it, PriceField);
    assert Get(m.item, DescriptionField) == Get(it, DescriptionField);
    assert Get(m.item, ImageUrlField) == Get(it, ImageUrlField);
    assert Get(m.item, ImageLocalField) == Get(it, ImageLocalField);
  }

  /** The `defaults` of `get_or_create`: the fields named by a key take the
      offered value, the others are null. */
  function Defaults(h: Id, name: string, o: Offer, keys: seq<Field>): (it: Item)
    ensures it.hotel == h && it.name == name && it.visible && it.categories == {} && it.manuals == {}
    ensures forall f :: Declared(f) ==> Get(it, f) == (if f in keys then Wanted(o, f) else Get(NewItem(h, name, None, None, None, None), f))
  {
    NewItem(h, name, if PriceField in keys then o.price else None,
            if DescriptionField in keys then o.description else None,
            if ImageUrlField in keys then o.imageUrl else None,
            if ImageLocalField in keys then o.imageLocal else None)
  }

  /** What a row offers: the image stored when the URL is non-empty, `""`
      otherwise. */
  function RowOffer(r: ImportRow, hotelName: string, env: Env): Offer {
    var local := if Present(r.imageUrl) then Download(r.imageUrl.value, hotelName, env.fetch, env.slugify) else Some([]);
    Offer(r.price, r.category, r.description, r.imageUrl, local)
  }

  /** The store after one row and whether the row created an item. */
  datatype Step = Step(store: Store, created: bool)

  /** One data row of the import, or `Step(st, false)` when it is skipped. */
  function ImportRowStep(st: Store, h: Id, hotelName: string, cols: ImportColumns, row: seq<Cell>,
                         keys: seq<Field>, env: Env): Step {
    match ReadImportRow(cols, row, env.toFloat)
    case None => Step(st, false)
    case Some(r) => ImportRecord(st, h, r.name, RowOffer(r, hotelName, env), keys)
  }

  /** `get_or_create(hotel=hotel, item_name=name, defaults=...)` and the
      merge. A creation or merge that raises, and a name that matches more
      than one item, leave the store as it was. An item is created exactly
      when the hotel has none of that name and every key is a field. */
  function ImportRecord(st: Store, h: Id, name: string, o: Offer, keys: seq<Field>): Step {
    var found := ItemsKeyed(st.items, h, name);
    if found == {} then
      if forall k :: 0 <= k < |keys| ==> Declared(keys[k])
      then Step(CreateItem(st, Defaults(h, name, o, keys)), true)
      else Step(st, false)
    else if |found| == 1 then
      var a := Only(found);
      match Merge(st.items[a], o, keys)
      case None => Step(st, false)
      case Some(m) => Step(if m.changed then st.(items := st.items[a := m.item]) else st, false)
    else Step(st, false)
  }

  /** An item is created exactly when the hotel has none of that name and
      every key is a field; a creation refused changes nothing. */
  lemma ImportRecordCreates(st: Store, h: Id, name: string, o: Offer, keys: seq<Field>)
    ensures var r := ImportRecord(st, h, name, o, keys);
            && (r.created <==> ItemsKeyed(st.items, h, name) == {} && forall k :: 0 <= k < |keys| ==> Declared(keys[k]))
            && (!r.created && ItemsKeyed(st.items, h, name) == {} ==> r.store == st)
  {
  }

  /** The rows processed, the items created, and the store. */
  datatype Progress = Progress(store: Store, processed: nat, created: nat)

  /** The row loop, in sheet order. */
  function ImportRows(st: Store, h: Id, hotelName: string, cols: ImportColumns, rows: seq<seq<Cell>>,
                      keys: seq<Field>, env: Env): Progress
    decreases |rows|
  {
    if rows == [] then Progress(st, 0, 0)
    else
      var p := ImportRows(st, h, hotelName, cols, rows[..|rows| - 1], keys, env);
      var s := ImportRowStep(p.store, h, hotelName, cols, rows[|rows| - 1], keys, env);
      Progress(s.store, p.processed + 1, p.created + if s.created then 1 else 0)
  }

  /** One more row: the fold over the first `i + 1` rows is one step past
      the fold over the first `i`. */
  lemma ImportRowsSnoc(st: Store, h: Id, hotelName: string, cols: ImportColumns, rows: seq<seq<Cell>>,
                       i: nat, keys: seq<Field>, env: Env)
    requires i < |rows|
    ensures var p := ImportRows(st, h, hotelName, cols, rows[..i], keys, env);
            var s := ImportRowStep(p.store, h, hotelName, cols, rows[i], keys, env);
            ImportRows(st, h, hotelName, cols, rows[..i + 1], keys, env)
            == Progress(s.store, p.processed + 1, p.created + if s.created then 1 else 0)
  {
    var q := rows[..i + 1];
    assert q[..|q| - 1] == rows[..i] && q[|q| - 1] == rows[i];
    ImportRowsLast(st, h, hotelName, cols, q, keys, env);
  }

  lemma ImportRowsLast(st: Store, h: Id, hotelName: string, cols: ImportColumns, q: seq<seq<Cell>>,
                       keys: seq<Field>, env: Env)
    requires q != []
    ensures var p := ImportRows(st, h, hotelName, cols, q[..|q| - 1], keys, env);
            var s := ImportRowStep(p.store, h, hotelName, cols, q[|q| - 1], keys, env);
            ImportRows(st, h, hotelName, cols, q, keys, env)
            == Progress(s.store, p.processed + 1, p.created + if s.created then 1 else 0)
  {
  }

  /** A row that is read is one `get_or_create` and merge of its name and
      its offer. */
  lemma ReadRowIsRecord(st: Store, h: Id, hotelName: string, cols: ImportColumns, row: seq<Cell>,
                        keys: seq<Field>, env: Env)
    requires ReadImportRow(cols, row, env.toFloat).Some?
    ensures var r := ReadImportRow(cols, row, env.toFloat).value;
            ImportRowStep(st, h, hotelName, cols, row, keys, env)
            == ImportRecord(st, h, r.name, RowOffer(r, hotelName, env), keys)
  {
  }

  /** `import_xlsx_to_db(path, hotel_name)` on the active sheet. */
  function Import(st: Store, hotelName: string, sheet: Sheet, keys: seq<Field>, env: Env): (r: Progress)
    requires Valid(st)
  {
    var g := GetOrCreateHotel(st, hotelName);
    ImportRows(ClearHotel(g.store, g.id), g.id, hotelName, ImportColumnsOf(sheet.header), sheet.rows, keys, env)
  }

  /** The hotel the import fills. */
  function ImportHotel(st: Store, hotelName: string): Id
    requires Valid(st)
  {
    GetOrCreateHotel(st, hotelName).id
  }

  // ---------------------------------------------------------------------
  // What a row may do to the store.

  /** From `a` to `b` only items of hotel `h` were added, under fresh keys,
      or had their fields updated; nothing else changed. */
  predicate Touches(a: Store, b: Store, h: Id) {
    a.hotels == b.hotels && a.categories == b.categories && a.manuals == b.manuals && a.next <= b.next
    && a.items.Keys <= b.items.Keys
    && (forall x :: x in a.items ==> b.items[x].hotel == a.items[x].hotel && b.items[x].name == a.items[x].name
                                     && b.items[x].categories == a.items[x].categories
                                     && b.items[x].manuals == a.items[x].manuals)
    && (forall x :: x in a.items && a.items[x].hotel != h ==> b.items[x] == a.items[x])
    && (forall x :: x in b.items && x !in a.items ==> a.next <= x && b.items[x].hotel == h)
  }

  lemma TouchesTransitive(a: Store, b: Store, c: Store, h: Id)
    requires Touches(a, b, h) && Touches(b, c, h)
    ensures Touches(a, c, h)
  {
  }

  /** The items of `h` grow by the new key when a row creates, and stay the
      same otherwise. */
  predicate Counted(a: Store, b: Store, h: Id, created: bool) {
    if created then a.next !in ItemsOf(a, h) && ItemsOf(b, h) == ItemsOf(a, h) + {a.next}
    else ItemsOf(b, h) == ItemsOf(a, h)
  }

  lemma CreateCounted(st: Store, it: Item)
    requires Valid(st) && ItemsKeyed(st.items, it.hotel, it.name) == {}
    ensures Counted(st, CreateItem(st, it), it.hotel, true)
  {
    var r := CreateItem(st, it);
    assert ItemsOf(r, it.hotel) == ItemsOf(st, it.hotel) + {st.next};
  }

  lemma UpdateCounted(st: Store, a: Id, it: Item)
    requires a in st.items && it.hotel == st.items[a].hotel
    ensures Counted(st, st.(items := st.items[a := it]), it.hotel, false)
  {
    var r := st.(items := st.items[a := it]);
    assert ItemsOf(r, it.hotel) == ItemsOf(st, it.hotel);
  }

  /** One row keeps the store consistent, touches only the hotel's items,
      and creates an item exactly when it reports one. */
  lemma ImportRowStepFacts(st: Store, h: Id, hotelName: string, cols: ImportColumns, row: seq<Cell>,
                           keys: seq<Field>, env: Env)
    requires Valid(st) && h in st.hotels
    ensures var s := ImportRowStep(st, h, hotelName, cols, row, keys, env);
            Valid(s.store) && Touches(st, s.store, h) && Counted(st, s.store, h, s.created)
  {
    match ReadImportRow(cols, row, env.toFloat)
    case None =>
    case Some(r) => ImportRecordFacts(st, h, r.name, RowOffer(r, hotelName, env), keys);
  }

  lemma ImportRecordFacts(st: Store, h: Id, name: string, o: Offer, keys: seq<Field>)
    requires Valid(st) && h in st.hotels
    ensures var s := ImportRecord(st, h, name, o, keys);
            Valid(s.store) && Touches(st, s.store, h) && Counted(st, s.store, h, s.created)
  {
    var found := ItemsKeyed(st.items, h, name);
    if found == {} {
      if forall k :: 0 <= k < |keys| ==> Declared(keys[k]) {
        CreateTouches(st, Defaults(h, name, o, keys));
      }
    } else if |found| == 1 {
      var a := Only(found);
      var m := Merge(st.items[a], o, keys);
      MergeKeepsKey(st.items[a], o, keys);
      if m.Some? && m.value.changed {
        UpdateTouches(st, a, m.value.item);
      }
    }
  }

  /** A creation under a new key and name touches only the hotel's items. */
  lemma CreateTouches(st: Store, it: Item)
    requires Valid(st) && it.hotel in st.hotels && it.categories == {} && it.manuals == {}
    requires ItemsKeyed(st.items, it.hotel, it.name) == {}
    ensures Valid(CreateItem(st, it)) && Touches(st, CreateItem(st, it), it.hotel)
    ensures Counted(st, CreateItem(st, it), it.hotel, true)
  {
    CreateItemFacts(st, it);
    CreateCounted(st, it);
  }

  /** A merge leaves the item's hotel, name and links alone. */
  lemma MergeKeepsKey(it: Item, o: Offer, keys: seq<Field>)
    ensures Merge(it, o, keys).Some? ==>
      var m := Merge(it, o, keys).value.item;
      m.hotel == it.hotel && m.name == it.name && m.categories == it.categories && m.manuals == it.manuals
  {
    MergeFacts(it, o, keys);
  }

  /** Rewriting an item's fields, keeping its hotel, name and links, touches
      only that hotel's items. */
  lemma UpdateTouches(st: Store, a: Id, it: Item)
    requires Valid(st) && a in st.items
    requires it.hotel == st.items[a].hotel && it.name == st.items[a].name
    requires it.categories == st.items[a].categories && it.manuals == st.items[a].manuals
    ensures var t := st.(items := st.items[a := it]);
            Valid(t) && Touches(st, t, it.hotel) && Counted(st, t, it.hotel, false)
  {
    var t := st.(items := st.items[a := it]);
    UpdateCounted(st, a, it);
    assert UniqueItemKeys(t.items) by {
      forall x, y | x in t.items && y in t.items && x != y
        ensures t.items[x].hotel != t.items[y].hotel || t.items[x].name != t.items[y].name
      {
        assert t.items[x].hotel == st.items[x].hotel && t.items[x].name == st.items[x].name;
        assert t.items[y].hotel == st.items[y].hotel && t.items[y].name == st.items[y].name;
      }
    }
  }

  /** The row loop processes every row, keeps the store consistent, and the
      hotel's items afterwards are those it had plus one per creation. */
  lemma {:induction false} ImportRowsFacts(st: Store, h: Id, hotelName: string, cols: ImportColumns,
                                           rows: seq<seq<Cell>>, keys: seq<Field>, env: Env)
    requires Valid(st) && h in st.hotels
    ensures var p := ImportRows(st, h, hotelName, cols, rows, keys, env);
            Valid(p.store) && Touches(st, p.store, h) && p.processed == |rows| && p.created <= |rows|
            && ItemsOf(st, h) <= ItemsOf(p.store, h)
            && |ItemsOf(p.store, h)| == |ItemsOf(st, h)| + p.created
    decreases |rows|
  {
    if rows != [] {
      var init := rows[..|rows| - 1];
      var p := ImportRows(st, h, hotelName, cols, init, keys, env);
      ImportRowsFacts(st, h, hotelName, cols, init, keys, env);
      var s := ImportRowStep(p.store, h, hotelName, cols, rows[|rows| - 1], keys, env);
      ImportRowStepFacts(p.store, h, hotelName, cols, rows[|rows| - 1], keys, env);
      TouchesTransitive(st, p.store, s.store, h);
      CountedGrows(p.store, s.store, h, s.created);
      ImportRowsSnoc(st, h, hotelName, cols, rows, |rows| - 1, keys, env);
      assert rows[..|rows| - 1 + 1] == rows;
    }
  }

  lemma CountedGrows(a: Store, b: Store, h: Id, created: bool)
    requires Counted(a, b, h, created)
    ensures ItemsOf(a, h) <= ItemsOf(b, h)
    ensures |ItemsOf(b, h)| == |ItemsOf(a, h)| + if created then 1 else 0
  {
  }

  /** The import keeps the database consistent; the hotel named by the file
      keeps exactly the items the import created, the number it reports,
      and every other hotel's items are untouched. */
  lemma ImportFacts(st: Store, hotelName: string, sheet: Sheet, keys: seq<Field>, env: Env)
    requires Valid(st)
    ensures var r := Import(st, hotelName, sheet, keys, env);
            var h := ImportHotel(st, hotelName);
            Valid(r.store) && h in r.store.hotels && r.store.hotels[h].name == hotelName
            && r.processed == |sheet.rows|
            && |ItemsOf(r.store, h)| == r.created
            && (forall x :: x in ItemsOf(r.store, h) ==> x !in st.items)
            && (forall x :: x in st.items && st.items[x].hotel != h ==> x in r.store.items && r.store.items[x] == st.items[x])
  {
    var g := GetOrCreateHotel(st, hotelName);
    GetOrCreateHotelValid(st, hotelName);
    var s2 := ClearHotel(g.store, g.id);
    assert Valid(s2);
    assert ItemsOf(s2, g.id) == {};
    ImportRowsFacts(s2, g.id, hotelName, ImportColumnsOf(sheet.header), sheet.rows, keys, env);
    var r := Import(st, hotelName, sheet, keys, env);
    forall x | x in ItemsOf(r.store, g.id) ensures x !in st.items {
      assert x !in s2.items;
    }
  }

  /** The second of two rows with the same name creates nothing: it is
      merged into the item the first one made. */
  lemma RepeatedNameMerges(st: Store, h: Id, hotelName: string, cols: ImportColumns, row: seq<Cell>,
                           keys: seq<Field>, env: Env)
    requires RowName(row, cols.name).Some? && ItemsKeyed(st.items, h, RowName(row, cols.name).value) != {}
    ensures !ImportRowStep(st, h, hotelName, cols, row, keys, env).created
  {
    var r := ReadImportRow(cols, row, env.toFloat);
    assert r.Some? && r.value.name == RowName(row, cols.name).value;
    ReadRowIsRecord(st, h, hotelName, cols, row, keys, env);
    ImportRecordCreates(st, h, r.value.name, RowOffer(r.value, hotelName, env), keys);
  }

  /** As the import is written, with `category` among the `defaults`, no row
      ever creates an item: the unknown field makes every creation raise, so
      the hotel is left with no items at all and the response reports 0. */
  lemma WrittenKeysCreateNothing(st: Store, hotelName: string, sheet: Sheet, env: Env)
    requires Valid(st)
    ensures Import(st, hotelName, sheet, WrittenKeys, env).created == 0
    ensures ItemsOf(Import(st, hotelName, sheet, WrittenKeys, env).store, ImportHotel(st, hotelName)) == {}
  {
    var g := GetOrCreateHotel(st, hotelName);
    var s2 := ClearHotel(g.store, g.id);
    assert ItemsOf(s2, g.id) == {};
    WrittenKeysRows(s2, g.id, hotelName, ImportColumnsOf(sheet.header), sheet.rows, env);
  }

  lemma NoItemsNoneKeyed(st: Store, h: Id, name: string)
    requires ItemsOf(st, h) == {}
    ensures ItemsKeyed(st.items, h, name) == {}
  {
    assert forall a :: a in ItemsKeyed(st.items, h, name) ==> a in ItemsOf(st, h);
  }

  /** A creation that names a key which is not a field raises, and leaves
      the store as it was. */
  lemma CreationRefused(st: Store, h: Id, name: string, o: Offer, keys: seq<Field>, k: nat)
    requires ItemsKeyed(st.items, h, name) == {}
    requires k < |keys| && !Declared(keys[k])
    ensures ImportRecord(st, h, name, o, keys) == Step(st, false)
  {
  }

  /** A row of a hotel without items never changes anything under the
      written keys. */
  lemma WrittenKeysStep(st: Store, h: Id, hotelName: string, cols: ImportColumns, row: seq<Cell>, env: Env)
    requires ItemsOf(st, h) == {}
    ensures ImportRowStep(st, h, hotelName, cols, row, WrittenKeys, env) == Step(st, false)
  {
    var r := ReadImportRow(cols, row, env.toFloat);
    if r.Some? {
      ReadRowIsRecord(st, h, hotelName, cols, row, WrittenKeys, env);
      WrittenKeysRecord(st, h, r.value.name, RowOffer(r.value, hotelName, env));
    }
  }

  /** The written keys refuse every creation for a hotel without items. */
  lemma WrittenKeysRecord(st: Store, h: Id, name: string, o: Offer)
    requires ItemsOf(st, h) == {}
    ensures ImportRecord(st, h, name, o, WrittenKeys) == Step(st, false)
  {
    NoItemsNoneKeyed(st, h, name);
    CreationRefused(st, h, name, o, WrittenKeys, 1);
  }

  lemma {:induction false} WrittenKeysRows(st: Store, h: Id, hotelName: string, cols: ImportColumns,
                                           rows: seq<seq<Cell>>, env: Env)
    requires ItemsOf(st, h) == {}
    ensures ImportRows(st, h, hotelName, cols, rows, WrittenKeys, env).created == 0
    ensures ImportRows(st, h, hotelName, cols, rows, WrittenKeys, env).store == st
    decreases |rows|
  {
    if rows != [] {
      WrittenKeysRows(st, h, hotelName, cols, rows[..|rows| - 1], env);
      WrittenKeysStep(st, h, hotelName, cols, rows[|rows| - 1], env);
    }
  }

  lemma CorrectedKeysDeclared()
    ensures forall k :: 0 <= k < |CorrectedKeys| ==> Declared(CorrectedKeys[k])
  {
  }

  /** With the corrected keys a named row whose name the hotel does not have
      yet creates its item. */
  lemma CorrectedKeysCreate(st: Store, h: Id, hotelName: string, cols: ImportColumns, row: seq<Cell>, env: Env)
    requires RowName(row, cols.name).Some? && ItemsKeyed(st.items, h, RowName(row, cols.name).value) == {}
    ensures ImportRowStep(st, h, hotelName, cols, row, CorrectedKeys, env).created
  {
    var r := ReadImportRow(cols, row, env.toFloat);
    assert r.Some? && r.value.name == RowName(row, cols.name).value;
    CorrectedKeysDeclared();
    ReadRowIsRecord(st, h, hotelName, cols, row, CorrectedKeys, env);
    ImportRecordCreates(st, h, r.value.name, RowOffer(r.value, hotelName, env), CorrectedKeys);
  }

  /** What the API upload answers. */
  datatype ApiOutcome = NoFileGiven | OnlyXlsx | ServerError | Imported(hotel: string, itemsImported: nat)

  datatype ApiReport = ApiReport(store: Store, outcome: ApiOutcome)

  /** The extensions openpyxl's `load_workbook` accepts; any other path is
      refused before the file is opened. */
  predicate OpenpyxlFormat(path: string) {
    Lower(SplitExtSuffix(path)) in {".xlsx", ".xlsm", ".xltx", ".xltm"}
  }

  /** `load_workbook(path)`: the sheet the saved bytes hold, when the path's
      extension is accepted. */
  function LoadWorkbook(path: string, sheet: Option<Sheet>): (r: Option<Sheet>)
    ensures r.Some? <==> OpenpyxlFormat(path) && sheet.Some?
    ensures r.Some? ==> r == sheet
  {
    if OpenpyxlFormat(path) then sheet else None
  }

  /** How the API view names the temporary copy: `slugify(file.name)`, or
      (the corrected form) the slug of the name's root behind a fixed stem,
      with the `.xlsx` extension kept. */
  datatype SaveAs = SlugOfName | KeepExtension

  const SavedStem := "upload-"

  function SavedName(how: SaveAs, name: string, slugify: Slugify): string {
    match how
    case SlugOfName => slugify(name)
    case KeepExtension => SavedStem + slugify(SplitExtRoot(name)) + FileNames.Extension
  }

  /** `UploadMenuAPI.post`: the file-name gate, the hotel name taken from the
      file name, the copy saved under `dir`, and the import of that copy
      with the field keys `keys`. A workbook that does not load raises
      inside the transaction, so nothing is kept and the request fails. */
  function ApiUpload(st: Store, file: Option<string>, sheet: Option<Sheet>, keys: seq<Field>,
                     how: SaveAs, dir: string, env: Env): ApiReport
    requires Valid(st)
  {
    if file.None? || file.value == [] then ApiReport(st, NoFileGiven)
    else if !IsXlsxName(file.value) then ApiReport(st, OnlyXlsx)
    else
      ApiImport(st, ApiHotelName(file.value), PathJoin(dir, SavedName(how, file.value, env.slugify)), sheet, keys, env)
  }

  /** `import_xlsx_to_db(path, name)` on the saved copy. */
  function ApiImport(st: Store, name: string, path: string, sheet: Option<Sheet>, keys: seq<Field>, env: Env): ApiReport
    requires Valid(st)
  {
    var loaded := LoadWorkbook(path, sheet);
    if loaded.None? then ApiReport(st, ServerError)
    else
      var r := Import(st, name, loaded.value, keys, env);
      ApiReport(r.store, Imported(name, r.created))
  }

  /** The import of the saved copy keeps the database consistent, changes
      nothing unless the copy loads, and reports the hotel's item count. */
  lemma ApiImportFacts(st: Store, name: string, path: string, sheet: Option<Sheet>, keys: seq<Field>, env: Env)
    requires Valid(st)
    ensures var r := ApiImport(st, name, path, sheet, keys, env);
            Valid(r.store)
            && (!r.outcome.Imported? ==> r.store == st && r.outcome == ServerError)
            && (r.outcome.Imported? ==>
                  r.outcome.hotel == name
                  && |ItemsOf(r.store, ImportHotel(st, name))| == r.outcome.itemsImported)
  {
    if OpenpyxlFormat(path) && sheet.Some? {
      ImportFacts(st, name, sheet.value, keys, env);
    }
  }

  /** Whatever the keys and the saved name, the API upload keeps the
      database consistent, changes nothing unless it imports, and then
      reports the number of items the hotel now has. */
  lemma ApiUploadFacts(st: Store, file: Option<string>, sheet: Option<Sheet>, keys: seq<Field>,
                       how: SaveAs, dir: string, env: Env)
    requires Valid(st)
    ensures var r := ApiUpload(st, file, sheet, keys, how, dir, env);
            Valid(r.store)
            && (!r.outcome.Imported? ==> r.store == st)
            && (r.outcome.Imported? ==>
                  r.outcome.hotel == ApiHotelName(file.value)
                  && |ItemsOf(r.store, ImportHotel(st, r.outcome.hotel))| == r.outcome.itemsImported)
  {
    if file.Some? && file.value != [] && IsXlsxName(file.value) {
      ApiImportFacts(st, ApiHotelName(file.value), PathJoin(dir, SavedName(how, file.value, env.slugify)), sheet, keys, env);
    }
  }

  /** The source's keys: whatever is imported, no item is created and the
      hotel is left with no items. */
  lemma WrittenKeysApiImportsNothing(st: Store, file: Option<string>, sheet: Option<Sheet>,
                                     how: SaveAs, dir: string, env: Env)
    requires Valid(st)
    ensures var r := ApiUpload(st, file, sheet, WrittenKeys, how, dir, env);
            r.outcome.Imported? ==>
              r.outcome.itemsImported == 0 && ItemsOf(r.store, ImportHotel(st, r.outcome.hotel)) == {}
  {
    if file.Some? && file.value != [] && IsXlsxName(file.value) && sheet.Some? {
      var path := PathJoin(dir, SavedName(how, file.value, env.slugify));
      if OpenpyxlFormat(path) {
        WrittenKeysCreateNothing(st, ApiHotelName(file.value), sheet.value, env);
      }
    }
  }

  /** A slug holds neither a dot nor a slash. */
  lemma SlugPunctuation(s: Slug)
    ensures '.' !in s && '/' !in s
  {
  }

  /** The source's saved name: a slug holds no dot, so the copy has no
      extension, openpyxl refuses it and every upload that passes the gate
      fails with the database unchanged. */
  lemma SlugOfNameNeverImports(st: Store, file: Option<string>, sheet: Option<Sheet>, keys: seq<Field>,
                               dir: string, env: Env)
    requires Valid(st)
    ensures var r := ApiUpload(st, file, sheet, keys, SlugOfName, dir, env);
            r.store == st
            && (file.Some? && file.value != [] && IsXlsxName(file.value) ==> r.outcome == ServerError)
  {
    if file.Some? && file.value != [] && IsXlsxName(file.value) {
      var base := SavedName(SlugOfName, file.value, env.slugify);
      SlugPunctuation(env.slugify(file.value));
      DotlessBaseHasNoSuffix(dir, base);
      assert !OpenpyxlFormat(PathJoin(dir, base));
    }
  }

  /** The corrected saved name keeps `.xlsx`, so a workbook that opens is
      imported. */
  lemma KeepExtensionImports(st: Store, file: Option<string>, sheet: Option<Sheet>, keys: seq<Field>,
                             dir: string, env: Env)
    requires Valid(st)
    ensures var r := ApiUpload(st, file, sheet, keys, KeepExtension, dir, env);
            file.Some? && file.value != [] && IsXlsxName(file.value) && sheet.Some? ==>
              r.outcome.Imported? && r.outcome.hotel == ApiHotelName(file.value)
  {
    if file.Some? && file.value != [] && IsXlsxName(file.value) && sheet.Some? {
      var path := PathJoin(dir, SavedName(KeepExtension, file.value, env.slugify));
      SavedPathAccepted(file.value, dir, env.slugify);
      AcceptedPathImports(st, ApiHotelName(file.value), path, sheet, keys, env);
      assert ApiUpload(st, file, sheet, keys, KeepExtension, dir, env) == ApiImport(st, ApiHotelName(file.value), path, sheet, keys, env);
    }
  }

  /** The corrected saved name passes openpyxl's extension check. */
  lemma SavedPathAccepted(name: string, dir: string, slugify: Slugify)
    ensures OpenpyxlFormat(PathJoin(dir, SavedName(KeepExtension, name, slugify)))
  {
    var slug := slugify(SplitExtRoot(name));
    SlugPunctuation(slug);
    StemFacts(slug);
    KeptExtension(dir, SavedStem + slug);
    assert SavedName(KeepExtension, name, slugify) == SavedStem + slug + FileNames.Extension;
  }

  lemma StemFacts(slug: string)
    requires '/' !in slug
    ensures var stem := SavedStem + slug; stem != [] && stem[0] != '.' && '/' !in stem
  {
    var stem := SavedStem + slug;
    assert forall k :: 0 <= k < |stem| ==> stem[k] == if k < |SavedStem| then SavedStem[k] else slug[k - |SavedStem|];
  }

  lemma AcceptedPathImports(st: Store, name: string, path: string, sheet: Option<Sheet>, keys: seq<Field>, env: Env)
    requires Valid(st) && OpenpyxlFormat(path) && sheet.Some?
    ensures ApiImport(st, name, path, sheet, keys, env).outcome == Imported(name, Import(st, name, sheet.value, keys, env).created)
  {
  }
}
