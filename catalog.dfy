/** The database as one mutable object: its four tables and key counter
    are fields, and each endpoint that writes to it is a method that
    updates them in place. Every method is tied to the function of the
    same name on `Store` values, whose properties are proved in the other
    modules, and keeps the constraints of the models. */
module Catalog {
  import opened Wrappers
  import opened Text
  import opened Cells
  import opened Headers
  import opened Rows
  import opened FileNames
  import opened Schema
  import opened Lookup
  import opened Mutations
  import Upload
  import Importer

  class Catalog {
    var hotels: map<Id, Hotel>
    var items: map<Id, Item>
    var categories: map<Id, string>
    var manuals: map<Id, string>
    var next: Id

    /** The tables as a value. */
    function Snapshot(): Store
      reads this
    {
      Store(hotels, items, categories, manuals, next)
    }

    /** The model constraints hold. */
    ghost predicate Consistent()
      reads this
    {
      Valid(Snapshot())
    }

    /** An empty database. */
    constructor ()
      ensures Snapshot() == Empty && Consistent()
    {
      hotels, items, categories, manuals, next := map[], map[], map[], map[], 1;
      EmptyIsValid();
    }

    /** `ToggleVisibilityAPI.post` */
    method Toggle(pk: Id, visible: Option<Json>) returns (reply: ToggleReply)
      requires Consistent()
      modifies this
      ensures Consistent()
      ensures (Snapshot(), reply) == Mutations.Toggle(old(Snapshot()), pk, visible)
    {
      ToggleFacts(Snapshot(), pk, visible);
      if pk !in items {
        return ItemNotFound;
      }
      var v := visible.None? || Mutations.Truthy(visible.value);
      items := items[pk := items[pk].(visible := v)];
      reply := Toggled(v);
    }

    /** `UpdateMenuCategoryAPI.post` */
    method UpdateCategory(pk: Id, kind: Option<string>, categoryId: Option<Json>) returns (reply: UpdateReply)
      requires Consistent()
      modifies this
      ensures Consistent()
      ensures (Snapshot(), reply) == Mutations.UpdateCategory(old(Snapshot()), pk, kind, categoryId)
    {
      UpdateCategoryFacts(Snapshot(), pk, kind, categoryId);
      if pk !in items {
        return UpdateFailed;
      }
      var given := categoryId.Some? && Mutations.Truthy(categoryId.value);
      var key := if given then KeyOf(categoryId.value) else None;
      reply := Updated;
      if kind == Some("auto") {
        if !given {
          items := items[pk := items[pk].(categories := {})];
        } else if key.Some? && key.value in categories {
          items := items[pk := items[pk].(categories := {key.value})];
        } else {
          reply := UpdateFailed;
        }
      } else if kind == Some("manual") {
        if !given {
          items := items[pk := items[pk].(manuals := {})];
        } else if key.Some? && key.value in manuals {
          items := items[pk := items[pk].(manuals := {key.value})];
        } else {
          reply := UpdateFailed;
        }
      }
    }

    /** `create_manual_category` */
    method CreateManualCategory(name: Option<string>) returns (reply: ManualReply)
      requires Consistent()
      modifies this
      ensures Consistent()
      ensures (Snapshot(), reply) == Mutations.CreateManualCategory(old(Snapshot()), name)
    {
      var n := Strip(name.GetOr([]));
      if n == [] {
        return EmptyName;
      }
      reply := Register(n);
    }

    /** The case-insensitive `get_or_create` of a manual category. */
    method Register(n: string) returns (reply: ManualReply)
      requires Consistent()
      modifies this
      ensures Consistent()
      ensures (Snapshot(), reply) == RegisterManual(old(Snapshot()), n)
    {
      ghost var st := Snapshot();
      RegisterManualValid(st, n);
      match GetOrCreateIexact(manuals, next, n)
      case Err(_) =>
        RegisterManualRefused(st, n);
        reply := ManualFailed;
      case Ok(f) =>
        RegisterManualFound(st, n, f);
        manuals, next := f.names, f.next;
        reply := if f.created then CreatedManual(f.id, f.names[f.id]) else ExistingManual(f.id, f.names[f.id]);
        assert Snapshot() == st.(manuals := f.names, next := f.next);
    }

    /** `DeleteMenuItemAPI.post` */
    method DeleteItem(pk: Id) returns (reply: DeleteReply)
      requires Consistent()
      modifies this
      ensures Consistent()
      ensures (Snapshot(), reply) == Mutations.DeleteItem(old(Snapshot()), pk)
    {
      RemoveItemsValid(Snapshot(), {pk});
      if pk in items {
        items := items - {pk};
        reply := Deleted;
      } else {
        reply := DeleteNotFound;
      }
    }

    /** `BulkDeleteMenuItemsAPI.post`: the loop over the keys with its
        counter. */
    method BulkDelete(ids: seq<Id>) returns (deleted: nat)
      requires Consistent()
      modifies this
      ensures Consistent()
      ensures (Snapshot(), deleted) == Mutations.BulkDelete(old(Snapshot()), ids)
    {
      ghost var s0 := Snapshot();
      deleted := 0;
      var i := 0;
      while i < |ids|
        invariant 0 <= i <= |ids|
        invariant Snapshot() == Mutations.BulkDelete(s0, ids[..i]).0
        invariant deleted == Mutations.BulkDelete(s0, ids[..i]).1
      {
        var pk := ids[i];
        assert ids[..i + 1][..i] == ids[..i];
        assert Mutations.BulkDelete(s0, ids[..i + 1])
            == (Mutations.DeleteItem(Snapshot(), pk).0, if pk in items then deleted + 1 else deleted);
        if pk in items {
          items := items - {pk};
          deleted := deleted + 1;
        }
        i := i + 1;
      }
      assert ids[..i] == ids;
      BulkDeleteStore(s0, ids);
      RemoveItemsValid(s0, Asked(ids));
    }

    /** The category loop of one web row: `get_or_create` per token, in
        order, until one raises. */
    method ResolveTokens(tokens: seq<string>) returns (ids: seq<Id>, ok: bool)
      modifies this
      ensures var r := Upload.ResolveTokens(old(Snapshot()), tokens);
              Snapshot() == r.store && ids == r.ids && ok == r.ok
    {
      ghost var s0 := Snapshot();
      ids, ok := [], true;
      var i := 0;
      while i < |tokens|
        invariant 0 <= i <= |tokens|
        invariant var r := Upload.ResolveTokens(s0, tokens[..i]);
                  Snapshot() == r.store && ids == r.ids && ok == r.ok && ok
      {
        assert tokens[..i + 1][..i] == tokens[..i];
        match GetOrCreateIexact(categories, next, tokens[i]) {
          case Err(_) =>
            Upload.ResolveTokensStops(s0, tokens, i + 1);
            return ids, false;
          case Ok(f) =>
            categories, next := f.names, f.next;
            ids := ids + [f.id];
        }
        i := i + 1;
      }
      assert tokens[..i] == tokens;
    }

    /** `MenuItem.objects.create(...)`, refused when the hotel already has
        an item of that name. */
    method CreateItem(it: Item)
      modifies this
      ensures Snapshot() == Upload.CreateItem(old(Snapshot()), it)
    {
      if ItemsKeyed(items, it.hotel, it.name) == {} {
        items, next := items[next := it], next + 1;
      }
    }

    /** One data row of the web upload. */
    method UploadRow(h: Id, hotelName: string, cols: WebColumns, row: seq<Cell>, env: Upload.Env)
      modifies this
      ensures Snapshot() == Upload.UploadRow(old(Snapshot()), h, hotelName, cols, row, env)
    {
      match ReadWebRow(cols, row, env.toFloat)
      case None =>
      case Some(r) =>
        var ids, ok := ResolveTokens(r.tokens);
        if ok {
          CreateItem(Upload.RowItem(h, hotelName, r, ids, env));
        }
    }

    /** The row loop of `upload_xlsx_view`, in sheet order. */
    method UploadRows(h: Id, hotelName: string, cols: WebColumns, rows: seq<seq<Cell>>, env: Upload.Env)
      requires Consistent() && h in hotels
      modifies this
      ensures Consistent()
      ensures Snapshot() == Upload.UploadRows(old(Snapshot()), h, hotelName, cols, rows, env)
    {
      ghost var s0 := Snapshot();
      var i := 0;
      while i < |rows|
        invariant 0 <= i <= |rows|
        invariant Snapshot() == Upload.UploadRows(s0, h, hotelName, cols, rows[..i], env)
      {
        assert rows[..i + 1][..i] == rows[..i];
        UploadRow(h, hotelName, cols, rows[i], env);
        i := i + 1;
      }
      assert rows[..i] == rows;
      Upload.UploadRowsFacts(s0, h, hotelName, cols, rows, env);
    }

    /** One data row of `import_xlsx_to_db`. */
    method ImportRow(h: Id, hotelName: string, cols: ImportColumns, row: seq<Cell>,
                     keys: seq<Importer.Field>, env: Upload.Env) returns (created: bool)
      modifies this
      ensures var s := Importer.ImportRowStep(old(Snapshot()), h, hotelName, cols, row, keys, env);
              Snapshot() == s.store && created == s.created
    {
      created := false;
      match ReadImportRow(cols, row, env.toFloat)
      case None =>
      case Some(r) =>
        created := ImportRecord(h, r.name, Importer.RowOffer(r, hotelName, env), keys);
    }

    /** `get_or_create` on the hotel and the name, then the merge into the
        one item found. */
    method ImportRecord(h: Id, name: string, o: Importer.Offer, keys: seq<Importer.Field>) returns (created: bool)
      modifies this
      ensures var s := Importer.ImportRecord(old(Snapshot()), h, name, o, keys);
              Snapshot() == s.store && created == s.created
    {
      created := false;
      var found := ItemsKeyed(items, h, name);
      if found == {} {
        if forall k :: 0 <= k < |keys| ==> Importer.Declared(keys[k]) {
          CreateItem(Importer.Defaults(h, name, o, keys));
          created := true;
        }
      } else if |found| == 1 {
        var a := Only(found);
        var m := Importer.MergeFields(items[a], o, keys);
        if m.Some? && m.value.changed {
          items := items[a := m.value.item];
        }
      }
    }

    /** The row loop of `import_xlsx_to_db` with its two counters. */
    method ImportRows(h: Id, hotelName: string, cols: ImportColumns, rows: seq<seq<Cell>>,
                      keys: seq<Importer.Field>, env: Upload.Env) returns (processed: nat, created: nat)
      requires Consistent() && h in hotels
      modifies this
      ensures Consistent()
      ensures Importer.ImportRows(old(Snapshot()), h, hotelName, cols, rows, keys, env)
              == Importer.Progress(Snapshot(), processed, created)
    {
      ghost var s0 := Snapshot();
      processed, created := 0, 0;
      var i := 0;
      while i < |rows|
        invariant 0 <= i <= |rows|
        invariant Importer.ImportRows(s0, h, hotelName, cols, rows[..i], keys, env)
                  == Importer.Progress(Snapshot(), processed, created)
      {
        Importer.ImportRowsSnoc(s0, h, hotelName, cols, rows, i, keys, env);
        processed := processed + 1;
        var c := ImportRow(h, hotelName, cols, rows[i], keys, env);
        if c {
          created := created + 1;
        }
        i := i + 1;
      }
      assert rows[..i] == rows;
      Importer.ImportRowsFacts(s0, h, hotelName, cols, rows, keys, env);
    }

    /** `Hotel.objects.get_or_create(name=name)` */
    method GetOrCreateHotel(name: string) returns (h: Id)
      requires UniqueHotelNames(hotels)
      modifies this
      ensures var g := Lookup.GetOrCreateHotel(old(Snapshot()), name);
              Snapshot() == g.store && h == g.id
    {
      var named := HotelsNamed(hotels, name);
      AtMostOneHotelNamed(hotels, name);
      if named == {} {
        h := next;
        hotels, next := hotels[next := Hotel(name, None)], next + 1;
      } else {
        h := Only(named);
      }
    }

    /** `MenuItem.objects.filter(hotel=hotel).delete()` */
    method ClearHotel(h: Id)
      modifies this
      ensures Snapshot() == Schema.ClearHotel(old(Snapshot()), h)
    {
      items := map a | a in items && items[a].hotel != h :: items[a];
    }

    /** The logo of the web upload, read from the first data row. */
    method Logo(h: Id, hotelName: string, cols: WebColumns, rows: seq<seq<Cell>>, env: Upload.Env)
      requires h in hotels
      modifies this
      ensures Snapshot() == Upload.Logo(old(Snapshot()), h, hotelName, cols, rows, env)
    {
      if cols.logo.Some? {
        var v := At(Upload.FirstRow(rows), cols.logo.value);
        if Cells.Truthy(v) {
          var file := Upload.LogoFile(v, hotelName, env);
          if Present(file) {
            hotels := hotels[h := hotels[h].(logo := file)];
          }
        }
      }
    }

    /** `upload_xlsx_view` on a POST. */
    method UploadXlsx(file: Option<string>, sheet: Option<Sheet>, env: Upload.Env) returns (outcome: Upload.Outcome)
      requires Consistent()
      modifies this
      ensures Consistent()
      ensures Upload.Upload(old(Snapshot()), file, sheet, env) == Upload.Report(Snapshot(), outcome)
    {
      ghost var s0 := Snapshot();
      if file.None? || file.value == [] {
        return Upload.NoFile;
      }
      if !IsXlsxName(file.value) {
        return Upload.NotXlsx;
      }
      var name := WebHotelName(file.value);
      GetOrCreateHotelValid(s0, name);
      var h := GetOrCreateHotel(name);
      if sheet.None? {
        return Upload.BadWorkbook;
      }
      var cols := WebColumnsOf(sheet.value.header);
      ghost var s1 := Snapshot();
      Upload.LogoValid(s1, h, name, cols, sheet.value.rows, env);
      Logo(h, name, cols, sheet.value.rows, env);
      ghost var s2 := Snapshot();
      ClearHotelValid(s2, h);
      ClearHotel(h);
      UploadRows(h, name, cols, sheet.value.rows, env);
      outcome := Upload.Uploaded(h);
    }

    /** `import_xlsx_to_db(path, hotel_name)` */
    method Import(hotelName: string, sheet: Sheet, keys: seq<Importer.Field>, env: Upload.Env)
      returns (processed: nat, created: nat)
      requires Consistent()
      modifies this
      ensures Consistent()
      ensures Importer.Import(old(Snapshot()), hotelName, sheet, keys, env) == Importer.Progress(Snapshot(), processed, created)
    {
      ghost var s0 := Snapshot();
      GetOrCreateHotelValid(s0, hotelName);
      var h := GetOrCreateHotel(hotelName);
      ghost var s1 := Snapshot();
      ClearHotelValid(s1, h);
      ClearHotel(h);
      processed, created := ImportRows(h, hotelName, ImportColumnsOf(sheet.header), sheet.rows, keys, env);
    }

    /** `UploadMenuAPI.post`, with the field keys and the saved name as
        parameters. */
    method ApiUpload(file: Option<string>, sheet: Option<Sheet>, keys: seq<Importer.Field>,
                     how: Importer.SaveAs, dir: string, env: Upload.Env) returns (outcome: Importer.ApiOutcome)
      requires Consistent()
      modifies this
      ensures Consistent()
      ensures Importer.ApiUpload(old(Snapshot()), file, sheet, keys, how, dir, env) == Importer.ApiReport(Snapshot(), outcome)
    {
      if file.None? || file.value == [] {
        return Importer.NoFileGiven;
      }
      if !IsXlsxName(file.value) {
        return Importer.OnlyXlsx;
      }
      var name := ApiHotelName(file.value);
      var loaded := Importer.LoadWorkbook(PathJoin(dir, Importer.SavedName(how, file.value, env.slugify)), sheet);
      if loaded.None? {
        return Importer.ServerError;
      }
      var _, created := Import(name, loaded.value, keys, env);
      outcome := Importer.Imported(name, created);
    }
  }
}
