/** The web upload (`upload_xlsx_view`): the file-name gate, the hotel
    found or made from the file name, the logo taken from the first data
    row, the replacement of the hotel's items, and the row loop with its
    category tokens. */
module Upload {
  import opened Wrappers
  import opened Text
  import opened Cells
  import opened Headers
  import opened Rows
  import opened FileNames
  import opened ImageFetch
  import opened Schema
  import opened Lookup

  /** The foreign functions the upload depends on. */
  datatype Env = Env(toFloat: ToFloat, slugify: Slugify, fetch: Fetch)

  /** The category loop: the store so far, the keys collected for the tokens
      handled so far, and whether a lookup has failed. */
  datatype Resolution = Resolution(store: Store, ids: seq<Id>, ok: bool)

  /** `Category.objects.get_or_create(name__iexact=token, ...)` */
  function ResolveCategory(st: Store, token: string): Result<Got, Failure> {
    match GetOrCreateIexact(st.categories, st.next, token)
    case Err(e) => Err(e)
    case Ok(f) => Ok(Got(st.(categories := f.names, next := f.next), f.id))
  }

  /** The category loop over the tokens of one row, left to right. A failed
      lookup raises, which ends the loop; the categories made before it
      stay in the database. */
  function ResolveTokens(st: Store, tokens: seq<string>): (r: Resolution)
    ensures |r.ids| <= |tokens|
    ensures r.ok ==> |r.ids| == |tokens|
    decreases |tokens|
  {
    if tokens == [] then Resolution(st, [], true)
    else
      var p := ResolveTokens(st, tokens[..|tokens| - 1]);
      if !p.ok then p
      else match ResolveCategory(p.store, tokens[|tokens| - 1])
        case Err(_) => Resolution(p.store, p.ids, false)
        case Ok(g) => Resolution(g.store, p.ids + [g.id], true)
  }

  /** Once a lookup has failed, the remaining tokens are not looked at. */
  lemma {:induction false} ResolveTokensStops(st: Store, tokens: seq<string>, i: nat)
    requires i <= |tokens| && !ResolveTokens(st, tokens[..i]).ok
    ensures ResolveTokens(st, tokens) == ResolveTokens(st, tokens[..i])
    decreases |tokens| - i
  {
    if i < |tokens| {
      assert tokens[..i + 1][..i] == tokens[..i];
      ResolveTokensStops(st, tokens, i + 1);
    } else {
      assert tokens[..i] == tokens;
    }
  }

  /** `MenuItem.objects.create(...)`: refused (an `IntegrityError`) when
      the hotel already has an item of that name. */
  function CreateItem(st: Store, it: Item): (r: Store)
    ensures ItemsKeyed(st.items, it.hotel, it.name) != {} ==> r == st
    ensures ItemsKeyed(st.items, it.hotel, it.name) == {} ==>
      r == st.(items := st.items[st.next := it], next := st.next + 1)
  {
    if ItemsKeyed(st.items, it.hotel, it.name) == {} then
      st.(items := st.items[st.next := it], next := st.next + 1)
    else st
  }

  /** One data row of the web upload. A skipped row changes nothing; a
      failed category lookup or a repeated name ends the row after the
      categories it made. */
  function UploadRow(st: Store, h: Id, hotelName: string, cols: WebColumns, row: seq<Cell>, env: Env): Store {
    match ReadWebRow(cols, row, env.toFloat)
    case None => st
    case Some(r) =>
      var res := ResolveTokens(st, r.tokens);
      if !res.ok then res.store
      else CreateItem(res.store, RowItem(h, hotelName, r, res.ids, env))
  }

  /** The item a web row creates: its image downloaded when the URL is
      non-empty, linked to the categories of its tokens. */
  function RowItem(h: Id, hotelName: string, r: WebRow, ids: seq<Id>, env: Env): (it: Item)
    ensures it.hotel == h && it.name == r.name && it.visible
    ensures it.categories == (set k | 0 <= k < |ids| :: ids[k]) && it.manuals == {}
  {
    var local := if Present(r.imageUrl)
                 then Download(r.imageUrl.value, env.slugify(hotelName), env.fetch, env.slugify)
                 else None;
    NewItem(h, r.name, r.price, r.description, r.imageUrl, local).(categories := set k | 0 <= k < |ids| :: ids[k])
  }

  /** The row loop, in sheet order. */
  function UploadRows(st: Store, h: Id, hotelName: string, cols: WebColumns, rows: seq<seq<Cell>>, env: Env): Store
    decreases |rows|
  {
    if rows == [] then st
    else UploadRow(UploadRows(st, h, hotelName, cols, rows[..|rows| - 1], env), h, hotelName, cols, rows[|rows| - 1], env)
  }

  /** The logo: the logo column of the first data row, trimmed and
      downloaded under `<slug>_logo`. */
  function Logo(st: Store, h: Id, hotelName: string, cols: WebColumns, rows: seq<seq<Cell>>, env: Env): (r: Store)
    requires h in st.hotels
    ensures h in r.hotels && r == st.(hotels := st.hotels[h := st.hotels[h].(logo := r.hotels[h].logo)])
  {
    if cols.logo.None? then
      assert st.hotels[h := st.hotels[h]] == st.hotels;
      st
    else
      var v := At(FirstRow(rows), cols.logo.value);
      if !Truthy(v) then
        assert st.hotels[h := st.hotels[h]] == st.hotels;
        st
      else SetLogo(st, h, LogoFile(v, hotelName, env))
  }

  /** The second sheet row, the first data row; none when the sheet has no
      data rows. */
  function FirstRow(rows: seq<seq<Cell>>): seq<Cell> {
    if rows == [] then [] else rows[0]
  }

  /** The logo cell trimmed and downloaded under `<slug>_logo`. */
  function LogoFile(v: Cell, hotelName: string, env: Env): Option<string> {
    Download(Strip(Show(v)), env.slugify(hotelName) + "_logo", env.fetch, env.slugify)
  }

  /** `hotel.logo = logo_path; hotel.save()`, only when a file was stored. */
  function SetLogo(st: Store, h: Id, local: Option<string>): (r: Store)
    requires h in st.hotels
    ensures Present(local) ==> r == st.(hotels := st.hotels[h := st.hotels[h].(logo := local)])
    ensures !Present(local) ==> r == st
    ensures h in r.hotels && r == st.(hotels := st.hotels[h := st.hotels[h].(logo := r.hotels[h].logo)])
  {
    if Present(local) then st.(hotels := st.hotels[h := st.hotels[h].(logo := local)]) else st
  }

  /** What the web upload reports. */
  datatype Outcome = NoFile | NotXlsx | BadWorkbook | Uploaded(hotel: Id)

  datatype Report = Report(store: Store, outcome: Outcome)

  /** The whole web upload. `file` is the uploaded file's name, `None` when
      no file was sent; `sheet` is the active sheet, `None` when neither way
      of opening the workbook succeeds. */
  function Upload(st: Store, file: Option<string>, sheet: Option<Sheet>, env: Env): Report
    requires Valid(st)
  {
    if file.None? || file.value == [] then Report(st, NoFile)
    else if !IsXlsxName(file.value) then Report(st, NotXlsx)
    else
      var name := WebHotelName(file.value);
      var g := GetOrCreateHotel(st, name);
      if sheet.None? then Report(g.store, BadWorkbook)
      else Load(g.store, g.id, name, sheet.value, env)
  }

  /** The upload once the hotel is known and the sheet is open: the logo,
      the clearing of the hotel's items and the row loop. */
  function Load(st: Store, h: Id, name: string, sheet: Sheet, env: Env): Report
    requires h in st.hotels
  {
    var cols := WebColumnsOf(sheet.header);
    var s1 := Logo(st, h, name, cols, sheet.rows, env);
    Report(UploadRows(ClearHotel(s1, h), h, name, cols, sheet.rows, env), Uploaded(h))
  }

  // ---------------------------------------------------------------------
  // What a row may do to the store.

  /** From `a` to `b` only categories and items of hotel `h` were added,
      under fresh keys; nothing was changed or removed. */
  predicate Grows(a: Store, b: Store, h: Id) {
    a.hotels == b.hotels && a.manuals == b.manuals && a.next <= b.next
    && (forall x :: x in a.categories ==> x in b.categories && b.categories[x] == a.categories[x])
    && (forall x :: x in a.items ==> x in b.items && b.items[x] == a.items[x])
    && (forall x :: x in b.items && x !in a.items ==> a.next <= x && b.items[x].hotel == h)
  }

  lemma GrowsTransitive(a: Store, b: Store, c: Store, h: Id)
    requires Grows(a, b, h) && Grows(b, c, h)
    ensures Grows(a, c, h)
  {
  }

  /** A category lookup keeps the store consistent and only adds a
      category, whose name matches the token ignoring case. */
  lemma ResolveCategoryFacts(st: Store, token: string, h: Id)
    requires Valid(st)
    ensures var r := ResolveCategory(st, token);
            r.Ok? ==> Valid(r.value.store) && Grows(st, r.value.store, h) && r.value.store.items == st.items
                      && r.value.id in r.value.store.categories
                      && EqualsIgnoreCase(r.value.store.categories[r.value.id], token)
  {
    GetOrCreateKeepsUnique(st.categories, st.next, token);
  }

  /** The category loop keeps the store consistent, adds only categories,
      and each collected key names a category matching its token. */
  lemma {:induction false} ResolveTokensFacts(st: Store, tokens: seq<string>, h: Id)
    requires Valid(st)
    ensures var r := ResolveTokens(st, tokens);
            Valid(r.store) && Grows(st, r.store, h) && r.store.items == st.items
            && forall k :: 0 <= k < |r.ids| ==>
                 r.ids[k] in r.store.categories && EqualsIgnoreCase(r.store.categories[r.ids[k]], tokens[k])
    decreases |tokens|
  {
    if tokens != [] {
      var init := tokens[..|tokens| - 1];
      var p := ResolveTokens(st, init);
      ResolveTokensFacts(st, init, h);
      if p.ok {
        var t := tokens[|tokens| - 1];
        ResolveCategoryFacts(p.store, t, h);
        var c := ResolveCategory(p.store, t);
        if c.Ok? {
          var r := ResolveTokens(st, tokens);
          assert r == Resolution(c.value.store, p.ids + [c.value.id], true);
          GrowsTransitive(st, p.store, c.value.store, h);
          ResolvedExtend(p.ids, tokens, p.store.categories, c.value.store.categories, c.value.id);
        }
      }
    }
  }

  /** Resolved ids stay resolved when the table only grows, and one more
      resolved token extends them. */
  lemma ResolvedExtend(ids: seq<Id>, ts: seq<string>, a: map<Id, string>, b: map<Id, string>, id: Id)
    requires |ids| + 1 == |ts|
    requires forall k :: 0 <= k < |ids| ==> ids[k] in a && EqualsIgnoreCase(a[ids[k]], ts[..|ts| - 1][k])
    requires forall x :: x in a ==> x in b && b[x] == a[x]
    requires id in b && EqualsIgnoreCase(b[id], ts[|ts| - 1])
    ensures forall k :: 0 <= k < |ids| + 1 ==> (ids + [id])[k] in b && EqualsIgnoreCase(b[(ids + [id])[k]], ts[k])
  {
    forall k | 0 <= k < |ids| + 1 ensures (ids + [id])[k] in b && EqualsIgnoreCase(b[(ids + [id])[k]], ts[k]) {
      if k < |ids| {
        assert (ids + [id])[k] == ids[k] && ts[..|ts| - 1][k] == ts[k];
      }
    }
  }

  /** Creating an item whose links exist keeps the store consistent. */
  lemma CreateItemFacts(st: Store, it: Item)
    requires Valid(st) && it.hotel in st.hotels
    requires it.categories <= st.categories.Keys && it.manuals <= st.manuals.Keys
    ensures Valid(CreateItem(st, it)) && Grows(st, CreateItem(st, it), it.hotel)
  {
    var r := CreateItem(st, it);
    if ItemsKeyed(st.items, it.hotel, it.name) == {} {
      forall a | a in st.items ensures st.items[a].hotel != it.hotel || st.items[a].name != it.name {
        assert a !in ItemsKeyed(st.items, it.hotel, it.name);
      }
      assert UniqueItemKeys(r.items);
    }
  }

  lemma UploadRowFacts(st: Store, h: Id, hotelName: string, cols: WebColumns, row: seq<Cell>, env: Env)
    requires Valid(st) && h in st.hotels
    ensures Valid(UploadRow(st, h, hotelName, cols, row, env))
    ensures Grows(st, UploadRow(st, h, hotelName, cols, row, env), h)
  {
    match ReadWebRow(cols, row, env.toFloat)
    case None =>
    case Some(r) =>
      var res := ResolveTokens(st, r.tokens);
      ResolveTokensFacts(st, r.tokens, h);
      if res.ok {
        var it := RowItem(h, hotelName, r, res.ids, env);
        assert it.categories <= res.store.categories.Keys;
        CreateItemFacts(res.store, it);
        GrowsTransitive(st, res.store, CreateItem(res.store, it), h);
      }
  }

  lemma {:induction false} UploadRowsFacts(st: Store, h: Id, hotelName: string, cols: WebColumns, rows: seq<seq<Cell>>, env: Env)
    requires Valid(st) && h in st.hotels
    ensures Valid(UploadRows(st, h, hotelName, cols, rows, env))
    ensures Grows(st, UploadRows(st, h, hotelName, cols, rows, env), h)
    decreases |rows|
  {
    if rows != [] {
      var init := rows[..|rows| - 1];
      var p := UploadRows(st, h, hotelName, cols, init, env);
      UploadRowsFacts(st, h, hotelName, cols, init, env);
      UploadRowFacts(p, h, hotelName, cols, rows[|rows| - 1], env);
      GrowsTransitive(st, p, UploadRows(st, h, hotelName, cols, rows, env), h);
    }
  }

  /** A row whose name the hotel already has creates no item: the database
      refuses the duplicate (hotel, name) pair and the row is dropped. */
  lemma RepeatedNameIsSkipped(st: Store, h: Id, hotelName: string, cols: WebColumns, row: seq<Cell>, env: Env)
    requires Valid(st) && h in st.hotels
    requires RowName(row, cols.name).Some? && ItemsKeyed(st.items, h, RowName(row, cols.name).value) != {}
    ensures UploadRow(st, h, hotelName, cols, row, env).items == st.items
  {
    var w := ReadWebRow(cols, row, env.toFloat);
    assert w.Some?;
    var r := w.value;
    var res := ResolveTokens(st, r.tokens);
    ResolveTokensFacts(st, r.tokens, h);
    if res.ok {
      var it := RowItem(h, hotelName, r, res.ids, env);
      assert ItemsKeyed(res.store.items, it.hotel, it.name) != {};
      assert UploadRow(st, h, hotelName, cols, row, env) == CreateItem(res.store, it);
    } else {
      assert UploadRow(st, h, hotelName, cols, row, env) == res.store;
    }
  }

  /** Setting the logo keeps the store consistent. */
  lemma LogoValid(st: Store, h: Id, hotelName: string, cols: WebColumns, rows: seq<seq<Cell>>, env: Env)
    requires Valid(st) && h in st.hotels
    ensures Valid(Logo(st, h, hotelName, cols, rows, env))
  {
    var r := Logo(st, h, hotelName, cols, rows, env);
    SetLogoValid(st, h, r.hotels[h].logo);
  }

  /** Clearing the hotel and loading the rows: none of the hotel's earlier
      items remain, other hotels' items are untouched, and every item the
      hotel has afterwards carries a key handed out during the load. */
  lemma ReplaceItemsFacts(st: Store, h: Id, hotelName: string, cols: WebColumns, rows: seq<seq<Cell>>, env: Env)
    requires Valid(st) && h in st.hotels
    ensures var r := UploadRows(ClearHotel(st, h), h, hotelName, cols, rows, env);
            Valid(r) && r.hotels == st.hotels
            && (forall x :: x in st.items && st.items[x].hotel == h ==> x !in r.items)
            && (forall x :: x in st.items && st.items[x].hotel != h ==> x in r.items && r.items[x] == st.items[x])
            && (forall x :: x in r.items && r.items[x].hotel == h ==> st.next <= x)
  {
    var s2 := ClearHotel(st, h);
    assert Valid(s2);
    UploadRowsFacts(s2, h, hotelName, cols, rows, env);
    var r := UploadRows(s2, h, hotelName, cols, rows, env);
    forall x | x in st.items && st.items[x].hotel == h ensures x !in r.items {
      assert x !in s2.items && x < s2.next;
    }
    forall x | x in r.items && r.items[x].hotel == h ensures st.next <= x {
      assert x !in s2.items;
    }
  }

  /** The web upload keeps the database consistent. When it gets as far as
      the rows, none of the hotel's earlier items remain, every item of
      another hotel is untouched, and every item the hotel now has was made
      by this upload. */
  lemma UploadFacts(st: Store, file: Option<string>, sheet: Option<Sheet>, env: Env)
    requires Valid(st)
    ensures var r := Upload(st, file, sheet, env);
            Valid(r.store)
            && (r.outcome.NoFile? || r.outcome.NotXlsx? ==> r.store == st)
            && (r.outcome.Uploaded? ==>
                  var h := r.outcome.hotel;
                  h in r.store.hotels && r.store.hotels[h].name == WebHotelName(file.value)
                  && (forall x :: x in st.items && st.items[x].hotel == h ==> x !in r.store.items)
                  && (forall x :: x in st.items && st.items[x].hotel != h ==> x in r.store.items && r.store.items[x] == st.items[x])
                  && (forall x :: x in r.store.items && r.store.items[x].hotel == h ==> x !in st.items))
  {
    var r := Upload(st, file, sheet, env);
    if file.Some? && file.value != [] && IsXlsxName(file.value) {
      var name := WebHotelName(file.value);
      var g := GetOrCreateHotel(st, name);
      GetOrCreateHotelValid(st, name);
      if sheet.Some? {
        var h := g.id;
        var cols := WebColumnsOf(sheet.value.header);
        var s1 := Logo(g.store, h, name, cols, sheet.value.rows, env);
        LogoValid(g.store, h, name, cols, sheet.value.rows, env);
        ReplaceItemsFacts(s1, h, name, cols, sheet.value.rows, env);
        assert r.store == UploadRows(ClearHotel(s1, h), h, name, cols, sheet.value.rows, env);
      }
    }
  }

  // ---------------------------------------------------------------------
  // What the row loop inserts.

  /** What one row inserts: its item under the key that follows its
      categories, when the row is read, every category lookup succeeds and
      the hotel has no item of that name yet; nothing otherwise. */
  function RowInsert(st: Store, h: Id, hotelName: string, cols: WebColumns, row: seq<Cell>, env: Env): seq<(Id, Item)> {
    match ReadWebRow(cols, row, env.toFloat)
    case None => []
    case Some(r) =>
      var res := ResolveTokens(st, r.tokens);
      if res.ok && ItemsKeyed(res.store.items, h, r.name) == {}
      then [(res.store.next, RowItem(h, hotelName, r, res.ids, env))]
      else []
  }

  /** The insertions of the row loop, in row order. */
  function Inserted(st: Store, h: Id, hotelName: string, cols: WebColumns, rows: seq<seq<Cell>>, env: Env): seq<(Id, Item)>
    decreases |rows|
  {
    if rows == [] then []
    else
      var init := rows[..|rows| - 1];
      Inserted(st, h, hotelName, cols, init, env)
      + RowInsert(UploadRows(st, h, hotelName, cols, init, env), h, hotelName, cols, rows[|rows| - 1], env)
  }

  /** The item table after a run of insertions made in order. */
  function Apply(items: map<Id, Item>, ins: seq<(Id, Item)>): map<Id, Item>
    decreases |ins|
  {
    if ins == [] then items
    else Apply(items, ins[..|ins| - 1])[ins[|ins| - 1].0 := ins[|ins| - 1].1]
  }

  /** The keys a run of insertions uses. */
  function InsertedKeys(ins: seq<(Id, Item)>): set<Id> {
    set i | 0 <= i < |ins| :: ins[i].0
  }

  /** Insertions of items of hotel `h` under strictly increasing keys, each
      at least `lo` and below `hi`. */
  predicate Insertions(ins: seq<(Id, Item)>, h: Id, lo: Id, hi: Id) {
    (forall i :: 0 <= i < |ins| ==> lo <= ins[i].0 < hi && ins[i].1.hotel == h)
    && (forall i, j :: 0 <= i < j < |ins| ==> ins[i].0 < ins[j].0)
  }

  /** A row whose name is free and whose categories all resolve inserts its
      item under the next key; nothing else changes beyond its categories. */
  lemma UploadRowInserts(st: Store, h: Id, hotelName: string, cols: WebColumns, row: seq<Cell>, env: Env)
    requires ReadWebRow(cols, row, env.toFloat).Some?
    ensures var r := ReadWebRow(cols, row, env.toFloat).value;
            var res := ResolveTokens(st, r.tokens);
            res.ok && ItemsKeyed(res.store.items, h, r.name) == {} ==>
              UploadRow(st, h, hotelName, cols, row, env)
              == res.store.(items := res.store.items[res.store.next := RowItem(h, hotelName, r, res.ids, env)],
                            next := res.store.next + 1)
  {
  }

  /** One row either inserts nothing, leaving the items as they were, or
      inserts its item under a fresh key of at least `st.next`. */
  lemma UploadRowStep(st: Store, h: Id, hotelName: string, cols: WebColumns, row: seq<Cell>, env: Env)
    ensures var r := UploadRow(st, h, hotelName, cols, row, env);
            var ins := RowInsert(st, h, hotelName, cols, row, env);
            st.next <= r.next && |ins| <= 1
            && r.items == Apply(st.items, ins)
            && Insertions(ins, h, st.next, r.next)
  {
    var r := UploadRow(st, h, hotelName, cols, row, env);
    var ins := RowInsert(st, h, hotelName, cols, row, env);
    match ReadWebRow(cols, row, env.toFloat)
    case None =>
      assert r == st && ins == [];
      NoInsertion(st.items, h, st.next, st.next);
    case Some(w) =>
      var res := ResolveTokens(st, w.tokens);
      ResolveTokensKeepsItems(st, w.tokens);
      if res.ok && ItemsKeyed(res.store.items, h, w.name) == {} {
        var it := RowItem(h, hotelName, w, res.ids, env);
        UploadRowInserts(st, h, hotelName, cols, row, env);
        assert r == res.store.(items := res.store.items[res.store.next := it], next := res.store.next + 1);
        assert ins == [(res.store.next, it)];
        SingleInsertion(st.items, res.store.next, it, h, st.next);
        assert r.next == res.store.next + 1 && r.items == res.store.items[res.store.next := it];
      } else {
        assert r == res.store && ins == [];
        NoInsertion(st.items, h, st.next, res.store.next);
        assert r.next == res.store.next && r.items == st.items;
      }
  }

  /** The category loop adds no item and hands out keys only upwards. */
  lemma {:induction false} ResolveTokensKeepsItems(st: Store, tokens: seq<string>)
    ensures ResolveTokens(st, tokens).store.items == st.items
    ensures ResolveTokens(st, tokens).store.next >= st.next
    decreases |tokens|
  {
    if tokens != [] {
      var p := ResolveTokens(st, tokens[..|tokens| - 1]);
      ResolveTokensKeepsItems(st, tokens[..|tokens| - 1]);
    }
  }

  lemma NoInsertion(items: map<Id, Item>, h: Id, lo: Id, hi: Id)
    requires lo <= hi
    ensures Apply(items, []) == items && Insertions([], h, lo, hi)
  {
  }

  lemma SingleInsertion(items: map<Id, Item>, k: Id, it: Item, h: Id, lo: Id)
    requires it.hotel == h && lo <= k
    ensures Apply(items, [(k, it)]) == items[k := it] && Insertions([(k, it)], h, lo, k + 1)
  {
    assert [(k, it)][..0] == [];
  }

  /** One more run of at most one insertion. */
  lemma ApplySnoc(items: map<Id, Item>, a: seq<(Id, Item)>, b: seq<(Id, Item)>)
    requires |b| <= 1
    ensures Apply(items, a + b) == Apply(Apply(items, a), b)
  {
    if b == [] {
      assert a + b == a;
    } else {
      assert (a + b)[..|a + b| - 1] == a;
      assert b[..0] == [];
    }
  }

  lemma InsertionsSnoc(a: seq<(Id, Item)>, b: seq<(Id, Item)>, h: Id, lo: Id, mid: Id, hi: Id)
    requires Insertions(a, h, lo, mid) && Insertions(b, h, mid, hi) && lo <= mid <= hi
    ensures Insertions(a + b, h, lo, hi)
  {
    var c := a + b;
    forall i | 0 <= i < |c| ensures lo <= c[i].0 < hi && c[i].1.hotel == h {
      if i >= |a| { assert c[i] == b[i - |a|]; }
    }
    forall i, j | 0 <= i < j < |c| ensures c[i].0 < c[j].0 {
      if j < |a| {
      } else if i < |a| {
        assert c[i] == a[i] && c[j] == b[j - |a|];
      } else {
        assert c[i] == b[i - |a|] && c[j] == b[j - |a|];
      }
    }
  }

  /** The row loop's items are the items it started with plus its
      insertions, made under increasing fresh keys, all for hotel `h`. */
  lemma {:induction false} UploadRowsInserts(st: Store, h: Id, hotelName: string, cols: WebColumns,
                                             rows: seq<seq<Cell>>, env: Env)
    ensures var r := UploadRows(st, h, hotelName, cols, rows, env);
            var ins := Inserted(st, h, hotelName, cols, rows, env);
            st.next <= r.next && r.items == Apply(st.items, ins) && Insertions(ins, h, st.next, r.next)
    decreases |rows|
  {
    if rows == [] {
      NoInsertion(st.items, h, st.next, st.next);
    } else {
      var init := rows[..|rows| - 1];
      var p := UploadRows(st, h, hotelName, cols, init, env);
      var a := Inserted(st, h, hotelName, cols, init, env);
      UploadRowsInserts(st, h, hotelName, cols, init, env);
      var b := RowInsert(p, h, hotelName, cols, rows[|rows| - 1], env);
      var r := UploadRow(p, h, hotelName, cols, rows[|rows| - 1], env);
      UploadRowStep(p, h, hotelName, cols, rows[|rows| - 1], env);
      ApplySnoc(st.items, a, b);
      InsertionsSnoc(a, b, h, st.next, p.next, r.next);
    }
  }

  /** Insertions under distinct keys: each inserted key holds its item, and
      every other key keeps its item. */
  lemma ApplyFacts(items: map<Id, Item>, ins: seq<(Id, Item)>, h: Id, lo: Id, hi: Id)
    requires Insertions(ins, h, lo, hi)
    ensures Apply(items, ins).Keys == items.Keys + InsertedKeys(ins)
    ensures forall i :: 0 <= i < |ins| ==> ins[i].0 in Apply(items, ins) && Apply(items, ins)[ins[i].0] == ins[i].1
    ensures forall x :: x in items && x !in InsertedKeys(ins) ==> x in Apply(items, ins) && Apply(items, ins)[x] == items[x]
  {
    ApplyKeys(items, ins);
    ApplyInserted(items, ins, h, lo, hi);
    ApplyKept(items, ins);
  }

  lemma {:induction false} ApplyKeys(items: map<Id, Item>, ins: seq<(Id, Item)>)
    ensures Apply(items, ins).Keys == items.Keys + InsertedKeys(ins)
    decreases |ins|
  {
    if ins != [] {
      var init := ins[..|ins| - 1];
      ApplyKeys(items, init);
      InsertedKeysSnoc(ins);
    }
  }

  lemma {:induction false} ApplyInserted(items: map<Id, Item>, ins: seq<(Id, Item)>, h: Id, lo: Id, hi: Id)
    requires Insertions(ins, h, lo, hi)
    ensures forall i :: 0 <= i < |ins| ==> ins[i].0 in Apply(items, ins) && Apply(items, ins)[ins[i].0] == ins[i].1
    decreases |ins|
  {
    if ins != [] {
      var init := ins[..|ins| - 1];
      var last := ins[|ins| - 1];
      InsertionsPrefix(ins, h, lo, hi);
      ApplyInserted(items, init, h, lo, hi);
      var m := Apply(items, init);
      forall i | 0 <= i < |ins| - 1 ensures ins[i].0 in m[last.0 := last.1] && m[last.0 := last.1][ins[i].0] == ins[i].1 {
        assert init[i] == ins[i] && ins[i].0 < last.0;
      }
    }
  }

  lemma {:induction false} ApplyKept(items: map<Id, Item>, ins: seq<(Id, Item)>)
    ensures forall x :: x in items && x !in InsertedKeys(ins) ==> x in Apply(items, ins) && Apply(items, ins)[x] == items[x]
    decreases |ins|
  {
    if ins != [] {
      var init := ins[..|ins| - 1];
      ApplyKept(items, init);
      InsertedKeysSnoc(ins);
    }
  }

  lemma InsertionsPrefix(ins: seq<(Id, Item)>, h: Id, lo: Id, hi: Id)
    requires ins != [] && Insertions(ins, h, lo, hi)
    ensures Insertions(ins[..|ins| - 1], h, lo, hi)
  {
    var init := ins[..|ins| - 1];
    assert forall i :: 0 <= i < |init| ==> init[i] == ins[i];
  }

  lemma InsertedKeysSnoc(ins: seq<(Id, Item)>)
    requires ins != []
    ensures InsertedKeys(ins) == InsertedKeys(ins[..|ins| - 1]) + {ins[|ins| - 1].0}
  {
    var init := ins[..|ins| - 1];
    forall x | x in InsertedKeys(ins) ensures x in InsertedKeys(init) + {ins[|ins| - 1].0} {
      var i :| 0 <= i < |ins| && ins[i].0 == x;
      if i < |init| { assert init[i] == ins[i]; }
    }
    forall x | x in InsertedKeys(init) ensures x in InsertedKeys(ins) {
      var i :| 0 <= i < |init| && init[i].0 == x;
      assert ins[i] == init[i];
    }
  }

  /** Clearing the hotel and loading the rows: the hotel's items are exactly
      the row loop's insertions, each holding the item of its row. */
  lemma ReplacedItemsAreInserted(st: Store, h: Id, hotelName: string, cols: WebColumns, rows: seq<seq<Cell>>, env: Env)
    ensures var s := ClearHotel(st, h);
            var r := UploadRows(s, h, hotelName, cols, rows, env);
            var ins := Inserted(s, h, hotelName, cols, rows, env);
            ItemsOf(r, h) == InsertedKeys(ins)
            && (forall i :: 0 <= i < |ins| ==> ins[i].0 in r.items && r.items[ins[i].0] == ins[i].1)
            && (forall i, j :: 0 <= i < j < |ins| ==> ins[i].0 < ins[j].0)
  {
    var s := ClearHotel(st, h);
    UploadRowsInserts(s, h, hotelName, cols, rows, env);
    var r := UploadRows(s, h, hotelName, cols, rows, env);
    var ins := Inserted(s, h, hotelName, cols, rows, env);
    ApplyFacts(s.items, ins, h, s.next, r.next);
    HotelOfInsertions(s.items, ins, h, s.next, r.next);
  }

  /** Inserting items of `h` into a table without any: the items of `h`
      are then exactly the inserted keys. */
  lemma HotelOfInsertions(items: map<Id, Item>, ins: seq<(Id, Item)>, h: Id, lo: Id, hi: Id)
    requires forall x :: x in items ==> items[x].hotel != h
    requires Insertions(ins, h, lo, hi)
    requires Apply(items, ins).Keys == items.Keys + InsertedKeys(ins)
    requires forall i :: 0 <= i < |ins| ==> Apply(items, ins)[ins[i].0] == ins[i].1
    requires forall x :: x in items && x !in InsertedKeys(ins) ==> Apply(items, ins)[x] == items[x]
    ensures (set x | x in Apply(items, ins) && Apply(items, ins)[x].hotel == h) == InsertedKeys(ins)
  {
    var m := Apply(items, ins);
    forall x | x in InsertedKeys(ins) ensures x in m && m[x].hotel == h {
      var i :| 0 <= i < |ins| && ins[i].0 == x;
    }
    forall x | x in m && m[x].hotel == h ensures x in InsertedKeys(ins) {
    }
  }

  /** The insertions of the web upload's row loop, when it gets that far. */
  function UploadInserted(st: Store, file: Option<string>, sheet: Option<Sheet>, env: Env): seq<(Id, Item)>
    requires Valid(st)
  {
    if file.None? || file.value == [] || !IsXlsxName(file.value) || sheet.None? then []
    else
      var name := WebHotelName(file.value);
      var g := GetOrCreateHotel(st, name);
      LoadInserted(g.store, g.id, name, sheet.value, env)
  }

  /** The insertions of the row loop that follows the logo and the clearing. */
  function LoadInserted(st: Store, h: Id, name: string, sheet: Sheet, env: Env): seq<(Id, Item)>
    requires h in st.hotels
  {
    var cols := WebColumnsOf(sheet.header);
    var s1 := Logo(st, h, name, cols, sheet.rows, env);
    Inserted(ClearHotel(s1, h), h, name, cols, sheet.rows, env)
  }

  /** The hotel `h` of `st` holds exactly the items of `ins`, each under
      its key, and the keys increase in the order of `ins`. */
  predicate HoldsExactly(st: Store, h: Id, ins: seq<(Id, Item)>) {
    ItemsOf(st, h) == InsertedKeys(ins)
    && (forall i :: 0 <= i < |ins| ==> ins[i].0 in st.items && st.items[ins[i].0] == ins[i].1)
    && (forall i, j :: 0 <= i < j < |ins| ==> ins[i].0 < ins[j].0)
  }

  /** After the load the hotel holds exactly the items its rows inserted,
      in row order under increasing keys. */
  lemma LoadCreatesRows(st: Store, h: Id, name: string, sheet: Sheet, env: Env)
    requires h in st.hotels
    ensures HoldsExactly(Load(st, h, name, sheet, env).store, h, LoadInserted(st, h, name, sheet, env))
  {
    var cols := WebColumnsOf(sheet.header);
    var s1 := Logo(st, h, name, cols, sheet.rows, env);
    ReplacedItemsAreInserted(s1, h, name, cols, sheet.rows, env);
  }

  /** After a web upload the hotel holds exactly the items its rows
      inserted, in row order under increasing keys. */
  lemma UploadCreatesRows(st: Store, file: Option<string>, sheet: Option<Sheet>, env: Env)
    requires Valid(st)
    ensures var r := Upload(st, file, sheet, env);
            r.outcome.Uploaded? ==> HoldsExactly(r.store, r.outcome.hotel, UploadInserted(st, file, sheet, env))
  {
    if file.Some? && file.value != [] && IsXlsxName(file.value) && sheet.Some? {
      var name := WebHotelName(file.value);
      var g := GetOrCreateHotel(st, name);
      assert Upload(st, file, sheet, env) == Load(g.store, g.id, name, sheet.value, env);
      assert UploadInserted(st, file, sheet, env) == LoadInserted(g.store, g.id, name, sheet.value, env);
      LoadCreatesRows(g.store, g.id, name, sheet.value, env);
    }
  }
}
