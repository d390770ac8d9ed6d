/** The catalog endpoints that change one item or one table: visibility,
    the category links, manual categories, and deletion. */
module Mutations {
  import opened Wrappers
  import opened Text
  import opened Schema
  import opened Lookup

  /** A JSON value from the request body, as far as the views look at it. */
  datatype Json = JNull | JBool(b: bool) | JNum(n: real) | JText(s: string) | JList(size: nat)

  /** Python truthiness of a decoded JSON value. */
  predicate Truthy(j: Json) {
    match j
    case JNull => false
    case JBool(b) => b
    case JNum(n) => n != 0.0
    case JText(s) => s != []
    case JList(size) => size != 0
  }

  datatype ToggleReply = Toggled(visible: bool) | ItemNotFound

  /** `ToggleVisibilityAPI.post`: `visible` defaults to true and is taken
      by its truthiness. */
  function Toggle(st: Store, pk: Id, visible: Option<Json>): (r: (Store, ToggleReply))
    ensures pk !in st.items <==> r.1 == ItemNotFound
  {
    if pk !in st.items then (st, ItemNotFound)
    else
      var v := visible.None? || Truthy(visible.value);
      (st.(items := st.items[pk := st.items[pk].(visible := v)]), Toggled(v))
  }

  /** Toggling changes the visibility of that item alone, to what the
      reply says, and keeps the database consistent. */
  lemma ToggleFacts(st: Store, pk: Id, visible: Option<Json>)
    requires Valid(st)
    ensures var (s, reply) := Toggle(st, pk, visible);
            Valid(s)
            && (reply == ItemNotFound ==> s == st)
            && (reply.Toggled? ==>
                  reply.visible == (visible.None? || Truthy(visible.value))
                  && s.items.Keys == st.items.Keys && s.items[pk] == st.items[pk].(visible := reply.visible)
                  && s.hotels == st.hotels && s.categories == st.categories && s.manuals == st.manuals
                  && forall a :: a in st.items && a != pk ==> s.items[a] == st.items[a])
  {
    var (s, reply) := Toggle(st, pk, visible);
    if reply.Toggled? {
      assert UniqueItemKeys(s.items) by {
        forall a, b | a in s.items && b in s.items && a != b
          ensures s.items[a].hotel != s.items[b].hotel || s.items[a].name != s.items[b].name
        {
          assert s.items[a].hotel == st.items[a].hotel && s.items[a].name == st.items[a].name;
          assert s.items[b].hotel == st.items[b].hotel && s.items[b].name == st.items[b].name;
        }
      }
    }
  }

  /** Sending the same request twice has the effect of sending it once. */
  lemma ToggleIdempotent(st: Store, pk: Id, visible: Option<Json>)
    ensures Toggle(Toggle(st, pk, visible).0, pk, visible) == Toggle(st, pk, visible)
  {
    if pk in st.items {
      var s := Toggle(st, pk, visible).0;
      assert s.items[pk := s.items[pk].(visible := s.items[pk].visible)] == s.items;
    }
  }

  datatype ManualReply = EmptyName | CreatedManual(id: Id, name: string) | ExistingManual(id: Id, name: string) | ManualFailed

  /** `create_manual_category`: the trimmed name, then
      `get_or_create(name__iexact=name)` among the manual categories. */
  function CreateManualCategory(st: Store, name: Option<string>): (r: (Store, ManualReply))
    ensures r.1 == EmptyName <==> Strip(name.GetOr([])) == []
    ensures Strip(name.GetOr([])) != [] ==> r == RegisterManual(st, Strip(name.GetOr([])))
  {
    var n := Strip(name.GetOr([]));
    if n == [] then (st, EmptyName) else RegisterManual(st, n)
  }

  /** The lookup of a non-empty trimmed name among the manual categories. */
  function RegisterManual(st: Store, n: string): (r: (Store, ManualReply))
    ensures r.1 != EmptyName
  {
    match GetOrCreateIexact(st.manuals, st.next, n)
    case Err(_) => (st, ManualFailed)
    case Ok(f) =>
      var s := st.(manuals := f.names, next := f.next);
      if f.created then (s, CreatedManual(f.id, f.names[f.id])) else (s, ExistingManual(f.id, f.names[f.id]))
  }

  /** A new manual category is made, under the given name, exactly when no
      stored one has that name ignoring case; one match is reported back;
      two matches fail. Only the manual table can change. */
  lemma RegisterManualFacts(st: Store, n: string)
    requires Valid(st)
    ensures var (s, reply) := RegisterManual(st, n);
            Valid(s) && s.hotels == st.hotels && s.items == st.items && s.categories == st.categories
            && (!reply.CreatedManual? ==> s == st)
            && (reply.CreatedManual? <==> Matching(st.manuals, n) == {})
            && (reply.ManualFailed? <==> |Matching(st.manuals, n)| >= 2)
            && (reply.CreatedManual? ==>
                  reply.id == st.next && reply.name == n && s.manuals == st.manuals[st.next := n])
            && (reply.ExistingManual? ==>
                  Matching(st.manuals, n) == {reply.id} && reply.name == st.manuals[reply.id])
  {
    GetOrCreateKeepsUnique(st.manuals, st.next, n);
  }

  /** The result of a successful lookup, stated without the lookup's body. */
  lemma RegisterManualFound(st: Store, n: string, f: Found)
    requires GetOrCreateIexact(st.manuals, st.next, n) == Ok(f)
    ensures RegisterManual(st, n).0 == st.(manuals := f.names, next := f.next)
    ensures RegisterManual(st, n).1 == if f.created then CreatedManual(f.id, f.names[f.id]) else ExistingManual(f.id, f.names[f.id])
  {
  }

  /** The result of a failed lookup. */
  lemma RegisterManualRefused(st: Store, n: string)
    requires GetOrCreateIexact(st.manuals, st.next, n).Err?
    ensures RegisterManual(st, n) == (st, ManualFailed)
  {
  }

  lemma RegisterManualValid(st: Store, n: string)
    requires Valid(st)
    ensures Valid(RegisterManual(st, n).0)
  {
    RegisterManualFacts(st, n);
  }

  /** Asking for the same name twice creates at most once: the second
      request finds what the first one made or found. */
  lemma RegisterManualIdempotent(st: Store, n: string)
    requires Valid(st)
    ensures var (s, reply) := RegisterManual(st, n);
            (reply.CreatedManual? || reply.ExistingManual?) ==>
              RegisterManual(s, n) == (s, ExistingManual(reply.id, reply.name))
  {
    GetOrCreateIdempotent(st.manuals, st.next, n);
  }

  /** Padding around the name does not matter: the padded and the trimmed
      request have the same effect. */
  lemma CreateManualIgnoresPadding(st: Store, pre: string, name: string, post: string)
    requires AllSpace(pre) && AllSpace(post)
    ensures CreateManualCategory(st, Some(pre + name + post)) == CreateManualCategory(st, Some(name))
  {
    StripIgnoresPadding(pre, name, post);
  }

  /** The answer of a category update: success, or a 400 error. */
  datatype UpdateReply = Updated | UpdateFailed

  /** A primary key given as a JSON number with no fractional part. */
  function KeyOf(j: Json): Option<Id> {
    if j.JNum? && j.n == j.n.Floor as real then Some(j.n.Floor) else None
  }

  /** `UpdateMenuCategoryAPI.post`: with `type == "auto"` or `"manual"`, a
      truthy `category_id` replaces the item's links of that kind with that
      one row, a falsy one clears them; another type changes nothing. A
      missing item or row fails and changes nothing. */
  function UpdateCategory(st: Store, pk: Id, kind: Option<string>, categoryId: Option<Json>): (r: (Store, UpdateReply))
    ensures pk !in st.items ==> r == (st, UpdateFailed)
  {
    if pk !in st.items then (st, UpdateFailed)
    else
      var it := st.items[pk];
      var given := categoryId.Some? && Truthy(categoryId.value);
      var key := if given then KeyOf(categoryId.value) else None;
      if kind == Some("auto") then
        if !given then (st.(items := st.items[pk := it.(categories := {})]), Updated)
        else if key.Some? && key.value in st.categories then
          (st.(items := st.items[pk := it.(categories := {key.value})]), Updated)
        else (st, UpdateFailed)
      else if kind == Some("manual") then
        if !given then (st.(items := st.items[pk := it.(manuals := {})]), Updated)
        else if key.Some? && key.value in st.manuals then
          (st.(items := st.items[pk := it.(manuals := {key.value})]), Updated)
        else (st, UpdateFailed)
      else (st, Updated)
  }

  /** An update touches one link set of one item and nothing else, leaves
      the links it sets pointing at existing rows, and a failure changes
      nothing. */
  lemma UpdateCategoryFacts(st: Store, pk: Id, kind: Option<string>, categoryId: Option<Json>)
    requires Valid(st)
    ensures var (s, reply) := UpdateCategory(st, pk, kind, categoryId);
            var given := categoryId.Some? && Truthy(categoryId.value);
            Valid(s) && s.hotels == st.hotels && s.categories == st.categories && s.manuals == st.manuals
            && s.items.Keys == st.items.Keys
            && (forall a :: a in st.items && a != pk ==> s.items[a] == st.items[a])
            && (reply == UpdateFailed ==> s == st)
            && (pk in st.items && kind != Some("auto") && kind != Some("manual") ==> reply == Updated && s == st)
            && (pk in st.items && kind == Some("auto") && reply == Updated ==>
                  s.items[pk] == st.items[pk].(categories := if given then {KeyOf(categoryId.value).value} else {}))
            && (pk in st.items && kind == Some("manual") && reply == Updated ==>
                  s.items[pk] == st.items[pk].(manuals := if given then {KeyOf(categoryId.value).value} else {}))
            && (pk in st.items && given && (kind == Some("auto") || kind == Some("manual")) ==>
                  var table := if kind == Some("auto") then st.categories else st.manuals;
                  (reply == Updated <==> KeyOf(categoryId.value).Some? && KeyOf(categoryId.value).value in table))
  {
    var (s, reply) := UpdateCategory(st, pk, kind, categoryId);
    if pk in st.items && s != st {
      RelinkValid(st, pk, s.items[pk]);
    }
  }

  datatype DeleteReply = Deleted | DeleteNotFound

  /** `DeleteMenuItemAPI.post` */
  function DeleteItem(st: Store, pk: Id): (r: (Store, DeleteReply))
    ensures r.1 == Deleted <==> pk in st.items
    ensures r.0.items == st.items - {pk}
    ensures r.0.hotels == st.hotels && r.0.categories == st.categories && r.0.manuals == st.manuals
    ensures r.0.next == st.next
  {
    if pk in st.items then (st.(items := st.items - {pk}), Deleted) else (st, DeleteNotFound)
  }

  /** Deleting items keeps the database consistent. */
  lemma RemoveItemsValid(st: Store, ks: set<Id>)
    requires Valid(st)
    ensures Valid(st.(items := st.items - ks))
  {
  }

  /** The bulk delete loop over the requested keys, in order: the store and
      the number deleted. A key already deleted, or never present, is
      skipped. */
  function BulkDelete(st: Store, ids: seq<Id>): (r: (Store, nat))
    decreases |ids|
  {
    if ids == [] then (st, 0)
    else
      var (s, n) := BulkDelete(st, ids[..|ids| - 1]);
      var (t, reply) := DeleteItem(s, ids[|ids| - 1]);
      (t, if reply == Deleted then n + 1 else n)
  }

  /** The keys a sequence of keys mentions. */
  function Asked(ids: seq<Id>): set<Id> {
    set k | 0 <= k < |ids| :: ids[k]
  }

  lemma AskedSnoc(ids: seq<Id>)
    requires ids != []
    ensures Asked(ids) == Asked(ids[..|ids| - 1]) + {ids[|ids| - 1]}
  {
    var init := ids[..|ids| - 1];
    forall y | y in Asked(ids) ensures y in Asked(init) + {ids[|ids| - 1]} {
      var k :| 0 <= k < |ids| && ids[k] == y;
      if k < |init| { assert init[k] == y; }
    }
    forall y | y in Asked(init) ensures y in Asked(ids) {
      var k :| 0 <= k < |init| && init[k] == y;
      assert ids[k] == y;
    }
  }

  /** The bulk delete removes exactly the requested items; only the items
      change. */
  lemma {:induction false} BulkDeleteStore(st: Store, ids: seq<Id>)
    ensures var s := BulkDelete(st, ids).0;
            s.items == st.items - Asked(ids)
            && s.hotels == st.hotels && s.categories == st.categories && s.manuals == st.manuals
            && s.next == st.next
    decreases |ids|
  {
    if ids != [] {
      BulkDeleteStore(st, ids[..|ids| - 1]);
      AskedSnoc(ids);
    }
  }

  /** The bulk delete reports how many distinct requested keys named an
      item, which is at most the number of keys sent. */
  lemma {:induction false} BulkDeleteCount(st: Store, ids: seq<Id>)
    ensures BulkDelete(st, ids).1 == |Asked(ids) * st.items.Keys| <= |ids|
    decreases |ids|
  {
    if ids == [] {
      assert Asked(ids) == {};
    } else {
      var init := ids[..|ids| - 1];
      var x := ids[|ids| - 1];
      BulkDeleteCount(st, init);
      BulkDeleteStore(st, init);
      AskedSnoc(ids);
      var s := BulkDelete(st, init).0;
      var keys := st.items.Keys;
      if x in s.items {
        assert x !in Asked(init) && x in keys;
        assert Asked(ids) * keys == (Asked(init) * keys) + {x};
      } else {
        assert Asked(ids) * keys == Asked(init) * keys;
      }
      SetOfSeqBound(ids);
      SubsetCard(Asked(ids) * keys, Asked(ids));
    }
  }

  /** The keys a sequence holds are no more than its length. */
  lemma {:induction false} SetOfSeqBound(ids: seq<Id>)
    ensures |Asked(ids)| <= |ids|
    decreases |ids|
  {
    if ids != [] {
      var init := ids[..|ids| - 1];
      SetOfSeqBound(init);
      AskedSnoc(ids);
    }
  }

}
