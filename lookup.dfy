/** The two `get_or_create` lookups the views use: by exact hotel name,
    and by case-insensitive name (`name__iexact`) in a table of names, the
    way categories and manual categories are found or made. */
module Lookup {
  import opened Wrappers
  import opened Text
  import opened Schema

  /** `MultipleObjectsReturned`: more than one row matched. */
  datatype Failure = MultipleObjects

  /** The table after the lookup, the key found or made, and whether it was
      made. */
  datatype Found = Found(names: map<Id, string>, next: Id, id: Id, created: bool)

  /** The rows whose name equals `name` ignoring case. */
  function Matching(names: map<Id, string>, name: string): set<Id> {
    set a | a in names && EqualsIgnoreCase(names[a], name)
  }

  /** Every key of the table lies in `[1, next)`. */
  predicate KeysIn(names: map<Id, string>, next: Id) {
    forall a :: a in names ==> 1 <= a < next
  }

  /** `get_or_create(name__iexact=name, defaults={'name': name})`. */
  function GetOrCreateIexact(names: map<Id, string>, next: Id, name: string): (r: Result<Found, Failure>)
    ensures r.Err? <==> |Matching(names, name)| >= 2
    ensures r.Ok? ==> r.value.id in r.value.names && EqualsIgnoreCase(r.value.names[r.value.id], name)
    ensures r.Ok? && r.value.created ==>
      Matching(names, name) == {} && r.value.id == next
      && r.value.names == names[next := name] && r.value.next == next + 1
    ensures r.Ok? && !r.value.created ==>
      Matching(names, name) == {r.value.id} && r.value.names == names && r.value.next == next
  {
    var m := Matching(names, name);
    if |m| == 0 then Ok(Found(names[next := name], next + 1, next, true))
    else if |m| == 1 then Ok(Found(names, next, Only(m), false))
    else Err(MultipleObjects)
  }

  /** A row is created only when no name matches ignoring case, so exact
      uniqueness of the names survives, and the new key is fresh. */
  lemma GetOrCreateKeepsUnique(names: map<Id, string>, next: Id, name: string)
    requires UniqueNames(names) && KeysIn(names, next) && 1 <= next
    ensures var r := GetOrCreateIexact(names, next, name);
            r.Ok? ==> UniqueNames(r.value.names) && KeysIn(r.value.names, r.value.next)
                      && names.Keys <= r.value.names.Keys && r.value.next >= next
                      && forall a :: a in names ==> r.value.names[a] == names[a]
  {
    var r := GetOrCreateIexact(names, next, name);
    if r.Ok? && r.value.created {
      forall a | a in names ensures names[a] != name {
        assert a !in Matching(names, name);
      }
    }
  }

  /** Looking the same name up again finds what the first lookup found and
      changes nothing. */
  lemma GetOrCreateIdempotent(names: map<Id, string>, next: Id, name: string)
    requires KeysIn(names, next)
    ensures var r := GetOrCreateIexact(names, next, name);
            r.Ok? ==> GetOrCreateIexact(r.value.names, r.value.next, name)
                      == Ok(Found(r.value.names, r.value.next, r.value.id, false))
  {
    var r := GetOrCreateIexact(names, next, name);
    if r.Ok? {
      var f := r.value;
      assert Matching(f.names, name) == {f.id} by {
        if f.created {
          forall a | a in f.names ensures a in Matching(f.names, name) <==> a == f.id {
            if a != f.id { assert a in names && a !in Matching(names, name); }
          }
        }
      }
      assert Only({f.id}) == f.id;
    }
  }

  /** A name that matches a stored name ignoring case, and only that one,
      reuses its row whatever the spelling. */
  lemma CaseInsensitiveReuse(names: map<Id, string>, next: Id, name: string, a: Id)
    requires a in names && EqualsIgnoreCase(names[a], name) && Matching(names, name) == {a}
    ensures GetOrCreateIexact(names, next, name) == Ok(Found(names, next, a, false))
  {
    assert Only({a}) == a;
  }

  /** The hotels called exactly `name`. */
  function HotelsNamed(hotels: map<Id, Hotel>, name: string): set<Id> {
    set a | a in hotels && hotels[a].name == name
  }

  lemma AtMostOneHotelNamed(hotels: map<Id, Hotel>, name: string)
    requires UniqueHotelNames(hotels)
    ensures HotelsNamed(hotels, name) == {} || |HotelsNamed(hotels, name)| == 1
  {
    var s := HotelsNamed(hotels, name);
    if s != {} {
      HasMember(s);
      var x :| x in s;
      forall y | y in s ensures y == x {
        assert hotels[y].name == hotels[x].name;
      }
      assert s == {x};
    }
  }

  /** The store after a lookup, with the key found or made. */
  datatype Got = Got(store: Store, id: Id)

  /** `Hotel.objects.get_or_create(name=name)`: exact comparison. */
  function GetOrCreateHotel(st: Store, name: string): (r: Got)
    requires UniqueHotelNames(st.hotels)
    ensures r.id in r.store.hotels && r.store.hotels[r.id].name == name
    ensures r.store.items == st.items && r.store.categories == st.categories && r.store.manuals == st.manuals
    ensures HotelsNamed(st.hotels, name) == {} ==>
      r.id == st.next && r.store.hotels == st.hotels[st.next := Hotel(name, None)] && r.store.next == st.next + 1
    ensures HotelsNamed(st.hotels, name) != {} ==> r.store == st
  {
    var s := HotelsNamed(st.hotels, name);
    AtMostOneHotelNamed(st.hotels, name);
    if s == {} then
      Got(st.(hotels := st.hotels[st.next := Hotel(name, None)], next := st.next + 1), st.next)
    else
      Got(st, Only(s))
  }

  /** Getting or creating a hotel keeps the store consistent. */
  lemma GetOrCreateHotelValid(st: Store, name: string)
    requires Valid(st)
    ensures Valid(GetOrCreateHotel(st, name).store)
    ensures GetOrCreateHotel(st, name).store.next >= st.next
    ensures st.hotels.Keys <= GetOrCreateHotel(st, name).store.hotels.Keys
  {
    var r := GetOrCreateHotel(st, name);
    if HotelsNamed(st.hotels, name) == {} {
      forall a | a in st.hotels ensures st.hotels[a].name != name {
        assert a !in HotelsNamed(st.hotels, name);
      }
      assert UniqueHotelNames(r.store.hotels);
    }
  }
}
