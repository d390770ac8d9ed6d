/** The hotel form's name validation. */
module Forms {
  import opened Wrappers
  import opened Text
  import opened Schema

  datatype FormError = DuplicateName

  /** The hotels other than the one being edited (a new hotel has no key,
      so nothing is excluded) whose names equal `name` ignoring case. */
  function Clashes(hotels: map<Id, Hotel>, editing: Option<Id>, name: string): set<Id> {
    set k | k in hotels && Some(k) != editing && EqualsIgnoreCase(hotels[k].name, name)
  }

  /** `HotelForm.clean_name`: the trimmed name, rejected when another hotel
      already bears it in any casing. */
  function CleanName(hotels: map<Id, Hotel>, editing: Option<Id>, raw: string): (r: Result<string, FormError>)
    ensures r.Ok? ==> r.value == Strip(raw)
    ensures r.Err? <==> exists k :: k in hotels && Some(k) != editing && EqualsIgnoreCase(hotels[k].name, Strip(raw))
  {
    var name := Strip(raw);
    var clashes := Clashes(hotels, editing, name);
    if clashes != {} then
      HasMember(clashes);
      Err(DuplicateName)
    else
      assert forall k :: k in hotels && Some(k) != editing && EqualsIgnoreCase(hotels[k].name, name) ==> k in clashes;
      Ok(name)
  }

  /** The edited hotel's own row plays no part: validating while editing
      `k` is validating a new hotel against all the others. */
  lemma EditedHotelExcluded(hotels: map<Id, Hotel>, k: Id, raw: string)
    ensures CleanName(hotels, Some(k), raw) == CleanName(hotels - {k}, None, raw)
  {
    assert Clashes(hotels, Some(k), Strip(raw)) == Clashes(hotels - {k}, None, Strip(raw));
  }

  /** So re-saving a hotel under its own name in another casing passes
      whenever no other hotel bears that name. */
  lemma ResavingOwnNamePasses(hotels: map<Id, Hotel>, k: Id, raw: string)
    requires k in hotels && EqualsIgnoreCase(hotels[k].name, Strip(raw))
    requires forall j :: j in hotels && j != k ==> !EqualsIgnoreCase(hotels[j].name, hotels[k].name)
    ensures CleanName(hotels, Some(k), raw) == Ok(Strip(raw))
  {
    var name := Strip(raw);
    forall j | j in hotels && j != k ensures !EqualsIgnoreCase(hotels[j].name, name) {
      assert Lower(hotels[j].name) != Lower(hotels[k].name);
    }
    assert Clashes(hotels, Some(k), name) == {};
  }

  /** Surrounding whitespace neither changes the result nor evades the
      duplicate check. */
  lemma PaddingDoesNotEvade(hotels: map<Id, Hotel>, editing: Option<Id>, pre: string, raw: string, post: string)
    requires AllSpace(pre) && AllSpace(post)
    ensures CleanName(hotels, editing, pre + raw + post) == CleanName(hotels, editing, raw)
  {
    StripIgnoresPadding(pre, raw, post);
  }

  /** A name that passes for a new hotel cannot break the exact uniqueness
      of hotel names. */
  lemma AcceptedNameKeepsNamesUnique(hotels: map<Id, Hotel>, raw: string, k: Id, logo: Option<string>)
    requires UniqueHotelNames(hotels) && k !in hotels
    requires CleanName(hotels, None, raw).Ok?
    ensures UniqueHotelNames(hotels[k := Hotel(Strip(raw), logo)])
  {
    var h := hotels[k := Hotel(Strip(raw), logo)];
    forall a, b | a in h && b in h && a != b ensures h[a].name != h[b].name {
      if a == k {
        assert !EqualsIgnoreCase(hotels[b].name, Strip(raw));
      } else if b == k {
        assert !EqualsIgnoreCase(hotels[a].name, Strip(raw));
      }
    }
  }
}
