/** Header normalisation and the alias lookup that locates each column, in
    the two forms the upload views use: the web upload keeps only the
    non-empty header cells, the API import keeps `''` in their place. */
module Headers {
  import opened Wrappers
  import opened Text
  import opened Cells
  import opened Order

  /** `str(cell.value).strip().lower()` */
  function Normalize(c: Cell): string {
    Lower(Strip(Show(c)))
  }

  /** The web upload's header list: empty cells are dropped, so positions
      are counted in the compacted list. */
  function WebHeaders(header: seq<Cell>): (r: seq<string>)
    ensures |r| <= |header|
  {
    if header == [] then []
    else
      var rest := WebHeaders(header[1..]);
      if Truthy(header[0]) then [Normalize(header[0])] + rest else rest
  }

  /** Every column index moved one place right. */
  function Shift(cols: seq<nat>): (r: seq<nat>)
    ensures |r| == |cols| && forall p :: 0 <= p < |r| ==> r[p] == cols[p] + 1
  {
    seq(|cols|, p requires 0 <= p < |cols| => cols[p] + 1)
  }

  /** The columns of the truthy header cells, left to right. */
  function TruthyColumns(header: seq<Cell>): (r: seq<nat>)
    ensures forall p :: 0 <= p < |r| ==> r[p] < |header| && Truthy(header[r[p]])
  {
    if header == [] then []
    else
      var t := header[1..];
      var c := TruthyColumns(t);
      var rest := Shift(c);
      assert forall p :: 0 <= p < |rest| ==> rest[p] < |header| && Truthy(header[rest[p]]) by {
        forall p | 0 <= p < |rest| ensures rest[p] < |header| && Truthy(header[rest[p]]) {
          assert header[rest[p]] == t[c[p]];
        }
      }
      if Truthy(header[0]) then [0] + rest else rest
  }

  /** Each truthy column is listed, once, in increasing order. */
  lemma {:induction false} TruthyColumnsOrdered(header: seq<Cell>)
    ensures Increasing(TruthyColumns(header))
    ensures forall j :: 0 <= j < |header| && Truthy(header[j]) ==> j in TruthyColumns(header)
  {
    if header != [] {
      var t := header[1..];
      var c := TruthyColumns(t);
      TruthyColumnsOrdered(t);
      var rest := Shift(c);
      ShiftIncreasing(c);
      forall j | 1 <= j < |header| && Truthy(header[j]) ensures j in rest {
        assert t[j - 1] == header[j];
        ShiftMember(c, j - 1);
      }
      if Truthy(header[0]) {
        ConsIncreasing(0, rest);
      }
    }
  }

  lemma ShiftIncreasing(c: seq<nat>)
    requires Increasing(c)
    ensures Increasing(Shift(c)) && forall x :: x in Shift(c) ==> 0 < x
  {
  }

  lemma ShiftMember(c: seq<nat>, x: nat)
    requires x in c
    ensures x + 1 in Shift(c)
  {
    var p :| 0 <= p < |c| && c[p] == x;
    assert Shift(c)[p] == x + 1;
  }

  /** The web header list is the import's list with the entries of the
      falsy cells removed: its `p`-th entry is the import's entry for the
      `p`-th truthy column, the normalised text of that cell. */
  lemma {:induction false} WebHeadersCompacts(header: seq<Cell>)
    ensures var cols := TruthyColumns(header);
            |WebHeaders(header)| == |cols|
            && forall p :: 0 <= p < |cols| ==> cols[p] < |header| && WebHeaders(header)[p] == ImportHeaders(header)[cols[p]]
  {
    if header != [] {
      var t := header[1..];
      var keep := Truthy(header[0]);
      WebHeadersCompacts(t);
      assert WebHeaders(header) == (if keep then [Entry(header[0])] else []) + WebHeaders(t);
      assert TruthyColumns(header) == (if keep then [0] else []) + Shift(TruthyColumns(t));
      assert ImportHeaders(header) == [Entry(header[0])] + ImportHeaders(t);
      CompactCons(keep, Entry(header[0]), WebHeaders(t), TruthyColumns(t), ImportHeaders(t));
    }
  }

  /** One more leading cell: its entry, kept or not, and the later columns
      moved one place right. */
  lemma CompactCons(keep: bool, e: string, ws: seq<string>, cs: seq<nat>, es: seq<string>)
    requires |ws| == |cs| && forall p :: 0 <= p < |cs| ==> cs[p] < |es| && ws[p] == es[cs[p]]
    ensures var w := (if keep then [e] else []) + ws;
            var c := (if keep then [0] else []) + Shift(cs);
            |w| == |c| && forall p :: 0 <= p < |c| ==> c[p] < |es| + 1 && w[p] == ([e] + es)[c[p]]
  {
    var w := (if keep then [e] else []) + ws;
    var c := (if keep then [0] else []) + Shift(cs);
    var d := if keep then 1 else 0;
    forall p | 0 <= p < |c| ensures c[p] < |es| + 1 && w[p] == ([e] + es)[c[p]] {
      if p >= d {
        assert c[p] == cs[p - d] + 1 && w[p] == ws[p - d];
        assert ([e] + es)[cs[p - d] + 1] == es[cs[p - d]];
      }
    }
  }

  /** The import's header list: one entry per column, `''` for an empty
      cell. */
  function ImportHeaders(header: seq<Cell>): (r: seq<string>)
    ensures |r| == |header|
    ensures forall i :: 0 <= i < |header| ==> r[i] == Entry(header[i])
  {
    if header == [] then [] else [Entry(header[0])] + ImportHeaders(header[1..])
  }

  /** The import's entry for one header cell. */
  function Entry(c: Cell): string {
    if Truthy(c) then Normalize(c) else []
  }

  /** `hs.index(a)`: the first position holding `a`, when there is one. */
  function IndexOf(hs: seq<string>, a: string): (r: Option<nat>)
    ensures r.None? <==> a !in hs
    ensures r.Some? ==> r.value < |hs| && hs[r.value] == a && a !in hs[..r.value]
  {
    if hs == [] then None
    else if hs[0] == a then Some(0)
    else match IndexOf(hs[1..], a)
      case None => None
      case Some(i) => assert hs[..i + 1] == [hs[0]] + hs[1..][..i]; Some(i + 1)
  }

  /** `aliases[j]` is the first alias, in list order, present in `hs`. */
  predicate FirstPresent(hs: seq<string>, aliases: seq<string>, j: nat) {
    j < |aliases| && aliases[j] in hs && forall k :: 0 <= k < j ==> aliases[k] !in hs
  }

  /** `find_col` / `col_index`: the aliases are tried in list order and the
      first one present in the headers wins, at its first position. */
  function FindCol(hs: seq<string>, aliases: seq<string>): (r: Option<nat>)
    ensures r.None? <==> forall j :: 0 <= j < |aliases| ==> aliases[j] !in hs
    ensures r.Some? ==> exists j: nat :: FirstPresent(hs, aliases, j) && IndexOf(hs, aliases[j]) == r
  {
    if aliases == [] then None
    else if aliases[0] in hs then
      assert FirstPresent(hs, aliases, 0);
      IndexOf(hs, aliases[0])
    else
      var r := FindCol(hs, aliases[1..]);
      FirstPresentShift(hs, aliases, r);
      r
  }

  lemma FirstPresentShift(hs: seq<string>, aliases: seq<string>, r: Option<nat>)
    requires |aliases| >= 1 && aliases[0] !in hs
    requires r.Some? ==> exists j: nat :: FirstPresent(hs, aliases[1..], j) && IndexOf(hs, aliases[1..][j]) == r
    ensures r.Some? ==> exists j: nat :: FirstPresent(hs, aliases, j) && IndexOf(hs, aliases[j]) == r
  {
    if r.Some? {
      var j: nat :| FirstPresent(hs, aliases[1..], j) && IndexOf(hs, aliases[1..][j]) == r;
      assert aliases[j + 1] == aliases[1..][j];
      forall k | 0 <= k < j + 1 ensures aliases[k] !in hs {
        if k > 0 { assert aliases[k] == aliases[1..][k - 1]; }
      }
      assert FirstPresent(hs, aliases, j + 1);
    }
  }

  // The alias lists of the web upload, in the order they are tried.
  const WebNameAliases := ["_nameen", "name", "item", "itemname"]
  const WebPriceAliases := ["_finalprice", "_regularprice", "price", "regularprice"]
  const WebCategoryAliases := ["_categories", "category", "type"]
  const WebDescriptionAliases := ["_shortdescen", "description", "desc", "details"]
  const WebImageAliases := ["_imageurl1", "image", "image_url", "imageurl"]
  const WebLogoAliases := ["_hotellogo", "logo", "hotel_logo"]

  // The alias lists of the import.
  const ImportNameAliases := ["item", "item_name", "name"]
  const ImportPriceAliases := ["price", "cost"]
  const ImportCategoryAliases := ["category", "type"]
  const ImportDescriptionAliases := ["description", "desc", "details", "item_description"]
  const ImportImageAliases := ["image", "image_url", "image link", "imageurl", "image_link"]

  /** The column positions the web upload resolves. */
  datatype WebColumns = WebColumns(name: Option<nat>, price: Option<nat>, category: Option<nat>,
                                   description: Option<nat>, image: Option<nat>, logo: Option<nat>)

  /** The column positions the import resolves. */
  datatype ImportColumns = ImportColumns(name: Option<nat>, price: Option<nat>, category: Option<nat>,
                                         description: Option<nat>, image: Option<nat>)

  function WebColumnsOf(header: seq<Cell>): WebColumns {
    var hs := WebHeaders(header);
    WebColumns(FindCol(hs, WebNameAliases), FindCol(hs, WebPriceAliases), FindCol(hs, WebCategoryAliases),
               FindCol(hs, WebDescriptionAliases), FindCol(hs, WebImageAliases), FindCol(hs, WebLogoAliases))
  }

  function ImportColumnsOf(header: seq<Cell>): ImportColumns {
    var hs := ImportHeaders(header);
    ImportColumns(FindCol(hs, ImportNameAliases), FindCol(hs, ImportPriceAliases), FindCol(hs, ImportCategoryAliases),
                  FindCol(hs, ImportDescriptionAliases), FindCol(hs, ImportImageAliases))
  }

  /** A position found in the import's header list is the sheet column whose
      normalised header is one of the aliases, since no alias is `''`. */
  lemma ImportColumnIsAligned(header: seq<Cell>, aliases: seq<string>)
    requires forall j :: 0 <= j < |aliases| ==> aliases[j] != []
    ensures var r := FindCol(ImportHeaders(header), aliases);
            r.Some? ==> r.value < |header| && Truthy(header[r.value]) && Normalize(header[r.value]) in aliases
  {
    var hs := ImportHeaders(header);
    var r := FindCol(hs, aliases);
    if r.Some? {
      var j: nat :| FirstPresent(hs, aliases, j) && IndexOf(hs, aliases[j]) == r;
      assert hs[r.value] == aliases[j];
    }
  }

  /** An empty header cell is invisible to the web upload's lookup, although
      every later column of the sheet sits one place further right: the
      positions it computes then point one column too far left. */
  lemma BlankHeaderShiftsWebColumns(rest: seq<Cell>)
    ensures WebHeaders([Blank] + rest) == WebHeaders(rest)
    ensures WebColumnsOf([Blank] + rest) == WebColumnsOf(rest)
  {
    assert ([Blank] + rest)[1..] == rest;
  }

  /** Without empty header cells the two header lists agree. */
  lemma {:induction false} WebHeadersWithoutBlanks(header: seq<Cell>)
    requires forall i :: 0 <= i < |header| ==> Truthy(header[i])
    ensures WebHeaders(header) == ImportHeaders(header)
  {
    if header != [] {
      var t := header[1..];
      forall i | 0 <= i < |t| ensures Truthy(t[i]) {
        assert t[i] == header[i + 1];
      }
      WebHeadersWithoutBlanks(t);
      assert Truthy(header[0]);
    }
  }
}
