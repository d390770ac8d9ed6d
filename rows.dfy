/** Reading one data row: the skip rule, trimming, the optional price, the
    comma-separated category tokens, and the optional text fields, as the
    web upload and the import each do it. */
module Rows {
  import opened Wrappers
  import opened Text
  import opened Cells
  import opened Headers

  /** `float(value)`, or `None` when it raises. */
  type ToFloat = Cell -> Option<real>

  /** What the web upload takes from a row that is not skipped. */
  datatype WebRow = WebRow(name: string, price: Option<real>, tokens: seq<string>,
                           description: Option<string>, imageUrl: Option<string>)

  /** The cell of an optional column; an unresolved column reads nothing. */
  function Read(row: seq<Cell>, col: Option<nat>): Cell {
    if col.Some? then At(row, col.value) else Blank
  }

  /** A row is used exactly when its name column is resolved and the raw
      name cell is truthy; the name is trimmed only afterwards. */
  function RowName(row: seq<Cell>, col: Option<nat>): (r: Option<string>)
    ensures r.None? <==> col.None? || !Truthy(At(row, col.value))
    ensures r.Some? ==> r.value == Strip(Show(At(row, col.value)))
  {
    var c := Read(row, col);
    if Truthy(c) then Some(Strip(Show(c))) else None
  }

  /** The price: read when the cell is not `None`, `None` when `float()`
      fails. */
  function Price(row: seq<Cell>, col: Option<nat>, toFloat: ToFloat): (r: Option<real>)
    ensures Read(row, col) == Blank ==> r == None
    ensures Read(row, col) != Blank ==> r == toFloat(Read(row, col))
  {
    var c := Read(row, col);
    if c != Blank then toFloat(c) else None
  }

  /** The trimmed pieces of `cell.split(",")`, empty pieces dropped. */
  function Tokens(pieces: seq<string>): (r: seq<string>)
    ensures |r| <= |pieces|
  {
    if pieces == [] then []
    else
      var t := Strip(pieces[0]);
      if t != [] then [t] + Tokens(pieces[1..]) else Tokens(pieces[1..])
  }

  /** Reading pieces goes piece by piece: the tokens of two runs of pieces
      are the tokens of the first run followed by those of the second. */
  lemma {:induction false} TokensConcat(a: seq<string>, b: seq<string>)
    ensures Tokens(a + b) == Tokens(a) + Tokens(b)
    decreases |a|
  {
    if a == [] {
      assert a + b == b;
    } else {
      assert (a + b)[0] == a[0] && (a + b)[1..] == a[1..] + b;
      TokensConcat(a[1..], b);
    }
  }

  /** One piece gives its stripped text, or nothing when that is empty. */
  lemma TokensOfPiece(p: string)
    ensures Tokens([p]) == if Strip(p) != [] then [Strip(p)] else []
  {
    assert [p][1..] == [];
  }

  /** The category tokens of a category cell that is not `None`. */
  function CategoryTokens(cell: string): (r: seq<string>)
  {
    var c := Strip(cell);
    if c != [] then Tokens(Split(c, ",")) else []
  }

  /** A category token is a non-empty trimmed text without a comma. */
  predicate IsToken(t: string) {
    t != [] && Stripped(t) && ',' !in t
  }

  lemma StripKeepsCommaFree(p: string)
    requires ',' !in p
    ensures ',' !in Strip(p)
  {
    var t := TrimStart(p);
    AbsentFromSuffix(p, |p| - |t|, ',');
    var r := TrimEnd(t);
    AbsentFromPrefix(t, |r|, ',');
    assert Strip(p) == r;
  }

  lemma AbsentFromSuffix(p: string, i: nat, c: char)
    requires i <= |p| && c !in p
    ensures c !in p[i..]
  {
    forall k | 0 <= k < |p| - i ensures p[i..][k] != c {
      assert p[i..][k] == p[i + k];
    }
  }

  lemma AbsentFromPrefix(p: string, j: nat, c: char)
    requires j <= |p| && c !in p
    ensures c !in p[..j]
  {
    forall k | 0 <= k < j ensures p[..j][k] != c {
      assert p[..j][k] == p[k];
    }
  }

  lemma {:induction false} TokensAreTokens(pieces: seq<string>)
    requires forall j :: 0 <= j < |pieces| ==> ',' !in pieces[j]
    ensures forall j :: 0 <= j < |Tokens(pieces)| ==> IsToken(Tokens(pieces)[j])
  {
    if pieces != [] {
      var rest := pieces[1..];
      assert forall j :: 0 <= j < |rest| ==> ',' !in rest[j] by {
        forall j | 0 <= j < |rest| ensures ',' !in rest[j] { assert rest[j] == pieces[j + 1]; }
      }
      TokensAreTokens(rest);
      var t := Strip(pieces[0]);
      if t != [] {
        StripKeepsCommaFree(pieces[0]);
        assert IsToken(t);
        var r := [t] + Tokens(rest);
        assert Tokens(pieces) == r;
        forall j | 0 <= j < |r| ensures IsToken(r[j]) {
          if j > 0 { assert r[j] == Tokens(rest)[j - 1]; }
        }
      } else {
        assert Tokens(pieces) == Tokens(rest);
      }
    }
  }

  /** Every category token is non-empty, trimmed and free of commas. */
  lemma CategoryTokensAreTokens(cell: string)
    ensures forall j :: 0 <= j < |CategoryTokens(cell)| ==> IsToken(CategoryTokens(cell)[j])
  {
    var c := Strip(cell);
    if c != [] {
      var pieces := Split(c, ",");
      SplitPiecesFree(c, ",");
      forall j | 0 <= j < |pieces| ensures ',' !in pieces[j] { ContainsChar(pieces[j], ','); }
      TokensAreTokens(pieces);
    }
  }

  lemma {:induction false} TokensOfTokens(ts: seq<string>)
    requires forall j :: 0 <= j < |ts| ==> IsToken(ts[j])
    ensures Tokens(ts) == ts
  {
    if ts != [] {
      var rest := ts[1..];
      assert forall j :: 0 <= j < |rest| ==> IsToken(rest[j]) by {
        forall j | 0 <= j < |rest| ensures IsToken(rest[j]) { assert rest[j] == ts[j + 1]; }
      }
      TokensOfTokens(rest);
      var h := ts[0];
      assert IsToken(h);
      StripOfStripped(h);
      assert Tokens(ts) == [h] + Tokens(rest);
      HeadTail(ts);
    }
  }

  lemma HeadTail(ts: seq<string>)
    requires ts != []
    ensures ts == [ts[0]] + ts[1..]
  {
  }

  lemma {:induction false} JoinOfTokensStripped(ts: seq<string>)
    requires |ts| >= 1 && forall j :: 0 <= j < |ts| ==> IsToken(ts[j])
    ensures Join(ts, ",") != [] && Stripped(Join(ts, ","))
  {
    assert IsToken(ts[0]);
    if |ts| > 1 {
      var rest := ts[1..];
      assert forall j :: 0 <= j < |rest| ==> IsToken(rest[j]) by {
        forall j | 0 <= j < |rest| ensures IsToken(rest[j]) { assert rest[j] == ts[j + 1]; }
      }
      JoinOfTokensStripped(rest);
      var c := Join(ts, ",");
      var tail := Join(rest, ",");
      assert c == ts[0] + "," + tail;
      assert c[0] == ts[0][0];
      assert c[|c| - 1] == tail[|tail| - 1];
    }
  }

  /** Writing the tokens back as a comma-separated cell and reading it
      again gives the same tokens: reading loses nothing but the padding
      and the empty pieces. */
  lemma TokensRoundTrip(ts: seq<string>)
    requires |ts| >= 1 && forall j :: 0 <= j < |ts| ==> IsToken(ts[j])
    ensures CategoryTokens(Join(ts, ",")) == ts
  {
    var c := Join(ts, ",");
    JoinOfTokensStripped(ts);
    StripOfStripped(c);
    SplitJoin(ts, ",");
    TokensOfTokens(ts);
  }

  /** A trimmed text field of the web upload: read when the cell is not
      `None`. */
  function WebText(row: seq<Cell>, col: Option<nat>): (r: Option<string>)
    ensures r.None? <==> Read(row, col) == Blank
    ensures r.Some? ==> r.value == Strip(Show(Read(row, col)))
  {
    var c := Read(row, col);
    if c != Blank then Some(Strip(Show(c))) else None
  }

  /** One row of the web upload, or `None` when it is skipped. */
  function ReadWebRow(cols: WebColumns, row: seq<Cell>, toFloat: ToFloat): (r: Option<WebRow>)
    ensures r.None? <==> RowName(row, cols.name).None?
    ensures r.Some? ==>
      var c := Read(row, cols.category);
      && r.value.name == RowName(row, cols.name).value
      && r.value.price == Price(row, cols.price, toFloat)
      && r.value.tokens == (if c != Blank then CategoryTokens(Show(c)) else [])
      && r.value.description == WebText(row, cols.description)
      && r.value.imageUrl == WebText(row, cols.image)
  {
    match RowName(row, cols.name)
    case None => None
    case Some(name) =>
      var c := Read(row, cols.category);
      Some(WebRow(name, Price(row, cols.price, toFloat),
                  if c != Blank then CategoryTokens(Show(c)) else [],
                  WebText(row, cols.description), WebText(row, cols.image)))
  }

  /** What the import takes from a row that is not skipped. */
  datatype ImportRow = ImportRow(name: string, price: Option<real>, category: Option<string>,
                                 description: Option<string>, imageUrl: Option<string>)

  /** A trimmed text field of the import: read only when the cell is
      truthy. */
  function ImportText(row: seq<Cell>, col: Option<nat>): (r: Option<string>)
    ensures r.None? <==> !Truthy(Read(row, col))
    ensures r.Some? ==> r.value == Strip(Show(Read(row, col)))
  {
    var c := Read(row, col);
    if Truthy(c) then Some(Strip(Show(c))) else None
  }

  /** One row of the import, or `None` when it is skipped. */
  function ReadImportRow(cols: ImportColumns, row: seq<Cell>, toFloat: ToFloat): (r: Option<ImportRow>)
    ensures r.None? <==> RowName(row, cols.name).None?
    ensures r.Some? ==>
      && r.value.name == RowName(row, cols.name).value
      && r.value.price == Price(row, cols.price, toFloat)
      && r.value.category == ImportText(row, cols.category)
      && r.value.description == ImportText(row, cols.description)
      && r.value.imageUrl == ImportText(row, cols.image)
  {
    match RowName(row, cols.name)
    case None => None
    case Some(name) =>
      Some(ImportRow(name, Price(row, cols.price, toFloat), ImportText(row, cols.category),
                     ImportText(row, cols.description), ImportText(row, cols.image)))
  }

  /** A whitespace-only name passes the skip rule and is kept as `""`. */
  lemma BlankNameIsKept(row: seq<Cell>, col: nat, spaces: string)
    requires col < |row| && row[col] == Str(spaces) && spaces != [] && AllSpace(spaces)
    ensures RowName(row, Some(col)) == Some([])
  {
    StripOfAllSpace(spaces);
  }

  /** The text fields differ between the two readers: an empty string cell
      gives `""` to the web upload and `None` to the import. */
  lemma EmptyTextCell(row: seq<Cell>, col: nat)
    requires col < |row| && row[col] == Str([])
    ensures WebText(row, Some(col)) == Some([])
    ensures ImportText(row, Some(col)) == None
  {
    assert Read(row, Some(col)) == Str([]);
  }
}
