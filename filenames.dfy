/** The `.xlsx` gate and the derivation of a hotel name from the uploaded
    file's name, in the web view and in the API view. */
module FileNames {
  import opened Text

  const Prefix := "menu_data_"
  const DashPrefix := "menu-data-"
  const Extension := ".xlsx"

  /** `name.lower().endswith(".xlsx")` */
  predicate IsXlsxName(name: string) {
    EndsWith(Lower(name), Extension)
  }

  /** The web upload: the text after the last `menu_data_` (or the whole
      name), every `.xlsx` removed, then stripped. */
  function WebHotelName(name: string): string {
    var base := if Contains(name, Prefix) then var parts := Split(name, Prefix); parts[|parts| - 1] else name;
    Strip(Replace(base, Extension, ""))
  }

  /** Index of the last `c` in `s`, or -1. */
  function LastIndexOf(s: string, c: char): (r: int)
    ensures -1 <= r < |s|
    ensures r >= 0 ==> s[r] == c
    ensures forall k :: r < k < |s| ==> s[k] != c
  {
    if s == [] then -1
    else if s[|s| - 1] == c then |s| - 1
    else LastIndexOf(s[..|s| - 1], c)
  }

  /** `os.path.splitext(p)[0]` on POSIX: the text before the last dot of the
      last path component, unless that component has only dots before it. */
  function SplitExtRoot(p: string): string {
    var sepIndex := LastIndexOf(p, '/');
    var dotIndex := LastIndexOf(p, '.');
    if dotIndex > sepIndex && exists k :: sepIndex + 1 <= k < dotIndex && p[k] != '.'
    then p[..dotIndex]
    else p
  }

  /** `os.path.splitext(p)[1]` on POSIX: the last dot of the last path
      component and what follows it, or nothing when the root keeps it. */
  function SplitExtSuffix(p: string): string {
    var sepIndex := LastIndexOf(p, '/');
    var dotIndex := LastIndexOf(p, '.');
    if dotIndex > sepIndex && exists k :: sepIndex + 1 <= k < dotIndex && p[k] != '.'
    then p[dotIndex..]
    else []
  }

  /** Root and extension put back together give the path. */
  lemma SplitExtRejoins(p: string)
    ensures SplitExtRoot(p) + SplitExtSuffix(p) == p
  {
  }

  /** The directory as `os.path.join` puts it in front of a relative name:
      empty, or ending in a slash. */
  function DirPrefix(dir: string): (r: string)
    ensures r == [] || r[|r| - 1] == '/'
    ensures r == [] <==> dir == []
  {
    if dir == [] then []
    else if dir[|dir| - 1] == '/' then dir
    else dir + "/"
  }

  /** `os.path.join(dir, base)` for a relative `base`. */
  function PathJoin(dir: string, base: string): string {
    DirPrefix(dir) + base
  }

  /** A file saved under a base name without a dot has no extension. */
  lemma DotlessBaseHasNoSuffix(dir: string, base: string)
    requires '.' !in base
    ensures SplitExtSuffix(PathJoin(dir, base)) == []
  {
    var d := DirPrefix(dir);
    var p := d + base;
    forall k | |d| <= k < |p| ensures p[k] != '.' {
      assert p[k] == base[k - |d|];
    }
    if d == [] {
      assert LastIndexOf(p, '.') == -1;
    } else {
      assert p[|d| - 1] == '/';
      assert LastIndexOf(p, '/') >= |d| - 1;
    }
  }

  /** A file saved as `<stem>.xlsx`, the stem starting with a character
      other than a dot and holding no slash, has the extension `.xlsx`. */
  lemma KeptExtension(dir: string, stem: string)
    requires stem != [] && stem[0] != '.' && '/' !in stem
    ensures SplitExtSuffix(PathJoin(dir, stem + Extension)) == Extension
    ensures Lower(SplitExtSuffix(PathJoin(dir, stem + Extension))) == Extension
  {
    var d := DirPrefix(dir);
    var base := stem + Extension;
    var p := d + base;
    assert p[|p| - 5..] == Extension;
    LastDotOfExtension(p);
    assert '/' !in base;
    LastSlashOfDir(d, base);
    assert p[|d|] == stem[0];
    SuffixFrom(p, |d| - 1, |p| - 5);
    LowerExtension();
  }

  /** With the last slash before the last dot and a character other than a
      dot right after the slash, the extension runs from the last dot. */
  lemma SuffixFrom(p: string, sep: int, dot: nat)
    requires LastIndexOf(p, '/') == sep && LastIndexOf(p, '.') == dot
    requires sep + 1 < dot && p[sep + 1] != '.'
    ensures SplitExtSuffix(p) == p[dot..]
  {
  }

  lemma LowerExtension()
    ensures Lower(Extension) == Extension
  {
  }

  lemma LastDotOfExtension(p: string)
    requires |p| >= 5 && p[|p| - 5..] == Extension
    ensures LastIndexOf(p, '.') == |p| - 5
  {
    var n := |p|;
    forall k | n - 5 < k < n ensures p[k] != '.' {
      assert p[k] == p[n - 5..][k - (n - 5)];
    }
    LastIndexOfAt(p, '.', n - 5);
  }

  lemma LastSlashOfDir(d: string, base: string)
    requires d == [] || d[|d| - 1] == '/'
    requires '/' !in base
    ensures LastIndexOf(d + base, '/') == |d| - 1
  {
    var p := d + base;
    forall k | |d| <= k < |p| ensures p[k] != '/' {
      assert p[k] == base[k - |d|];
    }
    if d == [] {
      LastIndexOfAbsent(p, '/');
    } else {
      LastIndexOfAt(p, '/', |d| - 1);
    }
  }

  /** The API upload: the extension cut off by `splitext`, both prefixes
      removed, stripped; the unstripped root when nothing is left. */
  function ApiHotelName(name: string): string {
    var fname := SplitExtRoot(name);
    var h := Strip(Replace(Replace(fname, Prefix, ""), DashPrefix, ""));
    if h == [] then fname else h
  }

  /** The web name is the text after the LAST `menu_data_`, with `.xlsx`
      removed and stripped; without the prefix it is the whole file name. */
  lemma WebHotelNameAfterLastPrefix(name: string)
    ensures Contains(name, Prefix) ==>
      exists pre, last ::
        name == pre + Prefix + last && !Contains(last, Prefix)
        && WebHotelName(name) == Strip(Replace(last, Extension, ""))
    ensures !Contains(name, Prefix) ==> WebHotelName(name) == Strip(Replace(name, Extension, ""))
  {
    if Contains(name, Prefix) {
      var parts := Split(name, Prefix);
      SplitLastPiece(name, Prefix);
      var pre := Join(parts[..|parts| - 1], Prefix);
      assert name == pre + Prefix + parts[|parts| - 1];
    }
  }

  lemma {:induction false} ReplaceDropsTrailingExtension(base: string)
    requires '.' !in base
    ensures Replace(base + Extension, Extension, "") == base
    decreases |base|
  {
    if base == [] {
      assert base + Extension == Extension;
      assert StartsWith(Extension, Extension);
      assert Extension[|Extension|..] == [];
    } else {
      assert !StartsWith(base + Extension, Extension) by {
        assert (base + Extension)[0] == base[0];
      }
      assert (base + Extension)[1..] == base[1..] + Extension;
      ReplaceDropsTrailingExtension(base[1..]);
    }
  }

  /** For a plain name without dots, the web view yields the stripped text
      before `.xlsx`. */
  lemma WebHotelNameOfPlainFile(base: string)
    requires '.' !in base && !Contains(base + Extension, Prefix)
    ensures WebHotelName(base + Extension) == Strip(base)
  {
    ReplaceDropsTrailingExtension(base);
  }

  lemma ApiRootOfNonEmpty(name: string)
    requires name != []
    ensures SplitExtRoot(name) != []
  {
    var sepIndex := LastIndexOf(name, '/');
    var dotIndex := LastIndexOf(name, '.');
    if dotIndex > sepIndex && exists k :: sepIndex + 1 <= k < dotIndex && name[k] != '.' {
      var k :| sepIndex + 1 <= k < dotIndex && name[k] != '.';
      assert name[..dotIndex][k] == name[k];
    }
  }

  /** The API view never derives an empty hotel name from a non-empty file
      name. */
  lemma ApiHotelNameNonEmpty(name: string)
    requires name != []
    ensures ApiHotelName(name) != []
  {
    ApiRootOfNonEmpty(name);
  }

  /** A name that starts with the prefix and never repeats it names the
      hotel after the prefix. */
  lemma WebHotelNameOfPrefixed(b: string)
    requires !Contains(b, Prefix)
    ensures WebHotelName(Prefix + b) == Strip(Replace(b, Extension, ""))
  {
    var name := Prefix + b;
    assert StartsWith(name, Prefix);
    assert name[|Prefix|..] == b;
    SplitFromWithoutSep(b, Prefix, []);
    assert Split(name, Prefix) == [[]] + [[] + b];
  }

  /** The gate is case-insensitive. */
  lemma UpperCaseExtensionPasses(b: string)
    ensures IsXlsxName(b + ".XLSX")
  {
    var s := b + ".XLSX";
    var l := Lower(s);
    assert l[|s| - 5..] == [LowerChar('.'), LowerChar('X'), LowerChar('L'), LowerChar('S'), LowerChar('X')];
  }

  lemma NoLowerCaseExtension(b: string)
    requires '.' !in b
    ensures !Contains(b + ".XLSX", Extension)
  {
    var t := b + ".XLSX";
    forall i: nat ensures !OccursAt(t, Extension, i) {
      if i + 5 <= |t| {
        if i < |b| {
          assert t[i..i + 5][0] == b[i];
        } else {
          assert i == |b|;
          assert t[i..i + 5][1] == t[i + 1] == 'X';
        }
      }
    }
    ContainsIff(t, Extension);
  }

  /** The web view removes only the lower-case `.xlsx`: an upper-case
      extension that passed the gate stays in the hotel name. */
  lemma WebKeepsUpperCaseExtension(b: string)
    requires 'm' !in b && '.' !in b
    ensures IsXlsxName(Prefix + b + ".XLSX")
    ensures WebHotelName(Prefix + b + ".XLSX") == Strip(b + ".XLSX")
  {
    UpperCaseExtensionPasses(Prefix + b);
    var t := b + ".XLSX";
    assert 'm' !in t by {
      assert forall i :: 0 <= i < |t| ==> t[i] == if i < |b| then b[i] else ".XLSX"[i - |b|];
    }
    AbsentFirstChar(t, Prefix);
    assert Prefix + b + ".XLSX" == Prefix + t;
    WebHotelNameOfPrefixed(t);
    NoLowerCaseExtension(b);
    ReplaceWithoutOccurrence(t, Extension, "");
  }

  /** The API view's `splitext` cuts off the extension whatever its case. */
  lemma ApiCutsExtension(name: string)
    requires IsXlsxName(name) && '/' !in name
    requires exists k :: 0 <= k < |name| - 5 && name[k] != '.'
    ensures SplitExtRoot(name) == name[..|name| - 5]
  {
    var n := |name|;
    var l := Lower(name);
    assert l[n - 5..] == Extension;
    forall k | n - 5 <= k < n ensures name[k] == '.' <==> k == n - 5 {
      assert l[k] == l[n - 5..][k - (n - 5)] == LowerChar(name[k]);
    }
    LastIndexOfAbsent(name, '/');
    LastIndexOfAt(name, '.', n - 5);
  }

  lemma LastIndexOfAbsent(s: string, c: char)
    requires c !in s
    ensures LastIndexOf(s, c) == -1
  {
  }

  lemma LastIndexOfAt(s: string, c: char, i: nat)
    requires i < |s| && s[i] == c && forall k :: i < k < |s| ==> s[k] != c
    ensures LastIndexOf(s, c) == i
  {
  }

  /** The API view's name for `menu_data_<b>.XLSX` is `<b>`. */
  lemma ApiOfPrefixedUpperCase(b: string)
    requires b != [] && Stripped(b)
    requires 'm' !in b && '.' !in b && '/' !in b
    ensures ApiHotelName(Prefix + b + ".XLSX") == b
  {
    var name := Prefix + b + ".XLSX";
    UpperCaseExtensionPasses(Prefix + b);
    assert name[0] != '.';
    assert '/' !in name by {
      assert forall i :: 0 <= i < |name| ==> name[i] == if i < |Prefix| then Prefix[i] else if i < |Prefix| + |b| then b[i - |Prefix|] else ".XLSX"[i - |Prefix| - |b|];
    }
    ApiCutsExtension(name);
    var fname := name[..|name| - 5];
    assert fname == Prefix + b;
    assert StartsWith(fname, Prefix);
    assert fname[|Prefix|..] == b;
    AbsentFirstChar(b, Prefix);
    ReplaceWithoutOccurrence(b, Prefix, "");
    assert Replace(fname, Prefix, "") == b;
    AbsentFirstChar(b, DashPrefix);
    ReplaceWithoutOccurrence(b, DashPrefix, "");
    StripOfStripped(b);
  }

  /** The two upload paths disagree on an upper-case extension: the web view
      keeps `.XLSX` in the hotel name, the API view drops it. */
  lemma UpperCaseExtensionDivergence(b: string)
    requires b != [] && Stripped(b)
    requires 'm' !in b && '.' !in b && '/' !in b
    ensures IsXlsxName(Prefix + b + ".XLSX")
    ensures WebHotelName(Prefix + b + ".XLSX") == b + ".XLSX"
    ensures ApiHotelName(Prefix + b + ".XLSX") == b
  {
    var t := b + ".XLSX";
    assert Stripped(t) by {
      assert t[0] == b[0] && t[|t| - 1] == 'X';
    }
    StripOfStripped(t);
    WebKeepsUpperCaseExtension(b);
    ApiOfPrefixedUpperCase(b);
  }
}
