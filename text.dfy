/** The handful of Python `str` operations the core relies on: `strip`,
    `lower`, `in`, `endswith`, `split` and `replace`. */
module Text {

  /** Python's `str.isspace()`: the ASCII separators and the Unicode space
      characters. */
  predicate IsSpace(c: char) {
    c == ' ' || ('\t' <= c <= '\r') || ('\U{1c}' <= c <= '\U{1f}')
    || c == '\U{85}' || c == '\U{a0}' || c == '\U{1680}'
    || ('\U{2000}' <= c <= '\U{200a}') || c == '\U{2028}' || c == '\U{2029}'
    || c == '\U{202f}' || c == '\U{205f}' || c == '\U{3000}'
  }

  predicate AllSpace(s: string) {
    forall i :: 0 <= i < |s| ==> IsSpace(s[i])
  }

  /** No whitespace at either end. */
  predicate Stripped(s: string) {
    s == [] || (!IsSpace(s[0]) && !IsSpace(s[|s| - 1]))
  }

  /** `str.lstrip()` */
  function TrimStart(s: string): (r: string)
    ensures |r| <= |s| && r == s[|s| - |r|..]
    ensures AllSpace(s[..|s| - |r|])
    ensures r == [] || !IsSpace(r[0])
  {
    if s != [] && IsSpace(s[0]) then
      var r := TrimStart(s[1..]);
      TrimStartStep(s, r);
      r
    else s
  }

  /** A leading space adds one to the spaces a suffix skipped. */
  lemma TrimStartStep(s: string, r: string)
    requires s != [] && IsSpace(s[0]) && |r| <= |s| - 1
    requires r == s[1..][|s| - 1 - |r|..] && AllSpace(s[1..][..|s| - 1 - |r|])
    ensures r == s[|s| - |r|..] && AllSpace(s[..|s| - |r|])
  {
    var k := |s| - |r|;
    forall i | 0 <= i < k ensures IsSpace(s[..k][i]) {
      if i > 0 {
        assert s[..k][i] == s[1..][..k - 1][i - 1];
      }
    }
  }

  /** `str.rstrip()` */
  function TrimEnd(s: string): (r: string)
    ensures |r| <= |s| && r == s[..|r|]
    ensures AllSpace(s[|r|..])
    ensures r == [] || !IsSpace(r[|r| - 1])
  {
    if s != [] && IsSpace(s[|s| - 1]) then
      var r := TrimEnd(s[..|s| - 1]);
      TrimEndStep(s, r);
      r
    else s
  }

  /** A trailing space adds one to the spaces a prefix dropped. */
  lemma TrimEndStep(s: string, r: string)
    requires s != [] && IsSpace(s[|s| - 1]) && |r| <= |s| - 1
    requires r == s[..|s| - 1][..|r|] && AllSpace(s[..|s| - 1][|r|..])
    ensures r == s[..|r|] && AllSpace(s[|r|..])
  {
    var t := s[..|s| - 1];
    forall i | 0 <= i < |s| - |r| ensures IsSpace(s[|r|..][i]) {
      if i < |s| - 1 - |r| {
        assert s[|r|..][i] == t[|r|..][i];
      }
    }
  }

  /** `str.strip()`: no whitespace is left at either end. */
  function Strip(s: string): (r: string)
    ensures Stripped(r)
  {
    var t := TrimStart(s);
    var r := TrimEnd(t);
    assert r == [] || r[0] == t[0];
    r
  }

  lemma TrimStartOfNonSpace(s: string)
    requires s == [] || !IsSpace(s[0])
    ensures TrimStart(s) == s
  {
  }

  lemma TrimEndOfNonSpace(s: string)
    requires s == [] || !IsSpace(s[|s| - 1])
    ensures TrimEnd(s) == s
  {
  }

  lemma {:induction false} TrimStartSkipsSpaces(pre: string, s: string)
    requires AllSpace(pre)
    ensures TrimStart(pre + s) == TrimStart(s)
  {
    if pre != [] {
      assert (pre + s)[1..] == pre[1..] + s;
      TrimStartSkipsSpaces(pre[1..], s);
    } else {
      assert pre + s == s;
    }
  }

  lemma {:induction false} TrimEndSkipsSpaces(s: string, post: string)
    requires AllSpace(post)
    ensures TrimEnd(s + post) == TrimEnd(s)
  {
    if post != [] {
      var p' := post[..|post| - 1];
      assert (s + post)[..|s + post| - 1] == s + p';
      TrimEndSkipsSpaces(s, p');
    } else {
      assert s + post == s;
    }
  }

  /** Leading non-blank text shields trailing characters from `lstrip`. */
  lemma {:induction false} TrimStartAppend(s: string, post: string)
    requires !AllSpace(s)
    ensures TrimStart(s + post) == TrimStart(s) + post
  {
    assert s != [];
    if IsSpace(s[0]) {
      assert (s + post)[1..] == s[1..] + post;
      assert !AllSpace(s[1..]) by {
        var k :| 0 <= k < |s| && !IsSpace(s[k]);
        assert k > 0 && s[1..][k - 1] == s[k];
      }
      TrimStartAppend(s[1..], post);
    }
  }

  lemma AllSpaceConcat(a: string, b: string)
    requires AllSpace(a) && AllSpace(b)
    ensures AllSpace(a + b)
  {
    assert forall i :: 0 <= i < |a + b| ==> (a + b)[i] == (if i < |a| then a[i] else b[i - |a|]);
  }

  lemma TrimEndOfAllSpace(s: string)
    requires AllSpace(s)
    ensures TrimEnd(s) == []
  {
  }

  lemma TrimStartOfAllSpace(s: string)
    requires AllSpace(s)
    ensures TrimStart(s) == []
  {
  }

  lemma StripOfAllSpace(s: string)
    requires AllSpace(s)
    ensures Strip(s) == []
  {
    TrimStartOfAllSpace(s);
  }

  /** Whitespace around a value never changes what `strip` returns. */
  lemma {:induction false} StripIgnoresPadding(pre: string, s: string, post: string)
    requires AllSpace(pre) && AllSpace(post)
    ensures Strip(pre + s + post) == Strip(s)
  {
    assert pre + s + post == pre + (s + post);
    TrimStartSkipsSpaces(pre, s + post);
    assert Strip(pre + s + post) == TrimEnd(TrimStart(s + post));
    if AllSpace(s) {
      AllSpaceConcat(s, post);
      StripOfAllSpace(s + post);
      StripOfAllSpace(s);
    } else {
      TrimStartAppend(s, post);
      TrimEndSkipsSpaces(TrimStart(s), post);
    }
  }

  lemma StripOfStripped(s: string)
    requires Stripped(s)
    ensures Strip(s) == s
  {
    TrimStartOfNonSpace(s);
    TrimEndOfNonSpace(s);
  }

  /** `strip` is idempotent. */
  lemma StripIdempotent(s: string)
    ensures Strip(Strip(s)) == Strip(s)
  {
    StripOfStripped(Strip(s));
  }

  /** `strip` returns "" exactly for all-blank text. */
  lemma StripEmptyIff(s: string)
    ensures Strip(s) == [] <==> AllSpace(s)
  {
    if AllSpace(s) {
      StripOfAllSpace(s);
    } else if Strip(s) == [] {
      var t := TrimStart(s);
      assert TrimEnd(t) == [];
      assert AllSpace(t[|TrimEnd(t)|..]);
      assert AllSpace(s[..|s| - |t|]);
      assert s == s[..|s| - |t|] + t;
      AllSpaceConcat(s[..|s| - |t|], t);
    }
  }

  /** ASCII case folding: `A`..`Z` become `a`..`z`, everything else is kept. */
  function LowerChar(c: char): char {
    if 'A' <= c <= 'Z' then (c as int + 32) as char else c
  }

  /** `str.lower()` restricted to ASCII letters. */
  function Lower(s: string): (r: string)
    ensures |r| == |s|
    ensures forall i :: 0 <= i < |s| ==> r[i] == LowerChar(s[i])
  {
    if s == [] then [] else [LowerChar(s[0])] + Lower(s[1..])
  }

  /** Case-insensitive equality (the `iexact` lookup). */
  predicate EqualsIgnoreCase(a: string, b: string) {
    Lower(a) == Lower(b)
  }

  predicate StartsWith(s: string, p: string) {
    |p| <= |s| && s[..|p|] == p
  }

  /** `s.endswith(p)` */
  predicate EndsWith(s: string, p: string) {
    |p| <= |s| && s[|s| - |p|..] == p
  }

  /** `p` occurs in `s` at position `i`. */
  predicate OccursAt(s: string, p: string, i: nat) {
    i + |p| <= |s| && s[i..i + |p|] == p
  }

  /** `p in s` for strings: `p` occurs in `s` as a contiguous slice. */
  predicate Contains(s: string, p: string)
    decreases |s|
  {
    StartsWith(s, p) || (s != [] && Contains(s[1..], p))
  }

  lemma {:induction false} ContainsIff(s: string, p: string)
    ensures Contains(s, p) <==> exists i: nat :: OccursAt(s, p, i)
    decreases |s|
  {
    if StartsWith(s, p) {
      assert s[0..|p|] == s[..|p|];
      assert OccursAt(s, p, 0);
    } else if s != [] {
      ContainsIff(s[1..], p);
      if exists i: nat :: OccursAt(s, p, i) {
        var i: nat :| OccursAt(s, p, i);
        assert i != 0 by {
          if |p| <= |s| { assert s[..|p|] == s[0..|p|]; }
        }
        assert s[1..][i - 1..i - 1 + |p|] == p;
        assert OccursAt(s[1..], p, i - 1);
      }
      if Contains(s[1..], p) {
        var i: nat :| OccursAt(s[1..], p, i);
        assert s[i + 1..i + 1 + |p|] == p;
        assert OccursAt(s, p, i + 1);
      }
    } else {
      assert p != [];
    }
  }

  lemma ContainsAt(s: string, p: string, i: nat)
    requires OccursAt(s, p, i)
    ensures Contains(s, p)
  {
    ContainsIff(s, p);
  }

  /** A one-character pattern occurs exactly when the character does. */
  lemma ContainsChar(s: string, c: char)
    ensures c in s <==> Contains(s, [c])
  {
    ContainsIff(s, [c]);
    if c in s {
      var k :| 0 <= k < |s| && s[k] == c;
      assert OccursAt(s, [c], k);
    } else {
      forall i: nat ensures !OccursAt(s, [c], i) {
        if i + 1 <= |s| { assert s[i..i + 1][0] == s[i]; }
      }
    }
  }

  /** A pattern whose first character is absent does not occur. */
  lemma AbsentFirstChar(s: string, p: string)
    requires p != [] && p[0] !in s
    ensures !Contains(s, p)
  {
    forall i: nat ensures !OccursAt(s, p, i) {
      if i + |p| <= |s| { assert s[i..i + |p|][0] == s[i]; }
    }
    ContainsIff(s, p);
  }

  /** `Join(parts, sep)` is `sep.join(parts)`. */
  function Join(parts: seq<string>, sep: string): string {
    if parts == [] then []
    else if |parts| == 1 then parts[0]
    else parts[0] + sep + Join(parts[1..], sep)
  }

  /** No match of `sep` starts inside the first `n` characters of `s`. */
  predicate NoMatchBefore(s: string, sep: string, n: nat)
    requires n <= |s|
  {
    forall k :: 0 <= k < n ==> !StartsWith(s[k..], sep)
  }

  /** The scan behind `split`: `cur` is the piece collected so far. */
  function SplitFrom(s: string, sep: string, cur: string): (r: seq<string>)
    requires sep != []
    ensures |r| >= 1
    ensures Join(r, sep) == cur + s
    decreases |s|
  {
    if s == [] then [cur]
    else if StartsWith(s, sep) then
      var rest := SplitFrom(s[|sep|..], sep, []);
      assert s == sep + s[|sep|..];
      [cur] + rest
    else
      var r := SplitFrom(s[1..], sep, cur + [s[0]]);
      assert cur + s == cur + [s[0]] + s[1..];
      r
  }

  /** `s.split(sep)` for a non-empty separator. Splitting and joining again
      gives back `s`. */
  function Split(s: string, sep: string): (r: seq<string>)
    requires sep != []
    ensures |r| >= 1
    ensures Join(r, sep) == s
  {
    SplitFrom(s, sep, [])
  }

  /** The pieces of a split never contain the separator: every occurrence of
      it in the input was consumed as a separator. */
  lemma {:induction false} SplitFromPiecesFree(s: string, sep: string, cur: string)
    requires sep != []
    requires NoMatchBefore(cur + s, sep, |cur|)
    ensures forall j :: 0 <= j < |SplitFrom(s, sep, cur)| ==> !Contains(SplitFrom(s, sep, cur)[j], sep)
    decreases |s|
  {
    var r := SplitFrom(s, sep, cur);
    if s == [] {
      assert cur + s == cur;
      NoMatchFree(cur, sep);
    } else if StartsWith(s, sep) {
      var t := s[|sep|..];
      assert NoMatchBefore([] + t, sep, 0);
      SplitFromPiecesFree(t, sep, []);
      NoMatchPrefixFree(cur, s, sep);
      assert r == [cur] + SplitFrom(t, sep, []);
      forall j | 0 <= j < |r| ensures !Contains(r[j], sep) {
        if j > 0 { assert r[j] == SplitFrom(t, sep, [])[j - 1]; }
      }
    } else {
      var cur' := cur + [s[0]];
      assert cur' + s[1..] == cur + s;
      assert NoMatchBefore(cur' + s[1..], sep, |cur'|) by {
        forall k | 0 <= k < |cur'| ensures !StartsWith((cur' + s[1..])[k..], sep) {
          if k == |cur| { assert (cur' + s[1..])[k..] == s; }
        }
      }
      SplitFromPiecesFree(s[1..], sep, cur');
    }
  }

  lemma NoMatchFree(s: string, sep: string)
    requires sep != []
    requires NoMatchBefore(s, sep, |s|)
    ensures !Contains(s, sep)
  {
    forall i: nat ensures !OccursAt(s, sep, i) {
      if i + |sep| <= |s| {
        assert !StartsWith(s[i..], sep);
        assert s[i..][..|sep|] == s[i..i + |sep|];
      }
    }
    ContainsIff(s, sep);
  }

  lemma NoMatchPrefixFree(cur: string, s: string, sep: string)
    requires sep != []
    requires NoMatchBefore(cur + s, sep, |cur|)
    ensures !Contains(cur, sep)
  {
    forall i: nat ensures !OccursAt(cur, sep, i) {
      if i + |sep| <= |cur| {
        assert !StartsWith((cur + s)[i..], sep);
        assert (cur + s)[i..][..|sep|] == cur[i..i + |sep|];
      }
    }
    ContainsIff(cur, sep);
  }

  /** Splitting text that does not contain the separator yields one piece. */
  lemma {:induction false} SplitFromWithoutSep(s: string, sep: string, cur: string)
    requires sep != [] && !Contains(s, sep)
    ensures SplitFrom(s, sep, cur) == [cur + s]
    decreases |s|
  {
    if s != [] {
      assert cur + [s[0]] + s[1..] == cur + s;
      SplitFromWithoutSep(s[1..], sep, cur + [s[0]]);
    }
  }

  lemma SplitPiecesFree(s: string, sep: string)
    requires sep != []
    ensures forall j :: 0 <= j < |Split(s, sep)| ==> !Contains(Split(s, sep)[j], sep)
  {
    assert [] + s == s;
    SplitFromPiecesFree(s, sep, []);
  }

  lemma {:induction false} JoinSplitsLast(parts: seq<string>, sep: string)
    requires |parts| >= 2
    ensures Join(parts, sep) == Join(parts[..|parts| - 1], sep) + sep + parts[|parts| - 1]
  {
    if |parts| > 2 {
      JoinSplitsLast(parts[1..], sep);
      assert parts[1..][..|parts[1..]| - 1] == parts[..|parts| - 1][1..];
    }
  }

  /** The last piece of `s.split(sep)` is the text after the last occurrence
      of `sep`; there is more than one piece exactly when `sep` occurs. */
  lemma SplitLastPiece(s: string, sep: string)
    requires sep != []
    ensures var r := Split(s, sep);
            (|r| > 1 <==> Contains(s, sep))
            && !Contains(r[|r| - 1], sep)
            && (|r| > 1 ==> s == Join(r[..|r| - 1], sep) + sep + r[|r| - 1])
            && (|r| == 1 ==> r[0] == s)
  {
    var r := Split(s, sep);
    SplitPiecesFree(s, sep);
    if |r| > 1 {
      JoinSplitsLast(r, sep);
      var pre := Join(r[..|r| - 1], sep);
      assert s[|pre|..|pre| + |sep|] == sep;
      assert OccursAt(s, sep, |pre|);
      ContainsAt(s, sep, |pre|);
    }
  }

  /** Characters that cannot start a one-character separator are collected
      into the current piece. */
  lemma {:induction false} SplitFromSkips(p: string, rest: string, sep: string, cur: string)
    requires |sep| == 1 && sep[0] !in p
    ensures SplitFrom(p + rest, sep, cur) == SplitFrom(rest, sep, cur + p)
    decreases |p|
  {
    if p != [] {
      var s := p + rest;
      assert s[0] == p[0] && !StartsWith(s, sep);
      assert s[1..] == p[1..] + rest;
      assert cur + [p[0]] + p[1..] == cur + p;
      SplitFromSkips(p[1..], rest, sep, cur + [p[0]]);
    } else {
      assert p + rest == rest && cur + p == cur;
    }
  }

  lemma {:induction false} SplitFromJoin(parts: seq<string>, sep: string, cur: string)
    requires |sep| == 1 && |parts| >= 1
    requires forall j :: 0 <= j < |parts| ==> sep[0] !in parts[j]
    ensures SplitFrom(Join(parts, sep), sep, cur) == [cur + parts[0]] + parts[1..]
    decreases |parts|
  {
    if |parts| == 1 {
      SplitFromSkips(parts[0], [], sep, cur);
      assert parts[0] + [] == parts[0];
    } else {
      var rest := Join(parts[1..], sep);
      assert Join(parts, sep) == parts[0] + (sep + rest);
      SplitFromSkips(parts[0], sep + rest, sep, cur);
      assert StartsWith(sep + rest, sep) && (sep + rest)[|sep|..] == rest;
      SplitFromJoin(parts[1..], sep, []);
      assert [] + parts[1..][0] == parts[1];
      assert [parts[1]] + parts[1..][1..] == parts[1..];
    }
  }

  /** Splitting on a one-character separator undoes joining pieces that do
      not contain it. */
  lemma SplitJoin(parts: seq<string>, sep: string)
    requires |sep| == 1 && |parts| >= 1
    requires forall j :: 0 <= j < |parts| ==> sep[0] !in parts[j]
    ensures Split(Join(parts, sep), sep) == parts
  {
    SplitFromJoin(parts, sep, []);
    assert [] + parts[0] == parts[0];
    assert [parts[0]] + parts[1..] == parts;
  }

  /** `s.replace(pat, repl)`: occurrences are replaced left to right, without
      overlap. */
  function Replace(s: string, pat: string, repl: string): string
    requires pat != []
    decreases |s|
  {
    if s == [] then []
    else if StartsWith(s, pat) then repl + Replace(s[|pat|..], pat, repl)
    else [s[0]] + Replace(s[1..], pat, repl)
  }

  /** Text with no occurrence is returned unchanged. */
  lemma {:induction false} ReplaceWithoutOccurrence(s: string, pat: string, repl: string)
    requires pat != [] && !Contains(s, pat)
    ensures Replace(s, pat, repl) == s
    decreases |s|
  {
    if s != [] {
      ReplaceWithoutOccurrence(s[1..], pat, repl);
    }
  }
}
