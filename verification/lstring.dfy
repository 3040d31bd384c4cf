/** String routines (lfutil/src/lang/lstring.cpp): splitting, replacing, hexadecimal. */
module LStrings {
  import opened Words

  // ---------- splitting

  /** The parts of a string between delimiters, empty ones included. */
  function Fields(s: string, delim: string): (r: seq<string>)
    ensures |r| > 0
  {
    if s == "" then [""]
    else
      var rest := Fields(s[1..], delim);
      if s[0] in delim then [""] + rest else [[s[0]] + rest[0]] + rest[1..]
  }

  /** The delimiters themselves, in order. */
  function Separators(s: string, delim: string): string {
    if s == "" then "" else (if s[0] in delim then [s[0]] else "") + Separators(s[1..], delim)
  }

  /** Strings with single characters in between. */
  function Weave(fields: seq<string>, seps: string): string
    requires |fields| == |seps| + 1
  {
    if seps == "" then fields[0] else fields[0] + [seps[0]] + Weave(fields[1..], seps[1..])
  }

  predicate Free(s: string, delim: string) { forall i :: 0 <= i < |s| ==> s[i] !in delim }

  /** The fields contain no delimiter, and put back between the delimiters they give the string again. */
  lemma {:induction false} FieldsWeave(s: string, delim: string)
    ensures |Fields(s, delim)| == |Separators(s, delim)| + 1
    ensures Weave(Fields(s, delim), Separators(s, delim)) == s
    ensures forall i :: 0 <= i < |Fields(s, delim)| ==> Free(Fields(s, delim)[i], delim)
    ensures forall i :: 0 <= i < |Separators(s, delim)| ==> Separators(s, delim)[i] in delim
  {
    if s != "" {
      FieldsWeave(s[1..], delim);
      var fields, seps := Fields(s[1..], delim), Separators(s[1..], delim);
      if s[0] in delim {
        assert ([""] + fields)[1..] == fields && ([s[0]] + seps)[1..] == seps;
      } else {
        var longer := [[s[0]] + fields[0]] + fields[1..];
        assert longer[1..] == fields[1..] && Separators(s, delim) == seps;
      }
    }
  }

  /** They are the only strings that do. */
  lemma {:induction false} FieldsUnique(s: string, delim: string, fields: seq<string>, seps: string)
    requires |fields| == |seps| + 1 && Weave(fields, seps) == s
    requires forall i :: 0 <= i < |fields| ==> Free(fields[i], delim)
    requires forall i :: 0 <= i < |seps| ==> seps[i] in delim
    ensures fields == Fields(s, delim) && seps == Separators(s, delim)
    decreases |s|
  {
    if s == "" {
      assert seps == "" && fields == [""];
    } else if fields[0] == "" {
      assert seps != "";
      assert s == [seps[0]] + Weave(fields[1..], seps[1..]);
      FieldsUnique(s[1..], delim, fields[1..], seps[1..]);
      assert fields == [""] + fields[1..] && seps == [seps[0]] + seps[1..];
    } else {
      var shorter := [fields[0][1..]] + fields[1..];
      WeaveShorter(fields, seps, shorter);
      assert s[0] == fields[0][0] && s[0] !in delim && s[1..] == Weave(shorter, seps);
      hide Weave;
      assert forall i :: 0 <= i < |shorter| ==> Free(shorter[i], delim);
      FieldsUnique(s[1..], delim, shorter, seps);
    }
  }

  lemma WeaveShorter(fields: seq<string>, seps: string, shorter: seq<string>)
    requires |fields| == |seps| + 1 && fields[0] != "" && shorter == [fields[0][1..]] + fields[1..]
    ensures Weave(fields, seps) == [fields[0][0]] + Weave(shorter, seps)
    ensures fields == [[fields[0][0]] + shorter[0]] + shorter[1..]
  {
    var c, field := fields[0][0], fields[0][1..];
    assert fields[0] == [c] + field && shorter[0] == field && shorter[1..] == fields[1..];
    if seps != "" {
      var more := Weave(fields[1..], seps[1..]);
      assert Weave(fields, seps) == fields[0] + [seps[0]] + more && Weave(shorter, seps) == field + [seps[0]] + more;
      hide Weave;
      Associate(c, field, seps[0], more);
    }
  }

  lemma Associate(c: char, field: string, sep: char, more: string)
    ensures [c] + field + [sep] + more == [c] + (field + [sep] + more)
  {
  }

  function NonEmpty(fields: seq<string>): seq<string> {
    if fields == [] then []
    else if fields[0] == "" then NonEmpty(fields[1..]) else [fields[0]] + NonEmpty(fields[1..])
  }

  /** find_first_of: the first delimiter, or the length of the string. */
  method FindFirstOf(s: string, delim: string) returns (cutAt: nat)
    ensures cutAt <= |s| && Free(s[..cutAt], delim)
    ensures cutAt < |s| ==> s[cutAt] in delim
  {
    cutAt := 0;
    while cutAt < |s| && s[cutAt] !in delim
      invariant cutAt <= |s| && Free(s[..cutAt], delim)
    {
      cutAt := cutAt + 1;
    }
  }

  lemma {:induction false} FirstField(s: string, delim: string, cutAt: nat)
    requires cutAt <= |s| && Free(s[..cutAt], delim) && (cutAt < |s| ==> s[cutAt] in delim)
    ensures Fields(s, delim) == if cutAt == |s| then [s] else [s[..cutAt]] + Fields(s[cutAt + 1..], delim)
  {
    if cutAt > 0 {
      assert s[..cutAt][0] == s[0];
      assert s[1..][..cutAt - 1] == s[..cutAt][1..];
      FirstField(s[1..], delim, cutAt - 1);
      assert s == [s[0]] + s[1..];
      if cutAt < |s| {
        assert s[1..][cutAt - 1 + 1..] == s[cutAt + 1..];
        assert s[..cutAt] == [s[0]] + s[1..][..cutAt - 1];
      }
    }
  }

  /** splitString into a vector: the non-empty fields, in order. */
  method SplitString(str: string, delim: string, results: seq<string>) returns (grown: seq<string>)
    ensures grown == results + NonEmpty(Fields(str, delim))
  {
    grown := results;
    var tmpStr := str;
    var cutAt := FindFirstOf(tmpStr, delim);
    while cutAt < |tmpStr|
      invariant 0 <= cutAt <= |tmpStr| && Free(tmpStr[..cutAt], delim) && (cutAt < |tmpStr| ==> tmpStr[cutAt] in delim)
      invariant grown + NonEmpty(Fields(tmpStr, delim)) == results + NonEmpty(Fields(str, delim))
      decreases |tmpStr|
    {
      FirstField(tmpStr, delim, cutAt);
      if cutAt > 0 {
        grown := grown + [tmpStr[..cutAt]];
      }
      tmpStr := tmpStr[cutAt + 1..];
      cutAt := FindFirstOf(tmpStr, delim);
    }
    FirstField(tmpStr, delim, cutAt);
    if |tmpStr| > 0 {
      grown := grown + [tmpStr];
    }
  }

  /** splitString into a set. */
  method SplitStringSet(str: string, delim: string, results: set<string>) returns (grown: set<string>)
    ensures grown == results + set f | f in Fields(str, delim) && f != ""
  {
    grown := results;
    var tmpStr := str;
    var cutAt := FindFirstOf(tmpStr, delim);
    while cutAt < |tmpStr|
      invariant 0 <= cutAt <= |tmpStr| && Free(tmpStr[..cutAt], delim) && (cutAt < |tmpStr| ==> tmpStr[cutAt] in delim)
      invariant grown + Present(Fields(tmpStr, delim)) == results + Present(Fields(str, delim))
      decreases |tmpStr|
    {
      FirstField(tmpStr, delim, cutAt);
      PresentStep(tmpStr[..cutAt], Fields(tmpStr[cutAt + 1..], delim));
      if cutAt > 0 {
        grown := grown + {tmpStr[..cutAt]};
      }
      tmpStr := tmpStr[cutAt + 1..];
      cutAt := FindFirstOf(tmpStr, delim);
    }
    FirstField(tmpStr, delim, cutAt);
    PresentStep(tmpStr, []);
    assert [tmpStr] + [] == [tmpStr];
    if |tmpStr| > 0 {
      grown := grown + {tmpStr};
    }
  }

  function Present(fields: seq<string>): set<string> { set f | f in fields && f != "" }

  lemma PresentStep(field: string, fields: seq<string>)
    ensures Present([field] + fields) == Present(fields) + (if field == "" then {} else {field})
  {
    var all := [field] + fields;
    assert all[0] == field && all[1..] == fields;
    forall f: string
      ensures f in Present(all) <==> f in Present(fields) + (if field == "" then {} else {field})
    {
      if f in fields {
        var i :| 0 <= i < |fields| && fields[i] == f;
        assert all[i + 1] == f;
      }
    }
  }

  // ---------- splitting in place

  /** A C string: the characters before the first NUL. */
  function CText(s: string): string {
    if s == "" || s[0] == '\0' then "" else [s[0]] + CText(s[1..])
  }

  lemma {:induction false} CTextPrefix(s: string, n: nat)
    requires n < |s| && s[n] == '\0' && forall i :: 0 <= i < n ==> s[i] != '\0'
    ensures CText(s) == s[..n]
  {
    if n > 0 {
      CTextPrefix(s[1..], n - 1);
      assert s[..n] == [s[0]] + s[1..][..n - 1];
    }
  }

  /** The C strings that start at the given places. */
  function At(s: string, starts: seq<nat>): (r: seq<string>)
    requires forall i :: 0 <= i < |starts| ==> starts[i] <= |s|
    ensures |r| == |starts|
  {
    seq(|starts|, i requires 0 <= i < |starts| => CText(s[starts[i]..]))
  }

  function Kept(fields: seq<string>, keepNull: bool): seq<string> { if keepNull then fields else NonEmpty(fields) }

  lemma KeptIs(fields: seq<string>, keepNull: bool)
    ensures Kept(fields, keepNull) == if keepNull then fields else NonEmpty(fields)
  {
  }

  lemma {:induction false} NonEmptySnoc(fields: seq<string>, f: string)
    ensures NonEmpty(fields + [f]) == NonEmpty(fields) + (if f == "" then [] else [f])
  {
    if fields != [] {
      assert (fields + [f])[1..] == fields[1..] + [f];
      NonEmptySnoc(fields[1..], f);
    } else {
      assert NonEmpty([f]) == (if f == "" then [] else [f]) + NonEmpty([]);
    }
  }

  /** Dropping the empty fields keeps each of the others in its place among them. */
  lemma {:induction false} NonEmptyParts(a: seq<string>, b: seq<string>)
    ensures NonEmpty(a + b) == NonEmpty(a) + NonEmpty(b)
    ensures forall f: string :: NonEmpty([f]) == if f == "" then [] else [f]
    ensures NonEmpty([]) == []
  {
    forall f: string
      ensures NonEmpty([f]) == if f == "" then [] else [f]
    {
      NonEmptySnoc([], f);
      assert [] + [f] == [f];
    }
    if a == [] {
      assert a + b == b;
    } else {
      assert (a + b)[1..] == a[1..] + b;
      NonEmptyParts(a[1..], b);
    }
  }

  /** Every piece stands where it starts, ends with a NUL before l, and has none inside. */
  ghost predicate Settled(s: string, starts: seq<nat>, l: nat, pieces: seq<string>) {
    |starts| == |pieces| && l <= |s|
    && forall k :: 0 <= k < |starts| ==> Stands(s, starts[k], l, pieces[k])
  }

  ghost predicate Stands(s: string, start: nat, l: nat, piece: string) {
    var end := start + |piece|;
    end < l <= |s| && s[start..end] == piece && s[end] == '\0' && forall i :: 0 <= i < |piece| ==> piece[i] != '\0'
  }

  lemma SettledLater(s: string, s': string, starts: seq<nat>, l: nat, l': nat, pieces: seq<string>)
    requires Settled(s, starts, l, pieces) && l <= l' <= |s'| && s[..l] == s'[..l]
    ensures Settled(s', starts, l', pieces)
  {
    forall k | 0 <= k < |starts|
      ensures Stands(s', starts[k], l', pieces[k])
    {
      var end := starts[k] + |pieces[k]|;
      assert s[starts[k]..end] == s[..l][starts[k]..end] && s'[starts[k]..end] == s'[..l][starts[k]..end];
      assert s[end] == s[..l][end] && s'[end] == s'[..l][end];
    }
  }

  lemma SettledAt(s: string, starts: seq<nat>, l: nat, pieces: seq<string>)
    requires Settled(s, starts, l, pieces)
    ensures forall i :: 0 <= i < |starts| ==> starts[i] <= |s|
    ensures At(s, starts) == pieces
  {
    forall k | 0 <= k < |starts|
      ensures starts[k] <= |s| && CText(s[starts[k]..]) == pieces[k]
    {
      assert Stands(s, starts[k], l, pieces[k]);
      var t, n := s[starts[k]..], |pieces[k]|;
      assert t[..n] == pieces[k];
      assert forall i :: 0 <= i < n ==> t[i] == pieces[k][i];
      CTextPrefix(t, n);
    }
  }

  lemma SettledNone(s: string, keepNull: bool)
    ensures Settled(s, [], 0, Kept([], keepNull))
  {
  }

  /** One more field: kept if it is not empty or everything is kept. */
  lemma KeepPiece(s: string, starts: seq<nat>, l: nat, fields: seq<string>, keepNull: bool, start: nat, piece: string)
    requires Settled(s, starts, l, Kept(fields, keepNull)) && Stands(s, start, l, piece)
    ensures Settled(s, if piece != "" || keepNull then starts + [start] else starts, l, Kept(fields + [piece], keepNull))
  {
    NonEmptySnoc(fields, piece);
  }

  /** The loop of the in-place splitter: b is the array now, t the text it held, done the fields cut off so far. */
  ghost predicate Splitting(b: string, t: string, dim: char, keepNull: bool, l: nat, p: nat, results: seq<nat>,
                              done: seq<string>)
  {
    l <= p <= |t| < |b| && b[l..|t|] == t[l..] && b[|t|] == '\0' && Free(t[l..p], [dim])
    && Settled(b, results, l, Kept(done, keepNull)) && Fields(t, [dim]) == done + Fields(t[l..], [dim])
  }

  lemma SplittingBegins(b: string, dim: char, keepNull: bool)
    requires '\0' in b
    ensures Splitting(b, CText(b), dim, keepNull, 0, 0, [], [])
  {
    hide Fields, CText;
    CTextIs(b);
    SettledNone(b, keepNull);
    assert CText(b)[0..] == CText(b);
  }

  lemma SplittingPasses(b: string, t: string, dim: char, keepNull: bool, l: nat, p: nat, results: seq<nat>,
                              done: seq<string>)
    requires Splitting(b, t, dim, keepNull, l, p, results, done) && p < |t| && b[p] != dim
    ensures Splitting(b, t, dim, keepNull, l, p + 1, results, done)
  {
    hide Fields, Settled, Kept;
    assert b[p] == b[l..|t|][p - l] && t[p] == t[l..][p - l];
    assert t[l..p + 1] == t[l..p] + [t[p]];
  }

  lemma SplittingCuts(b: string, t: string, dim: char, keepNull: bool, l: nat, p: nat, results: seq<nat>,
                              done: seq<string>)
    requires Splitting(b, t, dim, keepNull, l, p, results, done) && p < |t| && b[p] == dim
    requires forall i :: 0 <= i < |t| ==> t[i] != '\0'
    ensures Splitting(b[p := '\0'], t, dim, keepNull, p + 1, p + 1,
                      if p > l || keepNull then results + [l] else results, done + [t[l..p]])
  {
    hide Fields, Settled, Kept, NonEmpty;
    var b' := b[p := '\0'];
    assert b[p] == b[l..|t|][p - l] && t[p] == t[l..][p - l];
    NextPiece(t, dim, l, p);
    SettledLater(b, b', results, l, p + 1, Kept(done, keepNull));
    assert b'[l..p] == b[l..|t|][..p - l] && t[l..p] == t[l..][..p - l];
    assert b'[p + 1..|t|] == b[l..|t|][p + 1 - l..] && t[p + 1..] == t[l..][p + 1 - l..];
    KeepPiece(b', results, p + 1, done, keepNull, l, t[l..p]);
  }

  lemma SplittingEnds(b: string, t: string, dim: char, keepNull: bool, l: nat, results: seq<nat>, done: seq<string>)
    requires Splitting(b, t, dim, keepNull, l, |t|, results, done)
    requires forall i :: 0 <= i < |t| ==> t[i] != '\0'
    ensures var all := if |t| > l || keepNull then results + [l] else results;
      (forall i :: 0 <= i < |all| ==> all[i] <= |b|) && At(b, all) == Kept(Fields(t, [dim]), keepNull)
  {
    hide Fields, Settled, Kept, NonEmpty, At;
    LastPiece(t, dim, l);
    SettledLater(b, b, results, l, |t| + 1, Kept(done, keepNull));
    KeepPiece(b, results, |t| + 1, done, keepNull, l, t[l..]);
    SettledAt(b, if |t| > l || keepNull then results + [l] else results, |t| + 1, Kept(done + [t[l..]], keepNull));
  }

  /** splitString on a char array: delimiters become terminators, and the pieces are places in the array. */
  method SplitInPlace(str: array<char>, dim: char, keepNull: bool) returns (results: seq<nat>)
    requires '\0' in str[..]
    modifies str
    ensures forall i :: 0 <= i < |results| ==> results[i] <= str.Length
    ensures At(str[..], results) == Kept(Fields(CText(old(str[..])), [dim]), keepNull)
    ensures At(str[..], results)
         == if keepNull then Fields(CText(old(str[..])), [dim]) else NonEmpty(Fields(CText(old(str[..])), [dim]))
    ensures keepNull ==>
              var seps := Separators(CText(old(str[..])), [dim]);
              |results| == |seps| + 1 && Weave(At(str[..], results), seps) == CText(old(str[..]))
              && forall i :: 0 <= i < |seps| ==> seps[i] == dim
  {
    hide Fields, Settled, Kept, CText, At;
    ghost var t := CText(str[..]);
    CTextIs(str[..]);
    SplittingBegins(str[..], dim, keepNull);
    var p, l := 0, 0;
    results := [];
    ghost var done: seq<string> := [];
    while str[p] != '\0'
      invariant l <= p <= |t| && Splitting(str[..], t, dim, keepNull, l, p, results, done)
      invariant forall i :: p <= i < str.Length ==> str[i] == old(str[i])
      decreases |t| - p
    {
      if str[p] == dim {
        SplittingCuts(str[..], t, dim, keepNull, l, p, results, done);
        ghost var next := str[..][p := '\0'];
        str[p] := '\0';
        assert str[..] == next;
        p := p + 1;
        if p - l > 1 || keepNull {
          results := results + [l];
        }
        done := done + [t[l..p - 1]];
        l := p;
      } else {
        SplittingPasses(str[..], t, dim, keepNull, l, p, results, done);
        p := p + 1;
      }
    }
    SplittingEnds(str[..], t, dim, keepNull, l, results, done);
    KeptIs(Fields(t, [dim]), keepNull);
    if keepNull {
      PiecesRejoin(t, dim);
    }
    if p - l > 0 || keepNull {
      results := results + [l];
    }
  }

  lemma {:induction false} CTextIs(s: string)
    requires '\0' in s
    ensures var n := |CText(s)|;
      n < |s| && s[n] == '\0' && CText(s) == s[..n] && forall i :: 0 <= i < n ==> s[i] != '\0'
  {
    if s[0] != '\0' {
      assert s == [s[0]] + s[1..];
      CTextIs(s[1..]);
    }
  }

  lemma NextPiece(t: string, dim: char, l: nat, p: nat)
    requires l <= p < |t| && t[p] == dim && Free(t[l..p], [dim])
    ensures Fields(t[l..], [dim]) == [t[l..p]] + Fields(t[p + 1..], [dim])
  {
    assert t[l..][..p - l] == t[l..p] && t[l..][p - l + 1..] == t[p + 1..];
    FirstField(t[l..], [dim], p - l);
  }

  lemma LastPiece(t: string, dim: char, l: nat)
    requires l <= |t| && Free(t[l..|t|], [dim])
    ensures Fields(t[l..], [dim]) == [t[l..]]
  {
    assert t[l..][..|t| - l] == t[l..|t|];
    FirstField(t[l..], [dim], |t| - l);
  }

  /** Copying and in-place splitting agree on one delimiter, and the pieces kept with the empty ones rejoin to the input. */
  lemma PiecesRejoin(text: string, dim: char)
    ensures |Kept(Fields(text, [dim]), true)| == |Separators(text, [dim])| + 1
    ensures Weave(Kept(Fields(text, [dim]), true), Separators(text, [dim])) == text
    ensures forall i :: 0 <= i < |Separators(text, [dim])| ==> Separators(text, [dim])[i] == dim
  {
    FieldsWeave(text, [dim]);
  }

  // ---------- replacing

  predicate OccursAt(s: string, key: string, i: nat) { i + |key| <= |s| && s[i..i + |key|] == key }

  lemma OccursShift(s: string, key: string, from: nat, i: nat)
    requires from <= |s|
    ensures OccursAt(s[from..], key, i) == OccursAt(s, key, from + i)
  {
    assert i + |key| <= |s[from..]| ==> s[from..][i..i + |key|] == s[from + i..from + i + |key|];
  }

  /** The parts between the occurrences of a word, taken from the left and never overlapping. */
  function Gaps(s: string, key: string): (r: seq<string>)
    requires key != ""
    ensures |r| > 0
    decreases |s|
  {
    if |s| < |key| then [s]
    else if s[..|key|] == key then [""] + Gaps(s[|key|..], key)
    else
      var rest := Gaps(s[1..], key);
      [[s[0]] + rest[0]] + rest[1..]
  }

  function Join(parts: seq<string>, word: string): string
    requires |parts| > 0
  {
    if |parts| == 1 then parts[0] else parts[0] + word + Join(parts[1..], word)
  }

  /** No occurrence begins inside a gap. */
  predicate Leftmost(parts: seq<string>, key: string)
    requires |parts| > 0
  {
    if |parts| == 1 then forall i :: 0 <= i <= |parts[0]| ==> !OccursAt(parts[0], key, i)
    else (forall i :: 0 <= i < |parts[0]| ==> !OccursAt(Join(parts, key), key, i)) && Leftmost(parts[1..], key)
  }

  lemma {:induction false} GapsFactor(s: string, key: string)
    requires key != ""
    ensures Join(Gaps(s, key), key) == s && Leftmost(Gaps(s, key), key)
    decreases |s|
  {
    if |s| < |key| {
    } else if s[..|key|] == key {
      var rest := Gaps(s[|key|..], key);
      GapsFactor(s[|key|..], key);
      assert ([""] + rest)[1..] == rest;
      assert s == "" + key + s[|key|..];
    } else {
      var rest := Gaps(s[1..], key);
      GapsFactor(s[1..], key);
      GapsLonger(s, key, rest);
    }
  }

  lemma GapsLonger(s: string, key: string, rest: seq<string>)
    requires key != "" && |s| >= |key| && s[..|key|] != key && |rest| > 0
    requires Join(rest, key) == s[1..] && Leftmost(rest, key)
    ensures var all := [[s[0]] + rest[0]] + rest[1..]; Join(all, key) == s && Leftmost(all, key)
  {
    hide Join, Leftmost;
    var all := [[s[0]] + rest[0]] + rest[1..];
    JoinLonger(s[0], rest, key);
    Rejoin(s);
    NotAtStart(s, key);
    hide OccursAt;
    LeftmostLonger(s, key, rest, all);
  }

  lemma Rejoin(s: string)
    requires s != ""
    ensures [s[0]] + s[1..] == s
  {
  }

  lemma NotAtStart(s: string, key: string)
    requires |s| >= |key| && s[..|key|] != key
    ensures !OccursAt(s, key, 0)
  {
    assert s[0..|key|] == s[..|key|];
  }

  lemma JoinLonger(c: char, rest: seq<string>, key: string)
    requires |rest| > 0
    ensures Join([[c] + rest[0]] + rest[1..], key) == [c] + Join(rest, key)
  {
    var all := [[c] + rest[0]] + rest[1..];
    assert all[1..] == rest[1..];
    if |rest| > 1 {
      assert [c] + (rest[0] + key + Join(rest[1..], key)) == ([c] + rest[0]) + key + Join(rest[1..], key);
    }
  }

  lemma LeftmostLonger(s: string, key: string, rest: seq<string>, all: seq<string>)
    requires key != "" && |s| > 0 && |rest| > 0 && Leftmost(rest, key) && !OccursAt(s, key, 0)
    requires all == [[s[0]] + rest[0]] + rest[1..] && Join(rest, key) == s[1..] && Join(all, key) == s
    ensures Leftmost(all, key)
  {
    assert all[1..] == rest[1..];
    forall i | 0 <= i <= |all[0]| && (|all| > 1 ==> i < |all[0]|)
      ensures !OccursAt(s, key, i)
    {
      if i > 0 {
        OccursShift(s, key, 1, i - 1);
      }
    }
  }

  /** The factorization is the only one: the first occurrence decides where the first gap ends. */
  lemma {:induction false} GapsUnique(s: string, key: string, parts: seq<string>)
    requires key != "" && |parts| > 0 && Join(parts, key) == s && Leftmost(parts, key)
    ensures parts == Gaps(s, key)
    decreases |parts|
  {
    if |parts| == 1 {
      NoneLeft(s, key);
    } else {
      var n := |parts[0]|;
      var rest := Join(parts[1..], key);
      assert s[n..n + |key|] == key && s[n + |key|..] == rest && s[..n] == parts[0];
      FirstGap(s, key, n);
      GapsUnique(rest, key, parts[1..]);
    }
  }

  lemma {:induction false} NoneLeft(s: string, key: string)
    requires key != "" && forall i :: 0 <= i <= |s| ==> !OccursAt(s, key, i)
    ensures Gaps(s, key) == [s]
    decreases |s|
  {
    if |s| >= |key| {
      assert !OccursAt(s, key, 0);
      forall i | 0 <= i <= |s[1..]|
        ensures !OccursAt(s[1..], key, i)
      {
        assert i + |key| <= |s[1..]| ==> s[1..][i..i + |key|] == s[i + 1..i + 1 + |key|];
        assert !OccursAt(s, key, i + 1);
      }
      NoneLeft(s[1..], key);
      assert s == [s[0]] + s[1..];
    }
  }

  lemma {:induction false} FirstGap(s: string, key: string, n: nat)
    requires key != "" && OccursAt(s, key, n) && forall i :: 0 <= i < n ==> !OccursAt(s, key, i)
    ensures Gaps(s, key) == [s[..n]] + Gaps(s[n + |key|..], key)
    decreases n
  {
    hide OccursAt;
    OccursFits(s, key, n);
    AtStart(s, key);
    if n > 0 {
      var t := s[1..];
      OccursShift(s, key, 1, n - 1);
      forall i | 0 <= i < n - 1
        ensures !OccursAt(t, key, i)
      {
        OccursShift(s, key, 1, i);
      }
      FirstGap(t, key, n - 1);
      assert t[n - 1 + |key|..] == s[n + |key|..] && [s[0]] + t[..n - 1] == s[..n];
    }
  }

  lemma AtStart(s: string, key: string)
    requires |s| >= |key|
    ensures OccursAt(s, key, 0) <==> s[..|key|] == key
  {
    assert s[0..|key|] == s[..|key|];
  }

  /** find: the first occurrence at or after a place, or the length of the string. */
  method Find(str: string, key: string, lastIndex: nat) returns (index: nat)
    requires key != "" && lastIndex <= |str|
    ensures lastIndex <= index <= |str| && forall i :: lastIndex <= i < index ==> !OccursAt(str, key, i)
    ensures index < |str| ==> index + |key| <= |str| && OccursAt(str, key, index)
  {
    index := lastIndex;
    while index < |str| && !(index + |key| <= |str| && str[index..index + |key|] == key)
      invariant lastIndex <= index <= |str| && forall i :: lastIndex <= i < index ==> !OccursAt(str, key, i)
    {
      index := index + 1;
    }
  }

  /** replace. */
  method Replace(str: string, key: string, newStr: string) returns (r: string)
    ensures key == "" ==> r == str
    ensures key != "" ==> r == Join(Gaps(str, key), newStr)
  {
    hide Gaps, Join, OccursAt;
    if key == newStr || key == "" || |key| > |str| {
      if key != "" {
        ReplaceNothing(str, key, newStr);
      }
      return str;
    }
    var result := "";
    var lastIndex := 0;
    assert str[0..] == str;
    var index := Find(str, key, lastIndex);
    while index < |str|
      invariant lastIndex <= index <= |str| && (index < |str| ==> index + |key| <= |str| && OccursAt(str, key, index))
      invariant forall i :: lastIndex <= i < index ==> !OccursAt(str, key, i)
      invariant result + Join(Gaps(str[lastIndex..], key), newStr) == Join(Gaps(str, key), newStr)
      decreases |str| - lastIndex
    {
      GapFrom(str, key, lastIndex, index);
      JoinStep(result, str[lastIndex..index], Gaps(str[index + |key|..], key), newStr);
      result := result + str[lastIndex..index];
      result := result + newStr;
      lastIndex := index + |key|;
      index := Find(str, key, lastIndex);
    }
    LastGapFrom(str, key, lastIndex);
    JoinOne(str[lastIndex..], newStr);
    r := result + str[lastIndex..];
  }

  lemma OccursFits(s: string, key: string, i: nat)
    requires OccursAt(s, key, i)
    ensures i + |key| <= |s|
  {
  }

  lemma GapFrom(s: string, key: string, from: nat, n: nat)
    requires key != "" && from <= n && OccursAt(s, key, n) && forall i :: from <= i < n ==> !OccursAt(s, key, i)
    ensures Gaps(s[from..], key) == [s[from..n]] + Gaps(s[n + |key|..], key)
  {
    hide Gaps, OccursAt;
    assert n + |key| <= |s| by { OccursFits(s, key, n); }
    var t := s[from..];
    OccursShift(s, key, from, n - from);
    forall i | 0 <= i < n - from
      ensures !OccursAt(t, key, i)
    {
      OccursShift(s, key, from, i);
    }
    FirstGap(t, key, n - from);
    assert t[..n - from] == s[from..n] && t[n - from + |key|..] == s[n + |key|..];
  }

  lemma LastGapFrom(s: string, key: string, from: nat)
    requires key != "" && from <= |s| && forall i :: from <= i < |s| ==> !OccursAt(s, key, i)
    ensures Gaps(s[from..], key) == [s[from..]]
  {
    hide Gaps;
    var t := s[from..];
    forall i | 0 <= i <= |t|
      ensures !OccursAt(t, key, i)
    {
      OccursShift(s, key, from, i);
    }
    NoneLeft(t, key);
  }

  lemma JoinOne(part: string, word: string)
    ensures Join([part], word) == part
  {
  }

  lemma ReplaceNothing(str: string, key: string, newStr: string)
    requires key != "" && (key == newStr || |key| > |str|)
    ensures Join(Gaps(str, key), newStr) == str
  {
    GapsFactor(str, key);
  }

  lemma JoinStep(result: string, part: string, rest: seq<string>, word: string)
    requires |rest| > 0
    ensures result + Join([part] + rest, word) == result + part + word + Join(rest, word)
  {
    assert ([part] + rest)[1..] == rest;
  }

  // ---------- hexadecimal

  function HexDigit(n: nat): char
    requires n < 16
  {
    if n < 10 then '0' + n as char else 'a' + (n - 10) as char
  }

  /** The value strtol gives to a character in base 16. */
  function HexValue(c: char): Option<int> {
    if '0' <= c <= '9' then Some(c as nat - '0' as nat)
    else if 'a' <= c <= 'f' then Some(c as nat - 'a' as nat + 10)
    else if 'A' <= c <= 'F' then Some(c as nat - 'A' as nat + 10)
    else None
  }

  /** strtol on two characters, base 16: blanks and a sign may come first, and what is not a digit ends the number. */
  function Strtol16(c: char, d: char): int {
    match HexValue(c)
    case Some(a) => (match HexValue(d) case Some(b) => 16 * a + b case None => a)
    case None =>
      match HexValue(d)
      case Some(b) => if Space(c) || c == '+' then b else if c == '-' then -b else 0
      case None => 0
  }

  function Hex(s: seq<byte>): string {
    if s == [] then "" else [HexDigit(s[0] / 16), HexDigit(s[0] % 16)] + Hex(s[1..])
  }

  /** Pairs of characters read as bytes; a last odd character is ignored. */
  function Unhex(h: string): seq<byte> {
    if |h| < 2 then [] else [Strtol16(h[0], h[1]) % TWO8] + Unhex(h[2..])
  }

  lemma HexDigitValue(n: nat)
    requires n < 16
    ensures HexValue(HexDigit(n)) == Some(n)
  {
  }

  lemma {:induction false} UnhexUndoesHex(s: seq<byte>)
    ensures Unhex(Hex(s)) == s && |Hex(s)| == 2 * |s|
    ensures forall i :: 0 <= i < |Hex(s)| ==> Hex(s)[i] != '\0'
  {
    if s != [] {
      HexDigitValue(s[0] / 16);
      HexDigitValue(s[0] % 16);
      UnhexUndoesHex(s[1..]);
      assert Hex(s)[2..] == Hex(s[1..]);
    }
  }

  const LOWER := "0123456789abcdef"
  const UPPER := "0123456789ABCDEF"

  /** The two digits of each byte, the higher first. */
  lemma {:induction false} HexAt(s: seq<byte>, i: nat)
    requires i < |s|
    ensures |Hex(s)| == 2 * |s| && Hex(s)[2 * i] == LOWER[s[i] / 16] && Hex(s)[2 * i + 1] == LOWER[s[i] % 16]
  {
    LowerDigits(s[i] / 16);
    LowerDigits(s[i] % 16);
    UnhexUndoesHex(s);
    if i > 0 {
      HexAt(s[1..], i - 1);
      assert Hex(s)[2..] == Hex(s[1..]);
    }
  }

  lemma LowerDigits(n: nat)
    requires n < 16
    ensures HexDigit(n) == LOWER[n]
  {
  }

  lemma DigitsRead(n: nat)
    requires n < 16
    ensures HexValue(LOWER[n]) == HexValue(UPPER[n]) == Some(n)
  {
  }

  /** hex2bin reads a pair of digits, upper or lower case. */
  lemma PairRead(c: char, d: char, b: byte)
    requires c in {LOWER[b / 16], UPPER[b / 16]} && d in {LOWER[b % 16], UPPER[b % 16]}
    ensures Strtol16(c, d) == b
  {
    hide HexValue;
    DigitsRead(b / 16);
    DigitsRead(b % 16);
  }

  /** Characters 2 * i and 2 * i + 1 are digits of byte i, upper or lower case. */
  predicate DigitsOf(h: string, s: seq<byte>, i: nat)
    requires |h| == 2 * |s| && i < |s|
  {
    h[2 * i] in {LOWER[s[i] / 16], UPPER[s[i] / 16]} && h[2 * i + 1] in {LOWER[s[i] % 16], UPPER[s[i] % 16]}
  }

  /** Any such text is read back as those bytes. */
  lemma {:induction false} UnhexReads(h: string, s: seq<byte>)
    requires |h| == 2 * |s| && forall i :: 0 <= i < |s| ==> DigitsOf(h, s, i)
    ensures Unhex(h) == s
  {
    if s == [] {
      assert h == "";
    } else {
      FirstPair(h, s);
      LaterPairs(h, s);
      hide Strtol16, DigitsOf, Unhex;
      UnhexReads(h[2..], s[1..]);
      OneMoreByte(h, s);
    }
  }

  lemma OneMoreByte(h: string, s: seq<byte>)
    requires |h| >= 2 && s != [] && Strtol16(h[0], h[1]) == s[0] && Unhex(h[2..]) == s[1..]
    ensures Unhex(h) == s
  {
    UnhexStep(h);
    hide Strtol16, Unhex;
    assert s == [s[0]] + s[1..];
  }

  lemma UnhexStep(h: string)
    requires |h| >= 2
    ensures Unhex(h) == [Strtol16(h[0], h[1]) % TWO8] + Unhex(h[2..])
  {
  }

  lemma FirstPair(h: string, s: seq<byte>)
    requires |h| == 2 * |s| > 0 && DigitsOf(h, s, 0)
    ensures Strtol16(h[0], h[1]) == s[0]
  {
    hide Strtol16;
    assert h[2 * 0] == h[0] && h[2 * 0 + 1] == h[1];
    PairRead(h[0], h[1], s[0]);
  }

  lemma LaterPairs(h: string, s: seq<byte>)
    requires |h| == 2 * |s| > 0 && forall i :: 0 <= i < |s| ==> DigitsOf(h, s, i)
    ensures forall i :: 0 <= i < |s| - 1 ==> DigitsOf(h[2..], s[1..], i)
  {
    hide DigitsOf;
    forall i | 0 <= i < |s| - 1
      ensures DigitsOf(h[2..], s[1..], i)
    {
      LaterPair(h, s, i);
    }
  }

  lemma LaterPair(h: string, s: seq<byte>, i: nat)
    requires |h| == 2 * |s| && i + 1 < |s| && DigitsOf(h, s, i + 1)
    ensures DigitsOf(h[2..], s[1..], i)
  {
    assert h[2..][2 * i] == h[2 * (i + 1)] && h[2..][2 * i + 1] == h[2 * (i + 1) + 1] && s[1..][i] == s[i + 1];
  }

  /** Where a digit is missing strtol takes a blank or a sign before the other, or stops. */
  lemma SignsRead(n: nat)
    requires n < 16
    ensures Strtol16(' ', LOWER[n]) == Strtol16('+', LOWER[n]) == n && Strtol16('-', LOWER[n]) == 0 - n
    ensures Strtol16(LOWER[n], 'x') == n && Strtol16('x', LOWER[n]) == 0
  {
    DigitsRead(n);
  }

  predicate LowerDigit(c: char) { '0' <= c <= '9' || 'a' <= c <= 'f' }

  predicate LowerHex(h: string) { forall i :: 0 <= i < |h| ==> LowerDigit(h[i]) }

  /** The other way round: exactly the strings of an even number of lower-case digits come back. */
  lemma {:induction false} HexUndoesUnhex(h: string)
    ensures Hex(Unhex(h)) == h <==> |h| % 2 == 0 && LowerHex(h)
    decreases |h|
  {
    hide Hex, Unhex, LowerHex, LowerDigit;
    if |h| >= 2 {
      HexUndoesUnhex(h[2..]);
      PairStep(h);
      LowerStep(h);
    } else {
      NoPair(h);
    }
  }

  lemma NoPair(h: string)
    requires |h| < 2
    ensures Hex(Unhex(h)) == "" && (h == "" ==> LowerHex(h))
  {
  }

  /** A pair comes back if and only if both are lower-case digits. */
  lemma PairStep(h: string)
    requires |h| >= 2
    ensures Hex(Unhex(h)) == h <==> LowerDigit(h[0]) && LowerDigit(h[1]) && Hex(Unhex(h[2..])) == h[2..]
  {
    hide Hex, Unhex, Strtol16, HexDigit, LowerDigit;
    var n := Strtol16(h[0], h[1]) % TWO8;
    HexStep(h, n);
    PairUndone(h[0], h[1]);
    SamePairs(HexDigit(n / 16), HexDigit(n % 16), Hex(Unhex(h[2..])), h);
  }

  lemma HexStep(h: string, n: nat)
    requires |h| >= 2 && n == Strtol16(h[0], h[1]) % TWO8
    ensures Hex(Unhex(h)) == [HexDigit(n / 16), HexDigit(n % 16)] + Hex(Unhex(h[2..]))
  {
    hide Strtol16, HexDigit;
    assert Unhex(h)[1..] == Unhex(h[2..]);
  }

  lemma LowerStep(h: string)
    requires |h| >= 2
    ensures LowerHex(h) <==> LowerDigit(h[0]) && LowerDigit(h[1]) && LowerHex(h[2..])
  {
    assert h == [h[0], h[1]] + h[2..];
  }

  lemma SamePairs(c: char, d: char, more: string, h: string)
    requires |h| >= 2
    ensures [c, d] + more == h <==> c == h[0] && d == h[1] && more == h[2..]
  {
    var all := [c, d] + more;
    assert all[0] == c && all[1] == d && all[2..] == more;
    assert h == [h[0], h[1]] + h[2..];
  }

  lemma PairUndone(c: char, d: char)
    ensures var n := Strtol16(c, d) % TWO8;
      HexDigit(n / 16) == c && HexDigit(n % 16) == d <==> LowerDigit(c) && LowerDigit(d)
  {
    hide Strtol16, HexDigit, HexValue;
    var n := Strtol16(c, d) % TWO8;
    if LowerDigit(c) && LowerDigit(d) {
      LowerDigitValue(c);
      LowerDigitValue(d);
      PairValue(c, d);
    } else {
      hide LowerDigit;
      HexDigitIsLower(n / 16);
      HexDigitIsLower(n % 16);
    }
  }

  lemma PairValue(c: char, d: char)
    requires HexValue(c).Some? && HexValue(d).Some?
    ensures var n := Strtol16(c, d) % TWO8; n / 16 == HexValue(c).value && n % 16 == HexValue(d).value
  {
    var a, b := HexValue(c).value, HexValue(d).value;
    assert 0 <= a < 16 && 0 <= b < 16 && Strtol16(c, d) == 16 * a + b;
    hide HexValue, Strtol16;
    assert (16 * a + b) % TWO8 == 16 * a + b;
  }

  lemma LowerDigitValue(c: char)
    requires LowerDigit(c)
    ensures HexValue(c).Some? && 0 <= HexValue(c).value < 16 && HexDigit(HexValue(c).value) == c
  {
  }

  lemma HexDigitIsLower(n: nat)
    requires n < 16
    ensures LowerDigit(HexDigit(n))
  {
  }

  /** bin2hex. */
  method Bin2Hex(s: seq<byte>, szHexBuff: array<char>)
    requires szHexBuff.Length > 2 * |s|
    modifies szHexBuff
    ensures szHexBuff[..2 * |s|] == Hex(s) && szHexBuff[2 * |s|] == '\0'
    ensures CText(szHexBuff[..]) == Hex(s)
  {
    hide Hex, CText;
    var nLen := 0;
    UnhexUndoesHex(s);
    HexOfNone();
    for p := 0 to |s|
      invariant nLen == 2 * p && szHexBuff[..nLen] == Hex(s[..p])
    {
      ghost var before := szHexBuff[..nLen];
      szHexBuff[nLen] := HexDigit(s[p] / 16);
      szHexBuff[nLen + 1] := HexDigit(s[p] % 16);
      szHexBuff[nLen + 2] := '\0';
      nLen := nLen + 2;
      HexSnoc(s[..p], s[p]);
      assert s[..p + 1] == s[..p] + [s[p]];
      assert szHexBuff[..nLen] == before + [HexDigit(s[p] / 16), HexDigit(s[p] % 16)];
    }
    szHexBuff[nLen] := '\0';
    assert s[..|s|] == s;
    ghost var all := szHexBuff[..];
    assert all[..nLen] == Hex(s);
    assert forall i :: 0 <= i < nLen ==> all[i] == all[..nLen][i];
    CTextPrefix(all, nLen);
  }

  lemma HexOfNone()
    ensures Hex([]) == ""
  {
  }

  lemma {:induction false} HexSnoc(s: seq<byte>, b: byte)
    ensures Hex(s + [b]) == Hex(s) + [HexDigit(b / 16), HexDigit(b % 16)]
  {
    if s == [] {
      assert Hex([b]) == [HexDigit(b / 16), HexDigit(b % 16)] + Hex([]);
    } else {
      assert (s + [b])[1..] == s[1..] + [b];
      HexSnoc(s[1..], b);
    }
  }

  /** hex2bin of a C string. */
  method Hex2Bin(s: string, szBinBuff: array<byte>) returns (destLen: nat)
    requires szBinBuff.Length > |s| / 2
    modifies szBinBuff
    ensures destLen == |s| / 2 && szBinBuff[..destLen] == Unhex(s) && szBinBuff[destLen] == 0
  {
    if |s| == 0 {
      szBinBuff[0] := 0;
      return 0;
    }
    destLen := |s| / 2;
    var pSrc, pDest := 0, 0;
    assert s[0..] == s;
    while pDest < destLen
      invariant 0 <= pDest <= destLen && pSrc == 2 * pDest
      invariant szBinBuff[..pDest] + Unhex(s[pSrc..]) == Unhex(s)
    {
      assert s[pSrc..][2..] == s[pSrc + 2..];
      ghost var before := szBinBuff[..pDest];
      szBinBuff[pDest] := Strtol16(s[pSrc], s[pSrc + 1]) % TWO8;
      assert szBinBuff[..pDest + 1] == before + [szBinBuff[pDest]];
      pSrc := pSrc + 2;
      pDest := pDest + 1;
    }
    szBinBuff[pDest] := 0;
    assert szBinBuff[..pDest] == Unhex(s);
  }
}
