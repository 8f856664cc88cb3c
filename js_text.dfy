/**
 The JavaScript string operations the overlay relies on, on strings seen as
 sequences of characters: `startsWith`, `includes`, `split` on a
 one-character separator, `Array.prototype.join` and `trim`. `IndexOf`, the
 first-occurrence search that `Split` is built on, is a helper and not a call
 the overlay makes.
 */
module JsText {

  /** `s.startsWith(prefix)` */
  predicate StartsWith(s: string, prefix: string) {
    |prefix| <= |s| && s[..|prefix|] == prefix
  }

  /** The character `c` occurs nowhere in `s`. */
  predicate Lacks(s: string, c: char) {
    forall j :: 0 <= j < |s| ==> s[j] != c
  }

  /** `needle` occurs in `s` starting at position `i`. */
  predicate OccursAt(s: string, needle: string, i: int) {
    0 <= i && i + |needle| <= |s| && s[i..i + |needle|] == needle
  }

  /** `s.includes(needle)`: true exactly when `needle` occurs somewhere in `s`. */
  function Includes(s: string, needle: string): (r: bool)
    ensures r <==> exists i :: OccursAt(s, needle, i)
    decreases |s|
  {
    if StartsWith(s, needle) then
      assert OccursAt(s, needle, 0);
      true
    else if |s| == 0 then
      false
    else
      var r := Includes(s[1..], needle);
      ShiftOccurrence(s, needle);
      r
  }

  /** An occurrence in `s[1..]` is an occurrence in `s` one position further on, and back. */
  lemma ShiftOccurrence(s: string, needle: string)
    requires |s| > 0 && !StartsWith(s, needle)
    ensures (exists i :: OccursAt(s, needle, i)) <==> (exists i :: OccursAt(s[1..], needle, i))
  {
    forall i | OccursAt(s[1..], needle, i)
      ensures OccursAt(s, needle, i + 1)
    {
      assert s[1..][i..i + |needle|] == s[i + 1..i + 1 + |needle|];
    }
    forall i | OccursAt(s, needle, i)
      ensures OccursAt(s[1..], needle, i - 1)
    {
      assert s[1..][i - 1..i - 1 + |needle|] == s[i..i + |needle|];
    }
  }

  /** `s.indexOf(c)` for one character: a position of `s`, or -1. `IndexOfFinds` says which. */
  function IndexOf(s: string, c: char): (r: int)
    ensures -1 <= r < |s|
    decreases |s|
  {
    if |s| == 0 then -1
    else if s[0] == c then 0
    else
      var k := IndexOf(s[1..], c);
      if k == -1 then -1 else k + 1
  }

  /**
   `indexOf` finds the first occurrence: -1 exactly when `c` does not occur,
   and otherwise a position holding `c` with no `c` before it.
   */
  lemma {:induction false} IndexOfFinds(s: string, c: char)
    ensures IndexOf(s, c) == -1 <==> Lacks(s, c)
    ensures 0 <= IndexOf(s, c) ==> s[IndexOf(s, c)] == c && forall j :: 0 <= j < IndexOf(s, c) ==> s[j] != c
    decreases |s|
  {
    if |s| > 0 && s[0] != c {
      var t := s[1..];
      IndexOfFinds(t, c);
      assert forall j :: 0 < j < |s| ==> s[j] == t[j - 1];
    }
  }

  /** A position holding `c` with no `c` before it is the one `IndexOf` finds. */
  lemma {:induction false} FirstAt(s: string, c: char, k: int)
    requires 0 <= k < |s| && s[k] == c && forall j :: 0 <= j < k ==> s[j] != c
    ensures IndexOf(s, c) == k
    decreases k
  {
    if k > 0 {
      var t := s[1..];
      assert forall j :: 0 <= j < k - 1 ==> t[j] == s[j + 1];
      FirstAt(t, c, k - 1);
    }
  }

  /**
   `s.split(sep)` for a one-character separator: the pieces between
   consecutive separators, always at least one. `SplitLacks` says no piece
   contains `sep`.
   */
  function Split(s: string, sep: char): (parts: seq<string>)
    ensures |parts| >= 1
    decreases |s|
  {
    var i := IndexOf(s, sep);
    if i < 0 then [s] else [s[..i]] + Split(s[i + 1..], sep)
  }

  /** No position before `i` holds `c`, so the piece before `i` does not contain it. */
  lemma NoneBefore(s: string, c: char, i: int)
    requires 0 <= i <= |s| && forall j :: 0 <= j < i ==> s[j] != c
    ensures Lacks(s[..i], c)
  {
    forall j | 0 <= j < i
      ensures s[..i][j] != c
    {
      assert s[..i][j] == s[j];
    }
  }

  /** No piece of a split contains the separator. */
  lemma {:induction false} SplitLacks(s: string, sep: char)
    ensures forall i :: 0 <= i < |Split(s, sep)| ==> Lacks(Split(s, sep)[i], sep)
    decreases |s|
  {
    var i := IndexOf(s, sep);
    IndexOfFinds(s, sep);
    if i >= 0 {
      var rest := Split(s[i + 1..], sep);
      SplitAt(s, sep, i);
      NoneBefore(s, sep, i);
      SplitLacks(s[i + 1..], sep);
      assert forall k :: 0 <= k < |rest| ==> Split(s, sep)[k + 1] == rest[k];
    }
  }

  /** `parts.join(sep)` for a one-character separator. */
  function Join(parts: seq<string>, sep: char): string {
    if |parts| == 0 then ""
    else if |parts| == 1 then parts[0]
    else parts[0] + [sep] + Join(parts[1..], sep)
  }

  /** At the first separator, the split is the piece before it followed by the split of the rest. */
  lemma SplitAt(s: string, sep: char, i: int)
    requires 0 <= i && i == IndexOf(s, sep)
    ensures Split(s, sep) == [s[..i]] + Split(s[i + 1..], sep)
  {
  }

  /** Joining a piece in front of at least one more puts one separator between them. */
  lemma JoinCons(head: string, rest: seq<string>, sep: char)
    requires |rest| >= 1
    ensures Join([head] + rest, sep) == head + [sep] + Join(rest, sep)
  {
    assert ([head] + rest)[1..] == rest;
  }

  /** Splitting loses nothing: joining the pieces gives back the original text. */
  lemma {:induction false} JoinSplit(s: string, sep: char)
    ensures Join(Split(s, sep), sep) == s
    decreases |s|
  {
    var i := IndexOf(s, sep);
    if i >= 0 {
      var head, tail := s[..i], s[i + 1..];
      IndexOfFinds(s, sep);
      SplitAt(s, sep, i);
      JoinSplit(tail, sep);
      JoinCons(head, Split(tail, sep), sep);
      assert Join(Split(s, sep), sep) == head + [sep] + tail;
      assert s == head + [sep] + tail;
    }
  }

  /** Splitting the pieces' join gives the pieces back, when none contains the separator. */
  lemma {:induction false} SplitJoin(parts: seq<string>, sep: char)
    requires |parts| >= 1
    requires forall i :: 0 <= i < |parts| ==> Lacks(parts[i], sep)
    ensures Split(Join(parts, sep), sep) == parts
    decreases |parts|
  {
    if |parts| == 1 {
      IndexOfFinds(parts[0], sep);
    } else {
      var head, tail := parts[0], Join(parts[1..], sep);
      assert parts == [head] + parts[1..];
      JoinCons(head, parts[1..], sep);
      var s := head + [sep] + tail;
      assert s[|head|] == sep && s[|head| + 1..] == tail;
      assert forall j :: 0 <= j < |head| ==> s[j] == head[j];
      FirstAt(s, sep, |head|);
      SplitAt(s, sep, |head|);
      assert s[..|head|] == head;
      SplitJoin(parts[1..], sep);
    }
  }

  /** The characters `String.prototype.trim` removes: ECMAScript white space and line terminators. */
  predicate IsWhitespace(c: char) {
    c == ' ' || c == '\t' || c == '\n' || c == '\r' || c == '\U{000B}' || c == '\U{000C}'
    || c == '\U{00A0}' || c == '\U{1680}' || ('\U{2000}' <= c <= '\U{200A}')
    || c == '\U{2028}' || c == '\U{2029}' || c == '\U{202F}' || c == '\U{205F}'
    || c == '\U{3000}' || c == '\U{FEFF}'
  }

  predicate AllWhitespace(s: string) {
    forall i :: 0 <= i < |s| ==> IsWhitespace(s[i])
  }

  lemma AllWhitespaceAppend(a: string, b: string)
    requires AllWhitespace(a) && AllWhitespace(b)
    ensures AllWhitespace(a + b)
  {
    forall i | 0 <= i < |a + b|
      ensures IsWhitespace((a + b)[i])
    {
      if i < |a| {
        assert (a + b)[i] == a[i];
      } else {
        assert (a + b)[i] == b[i - |a|];
      }
    }
  }

  /** `s.trimStart()`: the longest suffix of `s` that does not begin with white space. */
  function TrimStart(s: string): (r: string)
    ensures |r| <= |s| && r == s[|s| - |r|..]
    ensures AllWhitespace(s[..|s| - |r|])
    ensures r == [] || !IsWhitespace(r[0])
    decreases |s|
  {
    if |s| > 0 && IsWhitespace(s[0]) then
      var t := s[1..];
      var r := TrimStart(t);
      assert r == s[|s| - |r|..];
      assert s[..|s| - |r|] == [s[0]] + t[..|t| - |r|];
      AllWhitespaceAppend([s[0]], t[..|t| - |r|]);
      r
    else s
  }

  /** `s.trimEnd()`: the longest prefix of `s` that does not end with white space. */
  function TrimEnd(s: string): (r: string)
    ensures |r| <= |s| && r == s[..|r|]
    ensures AllWhitespace(s[|r|..])
    ensures r == [] || !IsWhitespace(r[|r| - 1])
    decreases |s|
  {
    if |s| > 0 && IsWhitespace(s[|s| - 1]) then
      var t := s[..|s| - 1];
      var r := TrimEnd(t);
      assert r == s[..|r|];
      assert s[|r|..] == t[|r|..] + [s[|s| - 1]];
      AllWhitespaceAppend(t[|r|..], [s[|s| - 1]]);
      r
    else s
  }

  /** `s` with white space removed from both ends, kept from position `i` on. */
  ghost predicate TrimmedAt(s: string, r: string, i: int) {
    0 <= i && i + |r| <= |s| && r == s[i..i + |r|]
    && AllWhitespace(s[..i]) && AllWhitespace(s[i + |r|..])
    && (r == [] || (!IsWhitespace(r[0]) && !IsWhitespace(r[|r| - 1])))
  }

  /**
   `s.trim()`: the middle of `s` left after removing the white space at both
   ends; it neither starts nor ends with white space.
   */
  function Trim(s: string): (r: string)
    ensures exists i :: TrimmedAt(s, r, i)
  {
    var t := TrimStart(s);
    var r := TrimEnd(t);
    var i := |s| - |t|;
    assert r == s[i..i + |r|];
    assert s[i + |r|..] == t[|r|..];
    assert r != [] ==> r[0] == t[0];
    assert TrimmedAt(s, r, i);
    r
  }
}
