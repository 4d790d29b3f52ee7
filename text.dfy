/** The handful of Python `str` operations that share.py relies on:
    `in` (substring test), `strip()`, `lower()`, `title()`, `replace(" ", "")`,
    `split(sep)` with a one-character separator, and `sep.join(...)`. */
module Text {

  /** Python's `str.isspace()` for one character: exactly the characters that
      `str.strip()` with no argument removes (Unicode white space). */
  predicate IsSpace(c: char) {
    ('\t' <= c <= '\r') || ('\U{1C}' <= c <= '\U{1F}') || c == ' ' ||
    c == '\U{85}' || c == '\U{A0}' || c == '\U{1680}' ||
    ('\U{2000}' <= c <= '\U{200A}') || c == '\U{2028}' || c == '\U{2029}' ||
    c == '\U{202F}' || c == '\U{205F}' || c == '\U{3000}'
  }

  // ---------------------------------------------------------------- strip()

  /** Drops leading white space. */
  function StripLeft(s: string): (r: string)
    ensures |r| <= |s| && r == s[|s| - |r|..]
    ensures forall i :: 0 <= i < |s| - |r| ==> IsSpace(s[i])
    ensures r == [] || !IsSpace(r[0])
  {
    if s != [] && IsSpace(s[0]) then StripLeft(s[1..]) else s
  }

  /** Drops trailing white space. */
  function StripRight(s: string): (r: string)
    ensures |r| <= |s| && r == s[..|r|]
    ensures forall i :: |r| <= i < |s| ==> IsSpace(s[i])
    ensures r == [] || !IsSpace(r[|r| - 1])
  {
    if s != [] && IsSpace(s[|s| - 1]) then StripRight(s[..|s| - 1]) else s
  }

  /** `s.strip()`: `s` without the white space at both ends. */
  function Strip(s: string): (r: string)
    ensures |r| <= |s|
    ensures r == [] || (!IsSpace(r[0]) && !IsSpace(r[|r| - 1]))
  {
    StripRight(StripLeft(s))
  }

  /** `r` is the slice of `s` at offset `a`, with only white space around it. */
  ghost predicate SurroundedBySpace(s: string, a: int, r: string) {
    0 <= a <= |s| - |r| && s[a..a + |r|] == r &&
    (forall i :: 0 <= i < a ==> IsSpace(s[i])) &&
    (forall i :: a + |r| <= i < |s| ==> IsSpace(s[i]))
  }

  /** What `strip()` removes is white space, at both ends and nothing else. */
  lemma StripIsTrim(s: string)
    ensures exists a :: SurroundedBySpace(s, a, Strip(s))
  {
    var l := StripLeft(s);
    var r := StripRight(l);
    assert Strip(s) == r;
    assert SurroundedBySpace(s, |s| - |l|, r);
  }

  /** A string with no white space at either end is its own `strip()`. */
  lemma StripOfStripped(s: string)
    requires s == [] || (!IsSpace(s[0]) && !IsSpace(s[|s| - 1]))
    ensures Strip(s) == s
  {
  }

  /** `strip()` is idempotent. */
  lemma StripIdempotent(s: string)
    ensures Strip(Strip(s)) == Strip(s)
  {
    StripOfStripped(Strip(s));
  }

  // ------------------------------------------------------- lower(), title()

  predicate IsUpper(c: char) { 'A' <= c <= 'Z' }
  predicate IsLower(c: char) { 'a' <= c <= 'z' }
  /** A cased character, in the ASCII range. */
  predicate IsLetter(c: char) { IsUpper(c) || IsLower(c) }

  function LowerChar(c: char): (r: char)
    ensures !IsUpper(r) && (IsLetter(r) <==> IsLetter(c))
  {
    if IsUpper(c) then (c as int + 32) as char else c
  }

  function UpperChar(c: char): (r: char)
    ensures !IsLower(r) && (IsLetter(r) <==> IsLetter(c))
  {
    if IsLower(c) then (c as int - 32) as char else c
  }

  /** `s.lower()`, on ASCII letters: each upper-case letter becomes its
      lower-case partner, every other character is kept, and no upper-case
      letter is left. */
  function Lower(s: string): (r: string)
    ensures |r| == |s|
    ensures forall i :: 0 <= i < |s| ==> !IsUpper(r[i])
    ensures forall i :: 0 <= i < |s| ==>
              if IsUpper(s[i]) then r[i] as int == s[i] as int + 32 else r[i] == s[i]
  {
    seq(|s|, i requires 0 <= i < |s| => LowerChar(s[i]))
  }

  /** Lower-casing twice is lower-casing once. */
  lemma LowerIdempotent(s: string)
    ensures Lower(Lower(s)) == Lower(s)
  {
  }

  /** Python's `str.title()` loop: each character is upper-cased when the
      character before it is not cased and lower-cased when it is. */
  function TitleFrom(s: string, previousIsCased: bool): (r: string)
    ensures |r| == |s|
  {
    if s == [] then []
    else
      var c := if previousIsCased then LowerChar(s[0]) else UpperChar(s[0]);
      [c] + TitleFrom(s[1..], IsLetter(c))
  }

  /** `s.title()`, on ASCII letters. */
  function Title(s: string): (r: string)
    ensures |r| == |s|
  {
    TitleFrom(s, false)
  }

  /** Whether position `i` of `s` starts a word for `title()`. */
  predicate WordStart(s: string, i: nat, previousIsCased: bool)
    requires i < |s|
  {
    if i == 0 then !previousIsCased else !IsLetter(s[i - 1])
  }

  lemma {:induction false} TitleFromAt(s: string, previousIsCased: bool, i: nat)
    requires i < |s|
    ensures TitleFrom(s, previousIsCased)[i] ==
            if WordStart(s, i, previousIsCased) then UpperChar(s[i]) else LowerChar(s[i])
  {
    if i > 0 {
      var c := if previousIsCased then LowerChar(s[0]) else UpperChar(s[0]);
      TitleFromAt(s[1..], IsLetter(c), i - 1);
    }
  }

  /** What `title()` does, character by character: a letter at the start of
      the string or after a non-letter is upper-cased, every other letter is
      lower-cased, and non-letters are kept. */
  lemma TitleAt(s: string, i: nat)
    requires i < |s|
    ensures |Title(s)| == |s|
    ensures Title(s)[i] == if i == 0 || !IsLetter(s[i - 1]) then UpperChar(s[i]) else LowerChar(s[i])
  {
    TitleFromAt(s, false, i);
  }

  /** Title-casing a title-cased string changes nothing. */
  lemma TitleIdempotent(s: string)
    ensures Title(Title(s)) == Title(s)
  {
    var t := Title(s);
    forall i | 0 <= i < |s|
      ensures Title(t)[i] == t[i]
    {
      TitleAt(s, i);
      TitleAt(t, i);
      if i > 0 {
        TitleAt(s, i - 1);
      }
    }
  }

  // --------------------------------------------------------- replace(" ", "")

  /** `s.replace(" ", "")`: every U+0020 removed, everything else kept in order. */
  function RemoveSpaces(s: string): (r: string)
    ensures ' ' !in r && |r| <= |s|
  {
    if s == [] then []
    else (if s[0] == ' ' then [] else [s[0]]) + RemoveSpaces(s[1..])
  }

  /** Removing spaces keeps every other character, as often as it occurs. */
  lemma {:induction false} RemoveSpacesKeepsOthers(s: string, c: char)
    requires c != ' '
    ensures multiset(RemoveSpaces(s))[c] == multiset(s)[c]
  {
    if s != [] {
      assert s == [s[0]] + s[1..];
      RemoveSpacesKeepsOthers(s[1..], c);
    }
  }

  /** A string without spaces is left as it is. */
  lemma {:induction false} RemoveSpacesOfSpaceless(s: string)
    requires ' ' !in s
    ensures RemoveSpaces(s) == s
  {
    if s != [] {
      RemoveSpacesOfSpaceless(s[1..]);
    }
  }

  /** Removing spaces distributes over concatenation. */
  lemma {:induction false} RemoveSpacesConcat(a: string, b: string)
    ensures RemoveSpaces(a + b) == RemoveSpaces(a) + RemoveSpaces(b)
  {
    if a != [] {
      assert (a + b)[1..] == a[1..] + b;
      RemoveSpacesConcat(a[1..], b);
    } else {
      assert a + b == b;
    }
  }

  /** Two space-free words around one space are glued together. */
  lemma RemoveSpacesOfTwoWords(a: string, b: string)
    requires ' ' !in a && ' ' !in b
    ensures RemoveSpaces(a + (" " + b)) == a + b
  {
    var spaced := " " + b;
    assert spaced[0] == ' ' && spaced[1..] == b;
    assert RemoveSpaces(spaced) == RemoveSpaces(b);
    RemoveSpacesConcat(a, spaced);
    RemoveSpacesOfSpaceless(a);
    RemoveSpacesOfSpaceless(b);
  }

  // ------------------------------------------------------------ the `in` test

  /** `p` occurs in `s` starting at some position. */
  ghost predicate Occurs(p: string, s: string) {
    exists i :: OccursAt(p, s, i)
  }

  /** `p` occurs in `s` starting at position `i`. */
  ghost predicate OccursAt(p: string, s: string, i: int) {
    0 <= i <= |s| - |p| && s[i..i + |p|] == p
  }

  /** Python's `p in s` for strings, searched position by position. */
  function Contains(s: string, p: string): (r: bool)
    decreases |s|
  {
    if p <= s then true
    else if s == [] then false
    else Contains(s[1..], p)
  }

  /** `Contains` is the substring test: it holds exactly when `p` occurs somewhere in `s`. */
  lemma {:induction false} ContainsIffOccurs(s: string, p: string)
    ensures Contains(s, p) <==> Occurs(p, s)
    decreases |s|
  {
    if p <= s {
      assert OccursAt(p, s, 0);
    } else if s == [] {
    } else {
      ContainsIffOccurs(s[1..], p);
      if Occurs(p, s) {
        var i :| OccursAt(p, s, i);
        assert i != 0;
        assert s[1..][i - 1..i - 1 + |p|] == s[i..i + |p|];
        assert OccursAt(p, s[1..], i - 1);
      }
      if Occurs(p, s[1..]) {
        var i :| OccursAt(p, s[1..], i);
        assert s[i + 1..i + 1 + |p|] == s[1..][i..i + |p|];
        assert OccursAt(p, s, i + 1);
      }
    }
  }

  /** An occurrence at a known position is found by `Contains`. */
  lemma ContainsAt(s: string, p: string, i: nat)
    requires i + |p| <= |s| && s[i..i + |p|] == p
    ensures Contains(s, p)
  {
    assert OccursAt(p, s, i);
    ContainsIffOccurs(s, p);
  }

  // ------------------------------------------------------- split() and join()

  /** `s.split(sep)` for a one-character separator: the pieces between separators. */
  function Split(s: string, sep: char): (r: seq<string>)
    ensures |r| >= 1
    ensures forall k :: 0 <= k < |r| ==> sep !in r[k]
    ensures r[0] <= s && (|r[0]| == |s| || s[|r[0]|] == sep)
  {
    if s == [] then [""]
    else
      var rest := Split(s[1..], sep);
      if s[0] == sep then [""] + rest
      else [[s[0]] + rest[0]] + rest[1..]
  }

  /** `sep.join(xs)`. */
  function Join(sep: string, xs: seq<string>): (r: string) {
    if xs == [] then ""
    else if |xs| == 1 then xs[0]
    else xs[0] + sep + Join(sep, xs[1..])
  }

  /** Joining the pieces of a split with the separator gives back the string. */
  lemma {:induction false} JoinSplit(s: string, sep: char)
    ensures Join([sep], Split(s, sep)) == s
  {
    if s != [] {
      var rest := Split(s[1..], sep);
      JoinSplit(s[1..], sep);
      if s[0] != sep && |rest| > 1 {
        assert Join([sep], rest) == rest[0] + [sep] + Join([sep], rest[1..]);
      }
    }
  }

  /** Splitting a piece free of the separator, followed by the separator and more. */
  lemma {:induction false} SplitPiece(a: string, b: string, sep: char)
    requires sep !in a
    ensures Split(a + [sep] + b, sep) == [a] + Split(b, sep)
  {
    if a != [] {
      assert (a + [sep] + b)[1..] == a[1..] + [sep] + b;
      SplitPiece(a[1..], b, sep);
      assert [a[0]] + a[1..] == a;
    } else {
      assert (a + [sep] + b)[1..] == b;
    }
  }

  /** A string free of the separator splits into itself alone. */
  lemma {:induction false} SplitWhole(a: string, sep: char)
    requires sep !in a
    ensures Split(a, sep) == [a]
  {
    if a != [] {
      SplitWhole(a[1..], sep);
      assert [a[0]] + a[1..] == a;
    }
  }

  /** Splitting a join gives back the pieces, when none holds the separator. */
  lemma {:induction false} SplitJoin(xs: seq<string>, sep: char)
    requires xs != []
    requires forall k :: 0 <= k < |xs| ==> sep !in xs[k]
    ensures Split(Join([sep], xs), sep) == xs
  {
    if |xs| == 1 {
      SplitWhole(xs[0], sep);
    } else {
      SplitJoin(xs[1..], sep);
      SplitPiece(xs[0], Join([sep], xs[1..]), sep);
      assert [xs[0]] + xs[1..] == xs;
    }
  }
}
