/** The string operations main.py relies on: `str.find`, `str.split` with a
    one-character separator, and `str.join`. */
module Strings {

  /** The first index of `s` holding a character of `cs`, or `|s|` when there
      is none (where Python's `str.find` gives -1). */
  function IndexOfAny(s: string, cs: set<char>): (i: nat)
    ensures i <= |s|
    ensures i < |s| ==> s[i] in cs
    ensures forall j :: 0 <= j < i ==> s[j] !in cs
  {
    if |s| == 0 then 0
    else if s[0] in cs then 0
    else 1 + IndexOfAny(s[1..], cs)
  }

  /** Searching a concatenation finds the hit in the left part if there is one. */
  lemma {:induction false} IndexOfAnyConcat(a: string, b: string, cs: set<char>)
    ensures IndexOfAny(a + b, cs) ==
            if IndexOfAny(a, cs) < |a| then IndexOfAny(a, cs) else |a| + IndexOfAny(b, cs)
  {
    var i := IndexOfAny(a + b, cs);
    if IndexOfAny(a, cs) < |a| {
      var k := IndexOfAny(a, cs);
      assert (a + b)[k] in cs;
    } else {
      var k := |a| + IndexOfAny(b, cs);
      if k < |a + b| {
        assert (a + b)[k] == b[k - |a|];
      }
      forall j | 0 <= j < k ensures (a + b)[j] !in cs {
        if j < |a| {
          assert (a + b)[j] == a[j];
        } else {
          assert (a + b)[j] == b[j - |a|];
        }
      }
    }
  }

  /** The text before the first occurrence of `c` (all of `s` when `c` does
      not occur): element 0 of Python's `s.split(c, 1)`. */
  function BeforeFirst(s: string, c: char): (r: string)
    ensures c !in r
    ensures r <= s
    ensures c !in s ==> r == s
    ensures c in s ==> |r| < |s| && s[|r|] == c
  {
    s[..IndexOfAny(s, {c})]
  }

  /** Python's `s.split(sep)` for a one-character separator: the pieces
      between separators, empty ones included. */
  function Split(s: string, sep: char): (parts: seq<string>)
    ensures |parts| >= 1
    ensures sep !in s ==> parts == [s]
    ensures sep in s ==> |parts| >= 2
  {
    if |s| == 0 then [""]
    else
      assert s == [s[0]] + s[1..];
      var rest := Split(s[1..], sep);
      if s[0] == sep then [""] + rest
      else [[s[0]] + rest[0]] + rest[1..]
  }

  /** No piece of a split holds the separator. */
  lemma {:induction false} SplitPiecesFree(s: string, sep: char)
    ensures forall i :: 0 <= i < |Split(s, sep)| ==> sep !in Split(s, sep)[i]
    decreases |s|
  {
    if |s| > 0 {
      SplitPiecesFree(s[1..], sep);
      var rest := Split(s[1..], sep);
      if s[0] != sep {
        assert sep !in [s[0]] + rest[0];
      }
    }
  }

  /** Python's `sep.join(parts)`. */
  function Join(parts: seq<string>, sep: char): (s: string)
    requires |parts| >= 1
  {
    if |parts| == 1 then parts[0] else parts[0] + [sep] + Join(parts[1..], sep)
  }

  /** Split cuts at the first separator and carries on after it, as `str.split` does. */
  lemma {:induction false} SplitAtFirst(s: string, sep: char)
    requires sep in s
    ensures var i := IndexOfAny(s, {sep});
            Split(s, sep) == [s[..i]] + Split(s[i + 1..], sep)
  {
    if s[0] != sep {
      SplitAtFirst(s[1..], sep);
      assert s[1..][..IndexOfAny(s[1..], {sep})] == s[1..IndexOfAny(s, {sep})];
      assert [s[0]] + s[1..IndexOfAny(s, {sep})] == s[..IndexOfAny(s, {sep})];
      assert s[1..][IndexOfAny(s[1..], {sep}) + 1..] == s[IndexOfAny(s, {sep}) + 1..];
    }
  }

  /** The first piece of a split is the text before the first separator. */
  lemma {:induction false} FirstPiece(s: string, sep: char)
    ensures Split(s, sep)[0] == BeforeFirst(s, sep)
  {
    if sep in s {
      SplitAtFirst(s, sep);
    }
  }

  /** Prefixing the first piece prefixes the joined text. */
  lemma {:induction false} JoinExtendHead(x: string, parts: seq<string>, sep: char)
    requires |parts| >= 1
    ensures Join([x + parts[0]] + parts[1..], sep) == x + Join(parts, sep)
  {
    var ext := [x + parts[0]] + parts[1..];
    assert ext[0] == x + parts[0] && ext[1..] == parts[1..];
  }

  /** Joining the pieces of a split gives back the original text. */
  lemma {:induction false} JoinSplit(s: string, sep: char)
    ensures Join(Split(s, sep), sep) == s
    decreases |s|
  {
    if |s| > 0 {
      var rest := Split(s[1..], sep);
      JoinSplit(s[1..], sep);
      if s[0] == sep {
        assert ([""] + rest)[1..] == rest;
      } else {
        JoinExtendHead([s[0]], rest, sep);
      }
      assert s == [s[0]] + s[1..];
    }
  }

  /** Splitting a join of separator-free pieces gives back the pieces. */
  lemma {:induction false} SplitJoin(parts: seq<string>, sep: char)
    requires |parts| >= 1
    requires forall i :: 0 <= i < |parts| ==> sep !in parts[i]
    ensures Split(Join(parts, sep), sep) == parts
  {
    if |parts| > 1 {
      var s := Join(parts, sep);
      var tail := Join(parts[1..], sep);
      assert s == parts[0] + ([sep] + tail);
      assert ([sep] + tail)[0] == sep;
      IndexOfAnyConcat(parts[0], [sep] + tail, {sep});
      assert IndexOfAny(s, {sep}) == |parts[0]|;
      assert s[|parts[0]|] == sep;
      SplitAtFirst(s, sep);
      assert s[..|parts[0]|] == parts[0];
      assert s[|parts[0]| + 1..] == tail;
      SplitJoin(parts[1..], sep);
    }
  }

  /** A split has an empty piece exactly when the text is empty, starts or
      ends with the separator, or holds two separators in a row. */
  lemma {:induction false} SplitHasEmptyPiece(s: string, sep: char)
    ensures "" in Split(s, sep) <==>
            s == "" || s[0] == sep || s[|s| - 1] == sep ||
            exists i :: 0 <= i < |s| - 1 && s[i] == sep && s[i + 1] == sep
  {
    EmptyHeadPiece(s, sep);
    EmptyLaterPiece(s, sep);
    var parts := Split(s, sep);
    assert parts == [parts[0]] + parts[1..];
  }

  lemma {:induction false} EmptyHeadPiece(s: string, sep: char)
    ensures Split(s, sep)[0] == "" <==> s == "" || s[0] == sep
  {
  }

  /** `s` holds two separators in a row. */
  predicate HasDoubled(s: string, sep: char)
  {
    exists i :: 0 <= i < |s| - 1 && s[i] == sep && s[i + 1] == sep
  }

  /** A doubled separator is at the front or in the tail. */
  lemma {:induction false} DoubledShift(s: string, sep: char)
    requires |s| >= 1
    ensures HasDoubled(s, sep) <==>
            (|s| >= 2 && s[0] == sep && s[1] == sep) || HasDoubled(s[1..], sep)
  {
    var t := s[1..];
    if HasDoubled(t, sep) {
      var i :| 0 <= i < |t| - 1 && t[i] == sep && t[i + 1] == sep;
      assert s[i + 1] == sep && s[i + 2] == sep;
    }
    if HasDoubled(s, sep) && !(|s| >= 2 && s[0] == sep && s[1] == sep) {
      var i :| 0 <= i < |s| - 1 && s[i] == sep && s[i + 1] == sep;
      assert i >= 1;
      assert t[i - 1] == sep && t[i] == sep;
    }
  }

  /** The pieces after the first: one is empty exactly when the text ends
      with the separator or holds two in a row. */
  lemma {:induction false} EmptyLaterPiece(s: string, sep: char)
    ensures "" in Split(s, sep)[1..] <==>
            (s != "" && s[|s| - 1] == sep) || HasDoubled(s, sep)
    decreases |s|
  {
    if s != "" {
      var t := s[1..];
      var rest := Split(t, sep);
      EmptyLaterPiece(t, sep);
      EmptyHeadPiece(t, sep);
      DoubledShift(s, sep);
      assert rest == [rest[0]] + rest[1..];
      if s[0] == sep {
        assert Split(s, sep)[1..] == rest;
      } else {
        assert Split(s, sep)[1..] == rest[1..];
      }
    }
  }
}
