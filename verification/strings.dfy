/** The string primitives the tile code relies on: Kotlin's single-delimiter
    `split`, `TextUtils.join`, `contains`, and the case mappings. */
module Strings {
  import opened Seqs

  /** Number of occurrences of `c` in `s`. */
  function Occurrences(s: string, c: char): (n: nat)
    ensures n > 0 <==> c in s
    ensures n <= |s|
    decreases |s|
  {
    if |s| == 0 then 0
    else
      assert c in s <==> s[0] == c || c in s[1..];
      (if s[0] == c then 1 else 0) + Occurrences(s[1..], c)
  }

  /** `s.split(sep)` for a one-character delimiter: every piece is kept, empty
      ones included, so the result is never empty and `""` splits to `[""]`. */
  function Split(s: string, sep: char): (parts: seq<string>)
    ensures |parts| == Occurrences(s, sep) + 1
    ensures forall i :: 0 <= i < |parts| ==> sep !in parts[i]
    decreases |s|
  {
    if |s| == 0 then [""]
    else
      var rest := Split(s[1..], sep);
      if s[0] == sep then [""] + rest
      else [[s[0]] + rest[0]] + rest[1..]
  }

  /** The combined length of a list of strings. */
  function TotalLength(parts: seq<string>): nat
    decreases |parts|
  {
    if |parts| == 0 then 0 else |parts[0]| + TotalLength(parts[1..])
  }

  /** `TextUtils.join(sep, parts)`: the parts with `sep` between neighbours.
      Nothing is added but one separator between each pair of neighbours. */
  function Join(parts: seq<string>, sep: char): (s: string)
    ensures |s| == TotalLength(parts) + (if |parts| == 0 then 0 else |parts| - 1)
    decreases |parts|
  {
    if |parts| == 0 then ""
    else if |parts| == 1 then parts[0]
    else parts[0] + [sep] + Join(parts[1..], sep)
  }

  lemma {:induction false} SplitWithoutSeparator(s: string, sep: char)
    requires sep !in s
    ensures Split(s, sep) == [s]
    decreases |s|
  {
    if |s| > 0 {
      assert sep !in s[1..];
      SplitWithoutSeparator(s[1..], sep);
      assert [s[0]] + s[1..] == s;
    }
  }

  /** A separator-free prefix followed by the separator becomes the first piece. */
  lemma {:induction false} SplitAfterPiece(a: string, b: string, sep: char)
    requires sep !in a
    ensures Split(a + [sep] + b, sep) == [a] + Split(b, sep)
    decreases |a|
  {
    var s := a + [sep] + b;
    if |a| == 0 {
      assert s[1..] == b;
    } else {
      assert s[1..] == a[1..] + [sep] + b;
      assert sep !in a[1..];
      SplitAfterPiece(a[1..], b, sep);
      assert [a[0]] + a[1..] == a;
    }
  }

  /** Splitting a join gives back the parts, provided there is at least one
      part and none of them contains the separator. */
  lemma {:induction false} SplitJoin(parts: seq<string>, sep: char)
    requires |parts| >= 1
    requires forall i :: 0 <= i < |parts| ==> sep !in parts[i]
    ensures Split(Join(parts, sep), sep) == parts
    decreases |parts|
  {
    if |parts| == 1 {
      SplitWithoutSeparator(parts[0], sep);
    } else {
      SplitJoin(parts[1..], sep);
      assert parts[0] + [sep] + Join(parts[1..], sep) == Join(parts, sep);
      SplitAfterPiece(parts[0], Join(parts[1..], sep), sep);
      assert [parts[0]] + parts[1..] == parts;
    }
  }

  /** The round trip fails for the empty list: it joins to the empty string,
      which splits to one empty piece. */
  lemma SplitJoinEmpty(sep: char)
    ensures Join([], sep) == ""
    ensures Split(Join([], sep), sep) == [""]
  {
  }

  /** Joining the pieces of a split restores the string, for every string. */
  lemma {:induction false} JoinSplit(s: string, sep: char)
    ensures Join(Split(s, sep), sep) == s
    decreases |s|
  {
    if |s| > 0 {
      JoinSplit(s[1..], sep);
      if s[0] == sep {
        JoinSplitAtSeparator(s, sep);
      } else {
        JoinSplitInPiece(s, sep);
      }
    }
  }

  lemma JoinSplitAtSeparator(s: string, sep: char)
    requires |s| > 0 && s[0] == sep
    requires Join(Split(s[1..], sep), sep) == s[1..]
    ensures Join(Split(s, sep), sep) == s
  {
    JoinCons("", Split(s[1..], sep), sep);
    assert s == [s[0]] + s[1..];
  }

  lemma JoinSplitInPiece(s: string, sep: char)
    requires |s| > 0 && s[0] != sep
    requires Join(Split(s[1..], sep), sep) == s[1..]
    ensures Join(Split(s, sep), sep) == s
  {
    var rest := Split(s[1..], sep);
    var first := [s[0]] + rest[0];
    assert s == [s[0]] + s[1..];
    if |rest| == 1 {
      assert Split(s, sep) == [first];
    } else {
      assert Split(s, sep) == [first] + rest[1..];
      JoinExtendFirst(s[0], rest, sep);
    }
  }

  /** Prepending a character to the first part prepends it to the join. */
  lemma JoinExtendFirst(c: char, parts: seq<string>, sep: char)
    requires |parts| > 1
    ensures Join([[c] + parts[0]] + parts[1..], sep) == [c] + Join(parts, sep)
  {
    JoinCons(parts[0], parts[1..], sep);
    assert [parts[0]] + parts[1..] == parts;
    JoinCons([c] + parts[0], parts[1..], sep);
  }

  lemma JoinCons(head: string, tail: seq<string>, sep: char)
    requires |tail| > 0
    ensures Join([head] + tail, sep) == head + [sep] + Join(tail, sep)
  {
  }

  /** The first piece of a split is the text before the first separator; when
      there are more pieces, that separator follows it and the remaining
      pieces are the split of what comes after. */
  lemma {:induction false} SplitFirst(s: string, sep: char)
    ensures var parts := Split(s, sep);
            && |parts[0]| <= |s| && s[..|parts[0]|] == parts[0]
            && (|parts| == 1 ==> parts[0] == s)
            && (|parts| > 1 ==> |parts[0]| < |s| && s[|parts[0]|] == sep
                                && parts[1..] == Split(s[|parts[0]| + 1..], sep))
    decreases |s|
  {
    if |s| > 0 && s[0] != sep {
      SplitFirst(s[1..], sep);
      var rest := Split(s[1..], sep);
      assert s[..|rest[0]| + 1] == [s[0]] + s[1..][..|rest[0]|];
      if |rest| > 1 {
        assert s[1..][|rest[0]| + 1..] == s[|rest[0]| + 2..];
      }
    }
  }

  /** The first two pieces of a split with at least two pieces, with the
      separator after the second when a third one follows. */
  lemma FirstTwoPieces(s: string, sep: char)
    requires |Split(s, sep)| >= 2
    ensures var parts := Split(s, sep);
      s == parts[0] + [sep] + parts[1] || StartsWith(s, parts[0] + [sep] + parts[1] + [sep])
  {
    var parts := Split(s, sep);
    var p0, p1 := parts[0], parts[1];
    SplitFirst(s, sep);
    var rest := s[|p0| + 1..];
    var restParts := Split(rest, sep);
    assert p1 == restParts[0];
    SplitFirst(rest, sep);
    PieceThenSeparator(s, p0, sep);
    if |restParts| > 1 {
      PieceThenSeparator(rest, p1, sep);
      TwoPiecesPrefix(s, p0, p1, rest[|p1| + 1..], sep);
    } else {
      assert rest == p1;
    }
  }

  lemma TwoPiecesPrefix(s: string, p0: string, p1: string, tail: string, sep: char)
    requires s == p0 + [sep] + (p1 + [sep] + tail)
    ensures StartsWith(s, p0 + [sep] + p1 + [sep])
  {
  }

  lemma PieceThenSeparator(s: string, piece: string, sep: char)
    requires |piece| < |s| && s[..|piece|] == piece && s[|piece|] == sep
    ensures s == piece + [sep] + s[|piece| + 1..]
  {
  }

  /** The last piece of a split is the longest separator-free suffix: it is
      either the whole string or is preceded by a separator. */
  lemma {:induction false} SplitLast(s: string, sep: char)
    ensures var parts := Split(s, sep);
            var last := parts[|parts| - 1];
            && |last| <= |s| && s[|s| - |last|..] == last
            && (|last| < |s| ==> s[|s| - |last| - 1] == sep)
    decreases |s|
  {
    if |s| > 0 {
      var rest := Split(s[1..], sep);
      if s[0] != sep && |rest| == 1 {
        assert sep !in s[1..];
        assert s == [s[0]] + s[1..];
        SplitWithoutSeparator(s, sep);
      } else {
        SplitLast(s[1..], sep);
        LastPieceOfTail(s, sep);
        var last := rest[|rest| - 1];
        assert s[1..][|s| - 1 - |last|..] == s[|s| - |last|..];
      }
    }
  }

  lemma LastPieceOfTail(s: string, sep: char)
    requires |s| > 0
    requires s[0] == sep || |Split(s[1..], sep)| > 1
    ensures var parts := Split(s, sep);
            var rest := Split(s[1..], sep);
            parts[|parts| - 1] == rest[|rest| - 1]
  {
  }

  predicate IsAsciiUpper(c: char) { 'A' <= c <= 'Z' }

  predicate IsAsciiLower(c: char) { 'a' <= c <= 'z' }

  /** `Char.toLowerCase()`, restricted to ASCII letters. */
  function LowerChar(c: char): char {
    if IsAsciiUpper(c) then (c as int + 32) as char else c
  }

  /** `Char.toUpperCase()`, restricted to ASCII letters. */
  function UpperChar(c: char): char {
    if IsAsciiLower(c) then (c as int - 32) as char else c
  }

  /** `String.toLowerCase()`: the character-wise lower-case mapping. */
  function Lower(s: string): (r: string)
    ensures |r| == |s|
    ensures forall i :: 0 <= i < |s| ==> r[i] == LowerChar(s[i])
    decreases |s|
  {
    if |s| == 0 then "" else [LowerChar(s[0])] + Lower(s[1..])
  }

  /** `String.toUpperCase()`: the character-wise upper-case mapping. */
  function Upper(s: string): (r: string)
    ensures |r| == |s|
    ensures forall i :: 0 <= i < |s| ==> r[i] == UpperChar(s[i])
    decreases |s|
  {
    if |s| == 0 then "" else [UpperChar(s[0])] + Upper(s[1..])
  }

  /** Case mapping moves no space: the lower-cased string has its spaces
      exactly where the original had them. */
  lemma {:induction false} LowerKeepsSpaces(s: string)
    ensures Occurrences(Lower(s), ' ') == Occurrences(s, ' ')
    decreases |s|
  {
    if |s| > 0 {
      LowerKeepsSpaces(s[1..]);
      assert Lower(s)[1..] == Lower(s[1..]);
    }
  }

  predicate StartsWith(s: string, prefix: string) {
    |prefix| <= |s| && s[..|prefix|] == prefix
  }

  /** `pattern` occurs in `s` beginning at position `i`. */
  ghost predicate OccursAt(s: string, pattern: string, i: int) {
    0 <= i && i + |pattern| <= |s| && s[i..i + |pattern|] == pattern
  }

  /** `s.contains(pattern)`, tried at each position from the left: true
      exactly when the pattern occurs somewhere in `s`. */
  predicate Contains(s: string, pattern: string): (b: bool)
    ensures b <==> exists i :: OccursAt(s, pattern, i)
    decreases |s|
  {
    if StartsWith(s, pattern) then
      assert OccursAt(s, pattern, 0);
      true
    else if |s| == 0 then
      assert !OccursAt(s, pattern, 0);
      false
    else
      OccursInTail(s, pattern);
      Contains(s[1..], pattern)
  }

  /** An occurrence is at the first position or is an occurrence in the tail. */
  lemma OccursInTail(s: string, pattern: string)
    requires |s| > 0
    ensures (exists i :: OccursAt(s, pattern, i))
            <==> StartsWith(s, pattern) || exists j :: OccursAt(s[1..], pattern, j)
  {
    forall i | 1 <= i
      ensures OccursAt(s, pattern, i) <==> OccursAt(s[1..], pattern, i - 1)
    {
      if i + |pattern| <= |s| {
        assert s[1..][i - 1..i - 1 + |pattern|] == s[i..i + |pattern|];
      }
    }
    if exists j :: OccursAt(s[1..], pattern, j) {
      var j :| OccursAt(s[1..], pattern, j);
      assert OccursAt(s, pattern, j + 1);
    }
    if StartsWith(s, pattern) {
      assert OccursAt(s, pattern, 0);
    }
  }

  /** The string with every occurrence of `c` deleted: `replace("c", "")`.
      What remains keeps its order and every other character's count, which
      determines the result. */
  function RemoveAll(s: string, c: char): (r: string)
    ensures c !in r
    ensures forall i :: 0 <= i < |s| && s[i] != c ==> s[i] in r
    ensures forall i :: 0 <= i < |r| ==> r[i] in s
    ensures IsSubsequence(r, s)
    ensures multiset(r) == multiset(s)[c := 0]
    decreases |s|
  {
    if |s| == 0 then ""
    else
      var rest := RemoveAll(s[1..], c);
      assert forall i :: 1 <= i < |s| ==> s[i] == s[1..][i - 1];
      assert s == [s[0]] + s[1..];
      if s[0] == c then rest else [s[0]] + rest
  }

  /** Deleting a character distributes over concatenation. */
  lemma {:induction false} RemoveAllConcat(a: string, b: string, c: char)
    ensures RemoveAll(a + b, c) == RemoveAll(a, c) + RemoveAll(b, c)
    decreases |a|
  {
    if |a| == 0 {
      assert a + b == b;
    } else {
      assert (a + b)[1..] == a[1..] + b;
      RemoveAllConcat(a[1..], b, c);
    }
  }

  /** Deleting a character that does not occur changes nothing. */
  lemma {:induction false} RemoveAllAbsent(s: string, c: char)
    requires c !in s
    ensures RemoveAll(s, c) == s
    decreases |s|
  {
    if |s| > 0 {
      assert c !in s[1..];
      RemoveAllAbsent(s[1..], c);
      assert [s[0]] + s[1..] == s;
    }
  }
}
