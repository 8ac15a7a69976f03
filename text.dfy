/**
 * The string operations the views use: String.prototype.trim, toLowerCase,
 * includes, split on one character and Array.prototype.join.
 */
module Text {

  /** The characters `trim` strips: ECMAScript WhiteSpace and LineTerminator code points. */
  predicate IsSpace(c: char)
  {
    || c == ' ' || c == '\t' || c == '\n' || c == '\r' || c == '\U{000B}' || c == '\U{000C}'
    || c == '\U{00A0}' || c == '\U{1680}' || ('\U{2000}' <= c <= '\U{200A}')
    || c == '\U{2028}' || c == '\U{2029}' || c == '\U{202F}' || c == '\U{205F}'
    || c == '\U{3000}' || c == '\U{FEFF}'
  }

  /** Drops leading white space; what is left is a suffix of `s`. */
  function TrimStart(s: string): (r: string)
    ensures |r| <= |s| && r == s[|s| - |r|..]
    ensures r == [] || !IsSpace(r[0])
    ensures forall k :: 0 <= k < |s| - |r| ==> IsSpace(s[k])
  {
    if s != [] && IsSpace(s[0]) then TrimStart(s[1..]) else s
  }

  /** Drops trailing white space; what is left is a prefix of `s`. */
  function TrimEnd(s: string): (r: string)
    ensures |r| <= |s| && r == s[..|r|]
    ensures r == [] || !IsSpace(r[|r| - 1])
    ensures forall k :: |r| <= k < |s| ==> IsSpace(s[k])
  {
    if s != [] && IsSpace(s[|s| - 1]) then TrimEnd(s[..|s| - 1]) else s
  }

  /** String.prototype.trim. */
  function Trim(s: string): (r: string)
    ensures r == [] || (!IsSpace(r[0]) && !IsSpace(r[|r| - 1]))
    ensures r == [] <==> forall k :: 0 <= k < |s| ==> IsSpace(s[k])
    ensures |r| <= |s|
  {
    TrimEnd(TrimStart(s))
  }

  /** What trim drops at the end is white space, from right after the kept slice. */
  lemma TrimDropsTrailing(s: string)
    ensures forall k :: |s| - |TrimStart(s)| + |Trim(s)| <= k < |s| ==> IsSpace(s[k])
  {
    var t := TrimStart(s);
    assert forall k :: 0 <= k < |t| ==> t[k] == s[|s| - |t| + k];
  }

  /** The trimmed text is the slice of `s` that starts after the leading white space. */
  lemma TrimOccurs(s: string)
    ensures OccursAt(s, Trim(s), |s| - |TrimStart(s)|)
  {
    PrefixOfSuffix(s, TrimStart(s), Trim(s));
  }

  /** A prefix of a suffix of `s` occurs in `s` where the suffix starts. */
  lemma PrefixOfSuffix(s: string, t: string, r: string)
    requires |t| <= |s| && t == s[|s| - |t|..]
    requires |r| <= |t| && r == t[..|r|]
    ensures OccursAt(s, r, |s| - |t|)
  {
    var i := |s| - |t|;
    assert s[i..i + |r|] == t[..|r|];
  }

  /**
   * Trim pinned down independently: cutting `s` into white space, a middle
   * that starts and ends with a non-space character (or is empty), and white
   * space again, the middle is the trim.
   */
  lemma TrimIsMiddle(s: string, i: int, j: int)
    requires 0 <= i <= j <= |s|
    requires forall k :: 0 <= k < i ==> IsSpace(s[k])
    requires forall k :: j <= k < |s| ==> IsSpace(s[k])
    requires i < j ==> !IsSpace(s[i]) && !IsSpace(s[j - 1])
    ensures Trim(s) == s[i..j]
  {
    if i == j {
      AllSpace(s, i);
    } else {
      TrimStartAt(s, i);
      TrimEndOfSuffix(s, i, j);
    }
  }

  /** Two runs of white space meeting at `i` make a blank string. */
  lemma AllSpace(s: string, i: int)
    requires 0 <= i <= |s|
    requires forall k :: 0 <= k < i ==> IsSpace(s[k])
    requires forall k :: i <= k < |s| ==> IsSpace(s[k])
    ensures Trim(s) == []
  {
    assert forall k :: 0 <= k < |s| ==> IsSpace(s[k]);
  }

  /** TrimEnd of the suffix from `i` stops after the last non-space character at `j - 1`. */
  lemma TrimEndOfSuffix(s: string, i: int, j: int)
    requires 0 <= i < j <= |s| && !IsSpace(s[j - 1])
    requires forall k :: j <= k < |s| ==> IsSpace(s[k])
    ensures TrimEnd(s[i..]) == s[i..j]
  {
    var t := s[i..];
    assert t[j - i - 1] == s[j - 1];
    assert forall k :: j - i <= k < |t| ==> IsSpace(t[k]) by {
      forall k | j - i <= k < |t|
        ensures IsSpace(t[k])
      {
        assert t[k] == s[k + i];
      }
    }
    TrimEndAt(t, j - i);
    assert t[..j - i] == s[i..j];
  }

  /** White space up to a non-space character at `i` is what TrimStart drops. */
  lemma {:induction false} TrimStartAt(s: string, i: int)
    requires 0 <= i < |s| && !IsSpace(s[i])
    requires forall k :: 0 <= k < i ==> IsSpace(s[k])
    ensures TrimStart(s) == s[i..]
  {
    if i > 0 {
      TrimStartAt(s[1..], i - 1);
      assert s[1..][i - 1..] == s[i..];
    }
  }

  /** White space after a non-space character at `j - 1` is what TrimEnd drops. */
  lemma {:induction false} TrimEndAt(s: string, j: int)
    requires 0 < j <= |s| && !IsSpace(s[j - 1])
    requires forall k :: j <= k < |s| ==> IsSpace(s[k])
    ensures TrimEnd(s) == s[..j]
  {
    if j < |s| {
      TrimEndAt(s[..|s| - 1], j);
      assert s[..|s| - 1][..j] == s[..j];
    }
  }

  /** Text with no white space at either end is its own trim. */
  lemma TrimOfTrimmed(s: string)
    requires s == [] || (!IsSpace(s[0]) && !IsSpace(s[|s| - 1]))
    ensures Trim(s) == s
  {
  }

  /** Leading white space does not change the trimmed text. */
  lemma TrimLeadingSpace(c: char, s: string)
    requires IsSpace(c)
    ensures Trim([c] + s) == Trim(s)
  {
    assert ([c] + s)[1..] == s;
  }

  /** Trimmed text holds only characters of the original. */
  lemma TrimChars(s: string, x: char)
    requires x !in s
    ensures x !in Trim(s)
  {
    var r, i := Trim(s), |s| - |TrimStart(s)|;
    TrimOccurs(s);
    forall k | 0 <= k < |r|
      ensures r[k] != x
    {
      assert r[k] == s[i..i + |r|][k] == s[i + k];
    }
  }

  /** Text that is empty once trimmed. */
  predicate IsBlank(s: string)
  {
    Trim(s) == []
  }

  /**
   * toLowerCase on one character. Only the ASCII letters are folded here; see
   * README for what this leaves out.
   */
  function LowerChar(c: char): (d: char)
    ensures 'A' <= c <= 'Z' ==> 'a' <= d <= 'z'
    ensures !('A' <= c <= 'Z') ==> d == c
  {
    if 'A' <= c <= 'Z' then (c as int - 'A' as int + 'a' as int) as char else c
  }

  /** String.prototype.toLowerCase, applied character by character. */
  function Lower(s: string): (r: string)
    ensures |r| == |s|
    ensures forall k :: 0 <= k < |s| ==> r[k] == LowerChar(s[k])
  {
    seq(|s|, k requires 0 <= k < |s| => LowerChar(s[k]))
  }

  lemma LowerIdempotent(s: string)
    ensures Lower(Lower(s)) == Lower(s)
  {
  }

  /** String.prototype.includes: `sub` occurs contiguously in `s` (the empty string occurs everywhere). */
  predicate Contains(s: string, sub: string)
  {
    sub <= s || (s != [] && Contains(s[1..], sub))
  }

  /** `sub` occurs in `s` starting at position `i`. */
  predicate OccursAt(s: string, sub: string, i: int)
  {
    0 <= i <= |s| - |sub| && s[i..i + |sub|] == sub
  }

  /** Contains agrees with the positional definition of a substring. */
  lemma {:induction false} ContainsAt(s: string, sub: string)
    ensures Contains(s, sub) <==> exists i :: OccursAt(s, sub, i)
  {
    if sub <= s {
      assert OccursAt(s, sub, 0);
    } else if s == [] {
      assert forall i :: !OccursAt(s, sub, i);
    } else {
      ContainsAt(s[1..], sub);
      forall i | OccursAt(s, sub, i)
        ensures OccursAt(s[1..], sub, i - 1)
      {
        assert i != 0;
        assert s[1..][i - 1..i - 1 + |sub|] == s[i..i + |sub|];
      }
      forall i | OccursAt(s[1..], sub, i)
        ensures OccursAt(s, sub, i + 1)
      {
        assert s[1..][i..i + |sub|] == s[i + 1..i + 1 + |sub|];
      }
    }
  }

  /** The position of the first `sep` in `s`, or -1 when there is none. */
  function SeparatorIndex(s: string, sep: char): (i: int)
    ensures -1 <= i < |s|
    ensures i >= 0 ==> s[i] == sep
  {
    if s == [] then -1
    else if s[0] == sep then 0
    else
      var j := SeparatorIndex(s[1..], sep);
      if j < 0 then -1 else j + 1
  }

  /** No separator comes before the first one, and there is none at all exactly when the index is -1. */
  lemma {:induction false} SeparatorIndexFirst(s: string, sep: char)
    ensures SeparatorIndex(s, sep) >= 0 ==> sep !in s[..SeparatorIndex(s, sep)]
    ensures SeparatorIndex(s, sep) < 0 <==> sep !in s
  {
    if s != [] && s[0] != sep {
      SeparatorIndexFirst(s[1..], sep);
      var j := SeparatorIndex(s[1..], sep);
      if j >= 0 {
        assert s[..j + 1] == [s[0]] + s[1..][..j];
      } else {
        assert s == [s[0]] + s[1..];
      }
    }
  }

  /** A position holding `sep` with no `sep` before it is the first separator. */
  lemma {:induction false} SeparatorIndexIs(s: string, sep: char, i: int)
    requires 0 <= i < |s| && s[i] == sep && sep !in s[..i]
    ensures SeparatorIndex(s, sep) == i
  {
    if i > 0 {
      assert s[0] == s[..i][0];
      assert s[1..][..i - 1] == s[..i][1..];
      SeparatorIndexIs(s[1..], sep, i - 1);
    }
  }

  /**
   * String.prototype.split with a one-character separator: the text up to the
   * first separator, then the split of the rest, so "" gives [""] and "a,,b"
   * gives ["a", "", "b"].
   */
  function Split(s: string, sep: char): (r: seq<string>)
    ensures |r| >= 1
    decreases |s|
  {
    var i := SeparatorIndex(s, sep);
    if i < 0 then [s] else [s[..i]] + Split(s[i + 1..], sep)
  }

  /** No piece of a split holds the separator. */
  lemma {:induction false} SplitPiecesFree(s: string, sep: char)
    ensures forall k :: 0 <= k < |Split(s, sep)| ==> sep !in Split(s, sep)[k]
    decreases |s|
  {
    var i := SeparatorIndex(s, sep);
    SeparatorIndexFirst(s, sep);
    if i >= 0 {
      SplitPiecesFree(s[i + 1..], sep);
      assert Split(s, sep) == [s[..i]] + Split(s[i + 1..], sep);
    }
  }

  /** Array.prototype.join: the pieces with `sep` between neighbours ([] gives ""). */
  function Join(pieces: seq<string>, sep: string): string
  {
    if pieces == [] then ""
    else if |pieces| == 1 then pieces[0]
    else pieces[0] + sep + Join(pieces[1..], sep)
  }

  /** Joining a first piece in front of at least one more puts `sep` between them. */
  lemma JoinCons(first: string, rest: seq<string>, sep: string)
    requires |rest| >= 1
    ensures Join([first] + rest, sep) == first + sep + Join(rest, sep)
  {
    assert ([first] + rest)[1..] == rest;
  }

  /** Joining the pieces of a split with the same separator gives back the input. */
  lemma {:induction false} JoinSplit(s: string, sep: char)
    ensures Join(Split(s, sep), [sep]) == s
    decreases |s|
  {
    var i := SeparatorIndex(s, sep);
    if i >= 0 {
      JoinSplit(s[i + 1..], sep);
      JoinSplitStep(s, sep, i);
    }
  }

  /** The inductive step of JoinSplit: the first piece, the separator, then the rest rejoined. */
  lemma JoinSplitStep(s: string, sep: char, i: int)
    requires i == SeparatorIndex(s, sep) && i >= 0
    requires Join(Split(s[i + 1..], sep), [sep]) == s[i + 1..]
    ensures Join(Split(s, sep), [sep]) == s
  {
    Reassemble(s, sep, i, Split(s, sep), Split(s[i + 1..], sep));
  }

  /** A text cut at position `i` of a separator is the join of the piece before it and the pieces after it. */
  lemma Reassemble(s: string, sep: char, i: int, pieces: seq<string>, rest: seq<string>)
    requires 0 <= i < |s| && s[i] == sep
    requires pieces == [s[..i]] + rest && |rest| >= 1
    requires Join(rest, [sep]) == s[i + 1..]
    ensures Join(pieces, [sep]) == s
  {
    JoinCons(s[..i], rest, [sep]);
    assert s == s[..i] + [sep] + s[i + 1..];
  }

  /** Text without the separator is one piece. */
  lemma SplitNoSeparator(s: string, sep: char)
    requires sep !in s
    ensures Split(s, sep) == [s]
  {
    SeparatorIndexFirst(s, sep);
  }

  /** A character other than the separator in front of the text joins its first piece. */
  lemma SplitCons(c: char, s: string, sep: char)
    requires c != sep
    ensures Split([c] + s, sep) == [[c] + Split(s, sep)[0]] + Split(s, sep)[1..]
  {
    var i := SeparatorIndex(s, sep);
    var cs := [c] + s;
    SeparatorIndexFirst(s, sep);
    if i < 0 {
      assert sep !in cs;
      SeparatorIndexFirst(cs, sep);
    } else {
      assert cs[i + 1] == sep && cs[..i + 1] == [c] + s[..i];
      SeparatorIndexIs(cs, sep, i + 1);
      assert cs[i + 2..] == s[i + 1..];
    }
  }

  /** With no separator in `a`, the separator after it ends the first piece. */
  lemma SplitAppendFirstPiece(a: string, b: string, sep: char)
    requires sep !in a
    ensures Split(a + [sep] + b, sep) == [a] + Split(b, sep)
  {
    var x := a + [sep] + b;
    assert x[..|a|] == a && x[|a|] == sep;
    SeparatorIndexIs(x, sep, |a|);
    assert x[|a| + 1..] == b;
  }
}
