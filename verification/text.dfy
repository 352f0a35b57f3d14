/** The JavaScript string operations the dashboard relies on, over `string = seq<char>`:
    `toLowerCase`, `includes`, the `<` relation, the regular-expression class `\s`,
    and `split`/`join` on a one-character separator. */
module Text {

  // ---------------------------------------------------------------------------
  // Case folding

  /** Lower-case folding of one character; only the ASCII letters are folded. */
  function LowerChar(c: char): char
  {
    if 'A' <= c <= 'Z' then (c as int + 32) as char else c
  }

  /** `s.toLowerCase()`, restricted to ASCII folding. */
  function Lower(s: string): (r: string)
    ensures |r| == |s|
    ensures forall i :: 0 <= i < |s| ==> r[i] == LowerChar(s[i])
  {
    if s == [] then [] else [LowerChar(s[0])] + Lower(s[1..])
  }

  /** Folding twice is folding once. */
  lemma LowerIdempotent(s: string)
    ensures Lower(Lower(s)) == Lower(s)
  {
    assert forall i :: 0 <= i < |s| ==> LowerChar(LowerChar(s[i])) == LowerChar(s[i]);
  }

  // ---------------------------------------------------------------------------
  // Substring search

  /** `needle` occurs in `hay` starting at index `i`. */
  ghost predicate OccursAt(hay: string, needle: string, i: int)
  {
    0 <= i && i + |needle| <= |hay| && hay[i..i + |needle|] == needle
  }

  /** `needle` occurs somewhere in `hay`. */
  ghost predicate Occurs(hay: string, needle: string)
  {
    exists i :: OccursAt(hay, needle, i)
  }

  /** `hay.includes(needle)`: tries every start position from the left. */
  function Includes(hay: string, needle: string): bool
    decreases |hay|
  {
    (|needle| <= |hay| && hay[..|needle|] == needle) || (|hay| > 0 && Includes(hay[1..], needle))
  }

  /** An occurrence in the tail of `hay` is an occurrence in `hay` one index later. */
  lemma OccursShift(hay: string, needle: string, i: int)
    requires |hay| > 0 && 0 <= i
    ensures OccursAt(hay[1..], needle, i) <==> OccursAt(hay, needle, i + 1)
  {
    if i + |needle| <= |hay[1..]| {
      assert hay[1..][i..i + |needle|] == hay[i + 1..i + 1 + |needle|];
    }
  }

  /** A successful search yields the index it found. */
  lemma {:induction false} IncludesFindsIndex(hay: string, needle: string) returns (i: int)
    requires Includes(hay, needle)
    ensures OccursAt(hay, needle, i)
    decreases |hay|
  {
    if |needle| <= |hay| && hay[..|needle|] == needle {
      i := 0;
    } else {
      var j := IncludesFindsIndex(hay[1..], needle);
      OccursShift(hay, needle, j);
      i := j + 1;
    }
  }

  /** A search finds every occurrence: none is skipped. */
  lemma {:induction false} OccurrenceIsFound(hay: string, needle: string, i: int)
    requires OccursAt(hay, needle, i)
    ensures Includes(hay, needle)
    decreases i
  {
    if i > 0 {
      OccursShift(hay, needle, i - 1);
      OccurrenceIsFound(hay[1..], needle, i - 1);
    }
  }

  /** `Includes` holds exactly when the needle occurs at some index of the haystack. */
  lemma IncludesIffOccurs(hay: string, needle: string)
    ensures Includes(hay, needle) <==> Occurs(hay, needle)
  {
    if Includes(hay, needle) {
      var i := IncludesFindsIndex(hay, needle);
    }
    if Occurs(hay, needle) {
      var i :| OccursAt(hay, needle, i);
      OccurrenceIsFound(hay, needle, i);
    }
  }

  // ---------------------------------------------------------------------------
  // String ordering

  /** JavaScript `a < b` on strings: lexicographic comparison, a proper prefix being smaller. */
  predicate Less(a: string, b: string)
    decreases |a|
  {
    if |b| == 0 then false
    else if |a| == 0 then true
    else if a[0] != b[0] then a[0] < b[0]
    else Less(a[1..], b[1..])
  }

  /** No string is smaller than itself. */
  lemma {:induction false} LessIrreflexive(a: string)
    ensures !Less(a, a)
    decreases |a|
  {
    if |a| > 0 {
      LessIrreflexive(a[1..]);
    }
  }

  /** `<` on strings is transitive. */
  lemma {:induction false} LessTransitive(a: string, b: string, c: string)
    requires Less(a, b) && Less(b, c)
    ensures Less(a, c)
    decreases |a|
  {
    if |a| > 0 && a[0] == b[0] && b[0] == c[0] {
      LessTransitive(a[1..], b[1..], c[1..]);
    }
  }

  /** Any two distinct strings are ordered one way or the other. */
  lemma {:induction false} LessTrichotomy(a: string, b: string)
    ensures a == b || Less(a, b) || Less(b, a)
    decreases |a|
  {
    if |a| > 0 && |b| > 0 && a[0] == b[0] {
      LessTrichotomy(a[1..], b[1..]);
      if a[1..] == b[1..] {
        assert a == [a[0]] + a[1..] && b == [b[0]] + b[1..];
      }
    }
  }

  /** `<` on strings is asymmetric. */
  lemma {:induction false} LessAsymmetric(a: string, b: string)
    requires Less(a, b)
    ensures !Less(b, a)
    decreases |a|
  {
    if |a| > 0 && a[0] == b[0] {
      LessAsymmetric(a[1..], b[1..]);
    }
  }

  /** The textbook lexicographic order: `a` is a proper prefix of `b`, or the two agree
      up to a first differing position where `a` has the smaller character. */
  ghost predicate Lexicographic(a: string, b: string)
  {
    (|a| < |b| && b[..|a|] == a) ||
    (exists i :: 0 <= i < |a| && i < |b| && a[..i] == b[..i] && a[i] < b[i])
  }

  /** Every pair `Less` orders is ordered lexicographically. */
  lemma {:induction false} LessIsLexicographic(a: string, b: string)
    requires Less(a, b)
    ensures Lexicographic(a, b)
    decreases |a|
  {
    if |a| == 0 {
      assert b[..0] == a;
    } else if a[0] != b[0] {
      assert a[..0] == b[..0];
    } else {
      LessIsLexicographic(a[1..], b[1..]);
      if |a| - 1 < |b| - 1 && b[1..][..|a| - 1] == a[1..] {
        assert b[..|a|] == [b[0]] + b[1..][..|a| - 1];
        assert a == [a[0]] + a[1..];
      } else {
        var j :| 0 <= j < |a| - 1 && j < |b| - 1 && a[1..][..j] == b[1..][..j] && a[1..][j] < b[1..][j];
        assert a[..j + 1] == [a[0]] + a[1..][..j];
        assert b[..j + 1] == [b[0]] + b[1..][..j];
      }
    }
  }

  /** Every pair ordered lexicographically is ordered by `Less`. */
  lemma {:induction false} LexicographicIsLess(a: string, b: string)
    requires Lexicographic(a, b)
    ensures Less(a, b)
    decreases |a|
  {
    if |a| > 0 {
      assert |b| > 0;
      if |a| < |b| && b[..|a|] == a {
        assert b[0] == b[..|a|][0];
        assert b[1..][..|a| - 1] == a[1..];
        LexicographicIsLess(a[1..], b[1..]);
      } else {
        var i :| 0 <= i < |a| && i < |b| && a[..i] == b[..i] && a[i] < b[i];
        if i > 0 {
          assert a[0] == a[..i][0];
          assert a[1..][..i - 1] == a[1..i] == b[1..i] == b[1..][..i - 1];
          assert a[1..][i - 1] < b[1..][i - 1];
          LexicographicIsLess(a[1..], b[1..]);
        }
      }
    }
  }

  // ---------------------------------------------------------------------------
  // Whitespace

  /** The characters matched by the regular-expression class `\s`: the ECMAScript
      WhiteSpace and LineTerminator code points. */
  predicate IsSpace(c: char)
  {
    c == '\t' || c == '\n' || c == '\U{B}' || c == '\U{C}' || c == '\r' || c == ' ' ||
    c == '\U{A0}' || c == '\U{1680}' || ('\U{2000}' <= c <= '\U{200A}') ||
    c == '\U{2028}' || c == '\U{2029}' || c == '\U{202F}' || c == '\U{205F}' ||
    c == '\U{3000}' || c == '\U{FEFF}'
  }

  // ---------------------------------------------------------------------------
  // split / join on one separator character

  /** `s.split(sep)`: the maximal runs between separators, empty runs included. */
  function Split(s: string, sep: char): (parts: seq<string>)
    ensures |parts| >= 1
    decreases |s|
  {
    if |s| == 0 then [""]
    else
      var rest := Split(s[1..], sep);
      if s[0] == sep then [""] + rest else [[s[0]] + rest[0]] + rest[1..]
  }

  /** `parts.join(sep)`. */
  function Join(parts: seq<string>, sep: char): string
    decreases |parts|
  {
    if |parts| == 0 then ""
    else if |parts| == 1 then parts[0]
    else parts[0] + [sep] + Join(parts[1..], sep)
  }

  /** No part of a split contains the separator, and there is more than one part
      exactly when the separator occurs. */
  lemma {:induction false} SplitParts(s: string, sep: char)
    ensures forall i :: 0 <= i < |Split(s, sep)| ==> sep !in Split(s, sep)[i]
    ensures |Split(s, sep)| > 1 <==> sep in s
    decreases |s|
  {
    if |s| > 0 {
      SplitParts(s[1..], sep);
      var rest := Split(s[1..], sep);
      assert sep in s <==> s[0] == sep || sep in s[1..] by {
        assert s == [s[0]] + s[1..];
      }
      if s[0] != sep {
        var parts := Split(s, sep);
        assert parts[0] == [s[0]] + rest[0];
        assert forall i :: 1 <= i < |parts| ==> parts[i] == rest[i];
      }
    }
  }

  /** Joining the parts of a split with the same separator rebuilds the string. */
  lemma {:induction false} JoinSplit(s: string, sep: char)
    ensures Join(Split(s, sep), sep) == s
    decreases |s|
  {
    if |s| > 0 {
      JoinSplit(s[1..], sep);
      var rest := Split(s[1..], sep);
      if s[0] == sep {
        assert Split(s, sep)[1..] == rest;
        assert s == [sep] + s[1..];
      } else {
        var parts := Split(s, sep);
        if |rest| == 1 {
          assert s == [s[0]] + s[1..];
        } else {
          assert parts[1..] == rest[1..];
          assert Join(rest, sep) == rest[0] + [sep] + Join(rest[1..], sep);
          assert s == [s[0]] + s[1..];
        }
      }
    }
  }

  /** The first part of a split and the join of the others rebuild the string: a single
      part is the string itself, and otherwise the two meet at the first separator. */
  lemma {:induction false} JoinTailOfSplit(s: string, sep: char)
    ensures var parts := Split(s, sep);
      |parts| == 1 ==> parts[0] == s
    ensures var parts := Split(s, sep);
      |parts| > 1 ==> s == parts[0] + [sep] + Join(parts[1..], sep)
  {
    JoinSplit(s, sep);
  }
}
