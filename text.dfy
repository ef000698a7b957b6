/** Character and string operations shared by the client and the server:
    the whitespace class of JavaScript regular expressions and `trim`,
    lower-casing, splitting on one separator character (`str.split(sep)`
    in JavaScript and Python agree for a one-character separator),
    substring search and the code-point order Python uses on `str`. */
module Text {
  import opened Wrappers

  /** The characters JavaScript's `\s` matches and `String.prototype.trim`
      removes (WhiteSpace and LineTerminator of ECMAScript). */
  predicate IsWhitespace(c: char) {
    || c == '\t' || c == '\n' || c == '\U{000B}' || c == '\U{000C}' || c == '\r' || c == ' '
    || c == '\U{00A0}' || c == '\U{1680}' || ('\U{2000}' <= c <= '\U{200A}')
    || c == '\U{2028}' || c == '\U{2029}' || c == '\U{202F}' || c == '\U{205F}'
    || c == '\U{3000}' || c == '\U{FEFF}'
  }

  predicate NoWhitespace(s: string) {
    forall i :: 0 <= i < |s| ==> !IsWhitespace(s[i])
  }

  // ---------------------------------------------------------------------
  // Lower-casing (ASCII letters only)

  function LowerChar(c: char): char {
    if 'A' <= c <= 'Z' then (c as int - 'A' as int + 'a' as int) as char else c
  }

  function Lower(s: string): (r: string)
    ensures |r| == |s|
    ensures forall i :: 0 <= i < |s| ==> r[i] == LowerChar(s[i])
  {
    seq(|s|, i requires 0 <= i < |s| => LowerChar(s[i]))
  }

  predicate IsLower(s: string) {
    forall i :: 0 <= i < |s| ==> !('A' <= s[i] <= 'Z')
  }

  /** Lower-casing leaves no upper-case letter, so doing it twice changes nothing. */
  lemma LowerIsLower(s: string)
    ensures IsLower(Lower(s))
    ensures Lower(Lower(s)) == Lower(s)
  {
    assert forall i :: 0 <= i < |s| ==> LowerChar(LowerChar(s[i])) == LowerChar(s[i]);
  }

  /** A string without upper-case letters is its own lower-case form. */
  lemma LowerOfLower(s: string)
    requires IsLower(s)
    ensures Lower(s) == s
  {
  }

  // ---------------------------------------------------------------------
  // Splitting on one separator character

  /** `s.split(sep)`: the pieces between occurrences of `sep`, including the
      empty pieces before a leading, after a trailing and between two
      adjacent separators; the empty string splits into one empty piece. */
  function Split(s: string, sep: char): (parts: seq<string>)
    ensures |parts| >= 1
    ensures forall k :: 0 <= k < |parts| ==> sep !in parts[k]
  {
    if s == [] then [[]]
    else
      var rest := Split(s[1..], sep);
      assert s == [s[0]] + s[1..];
      if s[0] == sep then [[]] + rest
      else [[s[0]] + rest[0]] + rest[1..]
  }

  /** There is one more piece than there are separators. */
  lemma {:induction false} SplitCount(s: string, sep: char)
    ensures |Split(s, sep)| == multiset(s)[sep] + 1
  {
    if s != [] {
      SplitCount(s[1..], sep);
      assert s == [s[0]] + s[1..];
    }
  }

  /** `parts.join(sep)`. */
  function Join(parts: seq<string>, sep: char): string
    requires |parts| >= 1
  {
    if |parts| == 1 then parts[0] else parts[0] + [sep] + Join(parts[1..], sep)
  }

  /** The strings one after another, with nothing between them. */
  function Concat(ss: seq<string>): string {
    if ss == [] then [] else ss[0] + Concat(ss[1..])
  }

  /** Joining the pieces with the separator gives the string back. */
  lemma {:induction false} JoinSplit(s: string, sep: char)
    ensures Join(Split(s, sep), sep) == s
  {
    if s != [] {
      JoinSplit(s[1..], sep);
      var rest := Split(s[1..], sep);
      if s[0] != sep && |rest| > 1 {
        assert Split(s, sep)[1..] == rest[1..];
      }
    }
  }

  /** Splitting a string that holds no separator gives it back as the only piece. */
  lemma {:induction false} SplitWithoutSeparator(s: string, sep: char)
    requires sep !in s
    ensures Split(s, sep) == [s]
  {
    if s != [] {
      SplitWithoutSeparator(s[1..], sep);
      assert [s[0]] + s[1..] == s;
    }
  }

  /** A separator after a separator-free prefix ends the first piece. */
  lemma {:induction false} SplitAfterPrefix(a: string, sep: char, b: string)
    requires sep !in a
    ensures Split(a + [sep] + b, sep) == [a] + Split(b, sep)
  {
    if a == [] {
      assert a + [sep] + b == [sep] + b;
      assert ([sep] + b)[1..] == b;
    } else {
      SplitAfterPrefix(a[1..], sep, b);
      assert (a + [sep] + b)[1..] == a[1..] + [sep] + b;
      assert [a[0]] + a[1..] == a;
    }
  }

  /** Splitting undoes joining pieces that hold no separator. */
  lemma {:induction false} SplitJoin(parts: seq<string>, sep: char)
    requires |parts| >= 1
    requires forall k :: 0 <= k < |parts| ==> sep !in parts[k]
    ensures Split(Join(parts, sep), sep) == parts
  {
    if |parts| == 1 {
      SplitWithoutSeparator(parts[0], sep);
    } else {
      SplitJoin(parts[1..], sep);
      SplitAfterPrefix(parts[0], sep, Join(parts[1..], sep));
      assert [parts[0]] + parts[1..] == parts;
    }
  }

  /** Dropping the first character keeps the last piece, as long as a
      separator is left after it or is the character dropped. */
  lemma SplitLastOfTail(s: string, sep: char)
    requires s != [] && (s[0] == sep || sep in s[1..])
    ensures |Split(s[1..], sep)| >= 1 && Last(Split(s, sep)) == Last(Split(s[1..], sep))
  {
    var rest := Split(s[1..], sep);
    if s[0] == sep {
      assert Split(s, sep) == [[]] + rest;
    } else {
      SplitAtLeastTwo(s[1..], sep);
      var whole := [[s[0]] + rest[0]] + rest[1..];
      assert Split(s, sep) == whole;
      assert |whole| == |rest|;
      assert whole[|whole| - 1] == rest[1..][|rest| - 2] == rest[|rest| - 1];
    }
  }

  /** A string holding the separator splits into at least two pieces. */
  lemma {:induction false} SplitAtLeastTwo(s: string, sep: char)
    requires sep in s
    ensures |Split(s, sep)| >= 2
  {
    if s[0] != sep {
      assert s == [s[0]] + s[1..];
      SplitAtLeastTwo(s[1..], sep);
    }
  }

  function Last<T>(s: seq<T>): T
    requires |s| >= 1
  {
    s[|s| - 1]
  }

  /** The last piece of `s.split(sep)` is the text after the last `sep`, or
      the whole of `s` when it holds no `sep`. */
  lemma {:induction false} LastPiece(s: string, sep: char)
    ensures var p := Last(Split(s, sep));
      && |p| <= |s| && p == s[|s| - |p|..]
      && (|p| < |s| ==> s[|s| - |p| - 1] == sep)
      && (sep !in s ==> p == s)
  {
    if sep !in s {
      SplitWithoutSeparator(s, sep);
    } else if s != [] {
      var t := s[1..];
      assert sep in t || s[0] == sep by { assert s == [s[0]] + t; }
      SplitLastOfTail(s, sep);
      LastPiece(t, sep);
      var q := Last(Split(t, sep));
      assert t[|t| - |q|..] == s[|s| - |q|..];
      if s[0] != sep {
        var i :| 0 <= i < |t| && t[i] == sep;
        assert sep !in q;
        assert forall j :: |t| - |q| <= j < |t| ==> t[j] == q[j - (|t| - |q|)];
      }
    }
  }

  // ---------------------------------------------------------------------
  // Searching

  /** Index of the last occurrence of `c` in `s` (`rfind`), if any. */
  function LastIndexOf(s: string, c: char): (r: Option<nat>)
    ensures r.None? <==> c !in s
    ensures r.Some? ==> r.value < |s| && s[r.value] == c && c !in s[r.value + 1..]
  {
    if s == [] then None
    else if s[|s| - 1] == c then Some(|s| - 1)
    else
      var r := LastIndexOf(s[..|s| - 1], c);
      DropLast(s, if r.Some? then r.value + 1 else 0);
      r
  }

  /** `s` is its prefix without the last character, plus that character,
      also from any position `j` on. */
  lemma DropLast(s: string, j: nat)
    requires j < |s|
    ensures s == s[..|s| - 1] + [s[|s| - 1]]
    ensures s[j..] == s[..|s| - 1][j..] + [s[|s| - 1]]
  {
  }

  /** An occurrence of `c` with none after it is the last one. */
  lemma LastIndexOfAt(s: string, c: char, i: nat)
    requires i < |s| && s[i] == c
    requires forall j :: i < j < |s| ==> s[j] != c
    ensures LastIndexOf(s, c) == Some(i)
  {
    var r := LastIndexOf(s, c).value;
    forall j | r < j < |s| ensures s[j] != c {
      assert s[j] == s[r + 1..][j - r - 1];
    }
  }

  /** Python's `sub in s` (and JavaScript's `s.includes(sub)`). */
  predicate Contains(s: string, sub: string)
    decreases |s|
  {
    if sub <= s then true
    else if s == [] then false
    else Contains(s[1..], sub)
  }

  /** `Contains` holds exactly when `sub` occurs at some position of `s`. */
  lemma {:induction false} ContainsAt(s: string, sub: string)
    ensures Contains(s, sub) <==> exists i :: 0 <= i <= |s| - |sub| && sub <= s[i..]
    decreases |s|
  {
    if sub <= s {
      assert s[0..] == s;
    } else if s != [] {
      ContainsAt(s[1..], sub);
      if Contains(s, sub) {
        var i :| 0 <= i <= |s| - 1 - |sub| && sub <= s[1..][i..];
        assert s[1..][i..] == s[i + 1..];
      } else {
        forall i | 0 <= i <= |s| - |sub|
          ensures !(sub <= s[i..])
        {
          if i > 0 { assert s[1..][i - 1..] == s[i..]; }
        }
      }
    }
  }

  // ---------------------------------------------------------------------
  // Python's order on strings: code point by code point, a proper prefix first

  predicate StrLess(a: string, b: string) {
    if a == [] then b != []
    else if b == [] then false
    else if a[0] != b[0] then a[0] < b[0]
    else StrLess(a[1..], b[1..])
  }

  lemma {:induction false} StrLessIrreflexive(a: string)
    ensures !StrLess(a, a)
  {
    if a != [] { StrLessIrreflexive(a[1..]); }
  }

  lemma {:induction false} StrLessTransitive(a: string, b: string, c: string)
    requires StrLess(a, b) && StrLess(b, c)
    ensures StrLess(a, c)
  {
    if a != [] && b != [] && c != [] && a[0] == b[0] && b[0] == c[0] {
      StrLessTransitive(a[1..], b[1..], c[1..]);
    }
  }

  lemma {:induction false} StrLessTotal(a: string, b: string)
    requires a != b
    ensures StrLess(a, b) || StrLess(b, a)
  {
    if a != [] && b != [] && a[0] == b[0] {
      assert a == [a[0]] + a[1..] && b == [b[0]] + b[1..];
      StrLessTotal(a[1..], b[1..]);
    }
  }
}
