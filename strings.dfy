/** The parts of Python's str and list behaviour that the modelled code relies on. */
module Strings {
  import opened Outcomes

  /** What `\s` and `str.strip()` treat as whitespace (the ASCII ones). */
  predicate IsSpace(c: char)
  {
    c == ' ' || c == '\t' || c == '\n' || c == '\r' || c == '\U{000B}' || c == '\U{000C}'
  }

  /** What `str.isdigit()` accepts (the ASCII digits). */
  predicate IsDigit(c: char)
  {
    '0' <= c <= '9'
  }

  /** What `\w` matches (the ASCII word characters). */
  predicate IsWordChar(c: char)
  {
    ('a' <= c <= 'z') || ('A' <= c <= 'Z') || IsDigit(c) || c == '_'
  }

  /** `sep.join(parts)`. */
  function Join(parts: seq<string>, sep: string): string
  {
    if |parts| == 0 then ""
    else if |parts| == 1 then parts[0]
    else parts[0] + sep + Join(parts[1..], sep)
  }

  /** `"".join(parts)`. */
  function Concat(parts: seq<string>): string
  {
    if parts == [] then "" else parts[0] + Concat(parts[1..])
  }

  /** `s.split(sep)` for a one-character separator: never empty, pieces
      free of the separator, and joining them back gives `s`. */
  function Split(s: string, sep: char): (parts: seq<string>)
    ensures |parts| >= 1
    ensures forall k | 0 <= k < |parts| :: sep !in parts[k]
    ensures Join(parts, [sep]) == s
  {
    if s == [] then [""]
    else
      var rest := Split(s[1..], sep);
      if s[0] == sep then
        assert Join([""] + rest, [sep]) == [sep] + Join(rest, [sep]) by {
          assert ([""] + rest)[1..] == rest;
        }
        [""] + rest
      else
        var parts := [[s[0]] + rest[0]] + rest[1..];
        assert Join(parts, [sep]) == [s[0]] + Join(rest, [sep]) by {
          if |rest| > 1 {
            assert parts[1..] == rest[1..];
          }
        }
        parts
  }

  lemma {:induction false} SplitNoSep(a: string, sep: char)
    requires sep !in a
    ensures Split(a, sep) == [a]
  {
    if a != [] {
      SplitNoSep(a[1..], sep);
    }
  }

  lemma {:induction false} SplitAfterPiece(a: string, sep: char, t: string)
    requires sep !in a
    ensures Split(a + [sep] + t, sep) == [a] + Split(t, sep)
  {
    if a == [] {
      assert (a + [sep] + t)[1..] == t;
    } else {
      assert (a + [sep] + t)[1..] == a[1..] + [sep] + t;
      SplitAfterPiece(a[1..], sep, t);
      var rest := Split(a[1..] + [sep] + t, sep);
      assert rest[0] == a[1..] && rest[1..] == Split(t, sep);
      assert [a[0]] + a[1..] == a;
    }
  }

  /** Splitting undoes joining when no piece holds the separator. */
  lemma {:induction false} SplitJoin(parts: seq<string>, sep: char)
    requires |parts| >= 1
    requires forall k | 0 <= k < |parts| :: sep !in parts[k]
    ensures Split(Join(parts, [sep]), sep) == parts
  {
    if |parts| == 1 {
      SplitNoSep(parts[0], sep);
    } else {
      SplitJoin(parts[1..], sep);
      SplitAfterPiece(parts[0], sep, Join(parts[1..], [sep]));
      assert [parts[0]] + parts[1..] == parts;
    }
  }

  /** Every character of a piece is a character of the joined text. */
  lemma {:induction false} JoinHasPieceChars(parts: seq<string>, sep: string, k: nat, c: char)
    requires k < |parts| && c in parts[k]
    ensures c in Join(parts, sep)
  {
    if |parts| > 1 {
      if k == 0 {
        assert Join(parts, sep) == parts[0] + (sep + Join(parts[1..], sep));
      } else {
        JoinHasPieceChars(parts[1..], sep, k - 1, c);
        assert Join(parts, sep) == (parts[0] + sep) + Join(parts[1..], sep);
      }
    }
  }

  /** A character in neither the pieces nor the separator is not in the joined text. */
  lemma {:induction false} JoinAvoids(parts: seq<string>, sep: string, c: char)
    ensures c !in sep && (forall k | 0 <= k < |parts| :: c !in parts[k]) ==> c !in Join(parts, sep)
  {
    if |parts| > 1 {
      JoinAvoids(parts[1..], sep, c);
    }
  }

  /** Python `s[:-n]`: `s` without its last `n` characters, or "" when `s` is shorter. */
  function DropLast(s: string, n: nat): (r: string)
    ensures |s| >= n ==> r + s[|s| - n..] == s
    ensures |s| < n ==> r == ""
    ensures forall c | c in r :: c in s
  {
    if |s| >= n then s[..|s| - n] else ""
  }

  /** Does `pat` occur in `s` starting at `i`? */
  predicate OccursAt(s: string, pat: string, i: nat)
  {
    i + |pat| <= |s| && s[i..i + |pat|] == pat
  }

  /** The first index at which `pat` occurs in `s`, as `str.find` computes it. */
  function Find(s: string, pat: string, from: nat := 0): (r: Option<nat>)
    requires from <= |s|
    decreases |s| - from
    ensures r.Some? ==> from <= r.value && OccursAt(s, pat, r.value)
    ensures r.Some? ==> forall j | from <= j < r.value :: !OccursAt(s, pat, j)
    ensures r.None? ==> forall j | from <= j <= |s| :: !OccursAt(s, pat, j)
  {
    if from + |pat| > |s| then None
    else if s[from..from + |pat|] == pat then Some(from)
    else Find(s, pat, from + 1)
  }

  /** `s.split(pat)[0]`: everything before the first occurrence of `pat`. */
  function PieceBefore(s: string, pat: string): (r: string)
    ensures Find(s, pat).None? ==> r == s
    ensures Find(s, pat).Some? ==> r == s[..Find(s, pat).value]
    ensures forall c | c in r :: c in s
  {
    match Find(s, pat)
    case None => s
    case Some(i) => s[..i]
  }

  /** `s.split(pat)[1]`: the text between the first and the second occurrence
      of `pat` (or the end); `None` where Python raises IndexError. */
  function PieceAfter(s: string, pat: string): (r: Option<string>)
    requires pat != []
    ensures r.None? <==> Find(s, pat).None?
    ensures r.Some? ==> forall c | c in r.value :: c in s
  {
    match Find(s, pat)
    case None => None
    case Some(i) =>
      var p := PieceBefore(s[i + |pat|..], pat);
      assert forall c | c in s[i + |pat|..] :: c in s;
      Some(p)
  }

  /** The first occurrence of a pattern is the one found. */
  lemma FindFirst(s: string, pat: string, i: nat)
    requires OccursAt(s, pat, i) && forall j | 0 <= j < i :: !OccursAt(s, pat, j)
    ensures Find(s, pat) == Some(i)
  {
  }

  /** A pattern that occurs nowhere is not found. */
  lemma FindNone(s: string, pat: string)
    requires forall j | 0 <= j <= |s| :: !OccursAt(s, pat, j)
    ensures Find(s, pat) == None
  {
  }

  /** A one-character pattern occurs exactly where its character is. */
  lemma OccursAtChar(s: string, c: char, j: nat)
    ensures OccursAt(s, [c], j) <==> j < |s| && s[j] == c
  {
    if j < |s| {
      assert s[j..j + 1] == [s[j]];
    }
  }

  /** A character is found exactly when the string holds it. */
  lemma FindChar(s: string, c: char)
    ensures Find(s, [c]).None? <==> c !in s
  {
    if Find(s, [c]).Some? {
      OccursAtChar(s, c, Find(s, [c]).value);
    } else if c in s {
      var j :| 0 <= j < |s| && s[j] == c;
      OccursAtChar(s, c, j);
    }
  }

  /** Text free of the separator character belongs to the piece before it. */
  lemma PieceBeforeFreeHead(a: string, c: char, b: string)
    requires c !in a
    ensures PieceBefore(a + b, [c]) == a + PieceBefore(b, [c])
  {
    FindChar(b, c);
    if Find(b, [c]).None? {
      FindChar(a + b, c);
      assert a + b == (a + b)[..];
    } else {
      var i := Find(b, [c]).value;
      OccursAtChar(b, c, i);
      OccursAtChar(a + b, c, |a| + i);
      forall j | 0 <= j < |a| + i
        ensures !OccursAt(a + b, [c], j)
      {
        OccursAtChar(a + b, c, j);
        if j >= |a| {
          OccursAtChar(b, c, j - |a|);
        }
      }
      FindFirst(a + b, [c], |a| + i);
      assert (a + b)[..|a| + i] == a + b[..i];
    }
  }

  /** Nothing comes before a separator that starts the text. */
  lemma PieceBeforeAtSeparator(c: char, b: string)
    ensures PieceBefore([c] + b, [c]) == ""
  {
    OccursAtChar([c] + b, c, 0);
    FindFirst([c] + b, [c], 0);
  }

  /** `split(c)[0]` of a text whose first `c` follows a free head is that head. */
  lemma PieceBeforeFirst(a: string, c: char, b: string)
    requires c !in a
    ensures PieceBefore(a + [c] + b, [c]) == a
  {
    assert a + [c] + b == a + ([c] + b);
    PieceBeforeFreeHead(a, c, [c] + b);
    PieceBeforeAtSeparator(c, b);
  }

  /** `split(c)[1]` of a text whose first `c` follows a free head: the piece
      between that `c` and the next one. */
  lemma PieceAfterFreeHead(a: string, c: char, b: string)
    requires c !in a
    ensures PieceAfter(a + [c] + b, [c]) == Some(PieceBefore(b, [c]))
  {
    var s := a + [c] + b;
    OccursAtChar(s, c, |a|);
    forall j | 0 <= j < |a|
      ensures !OccursAt(s, [c], j)
    {
      OccursAtChar(s, c, j);
    }
    FindFirst(s, [c], |a|);
    assert s[|a| + 1..] == b;
  }

  /** The number of leading whitespace characters of `s`. */
  function LeadingSpaces(s: string): (n: nat)
    ensures n <= |s|
    ensures forall k | 0 <= k < n :: IsSpace(s[k])
    ensures n < |s| ==> !IsSpace(s[n])
  {
    if s != [] && IsSpace(s[0]) then 1 + LeadingSpaces(s[1..]) else 0
  }

  /** The number of trailing whitespace characters of `s`. */
  function TrailingSpaces(s: string): (n: nat)
    ensures n <= |s|
    ensures forall k | |s| - n <= k < |s| :: IsSpace(s[k])
    ensures n < |s| ==> !IsSpace(s[|s| - n - 1])
  {
    if s != [] && IsSpace(s[|s| - 1]) then 1 + TrailingSpaces(s[..|s| - 1]) else 0
  }

  /** `s.strip()`: `s` is the result framed by whitespace, and the result
      neither starts nor ends with whitespace. */
  function Strip(s: string): (r: string)
    ensures exists i, j :: 0 <= i <= j <= |s| && r == s[i..j]
              && (forall k | 0 <= k < i :: IsSpace(s[k]))
              && (forall k | j <= k < |s| :: IsSpace(s[k]))
    ensures r != [] ==> !IsSpace(r[0]) && !IsSpace(r[|r| - 1])
    ensures forall c | c in r :: c in s
  {
    var i := LeadingSpaces(s);
    var j := |s| - TrailingSpaces(s[i..]);
    assert s[i..][..j - i] == s[i..j];
    s[i..j]
  }

  /** Stripping a string without whitespace changes nothing. */
  lemma StripNoSpace(s: string)
    requires forall k | 0 <= k < |s| :: !IsSpace(s[k])
    ensures Strip(s) == s
  {
    assert LeadingSpaces(s) == 0;
    assert TrailingSpaces(s) == 0;
  }

  /** The length of the first line of `s` (up to its first newline). */
  function LineLength(s: string): (n: nat)
    ensures n <= |s|
  {
    if s == [] || s[0] == '\n' then 0 else 1 + LineLength(s[1..])
  }

  /** The first line holds no newline, and a newline or the end follows it. */
  lemma {:induction false} LineLengthShape(s: string)
    ensures '\n' !in s[..LineLength(s)]
    ensures LineLength(s) < |s| ==> s[LineLength(s)] == '\n'
  {
    if s != [] && s[0] != '\n' {
      LineLengthShape(s[1..]);
      assert s[..LineLength(s)] == [s[0]] + s[1..][..LineLength(s[1..])];
    }
  }

  lemma {:induction false} LineLengthOf(a: string, rest: string)
    requires '\n' !in a
    ensures LineLength(a + "\n" + rest) == |a|
    decreases |a|
  {
    if a != [] {
      assert (a + "\n" + rest)[1..] == a[1..] + "\n" + rest;
      LineLengthOf(a[1..], rest);
    } else {
      assert (a + "\n" + rest)[0] == '\n';
    }
  }

  /** The number of characters `s` starts with that are not braces. */
  function BraceFreeRun(s: string): (n: nat)
    ensures n <= |s|
  {
    if s != [] && s[0] != '{' && s[0] != '}' then 1 + BraceFreeRun(s[1..]) else 0
  }

  /** The run holds no brace, and a brace or the end follows it. */
  lemma {:induction false} BraceFreeRunShape(s: string)
    ensures '{' !in s[..BraceFreeRun(s)] && '}' !in s[..BraceFreeRun(s)]
    ensures BraceFreeRun(s) < |s| ==> s[BraceFreeRun(s)] == '{' || s[BraceFreeRun(s)] == '}'
  {
    if s != [] && s[0] != '{' && s[0] != '}' {
      BraceFreeRunShape(s[1..]);
      assert s[..BraceFreeRun(s)] == [s[0]] + s[1..][..BraceFreeRun(s[1..])];
    }
  }

  lemma {:induction false} BraceFreeRunOf(a: string, b: string)
    requires '{' !in a && '}' !in a
    requires b == [] || b[0] == '{' || b[0] == '}'
    ensures BraceFreeRun(a + b) == |a|
    decreases |a|
  {
    if a != [] {
      assert (a + b)[0] == a[0] && (a + b)[1..] == a[1..] + b;
      BraceFreeRunOf(a[1..], b);
    } else {
      assert a + b == b;
    }
  }

  /** The decimal digit for `d < 10`. */
  function DigitChar(d: nat): (c: char)
    requires d < 10
    ensures IsDigit(c) && c as int - '0' as int == d
  {
    (d + '0' as int) as char
  }

  /** `str(n)` for a natural number. */
  function NatToString(n: nat): string
  {
    if n < 10 then [DigitChar(n)] else NatToString(n / 10) + [DigitChar(n % 10)]
  }

  /** The value of a string of decimal digits (`int(s)`). */
  function DigitsValue(s: string): int
  {
    if s == [] then 0 else 10 * DigitsValue(s[..|s| - 1]) + (s[|s| - 1] as int - '0' as int)
  }

  /** `str(n)` is a nonempty digit string that reads back as `n`. */
  lemma {:induction false} NatToStringDecodes(n: nat)
    ensures NatToString(n) != []
    ensures forall k | 0 <= k < |NatToString(n)| :: IsDigit(NatToString(n)[k])
    ensures DigitsValue(NatToString(n)) == n
  {
    if n >= 10 {
      NatToStringDecodes(n / 10);
      var s := NatToString(n);
      assert s[..|s| - 1] == NatToString(n / 10);
    }
  }

  /** Python's `<=` on strings: lexicographic by code point. */
  predicate LexLe(a: string, b: string)
  {
    a == [] || (b != [] && (a[0] < b[0] || (a[0] == b[0] && LexLe(a[1..], b[1..]))))
  }

  /** Any two strings are ordered one way or the other. */
  lemma {:induction false} LexLeTotal(a: string, b: string)
    ensures LexLe(a, b) || LexLe(b, a)
  {
    if a != [] && b != [] && a[0] == b[0] {
      LexLeTotal(a[1..], b[1..]);
    }
  }

  predicate Sorted(s: seq<string>)
  {
    forall k | 0 < k < |s| :: LexLe(s[k - 1], s[k])
  }

  /** Insert `x` into a sorted list, before the first element it does not exceed. */
  function Insert(x: string, s: seq<string>): (r: seq<string>)
    requires Sorted(s)
    ensures Sorted(r)
    ensures multiset(r) == multiset(s) + multiset{x}
    ensures |r| == |s| + 1
    ensures r[0] == x || (s != [] && r[0] == s[0])
  {
    if s == [] || LexLe(x, s[0]) then [x] + s
    else
      LexLeTotal(x, s[0]);
      var t := Insert(x, s[1..]);
      assert s == [s[0]] + s[1..];
      [s[0]] + t
  }

  /** `sorted(s)` for strings (`list.sort()` in place gives the same list). */
  function SortStrings(s: seq<string>): (r: seq<string>)
    ensures Sorted(r)
    ensures multiset(r) == multiset(s)
  {
    if s == [] then []
    else
      assert s == [s[0]] + s[1..];
      Insert(s[0], SortStrings(s[1..]))
  }

  function Min3(a: nat, b: nat, c: nat): nat
  {
    if a <= b && a <= c then a else if b <= c then b else c
  }
}
