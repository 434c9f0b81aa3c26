/** The text processing of `read_sort_bib_ads` and `read_bib_add` in
    ads2bibtex/core.py, applied to the file content (None: no such file). */
module BibFiles {
  import opened Outcomes
  import opened Strings

  // ---------------------------------------------------------------------
  // The three substitutions of read_sort_bib_ads, each a `re.sub` whose
  // matches are replaced by a newline.

  /** `\s?[#%](.)*\s?\n` (a comment to the end of its line), `\s?,\s?` (a
      comma separator) and `\s?\n` (a line end with one trailing blank). */
  datatype Pattern = CommentMark | CommaSep | LineEnd

  predicate IsMarker(c: char)
  {
    c == '#' || c == '%'
  }

  /** Where the pattern's fixed character sits in a match at the start of `s`:
      1 when an optional blank comes first, 0 when not, None when no match can start. */
  function LeadIn(s: string, c: char -> bool): (r: Option<nat>)
    ensures r.Some? ==> r.value < |s| && c(s[r.value]) && r.value <= 1
    ensures r == Some(1) ==> IsSpace(s[0])
  {
    if |s| >= 2 && IsSpace(s[0]) && c(s[1]) then Some(1)
    else if s != [] && c(s[0]) then Some(0)
    else None
  }

  /** The length of the leftmost-greedy match of `p` at the start of `s`
      (0 when there is none; none of the patterns matches the empty text). */
  function MatchLength(p: Pattern, s: string): (n: nat)
    ensures n <= |s|
  {
    match p
    case CommentMark =>
      (match LeadIn(s, IsMarker)
       case None => 0
       case Some(m) =>
         // `(.)*` runs to the first newline; `\s?\n` then takes one or two newlines
         match Find(s, "\n", m + 1)
         case None => 0
         case Some(e) => if e + 1 < |s| && s[e + 1] == '\n' then e + 2 else e + 1)
    case CommaSep =>
      (match LeadIn(s, c => c == ',')
       case None => 0
       case Some(m) => if m + 1 < |s| && IsSpace(s[m + 1]) then m + 2 else m + 1)
    case LineEnd =>
      (match LeadIn(s, c => c == '\n')
       case None => 0
       case Some(m) => m + 1)
  }

  /** `re.sub(p, "\n", s)`: matches found left to right, without overlap. */
  function Sub(p: Pattern, s: string): (r: string)
    decreases |s|
  {
    if s == [] then []
    else
      var n := MatchLength(p, s);
      if n > 0 then "\n" + Sub(p, s[n..])
      else [s[0]] + Sub(p, s[1..])
  }

  /** A substitution brings in only newlines. */
  lemma {:induction false} SubAddsNewlines(p: Pattern, s: string)
    ensures forall c | c in Sub(p, s) :: c == '\n' || c in s
    decreases |s|
  {
    if s != [] {
      var n := MatchLength(p, s);
      var m := if n > 0 then n else 1;
      SubAddsNewlines(p, s[m..]);
      assert forall c | c in s[m..] :: c in s;
    }
  }

  /** The comma pass leaves no comma. */
  lemma {:induction false} SubRemovesCommas(s: string)
    ensures ',' !in Sub(CommaSep, s)
    decreases |s|
  {
    if s != [] {
      var n := MatchLength(CommaSep, s);
      SubRemovesCommas(s[if n > 0 then n else 1..]);
    }
  }

  /** The comment pass leaves no comment marker in a text that ends with a
      newline: every marker then starts a match. */
  lemma {:induction false} SubRemovesMarkers(s: string)
    requires s != [] && s[|s| - 1] == '\n'
    ensures '#' !in Sub(CommentMark, s) && '%' !in Sub(CommentMark, s)
    decreases |s|
  {
    var n := MatchLength(CommentMark, s);
    if n > 0 {
      if n < |s| {
        SubRemovesMarkers(s[n..]);
      }
    } else {
      assert IsMarker(s[0]) ==> OccursAt(s, "\n", |s| - 1);
      if |s| > 1 {
        SubRemovesMarkers(s[1..]);
      }
    }
  }

  /** `list(filter(lambda a: a != '', parts))`. */
  function NonEmpty(parts: seq<string>): (r: seq<string>)
    ensures forall k | 0 <= k < |r| :: r[k] != "" && r[k] in parts
    ensures "" !in parts ==> r == parts
  {
    if parts == [] then []
    else if parts[0] == "" then NonEmpty(parts[1..])
    else [parts[0]] + NonEmpty(parts[1..])
  }

  /** A string is kept exactly when it is a nonempty piece, and as many times
      as it occurs among the pieces. */
  lemma {:induction false} NonEmptyMembers(parts: seq<string>, x: string)
    ensures x in NonEmpty(parts) <==> x in parts && x != ""
    ensures x != "" ==> multiset(NonEmpty(parts))[x] == multiset(parts)[x]
  {
    if parts != [] {
      NonEmptyMembers(parts[1..], x);
      assert parts == [parts[0]] + parts[1..];
      assert multiset(parts) == multiset{parts[0]} + multiset(parts[1..]);
      if parts[0] != "" {
        assert multiset(NonEmpty(parts)) == multiset{parts[0]} + multiset(NonEmpty(parts[1..]));
      }
    }
  }

  /** The head and tail of a concatenation with a nonempty front. */
  lemma AppendTail(a: seq<string>, b: seq<string>)
    requires a != []
    ensures (a + b)[0] == a[0] && (a + b)[1..] == a[1..] + b
  {
  }

  /** The filter keeps the order: filtering two lists in a row is filtering
      their concatenation. */
  lemma {:induction false} NonEmptyAppend(a: seq<string>, b: seq<string>)
    ensures NonEmpty(a + b) == NonEmpty(a) + NonEmpty(b)
  {
    if a != [] {
      NonEmptyHead(a, b);
      NonEmptyAppend(a[1..], b);
      if a[0] != "" {
        ListAppendAssoc([a[0]], NonEmpty(a[1..]), NonEmpty(b), NonEmpty(a[1..] + b), NonEmpty(a), NonEmpty(a + b));
      }
    } else {
      assert a + b == b;
      assert NonEmpty(a) == [];
      assert NonEmpty(a) + NonEmpty(b) == NonEmpty(b);
    }
  }

  /** Filtering `a + b` starts with what filtering does to the head of `a`. */
  lemma NonEmptyHead(a: seq<string>, b: seq<string>)
    requires a != []
    ensures a[0] == "" ==> NonEmpty(a + b) == NonEmpty(a[1..] + b)
    ensures a[0] != "" ==> NonEmpty(a + b) == [a[0]] + NonEmpty(a[1..] + b)
  {
    AppendTail(a, b);
  }

  /** Regrouping a concatenation, stated over names for its parts. */
  lemma ListAppendAssoc(x: seq<string>, y: seq<string>, z: seq<string>, yz: seq<string>, xy: seq<string>, xyz: seq<string>)
    requires yz == y + z && xy == x + y && xyz == x + yz
    ensures xyz == xy + z
  {
  }

  /** The bibcode list of a file's content, in file order: a newline is
      appended, comments are removed, commas become line breaks, one blank
      before each line break is dropped, and the nonempty lines are kept.
      (`_bibs.replace(' ', '')` discards its result, so inner blanks stay.) */
  function Bibcodes(content: string): (r: seq<string>)
    ensures forall k | 0 <= k < |r| ::
              r[k] != "" && '\n' !in r[k] && ',' !in r[k] && '#' !in r[k] && '%' !in r[k]
  {
    var marked := content + "\n";
    var text := Sub(LineEnd, Sub(CommaSep, Sub(CommentMark, marked)));
    SubRemovesMarkers(marked);
    SubAddsNewlines(CommaSep, Sub(CommentMark, marked));
    SubRemovesCommas(Sub(CommentMark, marked));
    SubAddsNewlines(LineEnd, Sub(CommaSep, Sub(CommentMark, marked)));
    var lines := Split(text, '\n');
    var r := NonEmpty(lines);
    forall k | 0 <= k < |r|
      ensures ',' !in r[k] && '#' !in r[k] && '%' !in r[k]
    {
      var j :| 0 <= j < |lines| && lines[j] == r[k];
      forall c | c in r[k]
        ensures c != ',' && c != '#' && c != '%'
      {
        JoinHasPieceChars(lines, "\n", j, c);
      }
    }
    r
  }

  /** `read_sort_bib_ads` after the read: `[]` when the file is missing, else
      the bibcode list, sorted when `sort` is set and in file order when not. */
  function ReadSortBibAds(content: Option<string>, sort: bool): (r: seq<string>)
    ensures content.None? ==> r == []
    ensures forall k | 0 <= k < |r| ::
              r[k] != "" && '\n' !in r[k] && ',' !in r[k] && '#' !in r[k] && '%' !in r[k]
    ensures sort ==> Sorted(r)
    ensures content.Some? ==> multiset(r) == multiset(Bibcodes(content.value))
    ensures content.Some? && !sort ==> r == Bibcodes(content.value)
  {
    match content
    case None => []
    case Some(c) =>
      var bibs := Bibcodes(c);
      if sort then
        var r := SortStrings(bibs);
        forall k | 0 <= k < |r|
          ensures r[k] in bibs
        {
          assert r[k] in multiset(r);
        }
        r
      else bibs
  }

  // ---------------------------------------------------------------------
  // Properties of the bibcode list

  /** A line the substitutions leave alone: nonempty, no newline, comma or
      comment marker, and not ending in a blank (inner blanks are allowed). */
  predicate PlainLine(b: string)
  {
    && b != []
    && (forall k | 0 <= k < |b| :: b[k] != '\n' && b[k] != ',' && !IsMarker(b[k]))
    && !IsSpace(b[|b| - 1])
  }

  /** Text without comment markers has no comment to remove. */
  lemma {:induction false} SubNoMarker(s: string)
    requires forall k | 0 <= k < |s| :: !IsMarker(s[k])
    ensures Sub(CommentMark, s) == s
    decreases |s|
  {
    if s != [] {
      SubNoMarker(s[1..]);
    }
  }

  /** Text without commas has no separator to replace. */
  lemma {:induction false} SubNoComma(s: string)
    requires forall k | 0 <= k < |s| :: s[k] != ','
    ensures Sub(CommaSep, s) == s
    decreases |s|
  {
    if s != [] {
      SubNoComma(s[1..]);
    }
  }

  /** No match of any pattern starts at the first character of a plain line. */
  lemma {:induction false} NoMatchAtPlain(p: Pattern, b: string, t: string)
    requires PlainLine(b)
    ensures MatchLength(p, b + t) == 0
  {
    var s := b + t;
    assert s[0] == b[0];
    if |b| > 1 {
      assert s[1] == b[1];
    }
    assert LeadIn(s, IsMarker).None?;
    assert LeadIn(s, c => c == ',').None?;
    assert LeadIn(s, c => c == '\n').None?;
  }

  /** Where no match starts, the first character is copied. */
  lemma {:induction false} SubStep(p: Pattern, s: string)
    requires s != [] && MatchLength(p, s) == 0
    ensures Sub(p, s) == [s[0]] + Sub(p, s[1..])
  {
  }

  /** No match of any pattern starts inside a plain line, whatever follows it. */
  lemma {:induction false} SubKeepsPlain(p: Pattern, b: string, t: string)
    requires PlainLine(b)
    ensures Sub(p, b + t) == b + Sub(p, t)
    decreases |b|
  {
    if |b| > 1 {
      PlainTail(b);
      SubKeepsPlain(p, b[1..], t);
    }
    SubPlainStep(p, b, t);
  }

  /** The induction step: the first character is copied and the rest of the
      line is kept. */
  lemma {:induction false} SubPlainStep(p: Pattern, b: string, t: string)
    requires PlainLine(b)
    requires |b| > 1 ==> Sub(p, b[1..] + t) == b[1..] + Sub(p, t)
    ensures Sub(p, b + t) == b + Sub(p, t)
  {
    SubPlainHead(p, b, t);
    if |b| == 1 {
      assert b[1..] + t == t;
    }
    ConsAppend(b, Sub(p, t));
  }

  lemma ConsAppend(b: string, u: string)
    requires b != []
    ensures [b[0]] + (b[1..] + u) == b + u
  {
    assert [b[0]] + b[1..] == b;
  }

  /** The first character of a plain line is copied. */
  lemma {:induction false} SubPlainHead(p: Pattern, b: string, t: string)
    requires PlainLine(b)
    ensures Sub(p, b + t) == [b[0]] + Sub(p, b[1..] + t)
  {
    NoMatchAtPlain(p, b, t);
    SubStep(p, b + t);
    assert (b + t)[0] == b[0];
    assert (b + t)[1..] == b[1..] + t;
  }

  /** A plain line of two or more characters stays plain without its first. */
  lemma {:induction false} PlainTail(b: string)
    requires PlainLine(b) && |b| > 1
    ensures PlainLine(b[1..])
  {
    assert forall k | 0 <= k < |b[1..]| :: b[1..][k] == b[k + 1];
  }

  /** Joining plain lines with newlines and ending with a newline survives the
      line-end substitution unchanged. */
  lemma {:induction false} LineEndKeepsPlainLines(bibs: seq<string>)
    requires |bibs| >= 1 && forall k | 0 <= k < |bibs| :: PlainLine(bibs[k])
    ensures Sub(LineEnd, Join(bibs, "\n") + "\n") == Join(bibs, "\n") + "\n"
  {
    if |bibs| == 1 {
      LineEndOnePlain(bibs);
    } else {
      LineEndKeepsPlainLines(bibs[1..]);
      LineEndMorePlain(bibs);
    }
  }

  lemma {:induction false} LineEndOnePlain(bibs: seq<string>)
    requires |bibs| == 1 && PlainLine(bibs[0])
    ensures Sub(LineEnd, Join(bibs, "\n") + "\n") == Join(bibs, "\n") + "\n"
  {
    SubKeepsPlain(LineEnd, bibs[0], "\n");
    assert MatchLength(LineEnd, "\n") == 1;
  }

  /** The step of the induction: a plain first line in front of lines the
      substitution keeps. */
  lemma {:induction false} LineEndMorePlain(bibs: seq<string>)
    requires |bibs| >= 2 && PlainLine(bibs[0]) && PlainLine(bibs[1])
    requires Sub(LineEnd, Join(bibs[1..], "\n") + "\n") == Join(bibs[1..], "\n") + "\n"
    ensures Sub(LineEnd, Join(bibs, "\n") + "\n") == Join(bibs, "\n") + "\n"
  {
    var b := bibs[0];
    var rest := Join(bibs[1..], "\n") + "\n";
    assert bibs[1..][0] == bibs[1];
    JoinHead(bibs[1..], "\n");
    calc {
      Sub(LineEnd, Join(bibs, "\n") + "\n");
      { assert Join(bibs, "\n") + "\n" == b + ("\n" + rest); }
      Sub(LineEnd, b + ("\n" + rest));
      { LineEndAfterPlain(b, rest); }
      b + ("\n" + Sub(LineEnd, rest));
      b + ("\n" + rest);
      { assert Join(bibs, "\n") + "\n" == b + ("\n" + rest); }
      Join(bibs, "\n") + "\n";
    }
  }

  /** A newline after a plain line, before a text that does not start with
      a newline, is a match of its own. */
  lemma {:induction false} LineEndAfterPlain(b: string, rest: string)
    requires PlainLine(b) && rest != [] && rest[0] != '\n'
    ensures Sub(LineEnd, b + ("\n" + rest)) == b + ("\n" + Sub(LineEnd, rest))
  {
    SubKeepsPlain(LineEnd, b, "\n" + rest);
    assert MatchLength(LineEnd, "\n" + rest) == 1;
    assert ("\n" + rest)[1..] == rest;
  }

  lemma {:induction false} JoinHead(parts: seq<string>, sep: string)
    requires |parts| >= 1 && parts[0] != []
    ensures Join(parts, sep) != [] && Join(parts, sep)[0] == parts[0][0]
  {
    if |parts| > 1 {
      assert Join(parts, sep) == parts[0] + (sep + Join(parts[1..], sep));
    }
  }

  lemma {:induction false} JoinAppendEmpty(bibs: seq<string>, sep: string)
    requires |bibs| >= 1
    ensures Join(bibs + [""], sep) == Join(bibs, sep) + sep
  {
    if |bibs| > 1 {
      assert (bibs + [""])[1..] == bibs[1..] + [""];
      JoinAppendEmpty(bibs[1..], sep);
    }
  }

  /** Splitting the newline-joined plain lines with a final newline gives the
      lines and a last empty piece. */
  lemma {:induction false} SplitPlainLines(bibs: seq<string>)
    requires |bibs| >= 1 && forall k | 0 <= k < |bibs| :: PlainLine(bibs[k])
    ensures Split(Join(bibs, "\n") + "\n", '\n') == bibs + [""]
  {
    JoinAppendEmpty(bibs, "\n");
    var parts := bibs + [""];
    forall k | 0 <= k < |parts|
      ensures '\n' !in parts[k]
    {
      if k < |bibs| {
        assert parts[k] == bibs[k];
        PlainNoNewline(bibs[k]);
      }
    }
    SplitJoin(parts, '\n');
  }

  lemma {:induction false} PlainNoNewline(b: string)
    requires PlainLine(b)
    ensures '\n' !in b
  {
    assert forall i | 0 <= i < |b| :: b[i] != '\n';
  }

  lemma {:induction false} NonEmptyDropsLast(bibs: seq<string>)
    requires forall k | 0 <= k < |bibs| :: bibs[k] != ""
    ensures NonEmpty(bibs + [""]) == bibs
    decreases |bibs|
  {
    if bibs == [] {
      assert NonEmpty([""]) == NonEmpty([]);
    } else {
      assert (bibs + [""])[1..] == bibs[1..] + [""];
      NonEmptyDropsLast(bibs[1..]);
      assert [bibs[0]] + bibs[1..] == bibs;
    }
  }

  /** A file holding one bibcode per line (inner blanks allowed) reads back as
      exactly those bibcodes, in file order. */
  lemma {:induction false} BibcodesOfPlainLines(bibs: seq<string>)
    requires forall k | 0 <= k < |bibs| :: PlainLine(bibs[k])
    ensures ReadSortBibAds(Some(Join(bibs, "\n")), false) == bibs
  {
    if bibs == [] {
      EmptyFileHasNoBibcodes();
    } else {
      var text := Join(bibs, "\n") + "\n";
      PlainTextHasNoMarker(bibs);
      SubNoMarker(text);
      SubNoComma(text);
      LineEndKeepsPlainLines(bibs);
      assert Sub(LineEnd, Sub(CommaSep, Sub(CommentMark, text))) == text;
      SplitPlainLines(bibs);
      NonEmptyDropsLast(bibs);
      assert Bibcodes(Join(bibs, "\n")) == bibs;
    }
  }

  lemma {:induction false} EmptyFileHasNoBibcodes()
    ensures Bibcodes("") == []
  {
    var text := "" + "\n";
    assert text == "\n";
    assert MatchLength(CommentMark, "\n") == 0;
    assert Sub(CommentMark, text) == "\n";
    assert MatchLength(CommaSep, "\n") == 0;
    assert Sub(CommaSep, "\n") == "\n";
    assert MatchLength(LineEnd, "\n") == 1;
    assert Sub(LineEnd, "\n") == "\n";
    assert Split("\n", '\n') == ["", ""];
    assert NonEmpty(["", ""]) == NonEmpty([""]) == NonEmpty([]) == [];
  }

  lemma {:induction false} PlainTextHasNoMarker(bibs: seq<string>)
    requires |bibs| >= 1 && forall k | 0 <= k < |bibs| :: PlainLine(bibs[k])
    ensures forall k | 0 <= k < |Join(bibs, "\n") + "\n"| ::
              !IsMarker((Join(bibs, "\n") + "\n")[k]) && (Join(bibs, "\n") + "\n")[k] != ','
  {
    var text := Join(bibs, "\n") + "\n";
    forall k | 0 <= k < |text|
      ensures !IsMarker(text[k]) && text[k] != ','
    {
      if k < |Join(bibs, "\n")| {
        PlainJoinChar(bibs, k);
      }
    }
  }

  lemma {:induction false} PlainJoinChar(bibs: seq<string>, k: nat)
    requires forall j | 0 <= j < |bibs| :: PlainLine(bibs[j])
    requires k < |Join(bibs, "\n")|
    ensures !IsMarker(Join(bibs, "\n")[k]) && Join(bibs, "\n")[k] != ','
  {
    var c := Join(bibs, "\n")[k];
    assert c in Join(bibs, "\n");
    JoinChars(bibs, c);
  }

  lemma {:induction false} JoinChars(bibs: seq<string>, c: char)
    requires forall j | 0 <= j < |bibs| :: PlainLine(bibs[j])
    requires c in Join(bibs, "\n")
    ensures !IsMarker(c) && c != ','
  {
    if |bibs| == 1 {
      var b := bibs[0];
      var i :| 0 <= i < |b| && b[i] == c;
    } else if |bibs| > 1 {
      var b := bibs[0];
      assert Join(bibs, "\n") == b + ("\n" + Join(bibs[1..], "\n"));
      if c in b {
        var i :| 0 <= i < |b| && b[i] == c;
      } else if c != '\n' {
        assert c in Join(bibs[1..], "\n");
        JoinChars(bibs[1..], c);
      }
    }
  }

  /** A comment line before the bibcodes is dropped, whatever it holds
      (commas, comment markers, other bibcodes). */
  lemma {:induction false} CommentLineDropped(marker: char, t: string, bibs: seq<string>)
    requires IsMarker(marker) && '\n' !in t
    requires |bibs| >= 1 && forall k | 0 <= k < |bibs| :: PlainLine(bibs[k])
    ensures ReadSortBibAds(Some([marker] + t + "\n" + Join(bibs, "\n")), false) == bibs
  {
    var content := [marker] + t + "\n" + Join(bibs, "\n");
    var lead := "\n" + Join(bibs, "\n") + "\n";
    CommentPassDropsLine(marker, t, bibs);
    assert Sub(CommentMark, content + "\n") == lead;
    LeadingNewlineKept(bibs);
    LeadingNewlineSplit(bibs);
  }

  lemma {:induction false} CommentPassDropsLine(marker: char, t: string, bibs: seq<string>)
    requires IsMarker(marker) && '\n' !in t
    requires |bibs| >= 1 && forall k | 0 <= k < |bibs| :: PlainLine(bibs[k])
    ensures Sub(CommentMark, [marker] + t + "\n" + Join(bibs, "\n") + "\n") == "\n" + Join(bibs, "\n") + "\n"
  {
    var j := Join(bibs, "\n") + "\n";
    var text := [marker] + t + "\n" + Join(bibs, "\n") + "\n";
    assert text == [marker] + t + "\n" + j;
    JoinHead(bibs, "\n");
    assert j[0] == bibs[0][0] && bibs[0][0] != '\n';
    CommentMatch(marker, t, j);
    assert text[|t| + 2..] == j;
    PlainTextHasNoMarker(bibs);
    SubNoMarker(j);
  }

  /** The comma and line-end passes keep a newline in front of plain lines. */
  lemma {:induction false} LeadingNewlineKept(bibs: seq<string>)
    requires |bibs| >= 1 && forall k | 0 <= k < |bibs| :: PlainLine(bibs[k])
    ensures Sub(LineEnd, Sub(CommaSep, "\n" + Join(bibs, "\n") + "\n")) == "\n" + Join(bibs, "\n") + "\n"
  {
    var j := Join(bibs, "\n") + "\n";
    var lead := "\n" + Join(bibs, "\n") + "\n";
    assert lead == "\n" + j;
    PlainTextHasNoMarker(bibs);
    forall k | 0 <= k < |lead|
      ensures lead[k] != ','
    {
      if k > 0 {
        assert lead[k] == j[k - 1];
      }
    }
    SubNoComma(lead);
    JoinHead(bibs, "\n");
    assert MatchLength(LineEnd, lead) == 1;
    assert lead[1..] == j;
    LineEndKeepsPlainLines(bibs);
  }

  lemma {:induction false} LeadingNewlineSplit(bibs: seq<string>)
    requires |bibs| >= 1 && forall k | 0 <= k < |bibs| :: PlainLine(bibs[k])
    ensures NonEmpty(Split("\n" + Join(bibs, "\n") + "\n", '\n')) == bibs
  {
    var j := Join(bibs, "\n") + "\n";
    SplitAfterPiece("", '\n', j);
    assert "" + ['\n'] + j == "\n" + Join(bibs, "\n") + "\n";
    SplitPlainLines(bibs);
    assert ([""] + (bibs + [""]))[1..] == bibs + [""];
    NonEmptyDropsLast(bibs);
  }

  /** The comment match at a marker runs through the newline ending its line. */
  lemma {:induction false} CommentMatch(marker: char, t: string, j: string)
    requires IsMarker(marker) && '\n' !in t && j != [] && j[0] != '\n'
    ensures MatchLength(CommentMark, [marker] + t + "\n" + j) == |t| + 2
  {
    var s := [marker] + t + "\n" + j;
    assert LeadIn(s, IsMarker) == Some(0);
    assert OccursAt(s, "\n", |t| + 1);
    forall i | 1 <= i < |t| + 1
      ensures !OccursAt(s, "\n", i)
    {
      assert s[i] == t[i - 1];
    }
    assert Find(s, "\n", 1) == Some(|t| + 1);
    assert s[|t| + 2] == j[0];
  }

  /** A comma (with one blank after it) separates two bibcodes on one line. */
  lemma {:induction false} CommaSeparatedLine(b1: string, b2: string)
    requires PlainLine(b1) && PlainLine(b2)
    ensures ReadSortBibAds(Some(b1 + ", " + b2), false) == [b1, b2]
  {
    var content := b1 + ", " + b2;
    var j := Join([b1, b2], "\n") + "\n";
    assert forall k | 0 <= k < |[b1, b2]| :: PlainLine([b1, b2][k]);
    calc {
      ReadSortBibAds(Some(content), false);
      Bibcodes(content);
      NonEmpty(Split(Sub(LineEnd, Sub(CommaSep, Sub(CommentMark, content + "\n"))), '\n'));
      { CommaPassSplitsLine(b1, b2);
        assert Join([b1, b2], "\n") == b1 + "\n" + b2 by {
          assert [b1, b2][1..] == [b2];
        } }
      NonEmpty(Split(Sub(LineEnd, j), '\n'));
      { LineEndKeepsPlainLines([b1, b2]); }
      NonEmpty(Split(j, '\n'));
      { SplitPlainLines([b1, b2]); }
      NonEmpty([b1, b2] + [""]);
      { NonEmptyDropsLast([b1, b2]); }
      [b1, b2];
    }
  }

  lemma {:induction false} CommaPassSplitsLine(b1: string, b2: string)
    requires PlainLine(b1) && PlainLine(b2)
    ensures Sub(CommaSep, Sub(CommentMark, b1 + ", " + b2 + "\n")) == b1 + "\n" + b2 + "\n"
  {
    var tail := ", " + b2 + "\n";
    calc {
      Sub(CommaSep, Sub(CommentMark, b1 + ", " + b2 + "\n"));
      { TwoPlainNoMarker(b1, b2); SubNoMarker(b1 + ", " + b2 + "\n"); }
      Sub(CommaSep, b1 + ", " + b2 + "\n");
      { assert b1 + ", " + b2 + "\n" == b1 + tail; }
      Sub(CommaSep, b1 + tail);
      { SubKeepsPlain(CommaSep, b1, tail); }
      b1 + Sub(CommaSep, tail);
      { CommaThenTail(b2); }
      b1 + ("\n" + b2 + "\n");
      { assert b1 + ("\n" + b2 + "\n") == b1 + "\n" + b2 + "\n"; }
      b1 + "\n" + b2 + "\n";
    }
  }

  /** The comma and its blank become a newline, and the rest has no comma. */
  lemma {:induction false} CommaThenTail(b2: string)
    requires PlainLine(b2)
    ensures Sub(CommaSep, ", " + b2 + "\n") == "\n" + b2 + "\n"
  {
    var tail := b2 + "\n";
    assert ", " + b2 + "\n" == ", " + tail;
    assert Sub(CommaSep, ", " + tail) == "\n" + Sub(CommaSep, tail) by {
      assert MatchLength(CommaSep, ", " + tail) == 2;
      assert (", " + tail)[2..] == tail;
    }
    forall k | 0 <= k < |tail|
      ensures tail[k] != ','
    {
      if k < |b2| {
        assert tail[k] == b2[k];
      }
    }
    SubNoComma(tail);
  }

  lemma {:induction false} TwoPlainNoMarker(b1: string, b2: string)
    requires PlainLine(b1) && PlainLine(b2)
    ensures forall k | 0 <= k < |b1 + ", " + b2 + "\n"| :: !IsMarker((b1 + ", " + b2 + "\n")[k])
  {
    var text := b1 + ", " + b2 + "\n";
    forall k | 0 <= k < |text|
      ensures !IsMarker(text[k])
    {
      if k < |b1| {
        assert text[k] == b1[k];
      } else if k >= |b1| + 2 && k < |b1| + 2 + |b2| {
        assert text[k] == b2[k - |b1| - 2];
      }
    }
  }

  // ---------------------------------------------------------------------
  // read_bib_add: citation keys by `re.findall(r"@\w+{(.+),", text)`

  /** The number of word characters `s` starts with. */
  function WordRun(s: string): (n: nat)
    ensures n <= |s|
  {
    if s != [] && IsWordChar(s[0]) then 1 + WordRun(s[1..]) else 0
  }

  /** `\w+` is greedy: the run holds word characters only and stops at the
      first other character. */
  lemma {:induction false} WordRunIsMaximal(s: string)
    ensures forall k | 0 <= k < WordRun(s) :: IsWordChar(s[k])
    ensures WordRun(s) < |s| ==> !IsWordChar(s[WordRun(s)])
    decreases |s|
  {
    if s != [] && IsWordChar(s[0]) {
      WordRunIsMaximal(s[1..]);
      assert forall k | 1 <= k < WordRun(s) :: s[k] == s[1..][k - 1];
    }
  }

  /** The index of the last comma in `s`. */
  function LastComma(s: string): (r: Option<nat>)
    ensures r.Some? ==> r.value < |s| && s[r.value] == ','
  {
    if s == [] then None
    else if s[|s| - 1] == ',' then Some(|s| - 1)
    else LastComma(s[..|s| - 1])
  }

  /** It is the last one: no comma follows it, and there is none at all when
      it is missing. */
  lemma {:induction false} LastCommaIsLast(s: string)
    ensures LastComma(s).Some? ==> ',' !in s[LastComma(s).value + 1..]
    ensures LastComma(s).None? ==> ',' !in s
    decreases |s|
  {
    if s != [] && s[|s| - 1] != ',' {
      var front := s[..|s| - 1];
      LastCommaIsLast(front);
      assert s == front + [s[|s| - 1]];
      if LastComma(front).Some? {
        var i := LastComma(front).value;
        assert s[i + 1..] == front[i + 1..] + [s[|s| - 1]];
      }
    }
  }

  /** The match of `@\w+{(.+),` at the start of `s`: the captured key and the
      length of the match. `.+` is greedy and stays on one line, so the key
      runs from the brace to the last comma of that line. */
  function KeyMatch(s: string): (r: Option<(string, nat)>)
    ensures r.Some? ==> r.value.0 != [] && '\n' !in r.value.0 && 0 < r.value.1 <= |s|
  {
    if s == [] || s[0] != '@' then None
    else
      var w := WordRun(s[1..]);
      if w == 0 || 1 + w >= |s| || s[1 + w] != '{' then None
      else
        var q := 2 + w;
        var line := s[q..q + LineLength(s[q..])];
        assert '\n' !in line by {
          LineLengthShape(s[q..]);
          assert line == s[q..][..LineLength(s[q..])];
        }
        match LineKey(line)
        case None => None
        case Some(n) => Some((line[..n], q + n + 1))
  }

  /** The length of the captured key on a line: up to its last comma, at least one character. */
  function LineKey(line: string): (r: Option<nat>)
    ensures r.Some? ==> 0 < r.value < |line| && line[r.value] == ','
  {
    if |line| < 2 then None
    else
      match LastComma(line[1..])
      case None => None
      case Some(j) => Some(j + 1)
  }

  /** `re.findall(r"@\w+{(.+),", s)`: the keys of the matches, left to right. */
  function BibKeys(s: string): (r: seq<string>)
    decreases |s|
    ensures forall k | 0 <= k < |r| :: r[k] != [] && '\n' !in r[k]
  {
    if s == [] then []
    else
      match KeyMatch(s)
      case Some((key, n)) => [key] + BibKeys(s[n..])
      case None => BibKeys(s[1..])
  }

  /** `read_bib_add` after the read: for a missing file the empty text and no
      keys; otherwise the text itself and the keys found in it. The keys come
      from the text as read; the comment-stripped copy at core.py:185-187 is
      overwritten before use. */
  function ReadBibAdd(content: Option<string>): (r: (string, seq<string>))
    ensures content.None? ==> r == ("", [])
    ensures content.Some? ==> r.0 == content.value && r.1 == BibKeys(content.value)
  {
    match content
    case None => ("", [])
    case Some(text) => (text, BibKeys(text))
  }

  /** Text without an at-sign contributes no key, wherever it stands. */
  lemma {:induction false} BibKeysSkipsText(p: string, s: string)
    requires '@' !in p
    ensures BibKeys(p + s) == BibKeys(s)
    decreases |p|
  {
    if p != [] {
      assert (p + s)[0] == p[0] && (p + s)[1..] == p[1..] + s;
      BibKeysSkipsText(p[1..], s);
    } else {
      assert p + s == s;
    }
  }

  lemma {:induction false} WordRunOf(t: string, rest: string)
    requires forall k | 0 <= k < |t| :: IsWordChar(t[k])
    requires rest != [] && !IsWordChar(rest[0])
    ensures WordRun(t + rest) == |t|
    decreases |t|
  {
    if t != [] {
      assert (t + rest)[1..] == t[1..] + rest;
      WordRunOf(t[1..], rest);
    } else {
      assert t + rest == rest;
    }
  }

  lemma {:induction false} LastCommaOf(a: string, b: string)
    requires ',' !in b
    ensures LastComma(a + "," + b) == Some(|a|)
    decreases |b|
  {
    var s := a + "," + b;
    if b != [] {
      var b' := b[..|b| - 1];
      assert s[..|s| - 1] == a + "," + b';
      assert b[|b| - 1] in b;
      LastCommaOf(a, b');
    }
  }

  /** The match at an entry line captures the key up to the line's last comma. */
  lemma {:induction false} KeyMatchOfEntry(t: string, key: string, tail: string, more: string)
    requires t != [] && forall k | 0 <= k < |t| :: IsWordChar(t[k])
    requires key != [] && '\n' !in key
    requires '\n' !in tail && ',' !in tail
    ensures KeyMatch("@" + t + "{" + (key + "," + tail) + "\n" + more) == Some((key, 2 + |t| + |key| + 1))
  {
    var body := key + "," + tail;
    var s := "@" + t + "{" + body + "\n" + more;
    EntryShape(t, key, tail, more);
    KeyMatchFromParts(s, |t|, body, |key|);
    assert body[..|key|] == key;
  }

  /** The parts of an entry line that the match looks at. */
  lemma {:induction false} EntryShape(t: string, key: string, tail: string, more: string)
    requires t != [] && forall k | 0 <= k < |t| :: IsWordChar(t[k])
    requires key != [] && '\n' !in key
    requires '\n' !in tail && ',' !in tail
    ensures var body := key + "," + tail; var s := "@" + t + "{" + body + "\n" + more;
            && s != [] && s[0] == '@' && 1 + |t| < |s| && WordRun(s[1..]) == |t| && s[1 + |t|] == '{'
            && s[2 + |t|..2 + |t| + LineLength(s[2 + |t|..])] == body && LineKey(body) == Some(|key|)
  {
    var body := key + "," + tail;
    EntryWordRun(t, body, more);
    EntryLine(t, body, more);
    EntryLineKey(key, tail);
  }

  /** The match assembled from its parts. */
  lemma KeyMatchFromParts(s: string, w: nat, body: string, n: nat)
    requires s != [] && s[0] == '@' && w > 0 && 1 + w < |s| && WordRun(s[1..]) == w && s[1 + w] == '{'
    requires s[2 + w..2 + w + LineLength(s[2 + w..])] == body && LineKey(body) == Some(n)
    ensures KeyMatch(s) == Some((body[..n], 2 + w + n + 1))
  {
  }

  /** The word run after the at-sign ends at the brace. */
  lemma {:induction false} EntryWordRun(t: string, body: string, more: string)
    requires t != [] && forall k | 0 <= k < |t| :: IsWordChar(t[k])
    ensures WordRun(("@" + t + "{" + body + "\n" + more)[1..]) == |t| && ("@" + t + "{" + body + "\n" + more)[1 + |t|] == '{'
  {
    var s := "@" + t + "{" + body + "\n" + more;
    assert s[1..] == t + ("{" + body + "\n" + more);
    WordRunOf(t, "{" + body + "\n" + more);
  }

  /** The line after the brace is the entry body. */
  lemma {:induction false} EntryLine(t: string, body: string, more: string)
    requires '\n' !in body
    ensures var s := "@" + t + "{" + body + "\n" + more; var q := 2 + |t|; s[q..q + LineLength(s[q..])] == body
  {
    var s := "@" + t + "{" + body + "\n" + more;
    var q := 2 + |t|;
    assert s[q..] == body + "\n" + more;
    LineLengthOf(body, more);
  }

  /** The key on the body runs to its last comma. */
  lemma {:induction false} EntryLineKey(key: string, tail: string)
    requires key != [] && ',' !in tail
    ensures LineKey(key + "," + tail) == Some(|key|)
  {
    var body := key + "," + tail;
    assert body[1..] == key[1..] + "," + tail;
    LastCommaOf(key[1..], tail);
  }

  /** A bibtex entry line yields its key, taken greedily up to the line's last
      comma (so the key may itself hold commas), and scanning goes on after it. */
  lemma {:induction false} BibKeysOfEntry(t: string, key: string, tail: string, more: string)
    requires t != [] && forall k | 0 <= k < |t| :: IsWordChar(t[k])
    requires key != [] && '\n' !in key
    requires '\n' !in tail && ',' !in tail && '@' !in tail
    ensures BibKeys("@" + t + "{" + (key + "," + tail) + "\n" + more) == [key] + BibKeys(more)
  {
    KeyMatchOfEntry(t, key, tail, more);
    EntryRest(t, key, tail, more);
    BibKeysSkipsText(tail + "\n", more);
  }

  /** What follows the comma after the key of an entry line. */
  lemma EntryRest(t: string, key: string, tail: string, more: string)
    ensures ("@" + t + "{" + (key + "," + tail) + "\n" + more)[2 + |t| + |key| + 1..] == (tail + "\n") + more
  {
  }

  /** A commented-out entry still yields its key: the keys are taken from the
      text before comments are removed. */
  lemma {:induction false} CommentedEntryStillKeyed(t: string, key: string, tail: string, more: string)
    requires t != [] && forall k | 0 <= k < |t| :: IsWordChar(t[k])
    requires key != [] && '\n' !in key
    requires '\n' !in tail && ',' !in tail && '@' !in tail
    ensures ReadBibAdd(Some("% " + ("@" + t + "{" + (key + "," + tail) + "\n" + more))).1
              == [key] + BibKeys(more)
  {
    var entry := "@" + t + "{" + (key + "," + tail) + "\n" + more;
    BibKeysSkipsText("% ", entry);
    BibKeysOfEntry(t, key, tail, more);
  }
}
