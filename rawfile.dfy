/** `make_rawfile` of ads2bibtex/core.py: one line per entry of an exported
    bibtex text, `bibcode  # authors || title`. The text that would be written
    to the file is returned. */
module Rawfile {
  import opened Outcomes
  import opened Strings

  /** The three lists the source collects: bibcodes, author labels, titles. */
  datatype Columns = Columns(bibs: seq<string>, auths: seq<string>, tits: seq<string>)

  // ---------------------------------------------------------------------
  // Author names

  /** The last names of an author field: every nonempty maximal run of
      characters other than braces that a closing brace follows, in order.
      (A regex search that starts inside a run ends where the run ends, so a
      run that no closing brace follows yields nothing from any position;
      the empty matches are dropped.) */
  function Lasts(s: string): (r: seq<string>)
    decreases |s|
    ensures forall k | 0 <= k < |r| :: r[k] != [] && '{' !in r[k] && '}' !in r[k]
    ensures forall k | 0 <= k < |r| :: forall c | c in r[k] :: c in s
  {
    if s == [] then []
    else
      var n := BraceFreeRun(s);
      BraceFreeRunShape(s);
      var rest := if n == 0 then s[1..] else s[n..];
      assert forall c | c in rest :: c in s;
      if n > 0 && n < |s| && s[n] == '}' then
        assert forall c | c in s[..n] :: c in s;
        [s[..n]] + Lasts(rest)
      else Lasts(rest)
  }

  /** The author label: one name as it is, two or three joined by "+", more
      than three as the first name and "+" the number of the others; no name
      at all is the IndexError of `lasts[0]`. */
  function AuthorLabel(names: seq<string>): (r: Result<string, Error>)
    ensures r.Failure? <==> names == []
    ensures r.Failure? ==> r.error == IndexError
    ensures |names| == 1 ==> r == Success(names[0])
    ensures 2 <= |names| <= 3 ==> r == Success(Join(names, "+"))
    ensures |names| > 3 ==> r == Success(names[0] + "+" + NatToString(|names| - 1))
    ensures r.Success? && (forall k | 0 <= k < |names| :: '\n' !in names[k]) ==> '\n' !in r.value
  {
    if |names| > 3 then
      NatToStringDecodes(|names| - 1);
      Success(names[0] + "+" + NatToString(|names| - 1))
    else if |names| > 1 then
      JoinAvoids(names, "+", '\n');
      Success(Join(names, "+"))
    else if |names| == 1 then Success(names[0])
    else Failure(IndexError)
  }

  /** The label can be read back: up to three names are recovered by
      splitting at "+"; for more, the first name and the count of the others. */
  lemma AuthorLabelDecodes(names: seq<string>)
    requires names != [] && forall k | 0 <= k < |names| :: '+' !in names[k]
    ensures |names| <= 3 ==> Split(AuthorLabel(names).value, '+') == names
    ensures |names| > 3 ==> |Split(AuthorLabel(names).value, '+')| == 2
    ensures |names| > 3 ==> Split(AuthorLabel(names).value, '+')[0] == names[0]
    ensures |names| > 3 ==> DigitsValue(Split(AuthorLabel(names).value, '+')[1]) == |names| - 1
  {
    if |names| <= 3 {
      if |names| == 1 {
        SplitNoSep(names[0], '+');
      } else {
        SplitJoin(names, '+');
      }
    } else {
      var count := NatToString(|names| - 1);
      NatToStringDecodes(|names| - 1);
      assert '+' !in count by {
        forall c | c in count
          ensures c != '+'
        {
          var i :| 0 <= i < |count| && count[i] == c;
          assert IsDigit(count[i]);
        }
      }
      assert Join([names[0], count], "+") == names[0] + "+" + count by {
        assert [names[0], count][1..] == [count];
      }
      SplitJoin([names[0], count], '+');
    }
  }

  /** An ADS author field "{Last}, F. and {Other}, G." yields the braced last names. */
  lemma {:induction false} LastsOfBracedName(name: string, sep: string, rest: string)
    requires name != [] && '{' !in name && '}' !in name
    requires '{' !in sep && '}' !in sep
    requires rest == [] || rest[0] == '{'
    ensures Lasts("{" + name + "}" + sep + rest) == [name] + Lasts(rest)
  {
    var v := sep + rest;
    var u := "}" + v;
    var t := name + u;
    assert "{" + name + "}" + sep + rest == "{" + t;
    LastsAtBrace("{" + t);
    assert ("{" + t)[1..] == t;
    LastsRun(name, u);
    LastsAtBrace(u);
    assert u[1..] == v;
    LastsRunOpen(sep, rest);
  }

  /** A brace is skipped. */
  lemma LastsAtBrace(s: string)
    requires s != [] && (s[0] == '{' || s[0] == '}')
    ensures Lasts(s) == Lasts(s[1..])
  {
    assert BraceFreeRun(s) == 0;
  }

  /** A run that a closing brace follows is one name. */
  lemma LastsRun(a: string, b: string)
    requires a != [] && '{' !in a && '}' !in a
    requires b != [] && b[0] == '}'
    ensures Lasts(a + b) == [a] + Lasts(b)
  {
    BraceFreeRunOf(a, b);
    assert (a + b)[..|a|] == a && (a + b)[|a|..] == b;
  }

  /** A run that an opening brace or the end follows is no name. */
  lemma LastsRunOpen(a: string, b: string)
    requires '{' !in a && '}' !in a
    requires b == [] || b[0] == '{'
    ensures Lasts(a + b) == Lasts(b)
  {
    if a == [] {
      assert a + b == b;
    } else {
      BraceFreeRunOf(a, b);
      assert (a + b)[|a|..] == b;
    }
  }

  // ---------------------------------------------------------------------
  // Lines

  /** What one line adds to the columns (`line.strip()` first): an "@" line its
      key when it is 19 characters long, an "author =" line its label, a
      "title =" line its title; other lines nothing. A missing "{" or " = {"
      is the IndexError of `split(...)[1]`. */
  function AddLine(c: Columns, raw: string): (r: Result<Columns, Error>)
    ensures r.Success? ==> c.bibs <= r.value.bibs && c.auths <= r.value.auths && c.tits <= r.value.tits
    ensures r.Success? ==> |r.value.bibs| <= |c.bibs| + 1 && |r.value.auths| <= |c.auths| + 1 && |r.value.tits| <= |c.tits| + 1
    ensures r.Success? && BibcodeLength(c.bibs) ==> BibcodeLength(r.value.bibs)
    ensures r.Success? && '\n' !in raw && NoNewline(c.bibs) && NoNewline(c.auths) && NoNewline(c.tits)
            ==> NoNewline(r.value.bibs) && NoNewline(r.value.auths) && NoNewline(r.value.tits)
    ensures r.Failure? ==> r.error == IndexError
    ensures "@" <= Strip(raw) ==> r == EntryLine(c, Strip(raw))
    ensures "author =" <= Strip(raw) ==> r == AuthorLine(c, Strip(raw))
    ensures "title =" <= Strip(raw) ==> r == TitleLine(c, Strip(raw))
    ensures !("@" <= Strip(raw)) && !("author =" <= Strip(raw)) && !("title =" <= Strip(raw)) ==> r == Success(c)
  {
    var line := Strip(raw);
    if "@" <= line then EntryLine(c, line)
    else if "author =" <= line then AuthorLine(c, line)
    else if "title =" <= line then TitleLine(c, line)
    else Success(c)
  }

  /** An "@" line: the key between the first "{" and the first ",". */
  function EntryLine(c: Columns, line: string): (r: Result<Columns, Error>)
    ensures r.Success? ==> c.bibs <= r.value.bibs && c.auths <= r.value.auths && c.tits <= r.value.tits
    ensures r.Success? ==> |r.value.bibs| <= |c.bibs| + 1 && |r.value.auths| <= |c.auths| + 1 && |r.value.tits| <= |c.tits| + 1
    ensures r.Success? && BibcodeLength(c.bibs) ==> BibcodeLength(r.value.bibs)
    ensures r.Success? && '\n' !in line && NoNewline(c.bibs) && NoNewline(c.auths) && NoNewline(c.tits)
            ==> NoNewline(r.value.bibs) && NoNewline(r.value.auths) && NoNewline(r.value.tits)
    ensures r.Failure? <==> '{' !in line
    ensures r.Failure? ==> r.error == IndexError
    ensures r.Success? ==> r.value.auths == c.auths && r.value.tits == c.tits
  {
    FindChar(line, '{');
    var p := PieceAfter(line, "{");
    if p.None? then Failure(IndexError)
    else
      var bib := PieceBefore(p.value, ",");
      if |bib| == 19 then Success(c.(bibs := c.bibs + [bib])) else Success(c)
  }

  /** An "author =" line: the label of the last names in the braces. */
  function AuthorLine(c: Columns, line: string): (r: Result<Columns, Error>)
    ensures r.Success? ==> c.bibs <= r.value.bibs && c.auths <= r.value.auths && c.tits <= r.value.tits
    ensures r.Success? ==> |r.value.bibs| <= |c.bibs| + 1 && |r.value.auths| <= |c.auths| + 1 && |r.value.tits| <= |c.tits| + 1
    ensures r.Success? && BibcodeLength(c.bibs) ==> BibcodeLength(r.value.bibs)
    ensures r.Success? && '\n' !in line && NoNewline(c.bibs) && NoNewline(c.auths) && NoNewline(c.tits)
            ==> NoNewline(r.value.bibs) && NoNewline(r.value.auths) && NoNewline(r.value.tits)
    ensures Find(line, " = {").None? ==> r == Failure(IndexError)
    ensures r.Failure? ==> r.error == IndexError
    ensures r.Success? ==> r.value.bibs == c.bibs && r.value.tits == c.tits && |r.value.auths| == |c.auths| + 1
  {
    var p := PieceAfter(line, " = {");
    if p.None? then Failure(IndexError)
    else
      var author := AuthorLabel(Lasts(DropLast(p.value, 2)));
      if author.Failure? then Failure(author.error)
      else Success(c.(auths := c.auths + [author.value]))
  }

  /** A "title =" line: what follows the first "{", less its last three characters. */
  function TitleLine(c: Columns, line: string): (r: Result<Columns, Error>)
    ensures r.Success? ==> c.bibs <= r.value.bibs && c.auths <= r.value.auths && c.tits <= r.value.tits
    ensures r.Success? ==> |r.value.bibs| <= |c.bibs| + 1 && |r.value.auths| <= |c.auths| + 1 && |r.value.tits| <= |c.tits| + 1
    ensures r.Success? && BibcodeLength(c.bibs) ==> BibcodeLength(r.value.bibs)
    ensures r.Success? && '\n' !in line && NoNewline(c.bibs) && NoNewline(c.auths) && NoNewline(c.tits)
            ==> NoNewline(r.value.bibs) && NoNewline(r.value.auths) && NoNewline(r.value.tits)
    ensures r.Failure? <==> '{' !in line
    ensures r.Failure? ==> r.error == IndexError
    ensures r.Success? ==> r.value.bibs == c.bibs && r.value.auths == c.auths && |r.value.tits| == |c.tits| + 1
  {
    FindChar(line, '{');
    var p := PieceAfter(line, "{");
    if p.None? then Failure(IndexError)
    else Success(c.(tits := c.tits + [DropLast(p.value, 3)]))
  }

  /** An entry line "@type{key,...": the key before the first comma is
      collected exactly when it has the 19 characters of a bibcode. */
  lemma EntryLineKey(c: Columns, t: string, key: string, rest: string)
    requires '{' !in t && '{' !in key && ',' !in key
    ensures EntryLine(c, "@" + t + "{" + key + "," + rest)
              == Success(if |key| == 19 then c.(bibs := c.bibs + [key]) else c)
  {
    EntryLinePiece(t, key, rest);
    PieceBeforeFirst(key, ',', PieceBefore(rest, "{"));
  }

  /** The piece of an entry line after its first "{". */
  lemma EntryLinePiece(t: string, key: string, rest: string)
    requires '{' !in t && '{' !in key
    ensures PieceAfter("@" + t + "{" + key + "," + rest, "{") == Some(key + "," + PieceBefore(rest, "{"))
  {
    var after := key + "," + rest;
    assert "@" + t + "{" + key + "," + rest == ("@" + t) + ['{'] + after;
    PieceAfterFreeHead("@" + t, '{', after);
    assert after == (key + ",") + rest;
    PieceBeforeFreeHead(key + ",", '{', rest);
  }

  /** A title line: the title is the text after the first "{" up to the next
      one, less its last three characters. */
  lemma TitleLineOf(c: Columns, h: string, x: string)
    requires '{' !in h
    ensures TitleLine(c, h + "{" + x) == Success(c.(tits := c.tits + [DropLast(PieceBefore(x, "{"), 3)]))
  {
    PieceAfterFreeHead(h, '{', x);
  }

  /** An ADS title line `title = "{T}",` with no brace inside the title
      yields the title itself. */
  lemma TitleLineQuoted(c: Columns, title: string)
    requires '{' !in title
    ensures TitleLine(c, "title = \"{" + title + "}\",") == Success(c.(tits := c.tits + [title]))
  {
    var x := title + "}\",";
    assert "title = \"{" + title + "}\"," == "title = \"" + "{" + x;
    TitleLineOf(c, "title = \"", x);
    FindChar(x, '{');
    assert DropLast(x, 3) == title;
  }

  /** An author field after " = {" and before the closing "}," is what the
      labels are made of, when no "=" occurs in it. */
  lemma AuthorFieldPiece(h: string, x: string)
    requires '{' !in h && '=' !in x
    ensures PieceAfter(h + " = {" + x + "},", " = {") == Some(x + "},")
  {
    var s := h + " = {" + x + "},";
    var pat := " = {";
    assert s[|h|..|h| + 4] == pat;
    forall j | 0 <= j < |h|
      ensures !OccursAt(s, pat, j)
    {
      assert s[j..j + 4][3] == s[j + 3];
      if j + 3 < |h| {
        assert s[j + 3] == h[j + 3];
      } else {
        assert s[j + 3] == " = "[j + 3 - |h|];
      }
    }
    FindFirst(s, pat, |h|);
    var y := x + "},";
    assert s[|h| + 4..] == y;
    forall j | 0 <= j <= |y| && j + 4 <= |y|
      ensures !OccursAt(y, pat, j)
    {
      assert y[j..j + 4][1] == y[j + 1];
      if j + 1 < |x| {
        assert y[j + 1] == x[j + 1];
      }
    }
    FindNone(y, pat);
  }

  /** An author line `author = {X},`: the label of the braced last names of
      X, or the IndexError when X holds none. */
  lemma AuthorLineOf(c: Columns, h: string, x: string)
    requires '{' !in h && '=' !in x
    ensures AuthorLine(c, h + " = {" + x + "},")
              == if Lasts(x) == [] then Failure(IndexError)
                 else Success(c.(auths := c.auths + [AuthorLabel(Lasts(x)).value]))
  {
    AuthorFieldPiece(h, x);
    assert DropLast(x + "},", 2) == x;
  }

  /** A single ADS author `author = {{Last}, F.},` is labelled by the last name. */
  lemma AuthorLineOneName(c: Columns, name: string, initials: string)
    requires name != [] && '{' !in name && '}' !in name && '=' !in name
    requires '{' !in initials && '}' !in initials && '=' !in initials
    ensures AuthorLine(c, "author = {{" + name + "}, " + initials + "},") == Success(c.(auths := c.auths + [name]))
  {
    var x := "{" + name + "}" + ", " + initials;
    assert "author = {{" + name + "}, " + initials + "}," == "author" + " = {" + x + "},";
    assert '=' !in x by {
      assert x == "{" + name + "}" + (", " + initials);
    }
    AuthorLineOf(c, "author", x);
    assert x == "{" + name + "}" + (", " + initials) + [];
    LastsOfBracedName(name, ", " + initials, []);
    assert Lasts([]) == [];
  }

  /** The columns of a list of lines, collected in order; the first failing
      line stops the collection. */
  function CollectColumns(lines: seq<string>): (r: Result<Columns, Error>)
    decreases |lines|
    ensures r.Success? ==> BibcodeLength(r.value.bibs)
    ensures r.Success? && NoNewline(lines) ==> NoNewline(r.value.bibs) && NoNewline(r.value.auths) && NoNewline(r.value.tits)
  {
    if lines == [] then Success(Columns([], [], []))
    else
      var prev := CollectColumns(lines[..|lines| - 1]);
      if prev.Failure? then prev
      else AddLine(prev.value, lines[|lines| - 1])
  }

  predicate BibcodeLength(bibs: seq<string>)
  {
    forall k | 0 <= k < |bibs| :: |bibs[k]| == 19
  }

  predicate NoNewline(s: seq<string>)
  {
    forall k | 0 <= k < |s| :: '\n' !in s[k]
  }

  /** Once a line fails, the whole collection fails with its error. */
  lemma {:induction false} FailureSticks(lines: seq<string>, i: nat)
    requires i <= |lines| && CollectColumns(lines[..i]).Failure?
    ensures CollectColumns(lines) == CollectColumns(lines[..i])
    decreases |lines| - i
  {
    if i < |lines| {
      assert lines[..i + 1][..i] == lines[..i];
      FailureSticks(lines, i + 1);
    } else {
      assert lines[..i] == lines;
    }
  }

  /** One more line is one more `AddLine` on what the lines before it gave. */
  lemma CollectNext(lines: seq<string>, i: nat)
    requires i < |lines| && CollectColumns(lines[..i]).Success?
    ensures CollectColumns(lines[..i + 1]) == AddLine(CollectColumns(lines[..i]).value, lines[i])
  {
    var front := lines[..i + 1];
    assert front[..|front| - 1] == lines[..i] && front[|front| - 1] == lines[i];
  }

  // ---------------------------------------------------------------------
  // The file text

  function Row(bib: string, auth: string, tit: string): string
  {
    bib + "  # " + auth + " || " + tit
  }

  /** The first `n` rows of `zip(bibs, auths, tits)`, each ended by a newline. */
  function RowsUpTo(c: Columns, n: nat): string
    requires n <= |c.bibs| && n <= |c.auths| && n <= |c.tits|
  {
    if n == 0 then "" else RowsUpTo(c, n - 1) + Row(c.bibs[n - 1], c.auths[n - 1], c.tits[n - 1]) + "\n"
  }

  /** The text `make_rawfile` writes for an exported bibtex text. */
  function RawfileText(bibtex: string): Result<string, Error>
  {
    match CollectColumns(Split(bibtex, '\n'))
    case Failure(e) => Failure(e)
    case Success(c) => Success(RowsUpTo(c, Min3(|c.bibs|, |c.auths|, |c.tits|)))
  }

  /** `make_rawfile`: a pass over the lines collecting the three lists (each
      line through `AddLine`; the first failing line ends the call with its
      error), then the rows written for the positions all three lists have. */
  method MakeRawfile(bibtex: string) returns (r: Result<string, Error>)
    ensures r == RawfileText(bibtex)
  {
    var lines := Split(bibtex, '\n');
    var bibs: seq<string> := [];
    var auths: seq<string> := [];
    var tits: seq<string> := [];
    var i := 0;
    while i < |lines|
      invariant 0 <= i <= |lines|
      invariant CollectColumns(lines[..i]) == Success(Columns(bibs, auths, tits))
    {
      CollectNext(lines, i);
      var next := AddLine(Columns(bibs, auths, tits), lines[i]);
      if next.Failure? {
        FailureSticks(lines, i + 1);
        return Failure(next.error);
      }
      bibs, auths, tits := next.value.bibs, next.value.auths, next.value.tits;
      i := i + 1;
    }
    assert lines[..i] == lines;
    var text := WriteRows(Columns(bibs, auths, tits));
    return Success(text);
  }

  /** The loop over `zip(bibs, auths, tits)` writing one row per position. */
  method WriteRows(c: Columns) returns (text: string)
    ensures text == RowsUpTo(c, Min3(|c.bibs|, |c.auths|, |c.tits|))
  {
    var n := Min3(|c.bibs|, |c.auths|, |c.tits|);
    text := "";
    var j := 0;
    while j < n
      invariant 0 <= j <= n
      invariant text == RowsUpTo(c, j)
    {
      text := text + Row(c.bibs[j], c.auths[j], c.tits[j]) + "\n";
      j := j + 1;
    }
  }

  /** The rows as lines: row `k` is bibcode `k`, author label `k` and title `k`. */
  function RowLines(c: Columns, n: nat): (r: seq<string>)
    requires n <= |c.bibs| && n <= |c.auths| && n <= |c.tits|
    ensures |r| == n
    ensures forall k | 0 <= k < n :: r[k] == Row(c.bibs[k], c.auths[k], c.tits[k])
  {
    if n == 0 then [] else RowLines(c, n - 1) + [Row(c.bibs[n - 1], c.auths[n - 1], c.tits[n - 1])]
  }

  /** When no field holds a newline, the text has exactly `n` lines, the
      rows, each ended by a newline. */
  lemma {:induction false} RowsAreLines(c: Columns, n: nat)
    requires n <= |c.bibs| && n <= |c.auths| && n <= |c.tits|
    requires NoNewline(c.bibs) && NoNewline(c.auths) && NoNewline(c.tits)
    ensures Split(RowsUpTo(c, n), '\n') == RowLines(c, n) + [""]
  {
    var parts := RowLines(c, n) + [""];
    forall k | 0 <= k < |parts|
      ensures '\n' !in parts[k]
    {
      if k < n {
        RowHasNoNewline(c.bibs[k], c.auths[k], c.tits[k]);
      }
    }
    RowsJoin(c, n);
    SplitJoin(parts, '\n');
  }

  lemma RowHasNoNewline(b: string, a: string, t: string)
    requires '\n' !in b && '\n' !in a && '\n' !in t
    ensures '\n' !in Row(b, a, t)
  {
  }

  lemma {:induction false} RowsJoin(c: Columns, n: nat)
    requires n <= |c.bibs| && n <= |c.auths| && n <= |c.tits|
    ensures Join(RowLines(c, n) + [""], "\n") == RowsUpTo(c, n)
  {
    if n > 0 {
      RowsJoin(c, n - 1);
      var row := Row(c.bibs[n - 1], c.auths[n - 1], c.tits[n - 1]);
      JoinSnoc(RowLines(c, n - 1), row);
    }
  }

  /** Joining with an extra last piece "" after `row`. */
  lemma {:induction false} JoinSnoc(rows: seq<string>, row: string)
    ensures Join(rows + [row] + [""], "\n") == Join(rows + [""], "\n") + row + "\n"
  {
    if rows == [] {
      assert [row] + [""] == [row, ""];
      assert [row, ""][1..] == [""];
    } else {
      assert (rows + [row] + [""])[1..] == rows[1..] + [row] + [""];
      assert (rows + [""])[1..] == rows[1..] + [""];
      JoinSnoc(rows[1..], row);
    }
  }

  /** The file has one line per position that all three lists have, bibcode,
      author label and title of that position, and nothing after the last
      newline; every bibcode in it is 19 characters long. */
  lemma RawfileTextRows(bibtex: string)
    requires RawfileText(bibtex).Success?
    ensures var c := CollectColumns(Split(bibtex, '\n')).value;
            var n := Min3(|c.bibs|, |c.auths|, |c.tits|);
            && Split(RawfileText(bibtex).value, '\n') == RowLines(c, n) + [""]
            && n <= |c.bibs| && n <= |c.auths| && n <= |c.tits|
            && BibcodeLength(c.bibs)
  {
    var c := CollectColumns(Split(bibtex, '\n')).value;
    RowsAreLines(c, Min3(|c.bibs|, |c.auths|, |c.tits|));
  }
}
