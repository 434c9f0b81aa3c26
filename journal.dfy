/** Journal-name handling of ads2bibtex/core.py: the macro table, its
    expansion and the `change_journal_name` dispatch. */
module Journal {
  import opened Outcomes
  import opened Strings

  /** An ordered macro table: (macro name without its backslash, full journal name). */
  type Table = seq<(string, string)>

  // JOURNAL_MACRO, in the insertion order of the Python dict, written in
  // six consecutive groups. Full names longer than 24 characters are written
  // as concatenations of shorter literals at word boundaries; the text is
  // that of the dict.
  /** Entries 0 to 14 of JOURNAL_MACRO (names starting with a). */
  const MacrosA: Table := [
    ("aas", "American Astronomical " + "Society Meeting " + "Abstracts"),
    ("aj", "Astronomical Journal"),
    ("actaa", "Acta Astronomica"),
    ("araa", "Annual Review of Astron " + "and Astrophysis"),
    ("apjl", "Astrophysical Journal, " + "Letters"),
    ("apjs", "Astrophysical Journal, " + "Supplement"),
    ("apj", "Astrophysical Journal"),
    ("ao", "Applied Optics"),
    ("apss", "Astrophysics and Space " + "Science"),
    ("aapr", "Astronomy and " + "Astrophysics Reviews"),
    ("aaps", "Astronomy and " + "Astrophysics, " + "Supplement"),
    ("aap", "Astronomy and " + "Astrophysics"),
    ("aplett", "Astrophysics Letters"),
    ("apspr", "Astrophysics Space " + "Physics Research"),
    ("azh", "Astronomicheskii Zhurnal")
  ]

  /** Entries 15 to 25 of JOURNAL_MACRO (names starting with b to i). */
  const MacrosBtoI: Table := [
    ("baas", "Bulletin of the " + "American Astronomical " + "Society"),
    ("bac", "Bulletin of the " + "Astronomical Institutes " + "of Czechoslovakia"),
    ("bain", "Bulletin Astronomical " + "Institute of the " + "Netherlands"),
    ("caa", "Chinese Astronomy and " + "Astrophysics"),
    ("cjaa", "Chinese Journal of " + "Astronomy and " + "Astrophysics"),
    ("dps", "American Astronomical " + "Society/Division for " + "Planetary Sciences " + "Meeting Abstracts"),
    ("fcp", "Fundamental Cosmic " + "Physics"),
    ("gca", "Geochimica Cosmochimica " + "Acta"),
    ("grl", "Geophysics Research " + "Letters"),
    ("iaucirc", "International " + "Astronomical Union " + "Cirulars"),
    ("icarus", "Icarus")
  ]

  /** Entries 26 to 35 of JOURNAL_MACRO (names starting with j to m). */
  const MacrosJtoM: Table := [
    ("jaavso", "Journal of the American " + "Association of Variable " + "Star Observers"),
    ("jcap", "Journal of Cosmology " + "and Astroparticle " + "Physics"),
    ("jcp", "Journal of Chemical " + "Physics"),
    ("jgr", "Journal of Geophysics " + "Research"),
    ("jqsrt", "Journal of " + "Quantitiative " + "Spectroscopy and " + "Radiative Transfer"),
    ("jrasc", "Journal of the Royal " + "Astronomical Society of " + "Canada"),
    ("maps", "Meteoritics and " + "Planetary Science"),
    ("memras", "Memoirs of the Royal " + "Astronomical Society"),
    ("memsai", "Mem. Societa " + "Astronomica Italiana"),
    ("mnras", "Monthly Notices of the " + "Royal Astronomical " + "Society")
  ]

  /** Entries 36 to 39 of JOURNAL_MACRO (names starting with n). */
  const MacrosN: Table := [
    ("nat", "Nature"),
    ("nar", "New Astronomy Review"),
    ("na", "New Astronomy"),
    ("nphysa", "Nuclear Physics A")
  ]

  /** Entries 40 to 53 of JOURNAL_MACRO (names starting with p). */
  const MacrosP: Table := [
    ("pasa", "Publications of the " + "Astronomical Society of " + "Australia"),
    ("pasp", "Publications of the " + "Astronomical Society of " + "the Pacific"),
    ("pasj", "Publications of the " + "Astronomical Society of " + "Japan"),
    ("physrep", "Physics Reports"),
    ("physscr", "Physica Scripta"),
    ("planss", "Planetary Space Science"),
    ("pra", "Physical Review A"),
    ("prb", "Physical Review B"),
    ("prc", "Physical Review C"),
    ("prd", "Physical Review D"),
    ("pre", "Physical Review E"),
    ("prl", "Physical Review Letters"),
    ("procspie", "Proceedings of the " + "Society of " + "Photo-Optical " + "Instrumentation " + "Engineers"),
    ("psj", "Planetary Science " + "Journal")
  ]

  /** Entries 54 to 60 of JOURNAL_MACRO (names starting with q to z). */
  const MacrosQtoZ: Table := [
    ("qjras", "Quarterly Journal of " + "the Royal Astronomical " + "Society"),
    ("rmxaa", "Revista Mexicana de " + "Astronomia y " + "Astrofisica"),
    ("skytel", "Sky and Telescope"),
    ("solphys", "Solar Physics"),
    ("sovast", "Soviet Astronomy"),
    ("ssr", "Space Science Reviews"),
    ("zap", "Zeitschrift fuer " + "Astrophysik")
  ]
  /** The groups after the first one, whose names do not start with "a". */
  const MacrosBtoZ: Table := MacrosBtoI + MacrosJtoM + MacrosN + MacrosP + MacrosQtoZ

  const JournalMacro: Table := MacrosA + MacrosBtoZ

  /** The text a macro entry replaces: a backslash followed by its name. */
  function MacroPattern(key: string): string
  {
    "\\" + key
  }

  /** `re.sub(pat, rep, s)` for a pattern without special characters: every
      occurrence of `pat`, scanned left to right without overlap, becomes `rep`. */
  function ReplaceAll(s: string, pat: string, rep: string): string
    requires pat != []
    decreases |s|
  {
    if s == [] then []
    else if pat <= s then rep + ReplaceAll(s[|pat|..], pat, rep)
    else [s[0]] + ReplaceAll(s[1..], pat, rep)
  }

  /** A text not containing the first character of the pattern is left alone. */
  lemma {:induction false} ReplaceAllAbsent(s: string, pat: string, rep: string)
    requires pat != [] && pat[0] !in s
    ensures ReplaceAll(s, pat, rep) == s
  {
    if s != [] {
      ReplaceAllAbsent(s[1..], pat, rep);
    }
  }

  /** A prefix not containing the first character of the pattern passes through. */
  lemma {:induction false} ReplaceAllKeepsPrefix(a: string, b: string, pat: string, rep: string)
    requires pat != [] && pat[0] !in a
    ensures ReplaceAll(a + b, pat, rep) == a + ReplaceAll(b, pat, rep)
  {
    if a != [] {
      assert a[0] in a && (a + b)[0] == a[0];
      assert !(pat <= a + b);
      assert (a + b)[1..] == a[1..] + b;
      ReplaceAllKeepsPrefix(a[1..], b, pat, rep);
      assert [a[0]] + a[1..] == a;
    } else {
      assert a + b == b;
    }
  }

  /** `_expand_macros` as a fold: one replace-all per table entry, in table order. */
  function MacroFold(s: string, table: Table): string
    decreases table
  {
    if table == [] then s
    else MacroFold(ReplaceAll(s, MacroPattern(table[0].0), table[0].1), table[1..])
  }

  /** Folding over two tables in a row is folding over their concatenation. */
  lemma {:induction false} MacroFoldAppend(s: string, t1: Table, t2: Table)
    ensures MacroFold(s, t1 + t2) == MacroFold(MacroFold(s, t1), t2)
    decreases t1
  {
    if t1 != [] {
      assert (t1 + t2)[0] == t1[0] && (t1 + t2)[1..] == t1[1..] + t2;
      MacroFoldAppend(ReplaceAll(s, MacroPattern(t1[0].0), t1[0].1), t1[1..], t2);
    } else {
      assert t1 + t2 == t2;
    }
  }

  /** Text without a backslash is not changed by any macro table. */
  lemma {:induction false} MacroFoldNoBackslash(s: string, table: Table)
    requires '\\' !in s
    ensures MacroFold(s, table) == s
    decreases table
  {
    if table != [] {
      ReplaceAllAbsent(s, MacroPattern(table[0].0), table[0].1);
      MacroFoldNoBackslash(s, table[1..]);
    }
  }

  /** `_expand_macros`: the loop over JOURNAL_MACRO that reassigns the text. */
  method ExpandMacros(text: string) returns (r: string)
    ensures r == MacroFold(text, JournalMacro)
    ensures '\\' !in text ==> r == text
  {
    r := text;
    var i := 0;
    while i < |JournalMacro|
      invariant 0 <= i <= |JournalMacro|
      invariant MacroFold(r, JournalMacro[i..]) == MacroFold(text, JournalMacro)
    {
      var (k, v) := JournalMacro[i];
      assert JournalMacro[i..][1..] == JournalMacro[i + 1..];
      r := ReplaceAll(r, MacroPattern(k), v);
      i := i + 1;
    }
    if '\\' !in text {
      MacroFoldNoBackslash(text, JournalMacro);
    }
  }

  // ---------------------------------------------------------------------
  // A reference semantics: one left-to-right scan that, at each backslash,
  // substitutes the first table entry whose name follows it.

  /** The index of the first entry (from `from` on) whose name is a prefix of `s`. */
  function FirstMatch(s: string, table: Table, from: nat := 0): (r: Option<nat>)
    requires from <= |table|
    decreases |table| - from
    ensures r.Some? ==> from <= r.value < |table| && table[r.value].0 <= s
    ensures r.Some? ==> forall j | from <= j < r.value :: !(table[j].0 <= s)
    ensures r.None? ==> forall j | from <= j < |table| :: !(table[j].0 <= s)
  {
    if from == |table| then None
    else if table[from].0 <= s then Some(from)
    else FirstMatch(s, table, from + 1)
  }

  /** Single-pass expansion of the macros of `s`. */
  function Expand(s: string, table: Table): string
    decreases |s|
  {
    if s == [] then []
    else if s[0] == '\\' && FirstMatch(s[1..], table).Some? then
      var e := table[FirstMatch(s[1..], table).value];
      e.1 + Expand(s[1 + |e.0|..], table)
    else [s[0]] + Expand(s[1..], table)
  }

  /** What the fold relies on: names are nonempty and lower-case, full names
      are nonempty, start with a capital letter and hold no backslash. */
  predicate EntryWellFormed(e: (string, string))
  {
    && |e.0| > 0
    && (forall c | c in e.0 :: 'a' <= c <= 'z')
    && |e.1| > 0
    && 'A' <= e.1[0] <= 'Z'
    && '\\' !in e.1
  }

  predicate WellFormed(table: Table)
  {
    forall j | 0 <= j < |table| :: EntryWellFormed(table[j])
  }

  /** No name is a proper prefix of a name that comes later in the table. */
  predicate PrefixOrdered(table: Table)
  {
    forall i, j | 0 <= i < j < |table| :: !(table[i].0 < table[j].0)
  }

  lemma {:induction false} ExpandEmptyTable(s: string)
    ensures Expand(s, []) == s
  {
    if s != [] {
      ExpandEmptyTable(s[1..]);
    }
  }

  lemma {:induction false} ExpandKeepsPrefix(a: string, b: string, table: Table)
    requires '\\' !in a
    ensures Expand(a + b, table) == a + Expand(b, table)
  {
    if a != [] {
      assert a[0] in a && (a + b)[0] == a[0];
      assert (a + b)[1..] == a[1..] + b;
      ExpandKeepsPrefix(a[1..], b, table);
      assert [a[0]] + a[1..] == a;
    } else {
      assert a + b == b;
    }
  }

  /** Replacing one macro never makes a lower-case name appear or disappear
      right after a backslash. */
  lemma {:induction false} NamePrefixSurvivesReplace(k: string, u: string, e: (string, string))
    requires |k| > 0 && forall c | c in k :: 'a' <= c <= 'z'
    requires EntryWellFormed(e)
    ensures k <= ReplaceAll(u, MacroPattern(e.0), e.1) <==> k <= u
  {
    var pat := MacroPattern(e.0);
    if u != [] && !(pat <= u) {
      assert k[0] in k;
      if |k| > 1 {
        assert forall c | c in k[1..] :: c in k;
        NamePrefixSurvivesReplace(k[1..], u[1..], e);
      }
    } else if u != [] {
      assert k[0] in k;
    }
  }

  lemma {:induction false} FirstMatchSkip(s: string, table: Table, from: nat)
    requires from < |table| && !(table[0].0 <= s)
    ensures FirstMatch(s, table, from + 1) == (match FirstMatch(s, table[1..], from)
                                                case None => None
                                                case Some(j) => Some(j + 1))
    decreases |table| - from
  {
    if from + 1 < |table| && !(table[from + 1].0 <= s) {
      FirstMatchSkip(s, table, from + 1);
    }
  }

  lemma {:induction false} FirstMatchAgrees(u: string, r: string, table: Table, from: nat)
    requires from <= |table|
    requires forall j | from <= j < |table| :: (table[j].0 <= r <==> table[j].0 <= u)
    ensures FirstMatch(r, table, from) == FirstMatch(u, table, from)
    decreases |table| - from
  {
    if from < |table| {
      FirstMatchAgrees(u, r, table, from + 1);
    }
  }

  /** A backslash followed by a name is the pattern of that name. */
  lemma PatternAtBackslash(k: string, s: string)
    requires s != [] && s[0] == '\\'
    ensures MacroPattern(k) <= s <==> k <= s[1..]
  {
    assert s == ['\\'] + s[1..];
  }

  /** Expanding the rest of the table after one replace-all pass is expanding with the whole table. */
  lemma {:induction false} ExpandAfterReplace(s: string, table: Table)
    requires table != [] && WellFormed(table)
    ensures Expand(ReplaceAll(s, MacroPattern(table[0].0), table[0].1), table[1..]) == Expand(s, table)
    decreases |s|, 2
  {
    var pat := MacroPattern(table[0].0);
    if s == [] {
    } else if pat <= s {
      ExpandAfterReplaceAtMacro(s, table);
    } else if s[0] != '\\' {
      ExpandAfterReplace(s[1..], table);
    } else {
      ExpandAfterReplaceAtOther(s, table);
    }
  }

  /** The case where the text starts with the macro of the first entry. */
  lemma {:induction false} ExpandAfterReplaceAtMacro(s: string, table: Table)
    requires table != [] && WellFormed(table)
    requires MacroPattern(table[0].0) <= s
    ensures Expand(ReplaceAll(s, MacroPattern(table[0].0), table[0].1), table[1..]) == Expand(s, table)
    decreases |s|, 0
  {
    var (k0, v0) := table[0];
    var pat := MacroPattern(k0);
    assert EntryWellFormed(table[0]);
    assert s != [] && s[0] == '\\';
    PatternAtBackslash(k0, s);
    assert FirstMatch(s[1..], table) == Some(0);
    assert Expand(s, table) == v0 + Expand(s[|pat|..], table);
    assert ReplaceAll(s, pat, v0) == v0 + ReplaceAll(s[|pat|..], pat, v0);
    ExpandKeepsPrefix(v0, ReplaceAll(s[|pat|..], pat, v0), table[1..]);
    ExpandAfterReplace(s[|pat|..], table);
  }

  /** A replace-all pass of the first entry does not change which later entry
      matches right after a backslash. */
  lemma ReplaceKeepsFirstMatch(u: string, table: Table)
    requires table != [] && WellFormed(table)
    ensures FirstMatch(ReplaceAll(u, MacroPattern(table[0].0), table[0].1), table[1..])
              == FirstMatch(u, table[1..])
  {
    var rest := table[1..];
    var r := ReplaceAll(u, MacroPattern(table[0].0), table[0].1);
    forall j | 0 <= j < |rest|
      ensures rest[j].0 <= r <==> rest[j].0 <= u
    {
      assert EntryWellFormed(table[j + 1]);
      assert EntryWellFormed(table[0]);
      NamePrefixSurvivesReplace(rest[j].0, u, table[0]);
    }
    FirstMatchAgrees(u, r, rest, 0);
  }

  /** The case where the text starts with a backslash not followed by the first entry's name. */
  lemma {:induction false} ExpandAfterReplaceAtOther(s: string, table: Table)
    requires table != [] && WellFormed(table)
    requires s != [] && s[0] == '\\' && !(MacroPattern(table[0].0) <= s)
    ensures Expand(ReplaceAll(s, MacroPattern(table[0].0), table[0].1), table[1..]) == Expand(s, table)
    decreases |s|, 1
  {
    var (k0, v0) := table[0];
    var pat := MacroPattern(k0);
    var u := s[1..];
    var r := ReplaceAll(u, pat, v0);
    assert ReplaceAll(s, pat, v0) == ['\\'] + r;
    assert (['\\'] + r)[1..] == r;
    PatternAtBackslash(k0, s);
    ReplaceKeepsFirstMatch(u, table);
    FirstMatchSkip(u, table, 0);
    if FirstMatch(u, table[1..]).None? {
      assert Expand(s, table) == ['\\'] + Expand(u, table);
      ExpandAfterReplace(u, table);
    } else {
      ExpandAfterReplaceAtLater(s, table, FirstMatch(u, table[1..]).value);
    }
  }

  /** The case where the text starts with the macro of a later entry `j + 1`. */
  lemma {:induction false} ExpandAfterReplaceAtLater(s: string, table: Table, j: nat)
    requires table != [] && WellFormed(table)
    requires s != [] && s[0] == '\\' && !(MacroPattern(table[0].0) <= s)
    requires FirstMatch(s[1..], table[1..]) == Some(j)
    requires FirstMatch(s[1..], table) == Some(j + 1)
    requires FirstMatch(ReplaceAll(s[1..], MacroPattern(table[0].0), table[0].1), table[1..]) == Some(j)
    ensures Expand(ReplaceAll(s, MacroPattern(table[0].0), table[0].1), table[1..]) == Expand(s, table)
    decreases |s|, 0
  {
    var (k0, v0) := table[0];
    var pat := MacroPattern(k0);
    var u := s[1..];
    var r := ReplaceAll(u, pat, v0);
    var k := table[j + 1].0;
    assert ReplaceAll(s, pat, v0) == ['\\'] + r;
    assert (['\\'] + r)[1..] == r;
    assert EntryWellFormed(table[j + 1]);
    assert u == k + u[|k|..];
    assert forall c | c in k :: c != '\\';
    ReplaceAllKeepsPrefix(k, u[|k|..], pat, v0);
    assert r[|k|..] == ReplaceAll(u[|k|..], pat, v0);
    assert (['\\'] + r)[1 + |k|..] == r[|k|..];
    assert Expand(s, table) == table[j + 1].1 + Expand(u[|k|..], table);
    ExpandAfterReplace(u[|k|..], table);
  }

  /** For a well-formed table, the sequence of replace-all passes of
      `_expand_macros` is the same as one left-to-right scan that substitutes,
      at each backslash, the first entry in table order whose name follows it. */
  lemma {:induction false} MacroFoldIsExpand(s: string, table: Table)
    requires WellFormed(table)
    ensures MacroFold(s, table) == Expand(s, table)
    decreases table
  {
    if table == [] {
      ExpandEmptyTable(s);
    } else {
      var s' := ReplaceAll(s, MacroPattern(table[0].0), table[0].1);
      MacroFoldIsExpand(s', table[1..]);
      ExpandAfterReplace(s, table);
    }
  }

  /** In a prefix-ordered table the first entry whose name follows a backslash
      is the one with the longest such name. */
  lemma FirstMatchIsLongest(s: string, table: Table)
    requires PrefixOrdered(table)
    requires FirstMatch(s, table).Some?
    ensures forall j | 0 <= j < |table| && table[j].0 <= s ::
              |table[j].0| <= |table[FirstMatch(s, table).value].0|
  {
    var i := FirstMatch(s, table).value;
    forall j | 0 <= j < |table| && table[j].0 <= s
      ensures |table[j].0| <= |table[i].0|
    {
      var a, b := table[i].0, table[j].0;
      if j > i && |a| < |b| {
        assert false;
      }
    }
  }

  // ---------------------------------------------------------------------
  // change_journal_name

  /** `change_journal_name`: "ads" keeps the ADS macros, "full" expands them,
      "iso4" expands them and then abbreviates with `iso4` (the ISO-4
      abbreviation step, a parameter here); any other name is an error. */
  function ChangeJournalName(text: string, name: string, iso4: string -> string): (r: Result<string, Error>)
    ensures r.Failure? <==> name != "ads" && name != "full" && name != "iso4"
    ensures r.Failure? ==> r.error == UnknownJournal(name)
    ensures name == "ads" ==> r == Success(text)
    ensures name == "full" ==> r == Success(MacroFold(text, JournalMacro))
    ensures name == "iso4" ==> r == Success(iso4(MacroFold(text, JournalMacro)))
  {
    if name == "ads" then Success(text)
    else if name == "full" then Success(MacroFold(text, JournalMacro))
    else if name == "iso4" then Success(iso4(MacroFold(text, JournalMacro)))
    else Failure(UnknownJournal(name))
  }

  /** `change_journal_name` with the style named on the command line fixed:
      the restyling that the main loop applies to every text it receives. */
  function JournalStyle(name: string, iso4: string -> string): (style: string -> Result<string, Error>)
    ensures forall text :: style(text) == ChangeJournalName(text, name, iso4)
  {
    text => ChangeJournalName(text, name, iso4)
  }

  /** Text without a backslash holds no macro, so "full" returns it unchanged
      and "iso4" abbreviates it as it is. */
  lemma ChangeJournalNameNoMacro(text: string, name: string, iso4: string -> string)
    requires '\\' !in text
    ensures name == "full" ==> ChangeJournalName(text, name, iso4) == Success(text)
    ensures name == "iso4" ==> ChangeJournalName(text, name, iso4) == Success(iso4(text))
  {
    MacroFoldNoBackslash(text, JournalMacro);
  }

  /** Every known style maps the empty text (no additional file) to the empty
      text, unless the ISO-4 step itself changes it. */
  lemma ChangeJournalNameEmpty(name: string, iso4: string -> string)
    requires name == "ads" || name == "full"
    ensures ChangeJournalName("", name, iso4) == Success("")
  {
    MacroFoldNoBackslash("", JournalMacro);
  }
}
