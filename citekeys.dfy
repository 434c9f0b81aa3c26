/** `extract_cite_keys` of ads2bibtex/core.py: the ADS bibcodes cited in a
    LaTeX text. A regex scans the text from left to right; a `%` that no
    backslash precedes, with at least one more character on its line, is a
    comment and the rest of the line is skipped; `\cite{…}`, `\citep{…}`,
    `\nocite{…}` and `\nocitep{…}` whose argument does not start with `*`
    contribute the comma-separated pieces of their argument that look like
    bibcodes. Reading the file is not modelled: its contents are the input.
    The scan is stated over positions of the one text, so the look-behind for
    the backslash is a look at the character before the position. */
module CiteKeys {
  import opened Outcomes
  import opened Strings

  /** A piece is kept when it is 19 characters long and starts with four digits. */
  predicate ValidKey(k: string)
  {
    |k| == 19 && IsDigit(k[0]) && IsDigit(k[1]) && IsDigit(k[2]) && IsDigit(k[3])
  }

  /** The stripped pieces that are valid keys, in order. */
  function ValidKeys(pieces: seq<string>): (r: seq<string>)
    decreases |pieces|
    ensures |r| <= |pieces|
    ensures forall k | 0 <= k < |r| :: ValidKey(r[k])
  {
    if pieces == [] then []
    else
      var key := Strip(pieces[|pieces| - 1]);
      ValidKeys(pieces[..|pieces| - 1]) + (if ValidKey(key) then [key] else [])
  }

  /** A key is kept exactly when it is the stripped text of some piece and
      valid. */
  lemma ValidKeysMembers(pieces: seq<string>, x: string)
    ensures x in ValidKeys(pieces) <==> exists k | 0 <= k < |pieces| :: x == Strip(pieces[k]) && ValidKey(x)
  {
    if x in ValidKeys(pieces) {
      var k := ValidKeysSource(pieces, x);
    } else if exists k | 0 <= k < |pieces| :: x == Strip(pieces[k]) && ValidKey(x) {
      var k :| 0 <= k < |pieces| && x == Strip(pieces[k]) && ValidKey(x);
      ValidKeysKeeps(pieces, k);
    }
  }

  /** Every kept key comes from a piece. */
  lemma {:induction false} ValidKeysSource(pieces: seq<string>, x: string) returns (k: nat)
    requires x in ValidKeys(pieces)
    ensures k < |pieces| && x == Strip(pieces[k]) && ValidKey(x)
    decreases |pieces|
  {
    var n := |pieces| - 1;
    var front := pieces[..n];
    var key := Strip(pieces[n]);
    assert ValidKeys(pieces) == ValidKeys(front) + (if ValidKey(key) then [key] else []);
    if x in ValidKeys(front) {
      k := ValidKeysSource(front, x);
      assert pieces[k] == front[k];
    } else {
      k := n;
    }
  }

  /** Every piece whose stripped text is a valid key is kept. */
  lemma ValidKeysKeeps(pieces: seq<string>, k: nat)
    requires k < |pieces| && ValidKey(Strip(pieces[k]))
    ensures Strip(pieces[k]) in ValidKeys(pieces)
  {
    ValidKeysAround(pieces, k);
    ValidKeysOne(pieces[k]);
    var a, c := ValidKeys(pieces[..k]), ValidKeys(pieces[k + 1..]);
    var x := Strip(pieces[k]);
    assert (a + [x] + c)[|a|] == x;
  }

  /** The keys of the pieces around piece `k`, and of piece `k` itself. */
  lemma ValidKeysAround(pieces: seq<string>, k: nat)
    requires k < |pieces|
    ensures ValidKeys(pieces) == ValidKeys(pieces[..k]) + ValidKeys([pieces[k]]) + ValidKeys(pieces[k + 1..])
  {
    var front, rest := pieces[..k], pieces[k + 1..];
    SplitAround(pieces, k);
    ValidKeysAppend(front + [pieces[k]], rest);
    ValidKeysAppend(front, [pieces[k]]);
  }

  /** A list is the part before position `k`, its element at `k`, and the part after. */
  lemma SplitAround(pieces: seq<string>, k: nat)
    requires k < |pieces|
    ensures pieces == pieces[..k] + [pieces[k]] + pieces[k + 1..]
  {
  }

  /** Keys are taken piece by piece, in order: the keys of two lists of
      pieces in a row are the keys of their concatenation. */
  lemma {:induction false} ValidKeysAppend(a: seq<string>, b: seq<string>)
    ensures ValidKeys(a + b) == ValidKeys(a) + ValidKeys(b)
    decreases |b|
  {
    if b == [] {
      assert a + b == a;
    } else {
      var b' := b[..|b| - 1];
      assert (a + b)[..|a + b| - 1] == a + b' && (a + b)[|a + b| - 1] == b[|b| - 1];
      ValidKeysAppend(a, b');
    }
  }

  /** One piece gives its stripped text when that is a valid key, else nothing. */
  lemma ValidKeysOne(p: string)
    ensures ValidKeys([p]) == if ValidKey(Strip(p)) then [Strip(p)] else []
  {
    assert [p][..0] == [];
  }

  /** The keys of a citation argument. */
  function KeysOf(argument: string): (r: seq<string>)
    ensures forall k | 0 <= k < |r| :: ValidKey(r[k])
  {
    ValidKeys(Split(argument, ','))
  }

  // ---------------------------------------------------------------------
  // The regex, position by position

  /** Where the line that `i` is on ends (its newline, or the end of `s`). */
  function LineEnd(s: string, i: nat): (j: nat)
    requires i <= |s|
    decreases |s| - i
    ensures i <= j <= |s|
  {
    if i == |s| || s[i] == '\n' then i else LineEnd(s, i + 1)
  }

  /** Where the run of characters other than braces that starts at `i` ends. */
  function RunEnd(s: string, i: nat): (j: nat)
    requires i <= |s|
    decreases |s| - i
    ensures i <= j <= |s|
  {
    if i == |s| || s[i] == '{' || s[i] == '}' then i else RunEnd(s, i + 1)
  }

  /** Is the character before `p` a backslash? (the look-behind of the comment) */
  predicate Escaped(s: string, p: nat)
  {
    0 < p <= |s| && s[p - 1] == '\\'
  }

  /** What the regex matches at a position: a comment, or a citation with
      its argument, each ending just before `end`; or nothing. */
  datatype Token = CommentToken(end: nat) | CitationToken(argument: string, end: nat) | NoMatch

  /** The comment alternative: an unescaped `%` and the rest of its line,
      which must hold at least one character. */
  function CommentAt(s: string, p: nat): (r: Option<nat>)
    ensures r.Some? ==> p + 2 <= r.value <= |s|
  {
    if !Escaped(s, p) && p + 1 < |s| && s[p] == '%' && s[p + 1] != '\n'
    then Some(LineEnd(s, p + 1))
    else None
  }

  /** The position after `\`, optional `no`, `cite`, optional `p` and `{` at `p`. */
  function HeadAt(s: string, p: nat): (r: Option<nat>)
    ensures r.Some? ==> p + 6 <= r.value <= |s|
  {
    if p >= |s| || s[p] != '\\' then None
    else
      var i := if p + 2 < |s| && s[p + 1] == 'n' && s[p + 2] == 'o' then p + 3 else p + 1;
      if !(i + 4 <= |s| && s[i] == 'c' && s[i + 1] == 'i' && s[i + 2] == 't' && s[i + 3] == 'e') then None
      else
        var j := if i + 4 < |s| && s[i + 4] == 'p' then i + 5 else i + 4;
        if j < |s| && s[j] == '{' then Some(j + 1) else None
  }

  /** The citation alternative: the argument is a nonempty run without braces
      that a `}` ends and whose first character is not `*`. */
  function CitationAt(s: string, p: nat): (r: Option<Token>)
    ensures r.Some? ==> r.value.CitationToken? && p < r.value.end <= |s|
  {
    match HeadAt(s, p)
    case None => None
    case Some(h) =>
      if h < |s| && s[h] == '*' then None
      else
        var e := RunEnd(s, h);
        if e > h && e < |s| && s[e] == '}' then Some(CitationToken(s[h..e], e + 1)) else None
  }

  /** The match at `p`: the comment alternative is tried first. */
  function TokenAt(s: string, p: nat): (t: Token)
    ensures !t.NoMatch? ==> p < t.end <= |s|
  {
    var comment := CommentAt(s, p);
    if comment.Some? then CommentToken(comment.value)
    else
      var citation := CitationAt(s, p);
      if citation.Some? then citation.value else NoMatch
  }

  /** Where the scan goes on after the match at `p`: after a nonempty match
      at its end, otherwise one character on. */
  function After(p: nat, t: Token): (q: nat)
    ensures q > p
  {
    if !t.NoMatch? && t.end > p then t.end else p + 1
  }

  /** The keys a match contributes: those of a citation's argument. */
  function TokenKeys(t: Token): seq<string>
  {
    if t.CitationToken? then KeysOf(t.argument) else []
  }

  /** The keys found scanning `s` from `p`. */
  function KeysFrom(s: string, p: nat): seq<string>
    decreases |s| - p
  {
    if p >= |s| then []
    else
      var t := TokenAt(s, p);
      TokenKeys(t) + KeysFrom(s, After(p, t))
  }

  /** The keys of the whole text, in the order they appear. */
  function CiteKeys(s: string): seq<string>
  {
    KeysFrom(s, 0)
  }

  /** `extract_cite_keys` on the contents of the file: for every match of
      the regex, the keys of a citation's argument. */
  method ExtractCiteKeys(contents: string) returns (keys: seq<string>)
    ensures keys == CiteKeys(contents)
  {
    keys := [];
    var p := 0;
    while p < |contents|
      invariant keys + KeysFrom(contents, p) == CiteKeys(contents)
    {
      var t := TokenAt(contents, p);
      var found := [];
      if t.CitationToken? {
        found := KeysOfArgument(t.argument);
      }
      AppendAssoc(keys, found, KeysFrom(contents, After(p, t)));
      keys := keys + found;
      p := After(p, t);
    }
  }

  lemma AppendAssoc(a: seq<string>, b: seq<string>, c: seq<string>)
    ensures a + (b + c) == (a + b) + c
  {
  }

  /** The loop over the pieces of one argument. */
  method KeysOfArgument(argument: string) returns (keys: seq<string>)
    ensures keys == KeysOf(argument)
  {
    var pieces := Split(argument, ',');
    keys := [];
    var j := 0;
    while j < |pieces|
      invariant 0 <= j <= |pieces|
      invariant keys == ValidKeys(pieces[..j])
    {
      assert pieces[..j + 1][..j] == pieces[..j];
      var key := Strip(pieces[j]);
      if ValidKey(key) {
        keys := keys + [key];
      }
      j := j + 1;
    }
    assert pieces[..j] == pieces;
  }

  // ---------------------------------------------------------------------
  // Properties

  /** Every key found is 19 characters long and starts with four digits. */
  lemma {:induction false} KeysAreValid(s: string, p: nat)
    ensures forall k | 0 <= k < |KeysFrom(s, p)| :: ValidKey(KeysFrom(s, p)[k])
    decreases |s| - p
  {
    if p < |s| {
      var t := TokenAt(s, p);
      KeysAreValid(s, After(p, t));
      var found := TokenKeys(t);
      assert forall k | 0 <= k < |found| :: ValidKey(found[k]);
    }
  }

  /** A line ends at a newline or at the end of the text ... */
  lemma {:induction false} LineEndStops(s: string, i: nat)
    requires i <= |s|
    ensures LineEnd(s, i) == |s| || s[LineEnd(s, i)] == '\n'
    decreases |s| - i
  {
    if i < |s| && s[i] != '\n' {
      LineEndStops(s, i + 1);
    }
  }

  /** ... and holds no newline before that. */
  lemma {:induction false} LineEndInside(s: string, i: nat, k: nat)
    requires i <= |s| && i <= k < LineEnd(s, i)
    ensures s[k] != '\n'
    decreases |s| - i
  {
    if i < k {
      LineEndInside(s, i + 1, k);
    }
  }

  /** An unescaped `%` followed by more of its line is a comment: the scan
      goes on at the end of the line, and nothing on it is a citation. */
  lemma CommentSkipsLine(s: string, p: nat)
    requires p + 1 < |s| && s[p] == '%' && !Escaped(s, p) && s[p + 1] != '\n'
    ensures TokenAt(s, p) == CommentToken(LineEnd(s, p + 1))
    ensures KeysFrom(s, p) == KeysFrom(s, LineEnd(s, p + 1))
  {
  }

  /** A `%` that a backslash escapes matches nothing: the scan moves on to
      the next character. */
  lemma EscapedPercentIsText(s: string, p: nat)
    requires p < |s| && s[p] == '%' && Escaped(s, p)
    ensures TokenAt(s, p) == NoMatch
    ensures KeysFrom(s, p) == KeysFrom(s, p + 1)
  {
  }

  /** A character that is neither `%` nor a backslash starts no match. */
  lemma PlainCharIsText(s: string, p: nat)
    requires p < |s| && s[p] != '%' && s[p] != '\\'
    ensures KeysFrom(s, p) == KeysFrom(s, p + 1)
  {
  }

  /** A backslash followed by neither `n` nor `c` starts no command. */
  lemma BackslashIsText(s: string, p: nat)
    requires p + 1 < |s| && s[p] == '\\' && s[p + 1] != 'n' && s[p + 1] != 'c'
    ensures KeysFrom(s, p) == KeysFrom(s, p + 1)
  {
    assert HeadAt(s, p) == None;
    assert TokenAt(s, p) == NoMatch;
  }

  /** The citation commands. */
  predicate CiteCommand(cmd: string)
  {
    cmd == "\\cite{" || cmd == "\\citep{" || cmd == "\\nocite{" || cmd == "\\nocitep{"
  }

  /** A text holds `w` at `p`. */
  predicate Holds(s: string, p: nat, w: string)
  {
    p + |w| <= |s| && s[p..p + |w|] == w
  }

  lemma HeadOfCommand(s: string, p: nat, cmd: string)
    requires CiteCommand(cmd) && Holds(s, p, cmd)
    ensures HeadAt(s, p) == Some(p + |cmd|)
  {
    assert forall k | p <= k < p + |cmd| :: s[k] == cmd[k - p] by {
      forall k | p <= k < p + |cmd|
        ensures s[k] == cmd[k - p]
      {
        assert s[p..p + |cmd|][k - p] == cmd[k - p];
      }
    }
  }

  lemma {:induction false} RunEndOfKey(s: string, j: nat, key: string, i: nat)
    requires Holds(s, j, key) && j + |key| < |s| && s[j + |key|] == '}'
    requires i <= |key| && forall k | 0 <= k < |key| :: key[k] != '{' && key[k] != '}'
    ensures RunEnd(s, j + i) == j + |key|
    decreases |key| - i
  {
    if i < |key| {
      assert s[j + i] == key[i];
      RunEndOfKey(s, j, key, i + 1);
    }
  }

  /** A key free of separators, braces and blanks. */
  predicate PlainKey(key: string)
  {
    ValidKey(key) && forall k | 0 <= k < |key| :: key[k] != ',' && key[k] != '{' && key[k] != '}' && !IsSpace(key[k])
  }

  lemma KeysOfPlainKey(key: string)
    requires PlainKey(key)
    ensures KeysOf(key) == [key]
  {
    SplitNoSep(key, ',');
    StripNoSpace(key);
    assert [key][..0] == [];
  }

  /** A citation of one plain key, such as `\cite{2019ApJ...882..120L}`,
      contributes that key, and the scan goes on after its `}`. */
  lemma CitationOfKey(s: string, p: nat, cmd: string, key: string)
    requires CiteCommand(cmd) && PlainKey(key)
    requires Holds(s, p, cmd) && Holds(s, p + |cmd|, key)
    requires p + |cmd| + |key| < |s| && s[p + |cmd| + |key|] == '}'
    ensures KeysFrom(s, p) == [key] + KeysFrom(s, p + |cmd| + |key| + 1)
  {
    var h := p + |cmd|;
    HeadOfCommand(s, p, cmd);
    assert s[p] == cmd[0];
    assert s[h] == key[0];
    RunEndOfKey(s, h, key, 0);
    assert TokenAt(s, p) == CitationToken(key, h + |key| + 1);
    KeysOfPlainKey(key);
  }

  /** Behind `\%` a citation counts; behind `%` on the same line it does not. */
  lemma EscapedPercentKeepsCitation(key: string)
    requires PlainKey(key)
    ensures CiteKeys("\\% \\cite{" + key + "}") == [key]
  {
    var s := "\\% \\cite{" + key + "}";
    assert Holds(s, 3, "\\cite{") && Holds(s, 9, key);
    assert s[0] == '\\' && s[1] == '%' && s[2] == ' ';
    BackslashIsText(s, 0);
    EscapedPercentIsText(s, 1);
    PlainCharIsText(s, 2);
    CitationOfKey(s, 3, "\\cite{", key);
  }

  lemma CommentHidesCitation(key: string)
    requires PlainKey(key)
    ensures CiteKeys("% \\cite{" + key + "}") == []
  {
    var s := "% \\cite{" + key + "}";
    assert forall k | 1 <= k < |s| :: s[k] != '\n' by {
      forall k | 1 <= k < |s|
        ensures s[k] != '\n'
      {
        if 8 <= k < 8 + |key| {
          assert s[k] == key[k - 8];
          assert !IsSpace(key[k - 8]);
        }
      }
    }
    LineEndStops(s, 1);
    CommentSkipsLine(s, 0);
  }
}
