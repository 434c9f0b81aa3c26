/** Facts about the JOURNAL_MACRO table of ads2bibtex/core.py itself: every
    entry is well formed, no name is extended by a later one, and so
    `_expand_macros` with this table is the single-scan, longest-name
    expansion. The facts are checked entry by entry, group by group, with
    small checkers the verifier can evaluate on literal names. */
module JournalTable {
  import opened Outcomes
  import opened Journal

  // ---------------------------------------------------------------------
  // Checkers that the verifier can evaluate on literal names.

  /** The name column of a table. */
  function Names(t: Table): (r: seq<string>)
    ensures |r| == |t| && forall i | 0 <= i < |t| :: r[i] == t[i].0
  {
    seq(|t|, i requires 0 <= i < |t| => t[i].0)
  }

  /** `a[i..]` agrees with `b` from position `i` on. */
  predicate AgreeFrom(a: string, b: string, i: nat)
    decreases |a| - i
  {
    i >= |a| || (i < |b| && a[i] == b[i] && AgreeFrom(a, b, i + 1))
  }

  /** `a` is a proper prefix of `b`, checked character by character. */
  predicate ProperPrefix(a: string, b: string)
  {
    |a| < |b| && AgreeFrom(a, b, 0)
  }

  /** No name from position `j` of `ks` on extends `k`. */
  predicate NotExtendedFrom(k: string, ks: seq<string>, j: nat)
    decreases |ks| - j
  {
    j >= |ks| || (!ProperPrefix(k, ks[j]) && NotExtendedFrom(k, ks, j + 1))
  }

  /** From position `i` of `ks` on, no name is extended by a later one. */
  predicate OrderedFrom(ks: seq<string>, i: nat)
    decreases |ks| - i
  {
    i >= |ks| || (NotExtendedFrom(ks[i], ks, i + 1) && OrderedFrom(ks, i + 1))
  }

  lemma {:induction false} AgreeWithPrefix(a: string, b: string, i: nat)
    requires i <= |a| < |b| && a == b[..|a|]
    ensures AgreeFrom(a, b, i)
    decreases |a| - i
  {
    if i < |a| {
      assert a[i] == b[..|a|][i];
      AgreeWithPrefix(a, b, i + 1);
    }
  }

  /** The checker is exact: it accepts precisely the proper prefixes. */
  lemma ProperPrefixIsPrefix(a: string, b: string)
    ensures ProperPrefix(a, b) <==> a < b
  {
    if a < b {
      AgreeWithPrefix(a, b, 0);
    }
    if ProperPrefix(a, b) {
      AgreeGivesPrefix(a, b, 0);
    }
  }

  lemma {:induction false} AgreeGivesPrefix(a: string, b: string, i: nat)
    requires i <= |a| < |b| && AgreeFrom(a, b, i)
    ensures forall m | i <= m < |a| :: a[m] == b[m]
    decreases |a| - i
  {
    if i < |a| {
      AgreeGivesPrefix(a, b, i + 1);
    }
  }

  lemma {:induction false} NotExtendedSound(k: string, ks: seq<string>, j: nat)
    requires NotExtendedFrom(k, ks, j)
    ensures forall m | j <= m < |ks| :: !(k < ks[m])
    decreases |ks| - j
  {
    if j < |ks| {
      ProperPrefixIsPrefix(k, ks[j]);
      NotExtendedSound(k, ks, j + 1);
    }
  }

  lemma {:induction false} OrderedSound(ks: seq<string>, i: nat)
    requires OrderedFrom(ks, i)
    ensures forall p, q | i <= p < q < |ks| :: !(ks[p] < ks[q])
    decreases |ks| - i
  {
    if i < |ks| {
      NotExtendedSound(ks[i], ks, i + 1);
      OrderedSound(ks, i + 1);
    }
  }

  /** A table whose names pass the checker is prefix ordered. */
  lemma NamesOrdered(t: Table)
    requires OrderedFrom(Names(t), 0)
    ensures PrefixOrdered(t)
  {
    OrderedSound(Names(t), 0);
  }

  /** Every name of `t` is nonempty and starts with a letter from `lo` to `hi`. */
  predicate NamesStartIn(t: Table, lo: char, hi: char)
  {
    forall j | 0 <= j < |t| :: |t[j].0| > 0 && lo <= t[j].0[0] <= hi
  }

  lemma WellFormedAppend(a: Table, b: Table)
    requires WellFormed(a) && WellFormed(b)
    ensures WellFormed(a + b)
  {
    forall j | 0 <= j < |a + b|
      ensures EntryWellFormed((a + b)[j])
    {
      if j < |a| {
        assert (a + b)[j] == a[j];
      } else {
        assert (a + b)[j] == b[j - |a|];
      }
    }
  }

  /** Two prefix-ordered tables whose names start with letters from disjoint
      ranges stay prefix ordered when joined. */
  lemma PrefixOrderedAppend(a: Table, b: Table, lo: char, mid: char, mid': char, hi: char)
    requires PrefixOrdered(a) && NamesStartIn(a, lo, mid)
    requires PrefixOrdered(b) && NamesStartIn(b, mid', hi)
    requires lo <= mid < mid' <= hi
    ensures PrefixOrdered(a + b) && NamesStartIn(a + b, lo, hi)
  {
    forall i, j | 0 <= i < j < |a + b|
      ensures !((a + b)[i].0 < (a + b)[j].0)
    {
      if j < |a| {
        assert (a + b)[i] == a[i] && (a + b)[j] == a[j];
      } else if i >= |a| {
        assert (a + b)[i] == b[i - |a|] && (a + b)[j] == b[j - |a|];
      } else {
        var x, y := (a + b)[i].0, (a + b)[j].0;
        assert x == a[i].0 && y == b[j - |a|].0;
        assert x[0] != y[0];
      }
    }
    forall j | 0 <= j < |a + b|
      ensures |(a + b)[j].0| > 0 && lo <= (a + b)[j].0[0] <= hi
    {
      if j < |a| {
        assert (a + b)[j] == a[j];
      } else {
        assert (a + b)[j] == b[j - |a|];
      }
    }
  }

  // MacrosA

  lemma MacrosAWellFormedAt0()
    ensures forall j | 0 <= j < 1 :: EntryWellFormed(MacrosA[j])
  {
    assert EntryWellFormed(MacrosA[0]);
  }

  lemma MacrosAWellFormedAt1()
    ensures forall j | 1 <= j < 3 :: EntryWellFormed(MacrosA[j])
  {
    assert EntryWellFormed(MacrosA[1]);
    assert EntryWellFormed(MacrosA[2]);
  }

  lemma MacrosAWellFormedAt3()
    ensures forall j | 3 <= j < 4 :: EntryWellFormed(MacrosA[j])
  {
    assert EntryWellFormed(MacrosA[3]);
  }

  lemma MacrosAWellFormedAt4()
    ensures forall j | 4 <= j < 5 :: EntryWellFormed(MacrosA[j])
  {
    assert EntryWellFormed(MacrosA[4]);
  }

  lemma MacrosAWellFormedAt5()
    ensures forall j | 5 <= j < 6 :: EntryWellFormed(MacrosA[j])
  {
    assert EntryWellFormed(MacrosA[5]);
  }

  lemma MacrosAWellFormedAt6()
    ensures forall j | 6 <= j < 8 :: EntryWellFormed(MacrosA[j])
  {
    assert EntryWellFormed(MacrosA[6]);
    assert EntryWellFormed(MacrosA[7]);
  }

  lemma MacrosAWellFormedAt8()
    ensures forall j | 8 <= j < 9 :: EntryWellFormed(MacrosA[j])
  {
    assert EntryWellFormed(MacrosA[8]);
  }

  lemma MacrosAWellFormedAt9()
    ensures forall j | 9 <= j < 10 :: EntryWellFormed(MacrosA[j])
  {
    assert EntryWellFormed(MacrosA[9]);
  }

  lemma MacrosAWellFormedAt10()
    ensures forall j | 10 <= j < 11 :: EntryWellFormed(MacrosA[j])
  {
    assert EntryWellFormed(MacrosA[10]);
  }

  lemma MacrosAWellFormedAt11()
    ensures forall j | 11 <= j < 13 :: EntryWellFormed(MacrosA[j])
  {
    assert EntryWellFormed(MacrosA[11]);
    assert EntryWellFormed(MacrosA[12]);
  }

  lemma MacrosAWellFormedAt13()
    ensures forall j | 13 <= j < 14 :: EntryWellFormed(MacrosA[j])
  {
    assert EntryWellFormed(MacrosA[13]);
  }

  lemma MacrosAWellFormedAt14()
    ensures forall j | 14 <= j < 15 :: EntryWellFormed(MacrosA[j])
  {
    assert EntryWellFormed(MacrosA[14]);
  }

  lemma MacrosAWellFormed()
    ensures WellFormed(MacrosA)
  {
    MacrosAWellFormedAt0();
    MacrosAWellFormedAt1();
    MacrosAWellFormedAt3();
    MacrosAWellFormedAt4();
    MacrosAWellFormedAt5();
    MacrosAWellFormedAt6();
    MacrosAWellFormedAt8();
    MacrosAWellFormedAt9();
    MacrosAWellFormedAt10();
    MacrosAWellFormedAt11();
    MacrosAWellFormedAt13();
    MacrosAWellFormedAt14();
  }

  /** The names of MacrosA, as a literal the checkers can evaluate. */
  const NamesOfMacrosA: seq<string> := ["aas", "aj", "actaa", "araa", "apjl", "apjs", "apj", "ao", "apss", "aapr", "aaps", "aap", "aplett", "apspr", "azh"]

  lemma MacrosANames()
    ensures Names(MacrosA) == NamesOfMacrosA
  {
    assert MacrosA[0].0 == "aas";
    assert MacrosA[1].0 == "aj";
    assert MacrosA[2].0 == "actaa";
    assert MacrosA[3].0 == "araa";
    assert MacrosA[4].0 == "apjl";
    assert MacrosA[5].0 == "apjs";
    assert MacrosA[6].0 == "apj";
    assert MacrosA[7].0 == "ao";
    assert MacrosA[8].0 == "apss";
    assert MacrosA[9].0 == "aapr";
    assert MacrosA[10].0 == "aaps";
    assert MacrosA[11].0 == "aap";
    assert MacrosA[12].0 == "aplett";
    assert MacrosA[13].0 == "apspr";
    assert MacrosA[14].0 == "azh";
  }

  lemma MacrosANotExtended0()
    ensures NotExtendedFrom("aas", NamesOfMacrosA, 1)
  {
    assert !ProperPrefix("aas", "azh");
    assert NotExtendedFrom("aas", NamesOfMacrosA, 14);
    assert !ProperPrefix("aas", "apspr");
    assert NotExtendedFrom("aas", NamesOfMacrosA, 13);
    assert !ProperPrefix("aas", "aplett");
    assert NotExtendedFrom("aas", NamesOfMacrosA, 12);
    assert !ProperPrefix("aas", "aap");
    assert NotExtendedFrom("aas", NamesOfMacrosA, 11);
    assert !ProperPrefix("aas", "aaps");
    assert NotExtendedFrom("aas", NamesOfMacrosA, 10);
    assert !ProperPrefix("aas", "aapr");
    assert NotExtendedFrom("aas", NamesOfMacrosA, 9);
    assert !ProperPrefix("aas", "apss");
    assert NotExtendedFrom("aas", NamesOfMacrosA, 8);
    assert !ProperPrefix("aas", "ao");
    assert NotExtendedFrom("aas", NamesOfMacrosA, 7);
    assert !ProperPrefix("aas", "apj");
    assert NotExtendedFrom("aas", NamesOfMacrosA, 6);
    assert !ProperPrefix("aas", "apjs");
    assert NotExtendedFrom("aas", NamesOfMacrosA, 5);
    assert !ProperPrefix("aas", "apjl");
    assert NotExtendedFrom("aas", NamesOfMacrosA, 4);
    assert !ProperPrefix("aas", "araa");
    assert NotExtendedFrom("aas", NamesOfMacrosA, 3);
    assert !ProperPrefix("aas", "actaa");
    assert NotExtendedFrom("aas", NamesOfMacrosA, 2);
    assert !ProperPrefix("aas", "aj");
    assert NotExtendedFrom("aas", NamesOfMacrosA, 1);
  }

  lemma MacrosANotExtended1()
    ensures NotExtendedFrom("aj", NamesOfMacrosA, 2)
  {
    assert !ProperPrefix("aj", "azh");
    assert NotExtendedFrom("aj", NamesOfMacrosA, 14);
    assert !ProperPrefix("aj", "apspr");
    assert NotExtendedFrom("aj", NamesOfMacrosA, 13);
    assert !ProperPrefix("aj", "aplett");
    assert NotExtendedFrom("aj", NamesOfMacrosA, 12);
    assert !ProperPrefix("aj", "aap");
    assert NotExtendedFrom("aj", NamesOfMacrosA, 11);
    assert !ProperPrefix("aj", "aaps");
    assert NotExtendedFrom("aj", NamesOfMacrosA, 10);
    assert !ProperPrefix("aj", "aapr");
    assert NotExtendedFrom("aj", NamesOfMacrosA, 9);
    assert !ProperPrefix("aj", "apss");
    assert NotExtendedFrom("aj", NamesOfMacrosA, 8);
    assert !ProperPrefix("aj", "ao");
    assert NotExtendedFrom("aj", NamesOfMacrosA, 7);
    assert !ProperPrefix("aj", "apj");
    assert NotExtendedFrom("aj", NamesOfMacrosA, 6);
    assert !ProperPrefix("aj", "apjs");
    assert NotExtendedFrom("aj", NamesOfMacrosA, 5);
    assert !ProperPrefix("aj", "apjl");
    assert NotExtendedFrom("aj", NamesOfMacrosA, 4);
    assert !ProperPrefix("aj", "araa");
    assert NotExtendedFrom("aj", NamesOfMacrosA, 3);
    assert !ProperPrefix("aj", "actaa");
    assert NotExtendedFrom("aj", NamesOfMacrosA, 2);
  }

  lemma MacrosANotExtended2()
    ensures NotExtendedFrom("actaa", NamesOfMacrosA, 3)
  {
    assert !ProperPrefix("actaa", "azh");
    assert NotExtendedFrom("actaa", NamesOfMacrosA, 14);
    assert !ProperPrefix("actaa", "apspr");
    assert NotExtendedFrom("actaa", NamesOfMacrosA, 13);
    assert !ProperPrefix("actaa", "aplett");
    assert NotExtendedFrom("actaa", NamesOfMacrosA, 12);
    assert !ProperPrefix("actaa", "aap");
    assert NotExtendedFrom("actaa", NamesOfMacrosA, 11);
    assert !ProperPrefix("actaa", "aaps");
    assert NotExtendedFrom("actaa", NamesOfMacrosA, 10);
    assert !ProperPrefix("actaa", "aapr");
    assert NotExtendedFrom("actaa", NamesOfMacrosA, 9);
    assert !ProperPrefix("actaa", "apss");
    assert NotExtendedFrom("actaa", NamesOfMacrosA, 8);
    assert !ProperPrefix("actaa", "ao");
    assert NotExtendedFrom("actaa", NamesOfMacrosA, 7);
    assert !ProperPrefix("actaa", "apj");
    assert NotExtendedFrom("actaa", NamesOfMacrosA, 6);
    assert !ProperPrefix("actaa", "apjs");
    assert NotExtendedFrom("actaa", NamesOfMacrosA, 5);
    assert !ProperPrefix("actaa", "apjl");
    assert NotExtendedFrom("actaa", NamesOfMacrosA, 4);
    assert !ProperPrefix("actaa", "araa");
    assert NotExtendedFrom("actaa", NamesOfMacrosA, 3);
  }

  lemma MacrosANotExtended3()
    ensures NotExtendedFrom("araa", NamesOfMacrosA, 4)
  {
    assert !ProperPrefix("araa", "azh");
    assert NotExtendedFrom("araa", NamesOfMacrosA, 14);
    assert !ProperPrefix("araa", "apspr");
    assert NotExtendedFrom("araa", NamesOfMacrosA, 13);
    assert !ProperPrefix("araa", "aplett");
    assert NotExtendedFrom("araa", NamesOfMacrosA, 12);
    assert !ProperPrefix("araa", "aap");
    assert NotExtendedFrom("araa", NamesOfMacrosA, 11);
    assert !ProperPrefix("araa", "aaps");
    assert NotExtendedFrom("araa", NamesOfMacrosA, 10);
    assert !ProperPrefix("araa", "aapr");
    assert NotExtendedFrom("araa", NamesOfMacrosA, 9);
    assert !ProperPrefix("araa", "apss");
    assert NotExtendedFrom("araa", NamesOfMacrosA, 8);
    assert !ProperPrefix("araa", "ao");
    assert NotExtendedFrom("araa", NamesOfMacrosA, 7);
    assert !ProperPrefix("araa", "apj");
    assert NotExtendedFrom("araa", NamesOfMacrosA, 6);
    assert !ProperPrefix("araa", "apjs");
    assert NotExtendedFrom("araa", NamesOfMacrosA, 5);
    assert !ProperPrefix("araa", "apjl");
    assert NotExtendedFrom("araa", NamesOfMacrosA, 4);
  }

  lemma MacrosANotExtended4()
    ensures NotExtendedFrom("apjl", NamesOfMacrosA, 5)
  {
    assert !ProperPrefix("apjl", "azh");
    assert NotExtendedFrom("apjl", NamesOfMacrosA, 14);
    assert !ProperPrefix("apjl", "apspr");
    assert NotExtendedFrom("apjl", NamesOfMacrosA, 13);
    assert !ProperPrefix("apjl", "aplett");
    assert NotExtendedFrom("apjl", NamesOfMacrosA, 12);
    assert !ProperPrefix("apjl", "aap");
    assert NotExtendedFrom("apjl", NamesOfMacrosA, 11);
    assert !ProperPrefix("apjl", "aaps");
    assert NotExtendedFrom("apjl", NamesOfMacrosA, 10);
    assert !ProperPrefix("apjl", "aapr");
    assert NotExtendedFrom("apjl", NamesOfMacrosA, 9);
    assert !ProperPrefix("apjl", "apss");
    assert NotExtendedFrom("apjl", NamesOfMacrosA, 8);
    assert !ProperPrefix("apjl", "ao");
    assert NotExtendedFrom("apjl", NamesOfMacrosA, 7);
    assert !ProperPrefix("apjl", "apj");
    assert NotExtendedFrom("apjl", NamesOfMacrosA, 6);
    assert !ProperPrefix("apjl", "apjs");
    assert NotExtendedFrom("apjl", NamesOfMacrosA, 5);
  }

  lemma MacrosANotExtended5()
    ensures NotExtendedFrom("apjs", NamesOfMacrosA, 6)
  {
    assert !ProperPrefix("apjs", "azh");
    assert NotExtendedFrom("apjs", NamesOfMacrosA, 14);
    assert !ProperPrefix("apjs", "apspr");
    assert NotExtendedFrom("apjs", NamesOfMacrosA, 13);
    assert !ProperPrefix("apjs", "aplett");
    assert NotExtendedFrom("apjs", NamesOfMacrosA, 12);
    assert !ProperPrefix("apjs", "aap");
    assert NotExtendedFrom("apjs", NamesOfMacrosA, 11);
    assert !ProperPrefix("apjs", "aaps");
    assert NotExtendedFrom("apjs", NamesOfMacrosA, 10);
    assert !ProperPrefix("apjs", "aapr");
    assert NotExtendedFrom("apjs", NamesOfMacrosA, 9);
    assert !ProperPrefix("apjs", "apss");
    assert NotExtendedFrom("apjs", NamesOfMacrosA, 8);
    assert !ProperPrefix("apjs", "ao");
    assert NotExtendedFrom("apjs", NamesOfMacrosA, 7);
    assert !ProperPrefix("apjs", "apj");
    assert NotExtendedFrom("apjs", NamesOfMacrosA, 6);
  }

  lemma MacrosANotExtended6()
    ensures NotExtendedFrom("apj", NamesOfMacrosA, 7)
  {
    assert !ProperPrefix("apj", "azh");
    assert NotExtendedFrom("apj", NamesOfMacrosA, 14);
    assert !ProperPrefix("apj", "apspr");
    assert NotExtendedFrom("apj", NamesOfMacrosA, 13);
    assert !ProperPrefix("apj", "aplett");
    assert NotExtendedFrom("apj", NamesOfMacrosA, 12);
    assert !ProperPrefix("apj", "aap");
    assert NotExtendedFrom("apj", NamesOfMacrosA, 11);
    assert !ProperPrefix("apj", "aaps");
    assert NotExtendedFrom("apj", NamesOfMacrosA, 10);
    assert !ProperPrefix("apj", "aapr");
    assert NotExtendedFrom("apj", NamesOfMacrosA, 9);
    assert !ProperPrefix("apj", "apss");
    assert NotExtendedFrom("apj", NamesOfMacrosA, 8);
    assert !ProperPrefix("apj", "ao");
    assert NotExtendedFrom("apj", NamesOfMacrosA, 7);
  }

  lemma MacrosANotExtended7()
    ensures NotExtendedFrom("ao", NamesOfMacrosA, 8)
  {
    assert !ProperPrefix("ao", "azh");
    assert NotExtendedFrom("ao", NamesOfMacrosA, 14);
    assert !ProperPrefix("ao", "apspr");
    assert NotExtendedFrom("ao", NamesOfMacrosA, 13);
    assert !ProperPrefix("ao", "aplett");
    assert NotExtendedFrom("ao", NamesOfMacrosA, 12);
    assert !ProperPrefix("ao", "aap");
    assert NotExtendedFrom("ao", NamesOfMacrosA, 11);
    assert !ProperPrefix("ao", "aaps");
    assert NotExtendedFrom("ao", NamesOfMacrosA, 10);
    assert !ProperPrefix("ao", "aapr");
    assert NotExtendedFrom("ao", NamesOfMacrosA, 9);
    assert !ProperPrefix("ao", "apss");
    assert NotExtendedFrom("ao", NamesOfMacrosA, 8);
  }

  lemma MacrosANotExtended8()
    ensures NotExtendedFrom("apss", NamesOfMacrosA, 9)
  {
    assert !ProperPrefix("apss", "azh");
    assert NotExtendedFrom("apss", NamesOfMacrosA, 14);
    assert !ProperPrefix("apss", "apspr");
    assert NotExtendedFrom("apss", NamesOfMacrosA, 13);
    assert !ProperPrefix("apss", "aplett");
    assert NotExtendedFrom("apss", NamesOfMacrosA, 12);
    assert !ProperPrefix("apss", "aap");
    assert NotExtendedFrom("apss", NamesOfMacrosA, 11);
    assert !ProperPrefix("apss", "aaps");
    assert NotExtendedFrom("apss", NamesOfMacrosA, 10);
    assert !ProperPrefix("apss", "aapr");
    assert NotExtendedFrom("apss", NamesOfMacrosA, 9);
  }

  lemma MacrosANotExtended9()
    ensures NotExtendedFrom("aapr", NamesOfMacrosA, 10)
  {
    assert !ProperPrefix("aapr", "azh");
    assert NotExtendedFrom("aapr", NamesOfMacrosA, 14);
    assert !ProperPrefix("aapr", "apspr");
    assert NotExtendedFrom("aapr", NamesOfMacrosA, 13);
    assert !ProperPrefix("aapr", "aplett");
    assert NotExtendedFrom("aapr", NamesOfMacrosA, 12);
    assert !ProperPrefix("aapr", "aap");
    assert NotExtendedFrom("aapr", NamesOfMacrosA, 11);
    assert !ProperPrefix("aapr", "aaps");
    assert NotExtendedFrom("aapr", NamesOfMacrosA, 10);
  }

  lemma MacrosANotExtended10()
    ensures NotExtendedFrom("aaps", NamesOfMacrosA, 11)
  {
    assert !ProperPrefix("aaps", "azh");
    assert NotExtendedFrom("aaps", NamesOfMacrosA, 14);
    assert !ProperPrefix("aaps", "apspr");
    assert NotExtendedFrom("aaps", NamesOfMacrosA, 13);
    assert !ProperPrefix("aaps", "aplett");
    assert NotExtendedFrom("aaps", NamesOfMacrosA, 12);
    assert !ProperPrefix("aaps", "aap");
    assert NotExtendedFrom("aaps", NamesOfMacrosA, 11);
  }

  lemma MacrosANotExtended11()
    ensures NotExtendedFrom("aap", NamesOfMacrosA, 12)
  {
    assert !ProperPrefix("aap", "azh");
    assert NotExtendedFrom("aap", NamesOfMacrosA, 14);
    assert !ProperPrefix("aap", "apspr");
    assert NotExtendedFrom("aap", NamesOfMacrosA, 13);
    assert !ProperPrefix("aap", "aplett");
    assert NotExtendedFrom("aap", NamesOfMacrosA, 12);
  }

  lemma MacrosANotExtended12()
    ensures NotExtendedFrom("aplett", NamesOfMacrosA, 13)
  {
    assert !ProperPrefix("aplett", "azh");
    assert NotExtendedFrom("aplett", NamesOfMacrosA, 14);
    assert !ProperPrefix("aplett", "apspr");
    assert NotExtendedFrom("aplett", NamesOfMacrosA, 13);
  }

  lemma MacrosANotExtended13()
    ensures NotExtendedFrom("apspr", NamesOfMacrosA, 14)
  {
    assert !ProperPrefix("apspr", "azh");
    assert NotExtendedFrom("apspr", NamesOfMacrosA, 14);
  }

  lemma MacrosAOrderedAt12()
    ensures OrderedFrom(NamesOfMacrosA, 12)
  {
    assert NamesOfMacrosA[14] == "azh";
    assert OrderedFrom(NamesOfMacrosA, 14);
    assert NamesOfMacrosA[13] == "apspr";
    MacrosANotExtended13();
    assert OrderedFrom(NamesOfMacrosA, 13);
    assert NamesOfMacrosA[12] == "aplett";
    MacrosANotExtended12();
    assert OrderedFrom(NamesOfMacrosA, 12);
  }

  lemma MacrosAOrderedAt9()
    ensures OrderedFrom(NamesOfMacrosA, 9)
  {
    MacrosAOrderedAt12();
    assert NamesOfMacrosA[11] == "aap";
    MacrosANotExtended11();
    assert OrderedFrom(NamesOfMacrosA, 11);
    assert NamesOfMacrosA[10] == "aaps";
    MacrosANotExtended10();
    assert OrderedFrom(NamesOfMacrosA, 10);
    assert NamesOfMacrosA[9] == "aapr";
    MacrosANotExtended9();
    assert OrderedFrom(NamesOfMacrosA, 9);
  }

  lemma MacrosAOrderedAt6()
    ensures OrderedFrom(NamesOfMacrosA, 6)
  {
    MacrosAOrderedAt9();
    assert NamesOfMacrosA[8] == "apss";
    MacrosANotExtended8();
    assert OrderedFrom(NamesOfMacrosA, 8);
    assert NamesOfMacrosA[7] == "ao";
    MacrosANotExtended7();
    assert OrderedFrom(NamesOfMacrosA, 7);
    assert NamesOfMacrosA[6] == "apj";
    MacrosANotExtended6();
    assert OrderedFrom(NamesOfMacrosA, 6);
  }

  lemma MacrosAOrderedAt3()
    ensures OrderedFrom(NamesOfMacrosA, 3)
  {
    MacrosAOrderedAt6();
    assert NamesOfMacrosA[5] == "apjs";
    MacrosANotExtended5();
    assert OrderedFrom(NamesOfMacrosA, 5);
    assert NamesOfMacrosA[4] == "apjl";
    MacrosANotExtended4();
    assert OrderedFrom(NamesOfMacrosA, 4);
    assert NamesOfMacrosA[3] == "araa";
    MacrosANotExtended3();
    assert OrderedFrom(NamesOfMacrosA, 3);
  }

  lemma MacrosAOrderedAt0()
    ensures OrderedFrom(NamesOfMacrosA, 0)
  {
    MacrosAOrderedAt3();
    assert NamesOfMacrosA[2] == "actaa";
    MacrosANotExtended2();
    assert OrderedFrom(NamesOfMacrosA, 2);
    assert NamesOfMacrosA[1] == "aj";
    MacrosANotExtended1();
    assert OrderedFrom(NamesOfMacrosA, 1);
    assert NamesOfMacrosA[0] == "aas";
    MacrosANotExtended0();
    assert OrderedFrom(NamesOfMacrosA, 0);
  }

  lemma MacrosANamesStart()
    ensures NamesStartIn(MacrosA, 'a', 'a')
  {
    MacrosANames();
  }

  lemma MacrosAOrdered()
    ensures PrefixOrdered(MacrosA) && NamesStartIn(MacrosA, 'a', 'a')
  {
    MacrosAOrderedAt0();
    MacrosANames();
    NamesOrdered(MacrosA);
    MacrosANamesStart();
  }

  // MacrosBtoI

  lemma MacrosBtoIWellFormedAt0()
    ensures forall j | 0 <= j < 1 :: EntryWellFormed(MacrosBtoI[j])
  {
    assert EntryWellFormed(MacrosBtoI[0]);
  }

  lemma MacrosBtoIWellFormedAt1()
    ensures forall j | 1 <= j < 2 :: EntryWellFormed(MacrosBtoI[j])
  {
    assert EntryWellFormed(MacrosBtoI[1]);
  }

  lemma MacrosBtoIWellFormedAt2()
    ensures forall j | 2 <= j < 3 :: EntryWellFormed(MacrosBtoI[j])
  {
    assert EntryWellFormed(MacrosBtoI[2]);
  }

  lemma MacrosBtoIWellFormedAt3()
    ensures forall j | 3 <= j < 4 :: EntryWellFormed(MacrosBtoI[j])
  {
    assert EntryWellFormed(MacrosBtoI[3]);
  }

  lemma MacrosBtoIWellFormedAt4()
    ensures forall j | 4 <= j < 5 :: EntryWellFormed(MacrosBtoI[j])
  {
    assert EntryWellFormed(MacrosBtoI[4]);
  }

  lemma MacrosBtoIWellFormedAt5()
    ensures forall j | 5 <= j < 6 :: EntryWellFormed(MacrosBtoI[j])
  {
    assert EntryWellFormed(MacrosBtoI[5]);
  }

  lemma MacrosBtoIWellFormedAt6()
    ensures forall j | 6 <= j < 7 :: EntryWellFormed(MacrosBtoI[j])
  {
    assert EntryWellFormed(MacrosBtoI[6]);
  }

  lemma MacrosBtoIWellFormedAt7()
    ensures forall j | 7 <= j < 8 :: EntryWellFormed(MacrosBtoI[j])
  {
    assert EntryWellFormed(MacrosBtoI[7]);
  }

  lemma MacrosBtoIWellFormedAt8()
    ensures forall j | 8 <= j < 9 :: EntryWellFormed(MacrosBtoI[j])
  {
    assert EntryWellFormed(MacrosBtoI[8]);
  }

  lemma MacrosBtoIWellFormedAt9()
    ensures forall j | 9 <= j < 11 :: EntryWellFormed(MacrosBtoI[j])
  {
    assert EntryWellFormed(MacrosBtoI[9]);
    assert EntryWellFormed(MacrosBtoI[10]);
  }

  lemma MacrosBtoIWellFormed()
    ensures WellFormed(MacrosBtoI)
  {
    MacrosBtoIWellFormedAt0();
    MacrosBtoIWellFormedAt1();
    MacrosBtoIWellFormedAt2();
    MacrosBtoIWellFormedAt3();
    MacrosBtoIWellFormedAt4();
    MacrosBtoIWellFormedAt5();
    MacrosBtoIWellFormedAt6();
    MacrosBtoIWellFormedAt7();
    MacrosBtoIWellFormedAt8();
    MacrosBtoIWellFormedAt9();
  }

  /** The names of MacrosBtoI, as a literal the checkers can evaluate. */
  const NamesOfMacrosBtoI: seq<string> := ["baas", "bac", "bain", "caa", "cjaa", "dps", "fcp", "gca", "grl", "iaucirc", "icarus"]

  lemma MacrosBtoINames()
    ensures Names(MacrosBtoI) == NamesOfMacrosBtoI
  {
    assert MacrosBtoI[0].0 == "baas";
    assert MacrosBtoI[1].0 == "bac";
    assert MacrosBtoI[2].0 == "bain";
    assert MacrosBtoI[3].0 == "caa";
    assert MacrosBtoI[4].0 == "cjaa";
    assert MacrosBtoI[5].0 == "dps";
    assert MacrosBtoI[6].0 == "fcp";
    assert MacrosBtoI[7].0 == "gca";
    assert MacrosBtoI[8].0 == "grl";
    assert MacrosBtoI[9].0 == "iaucirc";
    assert MacrosBtoI[10].0 == "icarus";
  }

  lemma MacrosBtoINotExtended0()
    ensures NotExtendedFrom("baas", NamesOfMacrosBtoI, 1)
  {
    assert !ProperPrefix("baas", "icarus");
    assert NotExtendedFrom("baas", NamesOfMacrosBtoI, 10);
    assert !ProperPrefix("baas", "iaucirc");
    assert NotExtendedFrom("baas", NamesOfMacrosBtoI, 9);
    assert !ProperPrefix("baas", "grl");
    assert NotExtendedFrom("baas", NamesOfMacrosBtoI, 8);
    assert !ProperPrefix("baas", "gca");
    assert NotExtendedFrom("baas", NamesOfMacrosBtoI, 7);
    assert !ProperPrefix("baas", "fcp");
    assert NotExtendedFrom("baas", NamesOfMacrosBtoI, 6);
    assert !ProperPrefix("baas", "dps");
    assert NotExtendedFrom("baas", NamesOfMacrosBtoI, 5);
    assert !ProperPrefix("baas", "cjaa");
    assert NotExtendedFrom("baas", NamesOfMacrosBtoI, 4);
    assert !ProperPrefix("baas", "caa");
    assert NotExtendedFrom("baas", NamesOfMacrosBtoI, 3);
    assert !ProperPrefix("baas", "bain");
    assert NotExtendedFrom("baas", NamesOfMacrosBtoI, 2);
    assert !ProperPrefix("baas", "bac");
    assert NotExtendedFrom("baas", NamesOfMacrosBtoI, 1);
  }

  lemma MacrosBtoINotExtended1()
    ensures NotExtendedFrom("bac", NamesOfMacrosBtoI, 2)
  {
    assert !ProperPrefix("bac", "icarus");
    assert NotExtendedFrom("bac", NamesOfMacrosBtoI, 10);
    assert !ProperPrefix("bac", "iaucirc");
    assert NotExtendedFrom("bac", NamesOfMacrosBtoI, 9);
    assert !ProperPrefix("bac", "grl");
    assert NotExtendedFrom("bac", NamesOfMacrosBtoI, 8);
    assert !ProperPrefix("bac", "gca");
    assert NotExtendedFrom("bac", NamesOfMacrosBtoI, 7);
    assert !ProperPrefix("bac", "fcp");
    assert NotExtendedFrom("bac", NamesOfMacrosBtoI, 6);
    assert !ProperPrefix("bac", "dps");
    assert NotExtendedFrom("bac", NamesOfMacrosBtoI, 5);
    assert !ProperPrefix("bac", "cjaa");
    assert NotExtendedFrom("bac", NamesOfMacrosBtoI, 4);
    assert !ProperPrefix("bac", "caa");
    assert NotExtendedFrom("bac", NamesOfMacrosBtoI, 3);
    assert !ProperPrefix("bac", "bain");
    assert NotExtendedFrom("bac", NamesOfMacrosBtoI, 2);
  }

  lemma MacrosBtoINotExtended2()
    ensures NotExtendedFrom("bain", NamesOfMacrosBtoI, 3)
  {
    assert !ProperPrefix("bain", "icarus");
    assert NotExtendedFrom("bain", NamesOfMacrosBtoI, 10);
    assert !ProperPrefix("bain", "iaucirc");
    assert NotExtendedFrom("bain", NamesOfMacrosBtoI, 9);
    assert !ProperPrefix("bain", "grl");
    assert NotExtendedFrom("bain", NamesOfMacrosBtoI, 8);
    assert !ProperPrefix("bain", "gca");
    assert NotExtendedFrom("bain", NamesOfMacrosBtoI, 7);
    assert !ProperPrefix("bain", "fcp");
    assert NotExtendedFrom("bain", NamesOfMacrosBtoI, 6);
    assert !ProperPrefix("bain", "dps");
    assert NotExtendedFrom("bain", NamesOfMacrosBtoI, 5);
    assert !ProperPrefix("bain", "cjaa");
    assert NotExtendedFrom("bain", NamesOfMacrosBtoI, 4);
    assert !ProperPrefix("bain", "caa");
    assert NotExtendedFrom("bain", NamesOfMacrosBtoI, 3);
  }

  lemma MacrosBtoINotExtended3()
    ensures NotExtendedFrom("caa", NamesOfMacrosBtoI, 4)
  {
    assert !ProperPrefix("caa", "icarus");
    assert NotExtendedFrom("caa", NamesOfMacrosBtoI, 10);
    assert !ProperPrefix("caa", "iaucirc");
    assert NotExtendedFrom("caa", NamesOfMacrosBtoI, 9);
    assert !ProperPrefix("caa", "grl");
    assert NotExtendedFrom("caa", NamesOfMacrosBtoI, 8);
    assert !ProperPrefix("caa", "gca");
    assert NotExtendedFrom("caa", NamesOfMacrosBtoI, 7);
    assert !ProperPrefix("caa", "fcp");
    assert NotExtendedFrom("caa", NamesOfMacrosBtoI, 6);
    assert !ProperPrefix("caa", "dps");
    assert NotExtendedFrom("caa", NamesOfMacrosBtoI, 5);
    assert !ProperPrefix("caa", "cjaa");
    assert NotExtendedFrom("caa", NamesOfMacrosBtoI, 4);
  }

  lemma MacrosBtoINotExtended4()
    ensures NotExtendedFrom("cjaa", NamesOfMacrosBtoI, 5)
  {
    assert !ProperPrefix("cjaa", "icarus");
    assert NotExtendedFrom("cjaa", NamesOfMacrosBtoI, 10);
    assert !ProperPrefix("cjaa", "iaucirc");
    assert NotExtendedFrom("cjaa", NamesOfMacrosBtoI, 9);
    assert !ProperPrefix("cjaa", "grl");
    assert NotExtendedFrom("cjaa", NamesOfMacrosBtoI, 8);
    assert !ProperPrefix("cjaa", "gca");
    assert NotExtendedFrom("cjaa", NamesOfMacrosBtoI, 7);
    assert !ProperPrefix("cjaa", "fcp");
    assert NotExtendedFrom("cjaa", NamesOfMacrosBtoI, 6);
    assert !ProperPrefix("cjaa", "dps");
    assert NotExtendedFrom("cjaa", NamesOfMacrosBtoI, 5);
  }

  lemma MacrosBtoINotExtended5()
    ensures NotExtendedFrom("dps", NamesOfMacrosBtoI, 6)
  {
    assert !ProperPrefix("dps", "icarus");
    assert NotExtendedFrom("dps", NamesOfMacrosBtoI, 10);
    assert !ProperPrefix("dps", "iaucirc");
    assert NotExtendedFrom("dps", NamesOfMacrosBtoI, 9);
    assert !ProperPrefix("dps", "grl");
    assert NotExtendedFrom("dps", NamesOfMacrosBtoI, 8);
    assert !ProperPrefix("dps", "gca");
    assert NotExtendedFrom("dps", NamesOfMacrosBtoI, 7);
    assert !ProperPrefix("dps", "fcp");
    assert NotExtendedFrom("dps", NamesOfMacrosBtoI, 6);
  }

  lemma MacrosBtoINotExtended6()
    ensures NotExtendedFrom("fcp", NamesOfMacrosBtoI, 7)
  {
    assert !ProperPrefix("fcp", "icarus");
    assert NotExtendedFrom("fcp", NamesOfMacrosBtoI, 10);
    assert !ProperPrefix("fcp", "iaucirc");
    assert NotExtendedFrom("fcp", NamesOfMacrosBtoI, 9);
    assert !ProperPrefix("fcp", "grl");
    assert NotExtendedFrom("fcp", NamesOfMacrosBtoI, 8);
    assert !ProperPrefix("fcp", "gca");
    assert NotExtendedFrom("fcp", NamesOfMacrosBtoI, 7);
  }

  lemma MacrosBtoINotExtended7()
    ensures NotExtendedFrom("gca", NamesOfMacrosBtoI, 8)
  {
    assert !ProperPrefix("gca", "icarus");
    assert NotExtendedFrom("gca", NamesOfMacrosBtoI, 10);
    assert !ProperPrefix("gca", "iaucirc");
    assert NotExtendedFrom("gca", NamesOfMacrosBtoI, 9);
    assert !ProperPrefix("gca", "grl");
    assert NotExtendedFrom("gca", NamesOfMacrosBtoI, 8);
  }

  lemma MacrosBtoINotExtended8()
    ensures NotExtendedFrom("grl", NamesOfMacrosBtoI, 9)
  {
    assert !ProperPrefix("grl", "icarus");
    assert NotExtendedFrom("grl", NamesOfMacrosBtoI, 10);
    assert !ProperPrefix("grl", "iaucirc");
    assert NotExtendedFrom("grl", NamesOfMacrosBtoI, 9);
  }

  lemma MacrosBtoINotExtended9()
    ensures NotExtendedFrom("iaucirc", NamesOfMacrosBtoI, 10)
  {
    assert !ProperPrefix("iaucirc", "icarus");
    assert NotExtendedFrom("iaucirc", NamesOfMacrosBtoI, 10);
  }

  lemma MacrosBtoIOrderedAt8()
    ensures OrderedFrom(NamesOfMacrosBtoI, 8)
  {
    assert NamesOfMacrosBtoI[10] == "icarus";
    assert OrderedFrom(NamesOfMacrosBtoI, 10);
    assert NamesOfMacrosBtoI[9] == "iaucirc";
    MacrosBtoINotExtended9();
    assert OrderedFrom(NamesOfMacrosBtoI, 9);
    assert NamesOfMacrosBtoI[8] == "grl";
    MacrosBtoINotExtended8();
    assert OrderedFrom(NamesOfMacrosBtoI, 8);
  }

  lemma MacrosBtoIOrderedAt5()
    ensures OrderedFrom(NamesOfMacrosBtoI, 5)
  {
    MacrosBtoIOrderedAt8();
    assert NamesOfMacrosBtoI[7] == "gca";
    MacrosBtoINotExtended7();
    assert OrderedFrom(NamesOfMacrosBtoI, 7);
    assert NamesOfMacrosBtoI[6] == "fcp";
    MacrosBtoINotExtended6();
    assert OrderedFrom(NamesOfMacrosBtoI, 6);
    assert NamesOfMacrosBtoI[5] == "dps";
    MacrosBtoINotExtended5();
    assert OrderedFrom(NamesOfMacrosBtoI, 5);
  }

  lemma MacrosBtoIOrderedAt2()
    ensures OrderedFrom(NamesOfMacrosBtoI, 2)
  {
    MacrosBtoIOrderedAt5();
    assert NamesOfMacrosBtoI[4] == "cjaa";
    MacrosBtoINotExtended4();
    assert OrderedFrom(NamesOfMacrosBtoI, 4);
    assert NamesOfMacrosBtoI[3] == "caa";
    MacrosBtoINotExtended3();
    assert OrderedFrom(NamesOfMacrosBtoI, 3);
    assert NamesOfMacrosBtoI[2] == "bain";
    MacrosBtoINotExtended2();
    assert OrderedFrom(NamesOfMacrosBtoI, 2);
  }

  lemma MacrosBtoIOrderedAt0()
    ensures OrderedFrom(NamesOfMacrosBtoI, 0)
  {
    MacrosBtoIOrderedAt2();
    assert NamesOfMacrosBtoI[1] == "bac";
    MacrosBtoINotExtended1();
    assert OrderedFrom(NamesOfMacrosBtoI, 1);
    assert NamesOfMacrosBtoI[0] == "baas";
    MacrosBtoINotExtended0();
    assert OrderedFrom(NamesOfMacrosBtoI, 0);
  }

  lemma MacrosBtoINamesStart()
    ensures NamesStartIn(MacrosBtoI, 'b', 'i')
  {
    MacrosBtoINames();
  }

  lemma MacrosBtoIOrdered()
    ensures PrefixOrdered(MacrosBtoI) && NamesStartIn(MacrosBtoI, 'b', 'i')
  {
    MacrosBtoIOrderedAt0();
    MacrosBtoINames();
    NamesOrdered(MacrosBtoI);
    MacrosBtoINamesStart();
  }

  // MacrosJtoM

  lemma MacrosJtoMWellFormedAt0()
    ensures forall j | 0 <= j < 1 :: EntryWellFormed(MacrosJtoM[j])
  {
    assert EntryWellFormed(MacrosJtoM[0]);
  }

  lemma MacrosJtoMWellFormedAt1()
    ensures forall j | 1 <= j < 2 :: EntryWellFormed(MacrosJtoM[j])
  {
    assert EntryWellFormed(MacrosJtoM[1]);
  }

  lemma MacrosJtoMWellFormedAt2()
    ensures forall j | 2 <= j < 3 :: EntryWellFormed(MacrosJtoM[j])
  {
    assert EntryWellFormed(MacrosJtoM[2]);
  }

  lemma MacrosJtoMWellFormedAt3()
    ensures forall j | 3 <= j < 4 :: EntryWellFormed(MacrosJtoM[j])
  {
    assert EntryWellFormed(MacrosJtoM[3]);
  }

  lemma MacrosJtoMWellFormedAt4()
    ensures forall j | 4 <= j < 5 :: EntryWellFormed(MacrosJtoM[j])
  {
    assert EntryWellFormed(MacrosJtoM[4]);
  }

  lemma MacrosJtoMWellFormedAt5()
    ensures forall j | 5 <= j < 6 :: EntryWellFormed(MacrosJtoM[j])
  {
    assert EntryWellFormed(MacrosJtoM[5]);
  }

  lemma MacrosJtoMWellFormedAt6()
    ensures forall j | 6 <= j < 7 :: EntryWellFormed(MacrosJtoM[j])
  {
    assert EntryWellFormed(MacrosJtoM[6]);
  }

  lemma MacrosJtoMWellFormedAt7()
    ensures forall j | 7 <= j < 8 :: EntryWellFormed(MacrosJtoM[j])
  {
    assert EntryWellFormed(MacrosJtoM[7]);
  }

  lemma MacrosJtoMWellFormedAt8()
    ensures forall j | 8 <= j < 9 :: EntryWellFormed(MacrosJtoM[j])
  {
    assert EntryWellFormed(MacrosJtoM[8]);
  }

  lemma MacrosJtoMWellFormedAt9()
    ensures forall j | 9 <= j < 10 :: EntryWellFormed(MacrosJtoM[j])
  {
    assert EntryWellFormed(MacrosJtoM[9]);
  }

  lemma MacrosJtoMWellFormed()
    ensures WellFormed(MacrosJtoM)
  {
    MacrosJtoMWellFormedAt0();
    MacrosJtoMWellFormedAt1();
    MacrosJtoMWellFormedAt2();
    MacrosJtoMWellFormedAt3();
    MacrosJtoMWellFormedAt4();
    MacrosJtoMWellFormedAt5();
    MacrosJtoMWellFormedAt6();
    MacrosJtoMWellFormedAt7();
    MacrosJtoMWellFormedAt8();
    MacrosJtoMWellFormedAt9();
  }

  /** The names of MacrosJtoM, as a literal the checkers can evaluate. */
  const NamesOfMacrosJtoM: seq<string> := ["jaavso", "jcap", "jcp", "jgr", "jqsrt", "jrasc", "maps", "memras", "memsai", "mnras"]

  lemma MacrosJtoMNames()
    ensures Names(MacrosJtoM) == NamesOfMacrosJtoM
  {
    assert MacrosJtoM[0].0 == "jaavso";
    assert MacrosJtoM[1].0 == "jcap";
    assert MacrosJtoM[2].0 == "jcp";
    assert MacrosJtoM[3].0 == "jgr";
    assert MacrosJtoM[4].0 == "jqsrt";
    assert MacrosJtoM[5].0 == "jrasc";
    assert MacrosJtoM[6].0 == "maps";
    assert MacrosJtoM[7].0 == "memras";
    assert MacrosJtoM[8].0 == "memsai";
    assert MacrosJtoM[9].0 == "mnras";
  }

  lemma MacrosJtoMNotExtended0()
    ensures NotExtendedFrom("jaavso", NamesOfMacrosJtoM, 1)
  {
    assert !ProperPrefix("jaavso", "mnras");
    assert NotExtendedFrom("jaavso", NamesOfMacrosJtoM, 9);
    assert !ProperPrefix("jaavso", "memsai");
    assert NotExtendedFrom("jaavso", NamesOfMacrosJtoM, 8);
    assert !ProperPrefix("jaavso", "memras");
    assert NotExtendedFrom("jaavso", NamesOfMacrosJtoM, 7);
    assert !ProperPrefix("jaavso", "maps");
    assert NotExtendedFrom("jaavso", NamesOfMacrosJtoM, 6);
    assert !ProperPrefix("jaavso", "jrasc");
    assert NotExtendedFrom("jaavso", NamesOfMacrosJtoM, 5);
    assert !ProperPrefix("jaavso", "jqsrt");
    assert NotExtendedFrom("jaavso", NamesOfMacrosJtoM, 4);
    assert !ProperPrefix("jaavso", "jgr");
    assert NotExtendedFrom("jaavso", NamesOfMacrosJtoM, 3);
    assert !ProperPrefix("jaavso", "jcp");
    assert NotExtendedFrom("jaavso", NamesOfMacrosJtoM, 2);
    assert !ProperPrefix("jaavso", "jcap");
    assert NotExtendedFrom("jaavso", NamesOfMacrosJtoM, 1);
  }

  lemma MacrosJtoMNotExtended1()
    ensures NotExtendedFrom("jcap", NamesOfMacrosJtoM, 2)
  {
    assert !ProperPrefix("jcap", "mnras");
    assert NotExtendedFrom("jcap", NamesOfMacrosJtoM, 9);
    assert !ProperPrefix("jcap", "memsai");
    assert NotExtendedFrom("jcap", NamesOfMacrosJtoM, 8);
    assert !ProperPrefix("jcap", "memras");
    assert NotExtendedFrom("jcap", NamesOfMacrosJtoM, 7);
    assert !ProperPrefix("jcap", "maps");
    assert NotExtendedFrom("jcap", NamesOfMacrosJtoM, 6);
    assert !ProperPrefix("jcap", "jrasc");
    assert NotExtendedFrom("jcap", NamesOfMacrosJtoM, 5);
    assert !ProperPrefix("jcap", "jqsrt");
    assert NotExtendedFrom("jcap", NamesOfMacrosJtoM, 4);
    assert !ProperPrefix("jcap", "jgr");
    assert NotExtendedFrom("jcap", NamesOfMacrosJtoM, 3);
    assert !ProperPrefix("jcap", "jcp");
    assert NotExtendedFrom("jcap", NamesOfMacrosJtoM, 2);
  }

  lemma MacrosJtoMNotExtended2()
    ensures NotExtendedFrom("jcp", NamesOfMacrosJtoM, 3)
  {
    assert !ProperPrefix("jcp", "mnras");
    assert NotExtendedFrom("jcp", NamesOfMacrosJtoM, 9);
    assert !ProperPrefix("jcp", "memsai");
    assert NotExtendedFrom("jcp", NamesOfMacrosJtoM, 8);
    assert !ProperPrefix("jcp", "memras");
    assert NotExtendedFrom("jcp", NamesOfMacrosJtoM, 7);
    assert !ProperPrefix("jcp", "maps");
    assert NotExtendedFrom("jcp", NamesOfMacrosJtoM, 6);
    assert !ProperPrefix("jcp", "jrasc");
    assert NotExtendedFrom("jcp", NamesOfMacrosJtoM, 5);
    assert !ProperPrefix("jcp", "jqsrt");
    assert NotExtendedFrom("jcp", NamesOfMacrosJtoM, 4);
    assert !ProperPrefix("jcp", "jgr");
    assert NotExtendedFrom("jcp", NamesOfMacrosJtoM, 3);
  }

  lemma MacrosJtoMNotExtended3()
    ensures NotExtendedFrom("jgr", NamesOfMacrosJtoM, 4)
  {
    assert !ProperPrefix("jgr", "mnras");
    assert NotExtendedFrom("jgr", NamesOfMacrosJtoM, 9);
    assert !ProperPrefix("jgr", "memsai");
    assert NotExtendedFrom("jgr", NamesOfMacrosJtoM, 8);
    assert !ProperPrefix("jgr", "memras");
    assert NotExtendedFrom("jgr", NamesOfMacrosJtoM, 7);
    assert !ProperPrefix("jgr", "maps");
    assert NotExtendedFrom("jgr", NamesOfMacrosJtoM, 6);
    assert !ProperPrefix("jgr", "jrasc");
    assert NotExtendedFrom("jgr", NamesOfMacrosJtoM, 5);
    assert !ProperPrefix("jgr", "jqsrt");
    assert NotExtendedFrom("jgr", NamesOfMacrosJtoM, 4);
  }

  lemma MacrosJtoMNotExtended4()
    ensures NotExtendedFrom("jqsrt", NamesOfMacrosJtoM, 5)
  {
    assert !ProperPrefix("jqsrt", "mnras");
    assert NotExtendedFrom("jqsrt", NamesOfMacrosJtoM, 9);
    assert !ProperPrefix("jqsrt", "memsai");
    assert NotExtendedFrom("jqsrt", NamesOfMacrosJtoM, 8);
    assert !ProperPrefix("jqsrt", "memras");
    assert NotExtendedFrom("jqsrt", NamesOfMacrosJtoM, 7);
    assert !ProperPrefix("jqsrt", "maps");
    assert NotExtendedFrom("jqsrt", NamesOfMacrosJtoM, 6);
    assert !ProperPrefix("jqsrt", "jrasc");
    assert NotExtendedFrom("jqsrt", NamesOfMacrosJtoM, 5);
  }

  lemma MacrosJtoMNotExtended5()
    ensures NotExtendedFrom("jrasc", NamesOfMacrosJtoM, 6)
  {
    assert !ProperPrefix("jrasc", "mnras");
    assert NotExtendedFrom("jrasc", NamesOfMacrosJtoM, 9);
    assert !ProperPrefix("jrasc", "memsai");
    assert NotExtendedFrom("jrasc", NamesOfMacrosJtoM, 8);
    assert !ProperPrefix("jrasc", "memras");
    assert NotExtendedFrom("jrasc", NamesOfMacrosJtoM, 7);
    assert !ProperPrefix("jrasc", "maps");
    assert NotExtendedFrom("jrasc", NamesOfMacrosJtoM, 6);
  }

  lemma MacrosJtoMNotExtended6()
    ensures NotExtendedFrom("maps", NamesOfMacrosJtoM, 7)
  {
    assert !ProperPrefix("maps", "mnras");
    assert NotExtendedFrom("maps", NamesOfMacrosJtoM, 9);
    assert !ProperPrefix("maps", "memsai");
    assert NotExtendedFrom("maps", NamesOfMacrosJtoM, 8);
    assert !ProperPrefix("maps", "memras");
    assert NotExtendedFrom("maps", NamesOfMacrosJtoM, 7);
  }

  lemma MacrosJtoMNotExtended7()
    ensures NotExtendedFrom("memras", NamesOfMacrosJtoM, 8)
  {
    assert !ProperPrefix("memras", "mnras");
    assert NotExtendedFrom("memras", NamesOfMacrosJtoM, 9);
    assert !ProperPrefix("memras", "memsai");
    assert NotExtendedFrom("memras", NamesOfMacrosJtoM, 8);
  }

  lemma MacrosJtoMNotExtended8()
    ensures NotExtendedFrom("memsai", NamesOfMacrosJtoM, 9)
  {
    assert !ProperPrefix("memsai", "mnras");
    assert NotExtendedFrom("memsai", NamesOfMacrosJtoM, 9);
  }

  lemma MacrosJtoMOrderedAt7()
    ensures OrderedFrom(NamesOfMacrosJtoM, 7)
  {
    assert NamesOfMacrosJtoM[9] == "mnras";
    assert OrderedFrom(NamesOfMacrosJtoM, 9);
    assert NamesOfMacrosJtoM[8] == "memsai";
    MacrosJtoMNotExtended8();
    assert OrderedFrom(NamesOfMacrosJtoM, 8);
    assert NamesOfMacrosJtoM[7] == "memras";
    MacrosJtoMNotExtended7();
    assert OrderedFrom(NamesOfMacrosJtoM, 7);
  }

  lemma MacrosJtoMOrderedAt4()
    ensures OrderedFrom(NamesOfMacrosJtoM, 4)
  {
    MacrosJtoMOrderedAt7();
    assert NamesOfMacrosJtoM[6] == "maps";
    MacrosJtoMNotExtended6();
    assert OrderedFrom(NamesOfMacrosJtoM, 6);
    assert NamesOfMacrosJtoM[5] == "jrasc";
    MacrosJtoMNotExtended5();
    assert OrderedFrom(NamesOfMacrosJtoM, 5);
    assert NamesOfMacrosJtoM[4] == "jqsrt";
    MacrosJtoMNotExtended4();
    assert OrderedFrom(NamesOfMacrosJtoM, 4);
  }

  lemma MacrosJtoMOrderedAt1()
    ensures OrderedFrom(NamesOfMacrosJtoM, 1)
  {
    MacrosJtoMOrderedAt4();
    assert NamesOfMacrosJtoM[3] == "jgr";
    MacrosJtoMNotExtended3();
    assert OrderedFrom(NamesOfMacrosJtoM, 3);
    assert NamesOfMacrosJtoM[2] == "jcp";
    MacrosJtoMNotExtended2();
    assert OrderedFrom(NamesOfMacrosJtoM, 2);
    assert NamesOfMacrosJtoM[1] == "jcap";
    MacrosJtoMNotExtended1();
    assert OrderedFrom(NamesOfMacrosJtoM, 1);
  }

  lemma MacrosJtoMOrderedAt0()
    ensures OrderedFrom(NamesOfMacrosJtoM, 0)
  {
    MacrosJtoMOrderedAt1();
    assert NamesOfMacrosJtoM[0] == "jaavso";
    MacrosJtoMNotExtended0();
    assert OrderedFrom(NamesOfMacrosJtoM, 0);
  }

  lemma MacrosJtoMNamesStart()
    ensures NamesStartIn(MacrosJtoM, 'j', 'm')
  {
    MacrosJtoMNames();
  }

  lemma MacrosJtoMOrdered()
    ensures PrefixOrdered(MacrosJtoM) && NamesStartIn(MacrosJtoM, 'j', 'm')
  {
    MacrosJtoMOrderedAt0();
    MacrosJtoMNames();
    NamesOrdered(MacrosJtoM);
    MacrosJtoMNamesStart();
  }

  // MacrosN

  lemma MacrosNWellFormedAt0()
    ensures forall j | 0 <= j < 3 :: EntryWellFormed(MacrosN[j])
  {
    assert EntryWellFormed(MacrosN[0]);
    assert EntryWellFormed(MacrosN[1]);
    assert EntryWellFormed(MacrosN[2]);
  }

  lemma MacrosNWellFormedAt3()
    ensures forall j | 3 <= j < 4 :: EntryWellFormed(MacrosN[j])
  {
    assert EntryWellFormed(MacrosN[3]);
  }

  lemma MacrosNWellFormed()
    ensures WellFormed(MacrosN)
  {
    MacrosNWellFormedAt0();
    MacrosNWellFormedAt3();
  }

  /** The names of MacrosN, as a literal the checkers can evaluate. */
  const NamesOfMacrosN: seq<string> := ["nat", "nar", "na", "nphysa"]

  lemma MacrosNNames()
    ensures Names(MacrosN) == NamesOfMacrosN
  {
    assert MacrosN[0].0 == "nat";
    assert MacrosN[1].0 == "nar";
    assert MacrosN[2].0 == "na";
    assert MacrosN[3].0 == "nphysa";
  }

  lemma MacrosNNotExtended0()
    ensures NotExtendedFrom("nat", NamesOfMacrosN, 1)
  {
    assert !ProperPrefix("nat", "nphysa");
    assert NotExtendedFrom("nat", NamesOfMacrosN, 3);
    assert !ProperPrefix("nat", "na");
    assert NotExtendedFrom("nat", NamesOfMacrosN, 2);
    assert !ProperPrefix("nat", "nar");
    assert NotExtendedFrom("nat", NamesOfMacrosN, 1);
  }

  lemma MacrosNNotExtended1()
    ensures NotExtendedFrom("nar", NamesOfMacrosN, 2)
  {
    assert !ProperPrefix("nar", "nphysa");
    assert NotExtendedFrom("nar", NamesOfMacrosN, 3);
    assert !ProperPrefix("nar", "na");
    assert NotExtendedFrom("nar", NamesOfMacrosN, 2);
  }

  lemma MacrosNNotExtended2()
    ensures NotExtendedFrom("na", NamesOfMacrosN, 3)
  {
    assert !ProperPrefix("na", "nphysa");
    assert NotExtendedFrom("na", NamesOfMacrosN, 3);
  }

  lemma MacrosNOrderedAt1()
    ensures OrderedFrom(NamesOfMacrosN, 1)
  {
    assert NamesOfMacrosN[3] == "nphysa";
    assert OrderedFrom(NamesOfMacrosN, 3);
    assert NamesOfMacrosN[2] == "na";
    MacrosNNotExtended2();
    assert OrderedFrom(NamesOfMacrosN, 2);
    assert NamesOfMacrosN[1] == "nar";
    MacrosNNotExtended1();
    assert OrderedFrom(NamesOfMacrosN, 1);
  }

  lemma MacrosNOrderedAt0()
    ensures OrderedFrom(NamesOfMacrosN, 0)
  {
    MacrosNOrderedAt1();
    assert NamesOfMacrosN[0] == "nat";
    MacrosNNotExtended0();
    assert OrderedFrom(NamesOfMacrosN, 0);
  }

  lemma MacrosNNamesStart()
    ensures NamesStartIn(MacrosN, 'n', 'n')
  {
    MacrosNNames();
  }

  lemma MacrosNOrdered()
    ensures PrefixOrdered(MacrosN) && NamesStartIn(MacrosN, 'n', 'n')
  {
    MacrosNOrderedAt0();
    MacrosNNames();
    NamesOrdered(MacrosN);
    MacrosNNamesStart();
  }

  // MacrosP

  lemma MacrosPWellFormedAt0()
    ensures forall j | 0 <= j < 1 :: EntryWellFormed(MacrosP[j])
  {
    assert EntryWellFormed(MacrosP[0]);
  }

  lemma MacrosPWellFormedAt1()
    ensures forall j | 1 <= j < 2 :: EntryWellFormed(MacrosP[j])
  {
    assert EntryWellFormed(MacrosP[1]);
  }

  lemma MacrosPWellFormedAt2()
    ensures forall j | 2 <= j < 3 :: EntryWellFormed(MacrosP[j])
  {
    assert EntryWellFormed(MacrosP[2]);
  }

  lemma MacrosPWellFormedAt3()
    ensures forall j | 3 <= j < 5 :: EntryWellFormed(MacrosP[j])
  {
    assert EntryWellFormed(MacrosP[3]);
    assert EntryWellFormed(MacrosP[4]);
  }

  lemma MacrosPWellFormedAt5()
    ensures forall j | 5 <= j < 7 :: EntryWellFormed(MacrosP[j])
  {
    assert EntryWellFormed(MacrosP[5]);
    assert EntryWellFormed(MacrosP[6]);
  }

  lemma MacrosPWellFormedAt7()
    ensures forall j | 7 <= j < 9 :: EntryWellFormed(MacrosP[j])
  {
    assert EntryWellFormed(MacrosP[7]);
    assert EntryWellFormed(MacrosP[8]);
  }

  lemma MacrosPWellFormedAt9()
    ensures forall j | 9 <= j < 11 :: EntryWellFormed(MacrosP[j])
  {
    assert EntryWellFormed(MacrosP[9]);
    assert EntryWellFormed(MacrosP[10]);
  }

  lemma MacrosPWellFormedAt11()
    ensures forall j | 11 <= j < 12 :: EntryWellFormed(MacrosP[j])
  {
    assert EntryWellFormed(MacrosP[11]);
  }

  lemma MacrosPWellFormedAt12()
    ensures forall j | 12 <= j < 13 :: EntryWellFormed(MacrosP[j])
  {
    assert EntryWellFormed(MacrosP[12]);
  }

  lemma MacrosPWellFormedAt13()
    ensures forall j | 13 <= j < 14 :: EntryWellFormed(MacrosP[j])
  {
    assert EntryWellFormed(MacrosP[13]);
  }

  lemma MacrosPWellFormed()
    ensures WellFormed(MacrosP)
  {
    MacrosPWellFormedAt0();
    MacrosPWellFormedAt1();
    MacrosPWellFormedAt2();
    MacrosPWellFormedAt3();
    MacrosPWellFormedAt5();
    MacrosPWellFormedAt7();
    MacrosPWellFormedAt9();
    MacrosPWellFormedAt11();
    MacrosPWellFormedAt12();
    MacrosPWellFormedAt13();
  }

  /** The names of MacrosP, as a literal the checkers can evaluate. */
  const NamesOfMacrosP: seq<string> := ["pasa", "pasp", "pasj", "physrep", "physscr", "planss", "pra", "prb", "prc", "prd", "pre", "prl", "procspie", "psj"]

  lemma MacrosPNames()
    ensures Names(MacrosP) == NamesOfMacrosP
  {
    assert MacrosP[0].0 == "pasa";
    assert MacrosP[1].0 == "pasp";
    assert MacrosP[2].0 == "pasj";
    assert MacrosP[3].0 == "physrep";
    assert MacrosP[4].0 == "physscr";
    assert MacrosP[5].0 == "planss";
    assert MacrosP[6].0 == "pra";
    assert MacrosP[7].0 == "prb";
    assert MacrosP[8].0 == "prc";
    assert MacrosP[9].0 == "prd";
    assert MacrosP[10].0 == "pre";
    assert MacrosP[11].0 == "prl";
    assert MacrosP[12].0 == "procspie";
    assert MacrosP[13].0 == "psj";
  }

  lemma MacrosPNotExtended0()
    ensures NotExtendedFrom("pasa", NamesOfMacrosP, 1)
  {
    assert !ProperPrefix("pasa", "psj");
    assert NotExtendedFrom("pasa", NamesOfMacrosP, 13);
    assert !ProperPrefix("pasa", "procspie");
    assert NotExtendedFrom("pasa", NamesOfMacrosP, 12);
    assert !ProperPrefix("pasa", "prl");
    assert NotExtendedFrom("pasa", NamesOfMacrosP, 11);
    assert !ProperPrefix("pasa", "pre");
    assert NotExtendedFrom("pasa", NamesOfMacrosP, 10);
    assert !ProperPrefix("pasa", "prd");
    assert NotExtendedFrom("pasa", NamesOfMacrosP, 9);
    assert !ProperPrefix("pasa", "prc");
    assert NotExtendedFrom("pasa", NamesOfMacrosP, 8);
    assert !ProperPrefix("pasa", "prb");
    assert NotExtendedFrom("pasa", NamesOfMacrosP, 7);
    assert !ProperPrefix("pasa", "pra");
    assert NotExtendedFrom("pasa", NamesOfMacrosP, 6);
    assert !ProperPrefix("pasa", "planss");
    assert NotExtendedFrom("pasa", NamesOfMacrosP, 5);
    assert !ProperPrefix("pasa", "physscr");
    assert NotExtendedFrom("pasa", NamesOfMacrosP, 4);
    assert !ProperPrefix("pasa", "physrep");
    assert NotExtendedFrom("pasa", NamesOfMacrosP, 3);
    assert !ProperPrefix("pasa", "pasj");
    assert NotExtendedFrom("pasa", NamesOfMacrosP, 2);
    assert !ProperPrefix("pasa", "pasp");
    assert NotExtendedFrom("pasa", NamesOfMacrosP, 1);
  }

  lemma MacrosPNotExtended1()
    ensures NotExtendedFrom("pasp", NamesOfMacrosP, 2)
  {
    assert !ProperPrefix("pasp", "psj");
    assert NotExtendedFrom("pasp", NamesOfMacrosP, 13);
    assert !ProperPrefix("pasp", "procspie");
    assert NotExtendedFrom("pasp", NamesOfMacrosP, 12);
    assert !ProperPrefix("pasp", "prl");
    assert NotExtendedFrom("pasp", NamesOfMacrosP, 11);
    assert !ProperPrefix("pasp", "pre");
    assert NotExtendedFrom("pasp", NamesOfMacrosP, 10);
    assert !ProperPrefix("pasp", "prd");
    assert NotExtendedFrom("pasp", NamesOfMacrosP, 9);
    assert !ProperPrefix("pasp", "prc");
    assert NotExtendedFrom("pasp", NamesOfMacrosP, 8);
    assert !ProperPrefix("pasp", "prb");
    assert NotExtendedFrom("pasp", NamesOfMacrosP, 7);
    assert !ProperPrefix("pasp", "pra");
    assert NotExtendedFrom("pasp", NamesOfMacrosP, 6);
    assert !ProperPrefix("pasp", "planss");
    assert NotExtendedFrom("pasp", NamesOfMacrosP, 5);
    assert !ProperPrefix("pasp", "physscr");
    assert NotExtendedFrom("pasp", NamesOfMacrosP, 4);
    assert !ProperPrefix("pasp", "physrep");
    assert NotExtendedFrom("pasp", NamesOfMacrosP, 3);
    assert !ProperPrefix("pasp", "pasj");
    assert NotExtendedFrom("pasp", NamesOfMacrosP, 2);
  }

  lemma MacrosPNotExtended2()
    ensures NotExtendedFrom("pasj", NamesOfMacrosP, 3)
  {
    assert !ProperPrefix("pasj", "psj");
    assert NotExtendedFrom("pasj", NamesOfMacrosP, 13);
    assert !ProperPrefix("pasj", "procspie");
    assert NotExtendedFrom("pasj", NamesOfMacrosP, 12);
    assert !ProperPrefix("pasj", "prl");
    assert NotExtendedFrom("pasj", NamesOfMacrosP, 11);
    assert !ProperPrefix("pasj", "pre");
    assert NotExtendedFrom("pasj", NamesOfMacrosP, 10);
    assert !ProperPrefix("pasj", "prd");
    assert NotExtendedFrom("pasj", NamesOfMacrosP, 9);
    assert !ProperPrefix("pasj", "prc");
    assert NotExtendedFrom("pasj", NamesOfMacrosP, 8);
    assert !ProperPrefix("pasj", "prb");
    assert NotExtendedFrom("pasj", NamesOfMacrosP, 7);
    assert !ProperPrefix("pasj", "pra");
    assert NotExtendedFrom("pasj", NamesOfMacrosP, 6);
    assert !ProperPrefix("pasj", "planss");
    assert NotExtendedFrom("pasj", NamesOfMacrosP, 5);
    assert !ProperPrefix("pasj", "physscr");
    assert NotExtendedFrom("pasj", NamesOfMacrosP, 4);
    assert !ProperPrefix("pasj", "physrep");
    assert NotExtendedFrom("pasj", NamesOfMacrosP, 3);
  }

  lemma MacrosPNotExtended3()
    ensures NotExtendedFrom("physrep", NamesOfMacrosP, 4)
  {
    assert !ProperPrefix("physrep", "psj");
    assert NotExtendedFrom("physrep", NamesOfMacrosP, 13);
    assert !ProperPrefix("physrep", "procspie");
    assert NotExtendedFrom("physrep", NamesOfMacrosP, 12);
    assert !ProperPrefix("physrep", "prl");
    assert NotExtendedFrom("physrep", NamesOfMacrosP, 11);
    assert !ProperPrefix("physrep", "pre");
    assert NotExtendedFrom("physrep", NamesOfMacrosP, 10);
    assert !ProperPrefix("physrep", "prd");
    assert NotExtendedFrom("physrep", NamesOfMacrosP, 9);
    assert !ProperPrefix("physrep", "prc");
    assert NotExtendedFrom("physrep", NamesOfMacrosP, 8);
    assert !ProperPrefix("physrep", "prb");
    assert NotExtendedFrom("physrep", NamesOfMacrosP, 7);
    assert !ProperPrefix("physrep", "pra");
    assert NotExtendedFrom("physrep", NamesOfMacrosP, 6);
    assert !ProperPrefix("physrep", "planss");
    assert NotExtendedFrom("physrep", NamesOfMacrosP, 5);
    assert !ProperPrefix("physrep", "physscr");
    assert NotExtendedFrom("physrep", NamesOfMacrosP, 4);
  }

  lemma MacrosPNotExtended4()
    ensures NotExtendedFrom("physscr", NamesOfMacrosP, 5)
  {
    assert !ProperPrefix("physscr", "psj");
    assert NotExtendedFrom("physscr", NamesOfMacrosP, 13);
    assert !ProperPrefix("physscr", "procspie");
    assert NotExtendedFrom("physscr", NamesOfMacrosP, 12);
    assert !ProperPrefix("physscr", "prl");
    assert NotExtendedFrom("physscr", NamesOfMacrosP, 11);
    assert !ProperPrefix("physscr", "pre");
    assert NotExtendedFrom("physscr", NamesOfMacrosP, 10);
    assert !ProperPrefix("physscr", "prd");
    assert NotExtendedFrom("physscr", NamesOfMacrosP, 9);
    assert !ProperPrefix("physscr", "prc");
    assert NotExtendedFrom("physscr", NamesOfMacrosP, 8);
    assert !ProperPrefix("physscr", "prb");
    assert NotExtendedFrom("physscr", NamesOfMacrosP, 7);
    assert !ProperPrefix("physscr", "pra");
    assert NotExtendedFrom("physscr", NamesOfMacrosP, 6);
    assert !ProperPrefix("physscr", "planss");
    assert NotExtendedFrom("physscr", NamesOfMacrosP, 5);
  }

  lemma MacrosPNotExtended5()
    ensures NotExtendedFrom("planss", NamesOfMacrosP, 6)
  {
    assert !ProperPrefix("planss", "psj");
    assert NotExtendedFrom("planss", NamesOfMacrosP, 13);
    assert !ProperPrefix("planss", "procspie");
    assert NotExtendedFrom("planss", NamesOfMacrosP, 12);
    assert !ProperPrefix("planss", "prl");
    assert NotExtendedFrom("planss", NamesOfMacrosP, 11);
    assert !ProperPrefix("planss", "pre");
    assert NotExtendedFrom("planss", NamesOfMacrosP, 10);
    assert !ProperPrefix("planss", "prd");
    assert NotExtendedFrom("planss", NamesOfMacrosP, 9);
    assert !ProperPrefix("planss", "prc");
    assert NotExtendedFrom("planss", NamesOfMacrosP, 8);
    assert !ProperPrefix("planss", "prb");
    assert NotExtendedFrom("planss", NamesOfMacrosP, 7);
    assert !ProperPrefix("planss", "pra");
    assert NotExtendedFrom("planss", NamesOfMacrosP, 6);
  }

  lemma MacrosPNotExtended6()
    ensures NotExtendedFrom("pra", NamesOfMacrosP, 7)
  {
    assert !ProperPrefix("pra", "psj");
    assert NotExtendedFrom("pra", NamesOfMacrosP, 13);
    assert !ProperPrefix("pra", "procspie");
    assert NotExtendedFrom("pra", NamesOfMacrosP, 12);
    assert !ProperPrefix("pra", "prl");
    assert NotExtendedFrom("pra", NamesOfMacrosP, 11);
    assert !ProperPrefix("pra", "pre");
    assert NotExtendedFrom("pra", NamesOfMacrosP, 10);
    assert !ProperPrefix("pra", "prd");
    assert NotExtendedFrom("pra", NamesOfMacrosP, 9);
    assert !ProperPrefix("pra", "prc");
    assert NotExtendedFrom("pra", NamesOfMacrosP, 8);
    assert !ProperPrefix("pra", "prb");
    assert NotExtendedFrom("pra", NamesOfMacrosP, 7);
  }

  lemma MacrosPNotExtended7()
    ensures NotExtendedFrom("prb", NamesOfMacrosP, 8)
  {
    assert !ProperPrefix("prb", "psj");
    assert NotExtendedFrom("prb", NamesOfMacrosP, 13);
    assert !ProperPrefix("prb", "procspie");
    assert NotExtendedFrom("prb", NamesOfMacrosP, 12);
    assert !ProperPrefix("prb", "prl");
    assert NotExtendedFrom("prb", NamesOfMacrosP, 11);
    assert !ProperPrefix("prb", "pre");
    assert NotExtendedFrom("prb", NamesOfMacrosP, 10);
    assert !ProperPrefix("prb", "prd");
    assert NotExtendedFrom("prb", NamesOfMacrosP, 9);
    assert !ProperPrefix("prb", "prc");
    assert NotExtendedFrom("prb", NamesOfMacrosP, 8);
  }

  lemma MacrosPNotExtended8()
    ensures NotExtendedFrom("prc", NamesOfMacrosP, 9)
  {
    assert !ProperPrefix("prc", "psj");
    assert NotExtendedFrom("prc", NamesOfMacrosP, 13);
    assert !ProperPrefix("prc", "procspie");
    assert NotExtendedFrom("prc", NamesOfMacrosP, 12);
    assert !ProperPrefix("prc", "prl");
    assert NotExtendedFrom("prc", NamesOfMacrosP, 11);
    assert !ProperPrefix("prc", "pre");
    assert NotExtendedFrom("prc", NamesOfMacrosP, 10);
    assert !ProperPrefix("prc", "prd");
    assert NotExtendedFrom("prc", NamesOfMacrosP, 9);
  }

  lemma MacrosPNotExtended9()
    ensures NotExtendedFrom("prd", NamesOfMacrosP, 10)
  {
    assert !ProperPrefix("prd", "psj");
    assert NotExtendedFrom("prd", NamesOfMacrosP, 13);
    assert !ProperPrefix("prd", "procspie");
    assert NotExtendedFrom("prd", NamesOfMacrosP, 12);
    assert !ProperPrefix("prd", "prl");
    assert NotExtendedFrom("prd", NamesOfMacrosP, 11);
    assert !ProperPrefix("prd", "pre");
    assert NotExtendedFrom("prd", NamesOfMacrosP, 10);
  }

  lemma MacrosPNotExtended10()
    ensures NotExtendedFrom("pre", NamesOfMacrosP, 11)
  {
    assert !ProperPrefix("pre", "psj");
    assert NotExtendedFrom("pre", NamesOfMacrosP, 13);
    assert !ProperPrefix("pre", "procspie");
    assert NotExtendedFrom("pre", NamesOfMacrosP, 12);
    assert !ProperPrefix("pre", "prl");
    assert NotExtendedFrom("pre", NamesOfMacrosP, 11);
  }

  lemma MacrosPNotExtended11()
    ensures NotExtendedFrom("prl", NamesOfMacrosP, 12)
  {
    assert !ProperPrefix("prl", "psj");
    assert NotExtendedFrom("prl", NamesOfMacrosP, 13);
    assert !ProperPrefix("prl", "procspie");
    assert NotExtendedFrom("prl", NamesOfMacrosP, 12);
  }

  lemma MacrosPNotExtended12()
    ensures NotExtendedFrom("procspie", NamesOfMacrosP, 13)
  {
    assert !ProperPrefix("procspie", "psj");
    assert NotExtendedFrom("procspie", NamesOfMacrosP, 13);
  }

  lemma MacrosPOrderedAt11()
    ensures OrderedFrom(NamesOfMacrosP, 11)
  {
    assert NamesOfMacrosP[13] == "psj";
    assert OrderedFrom(NamesOfMacrosP, 13);
    assert NamesOfMacrosP[12] == "procspie";
    MacrosPNotExtended12();
    assert OrderedFrom(NamesOfMacrosP, 12);
    assert NamesOfMacrosP[11] == "prl";
    MacrosPNotExtended11();
    assert OrderedFrom(NamesOfMacrosP, 11);
  }

  lemma MacrosPOrderedAt8()
    ensures OrderedFrom(NamesOfMacrosP, 8)
  {
    MacrosPOrderedAt11();
    assert NamesOfMacrosP[10] == "pre";
    MacrosPNotExtended10();
    assert OrderedFrom(NamesOfMacrosP, 10);
    assert NamesOfMacrosP[9] == "prd";
    MacrosPNotExtended9();
    assert OrderedFrom(NamesOfMacrosP, 9);
    assert NamesOfMacrosP[8] == "prc";
    MacrosPNotExtended8();
    assert OrderedFrom(NamesOfMacrosP, 8);
  }

  lemma MacrosPOrderedAt5()
    ensures OrderedFrom(NamesOfMacrosP, 5)
  {
    MacrosPOrderedAt8();
    assert NamesOfMacrosP[7] == "prb";
    MacrosPNotExtended7();
    assert OrderedFrom(NamesOfMacrosP, 7);
    assert NamesOfMacrosP[6] == "pra";
    MacrosPNotExtended6();
    assert OrderedFrom(NamesOfMacrosP, 6);
    assert NamesOfMacrosP[5] == "planss";
    MacrosPNotExtended5();
    assert OrderedFrom(NamesOfMacrosP, 5);
  }

  lemma MacrosPOrderedAt2()
    ensures OrderedFrom(NamesOfMacrosP, 2)
  {
    MacrosPOrderedAt5();
    assert NamesOfMacrosP[4] == "physscr";
    MacrosPNotExtended4();
    assert OrderedFrom(NamesOfMacrosP, 4);
    assert NamesOfMacrosP[3] == "physrep";
    MacrosPNotExtended3();
    assert OrderedFrom(NamesOfMacrosP, 3);
    assert NamesOfMacrosP[2] == "pasj";
    MacrosPNotExtended2();
    assert OrderedFrom(NamesOfMacrosP, 2);
  }

  lemma MacrosPOrderedAt0()
    ensures OrderedFrom(NamesOfMacrosP, 0)
  {
    MacrosPOrderedAt2();
    assert NamesOfMacrosP[1] == "pasp";
    MacrosPNotExtended1();
    assert OrderedFrom(NamesOfMacrosP, 1);
    assert NamesOfMacrosP[0] == "pasa";
    MacrosPNotExtended0();
    assert OrderedFrom(NamesOfMacrosP, 0);
  }

  lemma MacrosPNamesStart()
    ensures NamesStartIn(MacrosP, 'p', 'p')
  {
    MacrosPNames();
  }

  lemma MacrosPOrdered()
    ensures PrefixOrdered(MacrosP) && NamesStartIn(MacrosP, 'p', 'p')
  {
    MacrosPOrderedAt0();
    MacrosPNames();
    NamesOrdered(MacrosP);
    MacrosPNamesStart();
  }

  // MacrosQtoZ

  lemma MacrosQtoZWellFormedAt0()
    ensures forall j | 0 <= j < 1 :: EntryWellFormed(MacrosQtoZ[j])
  {
    assert EntryWellFormed(MacrosQtoZ[0]);
  }

  lemma MacrosQtoZWellFormedAt1()
    ensures forall j | 1 <= j < 2 :: EntryWellFormed(MacrosQtoZ[j])
  {
    assert EntryWellFormed(MacrosQtoZ[1]);
  }

  lemma MacrosQtoZWellFormedAt2()
    ensures forall j | 2 <= j < 5 :: EntryWellFormed(MacrosQtoZ[j])
  {
    assert EntryWellFormed(MacrosQtoZ[2]);
    assert EntryWellFormed(MacrosQtoZ[3]);
    assert EntryWellFormed(MacrosQtoZ[4]);
  }

  lemma MacrosQtoZWellFormedAt5()
    ensures forall j | 5 <= j < 7 :: EntryWellFormed(MacrosQtoZ[j])
  {
    assert EntryWellFormed(MacrosQtoZ[5]);
    assert EntryWellFormed(MacrosQtoZ[6]);
  }

  lemma MacrosQtoZWellFormed()
    ensures WellFormed(MacrosQtoZ)
  {
    MacrosQtoZWellFormedAt0();
    MacrosQtoZWellFormedAt1();
    MacrosQtoZWellFormedAt2();
    MacrosQtoZWellFormedAt5();
  }

  /** The names of MacrosQtoZ, as a literal the checkers can evaluate. */
  const NamesOfMacrosQtoZ: seq<string> := ["qjras", "rmxaa", "skytel", "solphys", "sovast", "ssr", "zap"]

  lemma MacrosQtoZNames()
    ensures Names(MacrosQtoZ) == NamesOfMacrosQtoZ
  {
    assert MacrosQtoZ[0].0 == "qjras";
    assert MacrosQtoZ[1].0 == "rmxaa";
    assert MacrosQtoZ[2].0 == "skytel";
    assert MacrosQtoZ[3].0 == "solphys";
    assert MacrosQtoZ[4].0 == "sovast";
    assert MacrosQtoZ[5].0 == "ssr";
    assert MacrosQtoZ[6].0 == "zap";
  }

  lemma MacrosQtoZNotExtended0()
    ensures NotExtendedFrom("qjras", NamesOfMacrosQtoZ, 1)
  {
    assert !ProperPrefix("qjras", "zap");
    assert NotExtendedFrom("qjras", NamesOfMacrosQtoZ, 6);
    assert !ProperPrefix("qjras", "ssr");
    assert NotExtendedFrom("qjras", NamesOfMacrosQtoZ, 5);
    assert !ProperPrefix("qjras", "sovast");
    assert NotExtendedFrom("qjras", NamesOfMacrosQtoZ, 4);
    assert !ProperPrefix("qjras", "solphys");
    assert NotExtendedFrom("qjras", NamesOfMacrosQtoZ, 3);
    assert !ProperPrefix("qjras", "skytel");
    assert NotExtendedFrom("qjras", NamesOfMacrosQtoZ, 2);
    assert !ProperPrefix("qjras", "rmxaa");
    assert NotExtendedFrom("qjras", NamesOfMacrosQtoZ, 1);
  }

  lemma MacrosQtoZNotExtended1()
    ensures NotExtendedFrom("rmxaa", NamesOfMacrosQtoZ, 2)
  {
    assert !ProperPrefix("rmxaa", "zap");
    assert NotExtendedFrom("rmxaa", NamesOfMacrosQtoZ, 6);
    assert !ProperPrefix("rmxaa", "ssr");
    assert NotExtendedFrom("rmxaa", NamesOfMacrosQtoZ, 5);
    assert !ProperPrefix("rmxaa", "sovast");
    assert NotExtendedFrom("rmxaa", NamesOfMacrosQtoZ, 4);
    assert !ProperPrefix("rmxaa", "solphys");
    assert NotExtendedFrom("rmxaa", NamesOfMacrosQtoZ, 3);
    assert !ProperPrefix("rmxaa", "skytel");
    assert NotExtendedFrom("rmxaa", NamesOfMacrosQtoZ, 2);
  }

  lemma MacrosQtoZNotExtended2()
    ensures NotExtendedFrom("skytel", NamesOfMacrosQtoZ, 3)
  {
    assert !ProperPrefix("skytel", "zap");
    assert NotExtendedFrom("skytel", NamesOfMacrosQtoZ, 6);
    assert !ProperPrefix("skytel", "ssr");
    assert NotExtendedFrom("skytel", NamesOfMacrosQtoZ, 5);
    assert !ProperPrefix("skytel", "sovast");
    assert NotExtendedFrom("skytel", NamesOfMacrosQtoZ, 4);
    assert !ProperPrefix("skytel", "solphys");
    assert NotExtendedFrom("skytel", NamesOfMacrosQtoZ, 3);
  }

  lemma MacrosQtoZNotExtended3()
    ensures NotExtendedFrom("solphys", NamesOfMacrosQtoZ, 4)
  {
    assert !ProperPrefix("solphys", "zap");
    assert NotExtendedFrom("solphys", NamesOfMacrosQtoZ, 6);
    assert !ProperPrefix("solphys", "ssr");
    assert NotExtendedFrom("solphys", NamesOfMacrosQtoZ, 5);
    assert !ProperPrefix("solphys", "sovast");
    assert NotExtendedFrom("solphys", NamesOfMacrosQtoZ, 4);
  }

  lemma MacrosQtoZNotExtended4()
    ensures NotExtendedFrom("sovast", NamesOfMacrosQtoZ, 5)
  {
    assert !ProperPrefix("sovast", "zap");
    assert NotExtendedFrom("sovast", NamesOfMacrosQtoZ, 6);
    assert !ProperPrefix("sovast", "ssr");
    assert NotExtendedFrom("sovast", NamesOfMacrosQtoZ, 5);
  }

  lemma MacrosQtoZNotExtended5()
    ensures NotExtendedFrom("ssr", NamesOfMacrosQtoZ, 6)
  {
    assert !ProperPrefix("ssr", "zap");
    assert NotExtendedFrom("ssr", NamesOfMacrosQtoZ, 6);
  }

  lemma MacrosQtoZOrderedAt4()
    ensures OrderedFrom(NamesOfMacrosQtoZ, 4)
  {
    assert NamesOfMacrosQtoZ[6] == "zap";
    assert OrderedFrom(NamesOfMacrosQtoZ, 6);
    assert NamesOfMacrosQtoZ[5] == "ssr";
    MacrosQtoZNotExtended5();
    assert OrderedFrom(NamesOfMacrosQtoZ, 5);
    assert NamesOfMacrosQtoZ[4] == "sovast";
    MacrosQtoZNotExtended4();
    assert OrderedFrom(NamesOfMacrosQtoZ, 4);
  }

  lemma MacrosQtoZOrderedAt1()
    ensures OrderedFrom(NamesOfMacrosQtoZ, 1)
  {
    MacrosQtoZOrderedAt4();
    assert NamesOfMacrosQtoZ[3] == "solphys";
    MacrosQtoZNotExtended3();
    assert OrderedFrom(NamesOfMacrosQtoZ, 3);
    assert NamesOfMacrosQtoZ[2] == "skytel";
    MacrosQtoZNotExtended2();
    assert OrderedFrom(NamesOfMacrosQtoZ, 2);
    assert NamesOfMacrosQtoZ[1] == "rmxaa";
    MacrosQtoZNotExtended1();
    assert OrderedFrom(NamesOfMacrosQtoZ, 1);
  }

  lemma MacrosQtoZOrderedAt0()
    ensures OrderedFrom(NamesOfMacrosQtoZ, 0)
  {
    MacrosQtoZOrderedAt1();
    assert NamesOfMacrosQtoZ[0] == "qjras";
    MacrosQtoZNotExtended0();
    assert OrderedFrom(NamesOfMacrosQtoZ, 0);
  }

  lemma MacrosQtoZNamesStart()
    ensures NamesStartIn(MacrosQtoZ, 'q', 'z')
  {
    MacrosQtoZNames();
  }

  lemma MacrosQtoZOrdered()
    ensures PrefixOrdered(MacrosQtoZ) && NamesStartIn(MacrosQtoZ, 'q', 'z')
  {
    MacrosQtoZOrderedAt0();
    MacrosQtoZNames();
    NamesOrdered(MacrosQtoZ);
    MacrosQtoZNamesStart();
  }

  lemma JournalMacroWellFormed()
    ensures WellFormed(JournalMacro)
  {
    MacrosAWellFormed();
    MacrosBtoIWellFormed();
    MacrosJtoMWellFormed();
    MacrosNWellFormed();
    MacrosPWellFormed();
    MacrosQtoZWellFormed();
    WellFormedAppend(MacrosBtoI, MacrosJtoM);
    WellFormedAppend(MacrosBtoI + MacrosJtoM, MacrosN);
    WellFormedAppend(MacrosBtoI + MacrosJtoM + MacrosN, MacrosP);
    WellFormedAppend(MacrosBtoI + MacrosJtoM + MacrosN + MacrosP, MacrosQtoZ);
    WellFormedAppend(MacrosA, MacrosBtoZ);
  }

  lemma JournalMacroPrefixOrdered()
    ensures PrefixOrdered(JournalMacro)
  {
    MacrosAOrdered();
    MacrosBtoIOrdered();
    MacrosJtoMOrdered();
    MacrosNOrdered();
    MacrosPOrdered();
    MacrosQtoZOrdered();
    PrefixOrderedAppend(MacrosBtoI, MacrosJtoM, 'b', 'i', 'j', 'm');
    PrefixOrderedAppend(MacrosBtoI + MacrosJtoM, MacrosN, 'b', 'm', 'n', 'n');
    PrefixOrderedAppend(MacrosBtoI + MacrosJtoM + MacrosN, MacrosP, 'b', 'n', 'p', 'p');
    PrefixOrderedAppend(MacrosBtoI + MacrosJtoM + MacrosN + MacrosP, MacrosQtoZ, 'b', 'p', 'q', 'z');
    PrefixOrderedAppend(MacrosA, MacrosBtoZ, 'a', 'a', 'b', 'z');
  }


  // ---------------------------------------------------------------------
  // Consequences for change_journal_name

  /** With the real table the "full" style is the single-scan expansion, and
      "iso4" abbreviates that expansion. */
  lemma FullStyleIsExpand(text: string, iso4: string -> string)
    ensures ChangeJournalName(text, "full", iso4) == Success(Expand(text, JournalMacro))
    ensures ChangeJournalName(text, "iso4", iso4) == Success(iso4(Expand(text, JournalMacro)))
  {
    JournalMacroWellFormed();
    MacroFoldIsExpand(text, JournalMacro);
  }

  /** Wherever a backslash is followed by several names of the table, the
      entry substituted there is the one with the longest name. */
  lemma JournalMacroTakesLongest(s: string)
    requires FirstMatch(s, JournalMacro).Some?
    ensures forall j | 0 <= j < |JournalMacro| && JournalMacro[j].0 <= s ::
              |JournalMacro[j].0| <= |JournalMacro[FirstMatch(s, JournalMacro).value].0|
  {
    JournalMacroPrefixOrdered();
    FirstMatchIsLongest(s, JournalMacro);
  }

  /** Two strings that differ at a position shared by both are not prefix-related. */
  lemma NotPrefixAt(a: string, b: string, i: nat)
    requires i < |a| && i < |b| && a[i] != b[i]
    ensures !(a <= b)
  {
  }

  /** The first match is the entry whose name matches when no earlier one does. */
  lemma {:induction false} FirstMatchFrom(s: string, t: Table, i: nat, from: nat)
    requires from <= i < |t| && t[i].0 <= s
    requires forall j | from <= j < i :: !(t[j].0 <= s)
    ensures FirstMatch(s, t, from) == Some(i)
    decreases i - from
  {
    if from < i {
      FirstMatchFrom(s, t, i, from + 1);
    }
  }

  /** A match found in the front part of a table is the match in the whole table. */
  lemma FirstMatchInFront(s: string, a: Table, b: Table)
    requires FirstMatch(s, a).Some?
    ensures FirstMatch(s, a + b) == FirstMatch(s, a)
  {
    var i := FirstMatch(s, a).value;
    forall j | 0 <= j <= i
      ensures (a + b)[j] == a[j]
    {
    }
    FirstMatchFrom(s, a + b, i, 0);
  }

  /** After a backslash, "apjl" is matched by its own entry: none of the four
      names before it is a prefix of it. */
  lemma FirstMatchApjl(b: string)
    ensures FirstMatch("apjl" + b, JournalMacro) == Some(4)
  {
    var u := "apjl" + b;
    assert u[..4] == "apjl";
    MacrosANames();
    assert NamesOfMacrosA[4] == "apjl";
    forall j | 0 <= j < 4
      ensures !(MacrosA[j].0 <= u)
    {
      assert MacrosA[j].0 == NamesOfMacrosA[j];
      NotPrefixAt(NamesOfMacrosA[j], u, 1);
    }
    FirstMatchFrom(u, MacrosA, 4, 0);
    FirstMatchInFront(u, MacrosA, MacrosBtoZ);
  }

  /** After a backslash, "apj" not followed by "l" or "s" is matched by its
      own entry, not by "apjl" or "apjs" before it. */
  lemma FirstMatchApj(b: string)
    requires b == [] || (b[0] != 'l' && b[0] != 's')
    ensures FirstMatch("apj" + b, JournalMacro) == Some(6)
  {
    var u := "apj" + b;
    assert u[..3] == "apj";
    MacrosANames();
    assert NamesOfMacrosA[6] == "apj";
    forall j | 0 <= j < 6
      ensures !(MacrosA[j].0 <= u)
    {
      assert MacrosA[j].0 == NamesOfMacrosA[j];
      if j < 4 {
        NotPrefixAt(NamesOfMacrosA[j], u, 1);
      } else if b != [] {
        NotPrefixAt(NamesOfMacrosA[j], u, 3);
      }
    }
    FirstMatchFrom(u, MacrosA, 6, 0);
    FirstMatchInFront(u, MacrosA, MacrosBtoZ);
  }

  /** In any table, a macro inside a text expands to the full name of the
      entry that matches it, after the macro-free text before it and before
      the expansion of the text after it. */
  lemma ExpandAtEntry(a: string, k: string, b: string, t: Table, i: nat)
    requires '\\' !in a
    requires i < |t| && t[i].0 == k && FirstMatch(k + b, t) == Some(i)
    ensures Expand(a + ("\\" + k + b), t) == a + t[i].1 + Expand(b, t)
  {
    var s := "\\" + k + b;
    assert s[0] == '\\' && s[1..] == k + b;
    assert s[1 + |k|..] == b;
    ExpandKeepsPrefix(a, s, t);
  }

  /** A macro written as one literal, regrouped as backslash and name. */
  lemma MacroInText(a: string, k: string, b: string, macro: string)
    requires macro == "\\" + k
    ensures a + macro + b == a + ("\\" + k + b)
  {
  }

  /** The literal of the letters journal, split as in the table. */
  lemma LettersJournalName()
    ensures "Astrophysical Journal, " + "Letters" == "Astrophysical Journal, Letters"
  {
  }

  lemma ApjlEntry()
    ensures JournalMacro[4] == ("apjl", "Astrophysical Journal, Letters")
  {
    assert JournalMacro[4] == MacrosA[4];
    LettersJournalName();
  }

  lemma ApjEntry()
    ensures JournalMacro[6] == ("apj", "Astrophysical Journal")
  {
    assert JournalMacro[6] == MacrosA[6];
  }

  /** "\\apjl" anywhere in a text becomes the letters journal, not the apj
      name followed by "l"; the text before it is kept and the text after it
      is expanded in turn. */
  lemma ExpandApjl(a: string, b: string)
    requires '\\' !in a
    ensures Expand(a + "\\apjl" + b, JournalMacro)
              == a + "Astrophysical Journal, Letters" + Expand(b, JournalMacro)
  {
    FirstMatchApjl(b);
    ApjlEntry();
    ExpandAtEntry(a, "apjl", b, JournalMacro, 4);
    MacroInText(a, "apjl", b, "\\apjl");
  }

  /** "\\apj" that is not the start of "\\apjl" or "\\apjs" becomes the
      journal itself, in any text. */
  lemma ExpandApj(a: string, b: string)
    requires '\\' !in a
    requires b == [] || (b[0] != 'l' && b[0] != 's')
    ensures Expand(a + "\\apj" + b, JournalMacro)
              == a + "Astrophysical Journal" + Expand(b, JournalMacro)
  {
    FirstMatchApj(b);
    ApjEntry();
    ExpandAtEntry(a, "apj", b, JournalMacro, 6);
    MacroInText(a, "apj", b, "\\apj");
  }

  /** The three prefix pairs named in the comment above the table are proper
      prefixes, and each longer name comes before the shorter one. */
  lemma NamedPrefixPairsOrdered()
    ensures JournalMacro[4].0 == "apjl" && JournalMacro[5].0 == "apjs" && JournalMacro[6].0 == "apj"
    ensures JournalMacro[9].0 == "aapr" && JournalMacro[10].0 == "aaps" && JournalMacro[11].0 == "aap"
    ensures JournalMacro[36].0 == "nat" && JournalMacro[37].0 == "nar" && JournalMacro[38].0 == "na"
    ensures JournalMacro[6].0 < JournalMacro[4].0 && JournalMacro[6].0 < JournalMacro[5].0
    ensures JournalMacro[11].0 < JournalMacro[9].0 && JournalMacro[11].0 < JournalMacro[10].0
    ensures JournalMacro[38].0 < JournalMacro[36].0 && JournalMacro[38].0 < JournalMacro[37].0
  {
  }

  /** Why the order matters: with "apj" before "apjl", "\\apjl" would become
      "Astrophysical Journall". */
  lemma MisorderedTableDoublesL()
    ensures MacroFold("\\apjl", [("apj", "Astrophysical Journal"), ("apjl", "Astrophysical Journal, Letters")])
              == "Astrophysical Journall"
  {
    var t := [("apj", "Astrophysical Journal"), ("apjl", "Astrophysical Journal, Letters")];
    var s := "\\apjl";
    assert MacroPattern("apj") <= s;
    assert s[4..] == "l";
    assert ReplaceAll("l", MacroPattern("apj"), "Astrophysical Journal") == "l";
    assert ReplaceAll(s, MacroPattern("apj"), "Astrophysical Journal") == "Astrophysical Journall";
    MacroFoldNoBackslash("Astrophysical Journall", t[1..]);
  }
}
