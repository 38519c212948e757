/**
 What one flag of the FLAGS command of contrib/m_flags.c does to the modes, in numbers: a name sets
 its mode, with a minus it clears it, and any other sign counts for nothing.
 */
module FlagEffects {
  import opened IrcString
  import opened ModeBits
  import opened Sequences
  import opened Tokens
  import opened UserFlags

  // Each name, the mode it stands for, and whether it takes an oper to use it.
  function Names(): seq<(string, bv32, bool)> {
    [ ("OWALLOPS", 0x200, true), ("SWALLOPS", 0x100, false), ("STATSNOTICES", 0x20, true), ("OKILLS", 0x8, false),
      ("SKILLS", 0x8, false), ("SNOTICES", 0x1, false), ("CLICONNECTS", 0x2, true), ("CLIDISCONNECTS", 0x2, true),
      ("THROTTLES", 0x4, true), ("IPMISMATCHES", 0x8000, true), ("LWALLOPS", 0x10000, true),
      ("CONNECTS", 0x1000, true), ("SQUITS", 0x1000, true), ("FULL", 0x10, true), ("INVISIBLE", 0x400, false),
      ("BOTS", 0x800, true), ("CALLERID", 0x2000, false), ("UNAUTH", 0x8000, true), ("DEBUG", 0x40, true) ]
  }

  lemma RowIsNamed(k: nat)
    requires k < |Names()|
    ensures |Names()| == |FlagTable()|
    ensures var row := FlagTable()[k]; Names()[k] == (row.name, row.mode, row.oper)
  {}

  // -------- names up to case

  lemma SameTransfers(s: string, t: string)
    requires Same(s, t)
    ensures forall u :: Same(s, u) <==> Same(t, u)
  {}

  lemma {:induction false} SameRowBits(s: string, t: string, oper: bool, n: nat)
    requires Same(s, t) && n <= |FlagTable()|
    ensures RowBits(s, oper, n) == RowBits(t, oper, n)
  {
    SameTransfers(s, t);
    hide Same, FlagTable, Union;
    if n > 0 {
      SameRowBits(s, t, oper, n - 1);
    }
  }

  lemma SameBits(s: string, t: string, who: Who)
    requires Same(s, t)
    ensures BitsOf(s, who) == BitsOf(t, who) && (Same(s, "ALL") <==> Same(t, "ALL"))
  {
    SameTransfers(s, t);
    SameRowBits(s, t, who.oper, |FlagTable()|);
    hide Same, FlagTable, RowBits;
  }

  predicate IsLetter(c: char) { 'a' <= c <= 'z' || 'A' <= c <= 'Z' }

  lemma StartsWithLetter(word: string, name: string)
    requires Same(word, name) && name != "" && 'A' <= name[0] <= 'Z'
    ensures word != "" && IsLetter(word[0])
  {}

  // A flag is the word, or the word behind its sign.
  lemma SignOf(word: string, sign: char)
    requires word != "" && IsLetter(word[0]) && !IsLetter(sign)
    ensures IsAdd(word) && Unsigned(word) == word
    ensures Unsigned([sign] + word) == word && (IsAdd([sign] + word) <==> sign != '-')
  {
    assert ([sign] + word)[1..] == word;
  }

  // -------- the effect of one flag

  function Changed(v: bv32, add: bool, mask: bv32): bv32 { if add then v | mask else v & !mask }

  lemma ChangedIs(v: bv32, add: bool, mask: bv32)
    ensures SetBits(v, add, mask) == Changed(v, add, mask)
  {}

  lemma ApplyOne(v: bv32, flag: string, who: Who)
    ensures var name := Unsigned(flag);
            Apply(v, [flag], who)
            == SetBits(v, IsAdd(flag), if Same(name, ALL_NAME) then AllBits(who.oper) else BitsOf(name, who))
  {
    hide SetBits, Same, BitsOf, AllBits, IsAdd, Unsigned;
    assert [flag][1..] == [];
    ApplyNothing(SetBits(v, IsAdd(flag), BitsOf(Unsigned(flag), who)), who);
  }

  lemma OneFlag(v: bv32, word: string, sign: char, who: Who, bits: bv32)
    requires word != "" && IsLetter(word[0]) && !IsLetter(sign)
    requires bits == if Same(word, ALL_NAME) then AllBits(who.oper) else BitsOf(word, who)
    ensures Apply(v, [word], who) == Changed(v, true, bits)
    ensures Apply(v, [[sign] + word], who) == Changed(v, sign != '-', bits)
  {
    SignOf(word, sign);
    hide *;
    ApplyOne(v, word, who);
    ApplyOne(v, [sign] + word, who);
    ChangedIs(v, true, bits);
    ChangedIs(v, sign != '-', bits);
  }

  lemma NothingChanges(v: bv32, add: bool)
    ensures Changed(v, add, 0) == v
  {
    hide Changed;
    ChangedIs(v, add, 0);
    SetNothing(v, add);
  }

  // The name of a row in any case, bare or behind any sign but a minus, sets exactly the mode of the
  // row, and behind a minus clears it; an oper's name from someone who is none does nothing.
  lemma NameDoes(v: bv32, k: nat, word: string, sign: char, who: Who)
    requires k < |Names()| && Same(word, Names()[k].0) && !IsLetter(sign)
    ensures var (_, mode, oper) := Names()[k];
            var bits := if who.oper || !oper then mode else 0;
            && Apply(v, [word], who) == Changed(v, true, bits)
            && Apply(v, [[sign] + word], who) == Changed(v, sign != '-', bits)
            && (bits == 0 ==> Apply(v, [word], who) == Apply(v, [[sign] + word], who) == v)
  {
    var name := Names()[k].0;
    RowIsNamed(k);
    RowHasAName(k);
    RowBitsOfRow(k, who.oper, |FlagTable()|);
    NamesAreNotSpecial(k);
    RowStartsWithLetter(k);
    hide FlagTable, RowBits, Apply, Names, Same, Changed, IsFlagName, AllBits;
    StartsWithLetter(word, name);
    SameBits(word, name, who);
    NothingChanges(v, true);
    NothingChanges(v, false);
    OneFlag(v, word, sign, who, BitsOf(name, who));
  }

  lemma RowStartsWithLetter(k: nat)
    requires k < |Names()|
    ensures Names()[k].0 != "" && 'A' <= Names()[k].0[0] <= 'Z'
  {}

  // NICKCHANGES does so for opers with the privilege, and nothing for all others.
  lemma NickchangesDoes(v: bv32, word: string, sign: char, who: Who)
    requires Same(word, "NICKCHANGES") && !IsLetter(sign)
    ensures var bits := if who.oper && who.operN then 0x80 else 0;
            && Apply(v, [word], who) == Changed(v, true, bits)
            && Apply(v, [[sign] + word], who) == Changed(v, sign != '-', bits)
            && (bits == 0 ==> Apply(v, [word], who) == Apply(v, [[sign] + word], who) == v)
  {
    StartsWithLetter(word, "NICKCHANGES");
    TableLength();
    NamesAreNotSpecial(0);
    NoRowIsNickchanges(who.oper, |FlagTable()|);
    SameAsItself(NICKCHANGES);
    hide FlagTable, RowBits, Apply, Same, Changed, AllBits;
    SameBits(word, NICKCHANGES, who);
    NothingChanges(v, true);
    NothingChanges(v, false);
    OneFlag(v, word, sign, who, BitsOf(NICKCHANGES, who));
  }

  // ALL does so with all modes that the client may use and that are no matter of taste.
  lemma AllDoes(v: bv32, word: string, sign: char, who: Who)
    requires Same(word, "ALL") && !IsLetter(sign)
    ensures var bits := if who.oper then 0x1_9b7f else 0x109;
            && Apply(v, [word], who) == Changed(v, true, bits)
            && Apply(v, [[sign] + word], who) == Changed(v, sign != '-', bits)
  {
    StartsWithLetter(word, "ALL");
    AllInNumbers(who.oper);
    hide FlagTable, RowBits, Apply, Same, Changed, AllBits, BitsOf;
    OneFlag(v, word, sign, who, AllBits(who.oper));
  }

  lemma AllInNumbers(oper: bool)
    ensures AllBits(oper) == if oper then 0x1_9b7f else 0x109
  {}

  predicate IsFlagFor(flag: string, name: string) {
    Same(flag, name) || (flag != "" && !IsLetter(flag[0]) && Same(flag[1..], name))
  }

  // A flag for no name at all changes nothing.
  lemma UnknownDoesNothing(v: bv32, flag: string, who: Who)
    requires forall k :: 0 <= k < |Names()| ==> !IsFlagFor(flag, Names()[k].0)
    requires !IsFlagFor(flag, "NICKCHANGES") && !IsFlagFor(flag, "ALL")
    ensures Apply(v, [flag], who) == v
  {
    var name := Unsigned(flag);
    assert !Same(name, NICKCHANGES) && !Same(name, ALL_NAME);
    forall k | 0 <= k < |FlagTable()|
      ensures !Same(name, FlagTable()[k].name)
    {
      RowIsNamed(if k < |Names()| then k else 0);
      assert !IsFlagFor(flag, Names()[k].0);
    }
    hide *;
    NoRowHas(name, who.oper, |FlagTable()|);
    NoBits(name, who);
    ApplyOne(v, flag, who);
    ChangedIs(v, IsAdd(flag), 0);
    NothingChanges(v, IsAdd(flag));
  }

  lemma NoBits(name: string, who: Who)
    requires !Same(name, NICKCHANGES) && RowBits(name, who.oper, |FlagTable()|) == 0
    ensures BitsOf(name, who) == 0
  {}

  lemma {:induction false} NoRowHas(name: string, oper: bool, n: nat)
    requires n <= |FlagTable()| && forall k :: 0 <= k < |FlagTable()| ==> !Same(name, FlagTable()[k].name)
    ensures RowBits(name, oper, n) == 0
  {
    hide Same, FlagTable, Union;
    if n > 0 {
      NoRowHas(name, oper, n - 1);
      UnionWithNothing(0);
    }
  }

  // -------- what is printed

  lemma {:induction false} RowNamesExactly(u: bv32, k: nat, held: bool, operRows: bool, name: string)
    requires k <= |FlagTable()|
    ensures name in RowNames(u, k, held, operRows)
            <==> exists i :: k <= i < |FlagTable()| && name == FlagTable()[i].name
                             && Has(u, FlagTable()[i].mode) == held && (operRows || !FlagTable()[i].oper)
    decreases |FlagTable()| - k
  {
    hide FlagTable, Has;
    if k < |FlagTable()| {
      RowNamesExactly(u, k + 1, held, operRows, name);
    }
  }

  lemma HasIs(u: bv32, mode: bv32)
    ensures Has(u, mode) <==> u & mode != 0
  {}

  lemma RowNamed(u: bv32, held: bool, operRows: bool, i: nat)
    requires i < |Names()|
    ensures Names()[i].0 in RowNames(u, 0, held, operRows)
            <==> (u & Names()[i].1 != 0) == held && (operRows || !Names()[i].2)
  {
    var name := Names()[i].0;
    RowIsNamed(i);
    HasIs(u, Names()[i].1);
    RowNamesExactly(u, 0, held, operRows, name);
    hide FlagTable, Has, RowNames, Names;
    if j :| 0 <= j < |FlagTable()| && name == FlagTable()[j].name && j != i {
      NamesDiffer(i, j);
      SameAsItself(name);
    }
  }

  // A name is printed as set exactly when its mode is, and as missing exactly when its mode is not set
  // and the client may use it; 0x40000 is the mode of opers.
  lemma PrintedExactly(u: bv32, operN: bool, i: nat)
    requires i < |Names()|
    ensures var (name, mode, oper) := Names()[i];
            && (name in SetNames(u) <==> u & mode != 0)
            && (name in UnsetNames(u, operN) <==> u & mode == 0 && (u & 0x4_0000 != 0 || !oper))
  {
    RowIsNamed(i);
    NamesAreNotSpecial(i);
    SameAsItself(NICKCHANGES);
    HasIs(u, UMODE_OPER);
    hide FlagTable, Has, RowNames, Names, Same;
    RowNamed(u, true, true, i);
    RowNamed(u, false, Has(u, UMODE_OPER), i);
  }

  // And NICKCHANGES exactly when its mode is set, or missing for an oper with the privilege.
  lemma NickchangesPrinted(u: bv32, operN: bool)
    ensures NICKCHANGES in SetNames(u) <==> u & 0x80 != 0
    ensures NICKCHANGES in UnsetNames(u, operN) <==> u & 0x80 == 0 && u & 0x4_0000 != 0 && operN
  {
    HasIs(u, UMODE_OPER);
    HasIs(u, UMODE_NCHANGE);
    RowNamesExactly(u, 0, true, true, NICKCHANGES);
    RowNamesExactly(u, 0, false, Has(u, UMODE_OPER), NICKCHANGES);
    SameAsItself(NICKCHANGES);
    forall i | 0 <= i < |FlagTable()|
      ensures NICKCHANGES != FlagTable()[i].name
    {
      NamesAreNotSpecial(i);
    }
    hide FlagTable, Has, RowNames, Same;
  }

  // Nothing else is printed.
  lemma OnlyNamesArePrinted(u: bv32, operN: bool, name: string)
    requires name in SetNames(u) || name in UnsetNames(u, operN)
    ensures name == "NICKCHANGES" || exists i :: 0 <= i < |Names()| && name == Names()[i].0
  {
    RowNamesExactly(u, 0, true, true, name);
    RowNamesExactly(u, 0, false, Has(u, UMODE_OPER), name);
    RowIsNamed(0);
    hide FlagTable, Has, RowNames, Names;
    if i :| 0 <= i < |FlagTable()| && name == FlagTable()[i].name {
      RowIsNamed(i);
      assert name == Names()[i].0;
    }
  }

  // -------- several flags, and several parameters

  // Flags work one after the other, up to ALL.
  lemma {:induction false} FlagsInTurn(v: bv32, first: seq<string>, later: seq<string>, who: Who)
    requires forall f :: f in first ==> !IsFlagFor(f, "ALL")
    ensures Apply(v, first + later, who) == Apply(Apply(v, first, who), later, who)
    decreases |first|
  {
    hide SetBits, BitsOf, AllBits, IsAdd;
    if first == [] {
      assert first + later == later;
    } else {
      assert first[0] in first;
      assert forall f :: f in first[1..] ==> f in first;
      UnsignedIsNotAll(first[0]);
      hide Same, IsFlagFor, Unsigned;
      assert (first + later)[0] == first[0] && (first + later)[1..] == first[1..] + later;
      FlagsInTurn(SetBits(v, IsAdd(first[0]), BitsOf(Unsigned(first[0]), who)), first[1..], later, who);
    }
  }

  lemma UnsignedIsNotAll(flag: string)
    requires !IsFlagFor(flag, "ALL")
    ensures !Same(Unsigned(flag), ALL_NAME)
  {}

  lemma {:induction false} WordsOfSum(a: string, b: string)
    ensures Words(a + (" " + b)) == Words(a) + Words(b)
    decreases |a|
  {
    var s := a + (" " + b);
    if a == "" {
      BlankAhead(b);
      assert s == " " + b;
    } else if a[0] == ' ' {
      assert s[1..] == a[1..] + (" " + b);
      WordsOfSum(a[1..], b);
    } else {
      var n := WordEnd(a);
      var rest := a[n..] + (" " + b);
      assert s == a[..n] + rest;
      WordEndAfter(a[..n], rest);
      assert s[..n] == a[..n] && s[n..] == rest;
      WordsOfSum(a[n..], b);
    }
  }

  // Whether the flags come as several parameters or as one text makes no difference.
  lemma {:induction false} ParametersAreOneText(params: seq<string>)
    ensures AllWords(params) == Words(Spaced(params))
  {
    hide Words;
    if |params| == 1 {
      assert params[1..] == [] && params[0] + "" == params[0];
      assert AllWords(params) == Words(params[0]) + [];
    } else if |params| > 1 {
      ParametersAreOneText(params[1..]);
      WordsOfSum(params[0], Spaced(params[1..]));
    } else {
      assert Words("") == [] by { NoWords(); }
    }
  }
}
