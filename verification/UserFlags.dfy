/**
 The FLAGS command of contrib/m_flags.c: user modes printed as names, and names parsed into user
 modes, through one table in which some names share a mode.
 */
module UserFlags {
  import opened CBuffer
  import opened IrcString
  import opened ModeBits
  import opened Sequences
  import opened Tokens

  const UMODE_SERVNOTICE: bv32 := 0x1
  const UMODE_CCONN: bv32 := 0x2
  const UMODE_REJ: bv32 := 0x4
  const UMODE_SKILL: bv32 := 0x8
  const UMODE_FULL: bv32 := 0x10
  const UMODE_SPY: bv32 := 0x20
  const UMODE_DEBUG: bv32 := 0x40
  const UMODE_NCHANGE: bv32 := 0x80
  const UMODE_WALLOP: bv32 := 0x100
  const UMODE_OPERWALL: bv32 := 0x200
  const UMODE_INVISIBLE: bv32 := 0x400
  const UMODE_BOTS: bv32 := 0x800
  const UMODE_EXTERNAL: bv32 := 0x1000
  const UMODE_CALLERID: bv32 := 0x2000
  const UMODE_SOFTCALLERID: bv32 := 0x4000
  const UMODE_UNAUTH: bv32 := 0x8000
  const UMODE_LOCOPS: bv32 := 0x10000
  const UMODE_DEAF: bv32 := 0x20000
  const UMODE_OPER: bv32 := 0x40000
  const UMODE_ADMIN: bv32 := 0x80000

  // -------- the table

  datatype Flag = Flag(name: string, mode: bv32, oper: bool)

  function FlagTable(): seq<Flag> {
    [ Flag("OWALLOPS", UMODE_OPERWALL, true),
      Flag("SWALLOPS", UMODE_WALLOP, false),
      Flag("STATSNOTICES", UMODE_SPY, true),
      Flag("OKILLS", UMODE_SKILL, false),
      Flag("SKILLS", UMODE_SKILL, false),
      Flag("SNOTICES", UMODE_SERVNOTICE, false),
      Flag("CLICONNECTS", UMODE_CCONN, true),
      Flag("CLIDISCONNECTS", UMODE_CCONN, true),
      Flag("THROTTLES", UMODE_REJ, true),
      Flag("IPMISMATCHES", UMODE_UNAUTH, true),
      Flag("LWALLOPS", UMODE_LOCOPS, true),
      Flag("CONNECTS", UMODE_EXTERNAL, true),
      Flag("SQUITS", UMODE_EXTERNAL, true),
      Flag("FULL", UMODE_FULL, true),
      Flag("INVISIBLE", UMODE_INVISIBLE, false),
      Flag("BOTS", UMODE_BOTS, true),
      Flag("CALLERID", UMODE_CALLERID, false),
      Flag("UNAUTH", UMODE_UNAUTH, true),
      Flag("DEBUG", UMODE_DEBUG, true) ]
  }

  const ALL_NAME := "ALL"
  const NICKCHANGES := "NICKCHANGES"

  // -------- the modes of the table

  predicate IsBit(m: bv32) {
    || m == 0x1 || m == 0x2 || m == 0x4 || m == 0x8 || m == 0x10 || m == 0x20 || m == 0x40 || m == 0x80
    || m == 0x100 || m == 0x200 || m == 0x400 || m == 0x800 || m == 0x1000 || m == 0x2000 || m == 0x8000 || m == 0x10000
  }

  // -------- the table is fit for its use

  // What tells the names apart: their length and their first two letters.
  function Code(s: string): int {
    if |s| < 2 then |s| else |s| * 0x1_0000 + (ToUpper(s[0]) as int) * 0x100 + (ToUpper(s[1]) as int)
  }

  lemma SameCode(s: string, t: string)
    requires Same(s, t)
    ensures Code(s) == Code(t)
  {}

  // The codes of the rows, of ALL and of NICKCHANGES.
  function RowCodes(): seq<int> {
    [ 0x84f57, 0x85357, 0xc5354, 0x64f4b, 0x6534b, 0x8534e, 0xb434c,
      0xe434c, 0x95448, 0xc4950, 0x84c57, 0x8434f, 0x65351, 0x44655,
      0x9494e, 0x4424f, 0x84341, 0x6554e, 0x54445 ]
  }

  lemma RowHasItsCode(i: nat)
    requires i < |FlagTable()|
    ensures Code(FlagTable()[i].name) == RowCodes()[i]
  {}

  lemma CodesDiffer(i: nat, j: nat)
    requires i < j < |RowCodes()|
    ensures RowCodes()[i] != RowCodes()[j]
  {}

  predicate IsAlpha(c: char) { 'a' <= c <= 'z' || 'A' <= c <= 'Z' }

  predicate IsFlagName(s: string) { IsWord(s) && IsAlpha(s[0]) && |s| <= 14 }

  lemma RowHasOneBit(i: nat)
    requires i < |FlagTable()|
    ensures IsBit(FlagTable()[i].mode)
  {}

  lemma IsFlagNameWhen(s: string)
    requires 0 < |s| <= 14 && forall k :: 0 <= k < |s| ==> 'A' <= s[k] <= 'Z'
    ensures IsFlagName(s)
  {}

  lemma FirstNames()
    ensures IsFlagName("OWALLOPS") && IsFlagName("SWALLOPS") && IsFlagName("STATSNOTICES") && IsFlagName("OKILLS")
        && IsFlagName("SKILLS")
  {
    hide IsFlagName;
    IsFlagNameWhen("OWALLOPS");
    IsFlagNameWhen("SWALLOPS");
    IsFlagNameWhen("STATSNOTICES");
    IsFlagNameWhen("OKILLS");
    IsFlagNameWhen("SKILLS");
  }

  lemma SecondNames()
    ensures IsFlagName("SNOTICES") && IsFlagName("CLICONNECTS") && IsFlagName("CLIDISCONNECTS")
        && IsFlagName("THROTTLES") && IsFlagName("IPMISMATCHES")
  {
    hide IsFlagName;
    IsFlagNameWhen("SNOTICES");
    IsFlagNameWhen("CLICONNECTS");
    IsFlagNameWhen("CLIDISCONNECTS");
    IsFlagNameWhen("THROTTLES");
    IsFlagNameWhen("IPMISMATCHES");
  }

  lemma ThirdNames()
    ensures IsFlagName("LWALLOPS") && IsFlagName("CONNECTS") && IsFlagName("SQUITS") && IsFlagName("FULL")
        && IsFlagName("INVISIBLE")
  {
    hide IsFlagName;
    IsFlagNameWhen("LWALLOPS");
    IsFlagNameWhen("CONNECTS");
    IsFlagNameWhen("SQUITS");
    IsFlagNameWhen("FULL");
    IsFlagNameWhen("INVISIBLE");
  }

  lemma LastNames()
    ensures IsFlagName("BOTS") && IsFlagName("CALLERID") && IsFlagName("UNAUTH") && IsFlagName("DEBUG")
  {
    hide IsFlagName;
    IsFlagNameWhen("BOTS");
    IsFlagNameWhen("CALLERID");
    IsFlagNameWhen("UNAUTH");
    IsFlagNameWhen("DEBUG");
  }

  lemma RowHasAName(i: nat)
    requires i < |FlagTable()|
    ensures IsFlagName(FlagTable()[i].name)
  {
    hide IsFlagName;
    FirstNames();
    SecondNames();
    ThirdNames();
    LastNames();
  }

  lemma NamesDiffer(i: nat, j: nat)
    requires i < |FlagTable()| && j < |FlagTable()| && i != j
    ensures !Same(FlagTable()[i].name, FlagTable()[j].name)
  {
    hide FlagTable, RowCodes, Code, Same;
    RowHasItsCode(i);
    RowHasItsCode(j);
    TableLength();
    CodesDiffer(if i < j then i else j, if i < j then j else i);
    if Same(FlagTable()[i].name, FlagTable()[j].name) {
      SameCode(FlagTable()[i].name, FlagTable()[j].name);
    }
  }

  lemma TableLength()
    ensures |FlagTable()| == |RowCodes()| == 19
  {}

  // No row is called ALL or NICKCHANGES.
  lemma NamesAreNotSpecial(i: nat)
    requires i < |FlagTable()|
    ensures !Same(FlagTable()[i].name, ALL_NAME) && !Same(FlagTable()[i].name, NICKCHANGES)
    ensures !Same(NICKCHANGES, ALL_NAME) && !Same(NICKCHANGES, FlagTable()[i].name)
  {
    hide FlagTable, RowCodes, Code, Same;
    RowHasItsCode(i);
    TableLength();
    SpecialCodes(i);
    var name := FlagTable()[i].name;
    if Same(name, ALL_NAME) { SameCode(name, ALL_NAME); }
    if Same(name, NICKCHANGES) { SameCode(name, NICKCHANGES); }
    if Same(NICKCHANGES, name) { SameCode(NICKCHANGES, name); }
    if Same(NICKCHANGES, ALL_NAME) { SameCode(NICKCHANGES, ALL_NAME); }
  }

  lemma SpecialCodes(i: nat)
    requires i < |RowCodes()|
    ensures Code(ALL_NAME) != RowCodes()[i] && RowCodes()[i] != Code(NICKCHANGES) && Code(NICKCHANGES) != Code(ALL_NAME)
  {}

  // -------- what a FLAGS command does

  // The bits of the rows before n that have the name, and that opers, or all, may use.
  function RowBits(name: string, oper: bool, n: nat): bv32
    requires n <= |FlagTable()|
  {
    if n == 0 then 0
    else var row := FlagTable()[n - 1];
      Union(RowBits(name, oper, n - 1), if (oper || !row.oper) && Same(name, row.name) then row.mode else 0)
  }

  // Who gives the command: an oper or not, and with the privilege to see nick changes or not.
  datatype Who = Who(oper: bool, operN: bool)

  function BitsOf(name: string, who: Who): bv32 {
    if who.oper && Same(name, NICKCHANGES) then if who.operN then UMODE_NCHANGE else 0
    else RowBits(name, who.oper, |FlagTable()|)
  }

  function AllBits(oper: bool): bv32 {
    if oper
    then UMODE_WALLOP | UMODE_SKILL | UMODE_SERVNOTICE | UMODE_CCONN | UMODE_REJ | UMODE_FULL | UMODE_SPY | UMODE_DEBUG
         | UMODE_OPERWALL | UMODE_BOTS | UMODE_EXTERNAL | UMODE_UNAUTH | UMODE_LOCOPS
    else UMODE_WALLOP | UMODE_SKILL | UMODE_SERVNOTICE
  }

  function SetBits(u: bv32, add: bool, bits: bv32): bv32 { if add then Union(u, bits) else Without(u, bits) }

  predicate IsAdd(flag: string) { flag == "" || IsAlpha(flag[0]) || flag[0] != '-' }

  // The flag without its sign; any first character that is no letter passes for one.
  function Unsigned(flag: string): string { if flag == "" || IsAlpha(flag[0]) then flag else flag[1..] }

  // ALL ends the command.
  function Apply(u: bv32, flags: seq<string>, who: Who): bv32
    decreases |flags|
  {
    if flags == [] then u
    else var add, name := IsAdd(flags[0]), Unsigned(flags[0]);
      if Same(name, ALL_NAME) then SetBits(u, add, AllBits(who.oper))
      else Apply(SetBits(u, add, BitsOf(name, who)), flags[1..], who)
  }

  // -------- and what it prints

  function Listed(names: seq<string>): string {
    if names == [] then "" else Listed(names[..|names| - 1]) + (" " + names[|names| - 1])
  }

  // The names of the rows from k on whose mode is held, or is not; the oper rows only if asked for.
  function RowNames(u: bv32, k: nat, held: bool, operRows: bool): seq<string>
    requires k <= |FlagTable()|
    decreases |FlagTable()| - k
  {
    if k == |FlagTable()| then []
    else var row := FlagTable()[k];
      (if Has(u, row.mode) == held && (operRows || !row.oper) then [row.name] else [])
          + RowNames(u, k + 1, held, operRows)
  }

  function SetNames(u: bv32): seq<string> {
    RowNames(u, 0, true, true) + if Has(u, UMODE_NCHANGE) then [NICKCHANGES] else []
  }

  function UnsetNames(u: bv32, operN: bool): seq<string> {
    RowNames(u, 0, false, Has(u, UMODE_OPER))
    + if Has(u, UMODE_OPER) && operN && !Has(u, UMODE_NCHANGE) then [NICKCHANGES] else []
  }

  // -------- names read back

  lemma {:induction false} ListedReadsBack(names: seq<string>, rest: string)
    requires AreWords(names) && (rest == "" || rest[0] == ' ')
    ensures Words(Listed(names) + rest) == names + Words(rest)
    decreases |names|
  {
    if names == [] {
      assert Listed(names) + rest == rest;
    } else {
      var front, last := names[..|names| - 1], names[|names| - 1];
      assert names == front + [last];
      assert last in names;
      assert forall n :: n in front ==> n in names;
      hide Words, Listed;
      ListedReadsBack(front, " " + last + rest);
      WordAhead(last, rest);
      BlankAhead(last + rest);
      ListedAppend(front, last);
      Regroup(Listed(front), " " + last, rest);
      Regroup(" ", last, rest);
      assert (front + [last]) + Words(rest) == front + ([last] + Words(rest));
    }
  }

  lemma ListedAppend(names: seq<string>, name: string)
    ensures Listed(names + [name]) == Listed(names) + (" " + name)
  {
    assert (names + [name])[..|names|] == names;
  }

  // A blank in front of each name is a blank in front of the list.
  lemma {:induction false} ListedIsSpaced(names: seq<string>)
    requires names != []
    ensures Listed(names) == " " + Spaced(names)
    decreases |names|
  {
    var front, last := names[..|names| - 1], names[|names| - 1];
    if front == [] {
      assert names == [last] && last + "" == last;
    } else {
      ListedIsSpaced(front);
      assert names == front + [last];
      SpacedAppend(front, last);
    }
  }

  lemma {:induction false} SpacedAppend(names: seq<string>, last: string)
    requires names != []
    ensures Spaced(names + [last]) == Spaced(names) + (" " + last)
  {
    assert (names + [last])[1..] == names[1..] + [last];
    if |names| > 1 {
      SpacedAppend(names[1..], last);
      var s := Spaced(names[1..]);
      assert (names[0] + (" " + s)) + (" " + last) == names[0] + (" " + (s + (" " + last)));
    } else {
      assert names[0] + "" == names[0] && last + "" == last;
      assert [last][1..] == [] && names[1..] + [last] == [last];
    }
  }

  // -------- printing and parsing undo each other

  // The bits a client's FLAGS commands can reach.
  function RowsBits(oper: bool, k: nat): bv32
    requires k <= |FlagTable()|
    decreases |FlagTable()| - k
  {
    if k == |FlagTable()| then 0
    else Union(if oper || !FlagTable()[k].oper then FlagTable()[k].mode else 0, RowsBits(oper, k + 1))
  }

  function KnownBits(who: Who): bv32 {
    Union(RowsBits(who.oper, 0), if who.oper && who.operN then UMODE_NCHANGE else 0)
  }

  // Of `bits`, those u holds, or those it does not.
  function Part(u: bv32, held: bool, bits: bv32): bv32 { if held then Common(u, bits) else Without(bits, u) }

  lemma PartOfBit(u: bv32, held: bool, m: bv32)
    requires IsBit(m)
    ensures Part(u, held, m) == if Has(u, m) == held then m else 0
  {}

  lemma PartOfNothing(u: bv32, v: bv32, held: bool)
    ensures Part(u, held, 0) == 0 && SetBits(v, held, 0) == v
  {}

  lemma AddBoth(v: bv32, u: bv32, m: bv32, b: bv32)
    ensures Union(Union(v, Common(u, m)), Common(u, b)) == Union(v, Common(u, Union(m, b)))
  {}

  lemma RemoveBoth(v: bv32, u: bv32, m: bv32, b: bv32)
    ensures Without(Without(v, Without(m, u)), Without(b, u)) == Without(v, Without(Union(m, b), u))
  {}

  lemma SetBothParts(v: bv32, u: bv32, held: bool, m: bv32, b: bv32)
    ensures SetBits(SetBits(v, held, Part(u, held, m)), held, Part(u, held, b)) == SetBits(v, held,
        Part(u, held, Union(m, b)))
  {
    hide Union, Common, Without;
    AddBoth(v, u, m, b);
    RemoveBoth(v, u, m, b);
  }

  lemma {:induction false} RowBitsOfRow(k: nat, oper: bool, n: nat)
    requires k < |FlagTable()| && n <= |FlagTable()|
    ensures RowBits(FlagTable()[k].name, oper, n)
            == if k < n && (oper || !FlagTable()[k].oper) then FlagTable()[k].mode else 0
  {
    hide FlagTable, Same, Union;
    if n > 0 {
      RowBitsOfRow(k, oper, n - 1);
      UnionWithNothing(FlagTable()[k].mode);
      UnionWithNothing(0);
      if k == n - 1 {
        SameAsItself(FlagTable()[k].name);
      } else {
        NamesDiffer(k, n - 1);
      }
    }
  }

  lemma UnionWithNothing(m: bv32)
    ensures Union(m, 0) == m == Union(0, m)
  {}

  lemma SameAsItself(s: string)
    ensures Same(s, s)
  {}

  lemma {:induction false} NoRowIsNickchanges(oper: bool, n: nat)
    requires n <= |FlagTable()|
    ensures RowBits(NICKCHANGES, oper, n) == 0
  {
    hide FlagTable, Same, Union;
    if n > 0 {
      NoRowIsNickchanges(oper, n - 1);
      NamesAreNotSpecial(n - 1);
      UnionWithNothing(0);
    }
  }

  // The flag that adds the name, or takes it away.
  function Flagged(name: string, add: bool): string { if add then name else "-" + name }

  function AllFlagged(names: seq<string>, add: bool): seq<string> {
    if names == [] then [] else [Flagged(names[0], add)] + AllFlagged(names[1..], add)
  }

  lemma FlaggedSplits(name: string, add: bool)
    requires IsFlagName(name)
    ensures IsAdd(Flagged(name, add)) == add && Unsigned(Flagged(name, add)) == name
  {
    assert ("-" + name)[1..] == name;
  }

  lemma ApplyRow(v: bv32, k: nat, add: bool, who: Who, rest: seq<string>)
    requires k < |FlagTable()|
    ensures var row := FlagTable()[k];
            Apply(v, [Flagged(row.name, add)] + rest, who)
            == Apply(SetBits(v, add, if who.oper || !row.oper then row.mode else 0), rest, who)
  {
    var name := FlagTable()[k].name;
    hide FlagTable, Same, SetBits, RowBits, IsAdd, Unsigned, Flagged, AllBits, IsFlagName;
    RowHasAName(k);
    FlaggedSplits(name, add);
    NamesAreNotSpecial(k);
    RowBitsOfRow(k, who.oper, |FlagTable()|);
    var flags := [Flagged(name, add)] + rest;
    assert flags[1..] == rest;
  }

  lemma FlaggedRows(u: bv32, k: nat, held: bool, operRows: bool)
    requires k < |FlagTable()|
    ensures var row := FlagTable()[k];
            AllFlagged(RowNames(u, k, held, operRows), held)
            == (if Has(u, row.mode) == held && (operRows || !row.oper) then [Flagged(row.name, held)] else [])
               + AllFlagged(RowNames(u, k + 1, held, operRows), held)
  {
    hide FlagTable, Has, Flagged;
    var row, later := FlagTable()[k], RowNames(u, k + 1, held, operRows);
    if Has(u, row.mode) == held && (operRows || !row.oper) {
      assert ([row.name] + later)[1..] == later;
    } else {
      assert [] + later == later;
    }
  }

  // Giving the names of the rows from k on sets, or clears, exactly the bits they were printed for.
  lemma {:induction false} ApplyRows(v: bv32, u: bv32, k: nat, held: bool, operRows: bool, who: Who, rest: seq<string>)
    requires k <= |FlagTable()| && (who.oper ==> operRows)
    ensures Apply(v, AllFlagged(RowNames(u, k, held, operRows), held) + rest, who)
            == Apply(SetBits(v, held, Part(u, held, RowsBits(who.oper, k))), rest, who)
    decreases |FlagTable()| - k
  {
    hide FlagTable, Apply, SetBits, Part, Union, Has, Flagged, IsBit;
    PartOfNothing(u, v, held);
    if k == |FlagTable()| {
      assert [] + rest == rest;
    } else {
      var row := FlagTable()[k];
      var later := AllFlagged(RowNames(u, k + 1, held, operRows), held);
      var mine := if who.oper || !row.oper then row.mode else 0;
      RowHasOneBit(k);
      PartOfBit(u, held, row.mode);
      SetBothParts(v, u, held, mine, RowsBits(who.oper, k + 1));
      FlaggedRows(u, k, held, operRows);
      hide RowNames, AllFlagged;
      ApplyRows(SetBits(v, held, Part(u, held, mine)), u, k + 1, held, operRows, who, rest);
      if Has(u, row.mode) == held && (operRows || !row.oper) {
        Regroup([Flagged(row.name, held)], later, rest);
        ApplyRow(v, k, held, who, later + rest);
      } else {
        assert [] + later == later;
      }
    }
  }

  ghost predicate AreFlagNames(names: seq<string>) { forall n :: n in names ==> IsFlagName(n) }

  lemma {:induction false} RowNamesAreNames(u: bv32, k: nat, held: bool, operRows: bool)
    requires k <= |FlagTable()|
    ensures AreFlagNames(RowNames(u, k, held, operRows))
    decreases |FlagTable()| - k
  {
    hide FlagTable, IsFlagName, Has;
    if k < |FlagTable()| {
      RowHasAName(k);
      RowNamesAreNames(u, k + 1, held, operRows);
    }
  }

  lemma {:induction false} FlaggedReadBack(names: seq<string>, add: bool)
    requires AreFlagNames(names)
    ensures Words(Listed(AllFlagged(names, add))) == AllFlagged(names, add)
  {
    FlaggedAreWords(names, add);
    hide Words, Listed, AllFlagged, IsFlagName;
    var flags := AllFlagged(names, add);
    ListedReadsBack(flags, "");
    NoWords();
    assert Listed(flags) + "" == Listed(flags) && flags + [] == flags;
  }

  lemma NoWords()
    ensures Words("") == []
  {}

  lemma {:induction false} FlaggedAreWords(names: seq<string>, add: bool)
    requires AreFlagNames(names)
    ensures AreWords(AllFlagged(names, add))
  {
    if names != [] {
      assert names[0] in names;
      assert forall n :: n in names[1..] ==> n in names;
      FlaggedAreWords(names[1..], add);
    }
  }

  lemma {:induction false} AllFlaggedSum(a: seq<string>, b: seq<string>, add: bool)
    ensures AllFlagged(a + b, add) == AllFlagged(a, add) + AllFlagged(b, add)
  {
    hide Flagged;
    if a == [] {
      assert a + b == b;
    } else {
      assert (a + b)[1..] == a[1..] + b;
      AllFlaggedSum(a[1..], b, add);
    }
  }

  lemma {:induction false} FlaggedToAdd(names: seq<string>)
    ensures AllFlagged(names, true) == names
  {
    if names != [] {
      FlaggedToAdd(names[1..]);
    }
  }

  lemma ApplyNickchanges(v: bv32, add: bool, who: Who)
    ensures Apply(v, [Flagged(NICKCHANGES, add)], who) == SetBits(v, add, if who.oper && who.operN then UMODE_NCHANGE
        else 0)
  {
    hide FlagTable, Same, SetBits, RowBits, AllBits, Flagged, IsAdd, Unsigned;
    NickchangesIsAName();
    FlaggedSplits(NICKCHANGES, add);
    TableLength();
    NamesAreNotSpecial(0);
    NoRowIsNickchanges(who.oper, |FlagTable()|);
    SameAsItself(NICKCHANGES);
    assert [Flagged(NICKCHANGES, add)][1..] == [];
  }

  lemma NickchangesIsAName()
    ensures IsFlagName(NICKCHANGES) && IsBit(UMODE_NCHANGE)
  {
    IsFlagNameWhen(NICKCHANGES);
  }

  lemma ApplyNothing(v: bv32, who: Who)
    ensures Apply(v, [], who) == v
  {}

  // The names printed for u, given with or without a minus, set or clear the part of the reachable
  // bits they were printed for.
  lemma ApplyNames(v: bv32, u: bv32, held: bool, operRows: bool, who: Who, nick: bool)
    requires who.oper ==> operRows
    requires nick ==> Has(u, UMODE_NCHANGE) == held
    requires who.oper && who.operN && Has(u, UMODE_NCHANGE) == held ==> nick
    ensures var names := RowNames(u, 0, held, operRows) + if nick then [NICKCHANGES] else [];
            Apply(v, Words(Listed(AllFlagged(names, held))), who) == SetBits(v, held, Part(u, held, KnownBits(who)))
  {
    hide *;
    var rows, last := RowNames(u, 0, held, operRows), if nick then [NICKCHANGES] else [];
    var nchange: bv32 := if who.oper && who.operN then UMODE_NCHANGE else 0;
    RowNamesAreNames(u, 0, held, operRows);
    NickchangesIsAName();
    NamesSum(rows, nick);
    FlaggedReadBack(rows + last, held);
    AllFlaggedSum(rows, last, held);
    ApplyRows(v, u, 0, held, operRows, who, AllFlagged(last, held));
    var w := SetBits(v, held, Part(u, held, RowsBits(who.oper, 0)));
    PartOfBit(u, held, UMODE_NCHANGE);
    PartOfNothing(u, w, held);
    SetBothParts(v, u, held, RowsBits(who.oper, 0), nchange);
    KnownIs(who);
    FlaggedLast(nick, held);
    ApplyNickchanges(w, held, who);
    ApplyNothing(w, who);
  }

  lemma KnownIs(who: Who)
    ensures KnownBits(who) == Union(RowsBits(who.oper, 0), if who.oper && who.operN then UMODE_NCHANGE else 0)
  {}

  lemma NamesSum(rows: seq<string>, nick: bool)
    requires AreFlagNames(rows) && IsFlagName(NICKCHANGES)
    ensures AreFlagNames(rows + if nick then [NICKCHANGES] else [])
  {}

  lemma FlaggedLast(nick: bool, held: bool)
    ensures AllFlagged(if nick then [NICKCHANGES] else [], held) == if nick then [Flagged(NICKCHANGES, held)] else []
  {}

  // What FLAGS prints as set, given back to it, sets exactly the reachable bits of u.
  lemma SetFlagsRoundTrip(v: bv32, u: bv32, who: Who)
    ensures Apply(v, Words(Listed(SetNames(u))), who) == Union(v, Common(u, KnownBits(who)))
  {
    hide RowNames, Words, Listed, Apply, KnownBits, Union, Common, Has;
    FlaggedToAdd(SetNames(u));
    ApplyNames(v, u, true, true, who, Has(u, UMODE_NCHANGE));
  }

  // And its missing flags, each with a minus, clear exactly the reachable bits u does not have.
  lemma UnsetFlagsRoundTrip(v: bv32, u: bv32, who: Who)
    requires Has(u, UMODE_OPER) == who.oper
    ensures Apply(v, Words(Listed(AllFlagged(UnsetNames(u, who.operN), false))), who) == Without(v,
        Without(KnownBits(who), u))
  {
    hide RowNames, Words, Listed, Apply, KnownBits, Without, Has;
    ApplyNames(v, u, false, who.oper, who, who.oper && who.operN && !Has(u, UMODE_NCHANGE));
  }

  lemma Distributes(a: bv32, b: bv32, c: bv32)
    ensures (a | b) & c == (a & c) | (b & c)
  {}

  lemma WithoutUnion(a: bv32, b: bv32, c: bv32)
    ensures Without(Union(a, b), c) == Union(Without(a, c), Without(b, c))
  {
    calc {
      Without(Union(a, b), c);
      (a | b) & !c;
      { Distributes(a, b, !c); }
      (a & !c) | (b & !c);
      Union(Without(a, c), Without(b, c));
    }
  }

  lemma WithoutMissing(u: bv32, k: bv32)
    ensures Without(Common(u, k), Without(k, u)) == Common(u, k)
  {}

  lemma WithoutThenCommon(v: bv32, u: bv32, k: bv32)
    ensures Union(Without(v, Without(k, u)), Common(u, k)) == Union(Without(v, k), Common(u, k))
  {}

  lemma BothPartsAgree(v: bv32, u: bv32, k: bv32)
    ensures Without(Union(v, Common(u, k)), Without(k, u)) == Union(Without(v, k), Common(u, k))
  {
    hide *;
    WithoutUnion(v, Common(u, k), Without(k, u));
    WithoutMissing(u, k);
    WithoutThenCommon(v, u, k);
  }

  // Together they bring back what u had among the reachable bits, and leave all others alone.
  lemma FlagsRestores(v: bv32, u: bv32, who: Who)
    requires Has(u, UMODE_OPER) == who.oper
    ensures var w := Apply(v, Words(Listed(SetNames(u))), who);
            Apply(w, Words(Listed(AllFlagged(UnsetNames(u, who.operN), false))), who)
            == Union(Without(v, KnownBits(who)), Common(u, KnownBits(who)))
  {
    hide *;
    SetFlagsRoundTrip(v, u, who);
    UnsetFlagsRoundTrip(Union(v, Common(u, KnownBits(who))), u, who);
    BothPartsAgree(v, u, KnownBits(who));
  }

  // -------- the static buffers are large enough

  lemma {:induction false} ListedLength(names: seq<string>)
    requires AreFlagNames(names)
    ensures |Listed(names)| <= 15 * |names|
    decreases |names|
  {
    if names != [] {
      assert names[|names| - 1] in names;
      ListedLength(names[..|names| - 1]);
    }
  }

  lemma {:induction false} RowNamesCount(u: bv32, k: nat, held: bool, operRows: bool)
    requires k <= |FlagTable()|
    ensures |RowNames(u, k, held, operRows)| <= |FlagTable()| - k
    decreases |FlagTable()| - k
  {
    hide FlagTable, Has;
    if k < |FlagTable()| {
      RowNamesCount(u, k + 1, held, operRows);
    }
  }

  // The longest list is well within the IRCD_BUFSIZE + 1 characters of either static buffer.
  lemma FlagStringsFit(u: bv32, operN: bool)
    ensures |Listed(SetNames(u))| <= IRCD_BUFSIZE && |Listed(UnsetNames(u, operN))| <= IRCD_BUFSIZE
  {
    hide RowNames, Listed, FlagTable, Has, IsFlagName;
    TableLength();
    NickchangesIsAName();
    RowNamesAreNames(u, 0, true, true);
    RowNamesCount(u, 0, true, true);
    RowNamesAreNames(u, 0, false, Has(u, UMODE_OPER));
    RowNamesCount(u, 0, false, Has(u, UMODE_OPER));
    ListedLength(SetNames(u));
    ListedLength(UnsetNames(u, operN));
  }

  // -------- what FLAGS cannot do

  predicate Within(a: bv32, b: bv32) { a & b == a }

  lemma WithinUnion(a: bv32, b: bv32, c: bv32)
    ensures Within(a, c) && Within(b, c) ==> Within(Union(a, b), c)
    ensures Within(a, b) || Within(a, c) ==> Within(a, Union(b, c))
    ensures Within(0, a)
  {}

  lemma SetWithin(v: bv32, add: bool, bits: bv32, k: bv32)
    requires Within(bits, k)
    ensures Without(SetBits(v, add, bits), k) == Without(v, k)
  {
    UnionWithin(v, bits, k);
    WithoutWithin(v, bits, k);
    hide Union, Without, Within;
  }

  lemma UnionWithin(v: bv32, bits: bv32, k: bv32)
    requires Within(bits, k)
    ensures Without(Union(v, bits), k) == Without(v, k)
  {}

  lemma WithoutWithin(v: bv32, bits: bv32, k: bv32)
    requires Within(bits, k)
    ensures Without(Without(v, bits), k) == Without(v, k)
  {}

  lemma {:induction false} RowWithin(i: nat, oper: bool, k: nat)
    requires k <= i < |FlagTable()| && (oper || !FlagTable()[i].oper)
    ensures Within(FlagTable()[i].mode, RowsBits(oper, k))
    decreases i - k
  {
    hide FlagTable, Within, Union;
    var m := FlagTable()[i].mode;
    var first := if oper || !FlagTable()[k].oper then FlagTable()[k].mode else 0;
    WithinUnion(m, first, RowsBits(oper, k + 1));
    if i == k {
      WithinItself(m);
    } else {
      RowWithin(i, oper, k + 1);
    }
  }

  lemma WithinItself(m: bv32)
    ensures Within(m, m)
  {}

  lemma {:induction false} RowBitsWithin(name: string, oper: bool, n: nat)
    requires n <= |FlagTable()|
    ensures Within(RowBits(name, oper, n), RowsBits(oper, 0))
  {
    hide FlagTable, Within, Union, Same, RowsBits;
    var k := RowsBits(oper, 0);
    if n == 0 {
      WithinUnion(k, 0, 0);
    } else {
      RowBitsWithin(name, oper, n - 1);
      WithinUnion(RowBits(name, oper, n - 1), 0, k);
      var m := FlagTable()[n - 1].mode;
      if oper || !FlagTable()[n - 1].oper {
        RowWithin(n - 1, oper, 0);
        WithinUnion(RowBits(name, oper, n - 1), m, k);
      }
      WithinUnion(k, 0, 0);
    }
  }

  lemma AllIsKnown(oper: bool)
    ensures Within(AllBits(oper), RowsBits(oper, 0))
  {
    hide RowsBits;
    ReachedRows(oper);
    AllFromRows(RowsBits(oper, 0), oper);
  }

  // The rows that hold the bits of ALL.
  lemma ReachedRows(oper: bool)
    ensures var k := RowsBits(oper, 0);
            && Within(UMODE_WALLOP, k) && Within(UMODE_SKILL, k) && Within(UMODE_SERVNOTICE, k)
            && (oper ==>
                  Within(UMODE_OPERWALL, k) && Within(UMODE_SPY, k) && Within(UMODE_CCONN, k) && Within(UMODE_REJ, k)
                  && Within(UMODE_UNAUTH, k) && Within(UMODE_LOCOPS, k) && Within(UMODE_EXTERNAL, k)
                  && Within(UMODE_FULL, k) && Within(UMODE_BOTS, k) && Within(UMODE_DEBUG, k))
  {
    hide Within, RowsBits;
    RowWithin(1, oper, 0);
    RowWithin(3, oper, 0);
    RowWithin(5, oper, 0);
    if oper {
      RowWithin(0, oper, 0);
      RowWithin(2, oper, 0);
      RowWithin(6, oper, 0);
      RowWithin(8, oper, 0);
      RowWithin(9, oper, 0);
      RowWithin(10, oper, 0);
      RowWithin(11, oper, 0);
      RowWithin(13, oper, 0);
      RowWithin(15, oper, 0);
      RowWithin(18, oper, 0);
    }
  }

  lemma AllFromRows(k: bv32, oper: bool)
    requires Within(UMODE_WALLOP, k) && Within(UMODE_SKILL, k) && Within(UMODE_SERVNOTICE, k)
    requires oper ==>
               Within(UMODE_OPERWALL, k) && Within(UMODE_SPY, k) && Within(UMODE_CCONN, k) && Within(UMODE_REJ, k)
               && Within(UMODE_UNAUTH, k) && Within(UMODE_LOCOPS, k) && Within(UMODE_EXTERNAL, k)
               && Within(UMODE_FULL, k) && Within(UMODE_BOTS, k) && Within(UMODE_DEBUG, k)
    ensures Within(AllBits(oper), k)
  {}

  lemma KnownHoldsRows(bits: bv32, who: Who)
    requires Within(bits, RowsBits(who.oper, 0))
    ensures Within(bits, KnownBits(who))
  {
    hide Within, Union, RowsBits;
    WithinUnion(bits, RowsBits(who.oper, 0), if who.oper && who.operN then UMODE_NCHANGE else 0);
  }

  lemma BitsAreKnown(name: string, who: Who)
    ensures Within(BitsOf(name, who), KnownBits(who)) && Within(AllBits(who.oper), KnownBits(who))
  {
    hide Within, Union, RowsBits, RowBits, FlagTable, Same, AllBits;
    AllIsKnown(who.oper);
    KnownHoldsRows(AllBits(who.oper), who);
    RowBitsWithin(name, who.oper, |FlagTable()|);
    KnownHoldsRows(RowBits(name, who.oper, |FlagTable()|), who);
    var nchange: bv32 := if who.oper && who.operN then UMODE_NCHANGE else 0;
    WithinItself(nchange);
    WithinUnion(nchange, RowsBits(who.oper, 0), nchange);
    WithinUnion(KnownBits(who), 0, 0);
  }

  // No FLAGS command changes a bit outside the reachable ones, whatever it is given.
  lemma {:induction false} OthersAreLeftAlone(v: bv32, flags: seq<string>, who: Who)
    ensures Without(Apply(v, flags, who), KnownBits(who)) == Without(v, KnownBits(who))
    decreases |flags|
  {
    hide Without, Within, SetBits, BitsOf, KnownBits, AllBits, Same, IsAdd, Unsigned;
    if flags != [] {
      var add, name := IsAdd(flags[0]), Unsigned(flags[0]);
      BitsAreKnown(name, who);
      if Same(name, ALL_NAME) {
        SetWithin(v, add, AllBits(who.oper), KnownBits(who));
      } else {
        var w := SetBits(v, add, BitsOf(name, who));
        SetWithin(v, add, BitsOf(name, who), KnownBits(who));
        OthersAreLeftAlone(w, flags[1..], who);
      }
    }
  }

  const BEYOND_FLAGS: bv32 := UMODE_OPER | UMODE_ADMIN | UMODE_DEAF | UMODE_SOFTCALLERID

  predicate Apart(a: bv32, b: bv32) { a & b == 0 }

  lemma UnionApart(a: bv32, b: bv32, bits: bv32)
    ensures Apart(a, bits) && Apart(b, bits) ==> Apart(Union(a, b), bits)
    ensures Apart(0, bits)
  {}

  lemma RowIsApart(k: nat)
    requires k < |FlagTable()|
    ensures Apart(FlagTable()[k].mode, BEYOND_FLAGS) && Apart(FlagTable()[k].mode, UMODE_NCHANGE)
  {}

  lemma {:induction false} RowsAreApart(oper: bool, k: nat)
    requires k <= |FlagTable()|
    ensures Apart(RowsBits(oper, k), BEYOND_FLAGS) && Apart(RowsBits(oper, k), UMODE_NCHANGE)
    decreases |FlagTable()| - k
  {
    hide FlagTable, Apart, Union;
    UnionApart(0, 0, BEYOND_FLAGS);
    UnionApart(0, 0, UMODE_NCHANGE);
    if k < |FlagTable()| {
      var m := if oper || !FlagTable()[k].oper then FlagTable()[k].mode else 0;
      RowIsApart(k);
      RowsAreApart(oper, k + 1);
      UnionApart(m, RowsBits(oper, k + 1), BEYOND_FLAGS);
      UnionApart(m, RowsBits(oper, k + 1), UMODE_NCHANGE);
    }
  }

  lemma NchangeIsApart()
    ensures Apart(UMODE_NCHANGE, BEYOND_FLAGS)
  {}

  lemma KnownIsApart(who: Who)
    ensures Apart(KnownBits(who), BEYOND_FLAGS)
    ensures !(who.oper && who.operN) ==> Apart(KnownBits(who), UMODE_NCHANGE)
  {
    hide RowsBits, Apart, Union;
    RowsAreApart(who.oper, 0);
    NchangeIsApart();
    var nchange: bv32 := if who.oper && who.operN then UMODE_NCHANGE else 0;
    UnionApart(RowsBits(who.oper, 0), nchange, BEYOND_FLAGS);
    UnionApart(RowsBits(who.oper, 0), nchange, UMODE_NCHANGE);
  }

  lemma SameOutside(w: bv32, v: bv32, k: bv32, bits: bv32)
    requires Without(w, k) == Without(v, k) && Apart(k, bits)
    ensures Common(w, bits) == Common(v, bits)
  {}

  // In particular nobody becomes an oper or an admin by FLAGS, and who is not an oper, or has not the
  // privilege, does not get the nick change notices.
  lemma FlagsGiveNoPrivilege(v: bv32, flags: seq<string>, who: Who)
    ensures Common(Apply(v, flags, who), BEYOND_FLAGS) == Common(v, BEYOND_FLAGS)
    ensures !(who.oper && who.operN) ==> Common(Apply(v, flags, who), UMODE_NCHANGE) == Common(v, UMODE_NCHANGE)
  {
    hide *;
    OthersAreLeftAlone(v, flags, who);
    KnownIsApart(who);
    SameOutside(Apply(v, flags, who), v, KnownBits(who), BEYOND_FLAGS);
    if !(who.oper && who.operN) {
      SameOutside(Apply(v, flags, who), v, KnownBits(who), UMODE_NCHANGE);
    }
  }

  // What follows ALL is not read.
  lemma {:induction false} AllEndsTheCommand(v: bv32, before: seq<string>, last: string, after: seq<string>, who: Who)
    requires Same(Unsigned(last), ALL_NAME)
    ensures Apply(v, before + [last] + after, who) == Apply(v, before + [last], who)
    decreases |before|
  {
    hide SetBits, BitsOf, Same, AllBits, IsAdd, Unsigned;
    if before == [] {
      assert (before + [last] + after)[0] == last && (before + [last])[0] == last;
    } else {
      var flags := before + [last];
      assert (flags + after)[1..] == before[1..] + [last] + after && flags[1..] == before[1..] + [last];
      var add, name := IsAdd(before[0]), Unsigned(before[0]);
      assert (flags + after)[0] == flags[0] == before[0];
      if !Same(name, ALL_NAME) {
        AllEndsTheCommand(SetBits(v, add, BitsOf(name, who)), before[1..], last, after, who);
      }
    }
  }

  // -------- the handlers

  function AllWords(params: seq<string>): seq<string> {
    if params == [] then [] else Words(params[0]) + AllWords(params[1..])
  }

  lemma NextParam(params: seq<string>, i: nat)
    requires i < |params|
    ensures AllWords(params[i..]) == Words(params[i][0..]) + AllWords(params[i + 1..])
  {
    assert params[i..][1..] == params[i + 1..] && params[i][0..] == params[i];
  }

  lemma ApplyFirst(v: bv32, words: seq<string>, flag: string, later: seq<string>, rest: seq<string>, who: Who)
    requires words == [flag] + later
    ensures var name := Unsigned(flag);
            Apply(v, words + rest, who)
            == if Same(name, ALL_NAME) then SetBits(v, IsAdd(flag), AllBits(who.oper))
               else Apply(SetBits(v, IsAdd(flag), BitsOf(name, who)), later + rest, who)
  {
    assert (words + rest)[0] == flag && (words + rest)[1..] == later + rest;
    hide SetBits, BitsOf, Same, AllBits, IsAdd, Unsigned;
  }

  lemma NoMoreWords(v: bv32, rest: seq<string>, who: Who)
    ensures Apply(v, [] + rest, who) == Apply(v, rest, who)
  {
    assert [] + rest == rest;
  }

  class Client {
    var umodes: bv32

    // OPER_FLAG_N of the client's privileges
    const operN: bool

    constructor (umodes: bv32, operN: bool)
      ensures this.umodes == umodes && this.operN == operN
    {
      this.umodes, this.operN := umodes, operN;
    }

    // set_flags_to_string
    method SetFlagsToString() returns (s: string)
      ensures s == Listed(SetNames(umodes))
    {
      hide *;
      s := "";
      ghost var names: seq<string> := [];
      PrintStarts(umodes, true, true);
      for i := 0 to |FlagTable()|
        invariant s == Listed(names) && Printed(umodes, i, true, true, names)
      {
        PrintStep(umodes, i, true, true, names);
        if Has(umodes, FlagTable()[i].mode) {
          var name := FlagTable()[i].name;
          ListedAppend(names, name);
          s := s + (" " + name);
          names := names + [name];
        }
      }
      PrintEnds(umodes, true, true, names);
      SetNamesAre(umodes);
      if Has(umodes, UMODE_NCHANGE) {
        ListedAppend(names, NICKCHANGES);
        s := s + (" " + NICKCHANGES);
      } else {
        assert names + [] == names;
      }
    }

    // unset_flags_to_string
    method UnsetFlagsToString() returns (s: string)
      ensures s == Listed(UnsetNames(umodes, operN))
    {
      hide *;
      s := "";
      ghost var names: seq<string> := [];
      var isOper := Has(umodes, UMODE_OPER);
      PrintStarts(umodes, false, isOper);
      for i := 0 to |FlagTable()|
        invariant s == Listed(names) && Printed(umodes, i, false, isOper, names)
      {
        PrintStep(umodes, i, false, isOper, names);
        if !Has(umodes, FlagTable()[i].mode) {
          if !isOper && FlagTable()[i].oper {
            continue;
          }
          var name := FlagTable()[i].name;
          ListedAppend(names, name);
          s := s + (" " + name);
          names := names + [name];
        }
      }
      PrintEnds(umodes, false, isOper, names);
      UnsetNamesAre(umodes, operN);
      assert names + [] == names;
      if isOper && operN {
        if !Has(umodes, UMODE_NCHANGE) {
          ListedAppend(names, NICKCHANGES);
          s := s + (" " + NICKCHANGES);
        }
      }
    }

    // The loop over the table: every row with the name sets or clears its mode.
    method SetRows(name: string, add: bool, oper: bool)
      modifies this
      ensures umodes == SetBits(old(umodes), add, RowBits(name, oper, |FlagTable()|))
    {
      SetNothing(umodes, add);
      for j := 0 to |FlagTable()|
        invariant umodes == SetBits(old(umodes), add, RowBits(name, oper, j))
      {
        hide FlagTable, Union, Without, Same;
        var row := FlagTable()[j];
        SetTwice(old(umodes), add, RowBits(name, oper, j), row.mode);
        UnionWithNothing(RowBits(name, oper, j));
        if (oper || !row.oper) && Same(name, row.name) {
          if add {
            umodes := Union(umodes, row.mode);
          } else {
            umodes := Without(umodes, row.mode);
          }
        }
      }
    }

    // m_flags, the handler for clients that are no opers
    method MFlags(params: seq<string>) returns (current: string, missing: string)
      modifies this
      ensures umodes == Apply(old(umodes), AllWords(params), Who(false, operN))
      ensures current == Listed(SetNames(umodes)) && missing == Listed(UnsetNames(umodes, operN))
    {
      hide *;
      ghost var who := Who(false, operN);
      ghost var goal := Apply(umodes, AllWords(params), who);
      assert params[0..] == params;
      for i := 0 to |params|
        invariant goal == Apply(umodes, AllWords(params[i..]), who)
      {
        NextParam(params, i);
        ghost var rest := AllWords(params[i + 1..]);
        var found, from, to, next := StrToken(params[i], 0);
        ghost var words := Words(params[i][0..]);
        while found
          invariant 0 <= from <= to <= next <= |params[i]|
              && (found ==> words == [params[i][from..to]] + Words(params[i][next..]))
          invariant !found ==> words == []
          invariant goal == Apply(umodes, words + rest, who)
          decreases |params[i]| - next, found
        {
          var flag := params[i][from..to];
          var isAdd, name := IsAdd(flag), Unsigned(flag);
          ghost var later := Words(params[i][next..]);
          ApplyFirst(umodes, words, flag, later, rest, who);
          if Same(name, ALL_NAME) {
            umodes := SetBits(umodes, isAdd, AllBits(false));
            current := SetFlagsToString();
            missing := UnsetFlagsToString();
            return;
          }
          BitsOfName(umodes, name, isAdd, who);
          SetRows(name, isAdd, false);
          words := later;
          found, from, to, next := StrToken(params[i], next);
        }
        NoMoreWords(umodes, rest, who);
      }
      NoParams(umodes, params, who);
      current := SetFlagsToString();
      missing := UnsetFlagsToString();
    }

    // mo_flags
    method MoFlags(params: seq<string>) returns (current: string, missing: string)
      modifies this
      ensures umodes == Apply(old(umodes), AllWords(params), Who(true, operN))
      ensures current == Listed(SetNames(umodes)) && missing == Listed(UnsetNames(umodes, operN))
    {
      hide *;
      ghost var who := Who(true, operN);
      ghost var goal := Apply(umodes, AllWords(params), who);
      assert params[0..] == params;
      for i := 0 to |params|
        invariant goal == Apply(umodes, AllWords(params[i..]), who)
      {
        NextParam(params, i);
        ghost var rest := AllWords(params[i + 1..]);
        var found, from, to, next := StrToken(params[i], 0);
        ghost var words := Words(params[i][0..]);
        while found
          invariant 0 <= from <= to <= next <= |params[i]|
              && (found ==> words == [params[i][from..to]] + Words(params[i][next..]))
          invariant !found ==> words == []
          invariant goal == Apply(umodes, words + rest, who)
          decreases |params[i]| - next, found
        {
          var flag := params[i][from..to];
          var isAdd, name := IsAdd(flag), Unsigned(flag);
          ghost var later := Words(params[i][next..]);
          ApplyFirst(umodes, words, flag, later, rest, who);
          if Same(name, ALL_NAME) {
            umodes := SetBits(umodes, isAdd, AllBits(true));
            current := SetFlagsToString();
            missing := UnsetFlagsToString();
            return;
          }
          BitsOfName(umodes, name, isAdd, who);
          if Same(name, NICKCHANGES) {
            if operN {
              umodes := if isAdd then Union(umodes, UMODE_NCHANGE) else Without(umodes, UMODE_NCHANGE);
            }
          } else {
            SetRows(name, isAdd, true);
          }
          words := later;
          found, from, to, next := StrToken(params[i], next);
        }
        NoMoreWords(umodes, rest, who);
      }
      NoParams(umodes, params, who);
      current := SetFlagsToString();
      missing := UnsetFlagsToString();
    }
  }

  lemma NoParams(v: bv32, params: seq<string>, who: Who)
    ensures Apply(v, AllWords(params[|params|..]), who) == v
  {}

  lemma BitsOfName(v: bv32, name: string, add: bool, who: Who)
    ensures SetBits(v, add, BitsOf(name, who))
            == if who.oper && Same(name, NICKCHANGES)
               then if who.operN then if add then Union(v, UMODE_NCHANGE) else Without(v, UMODE_NCHANGE) else v
               else SetBits(v, add, RowBits(name, who.oper, |FlagTable()|))
  {
    hide Same, RowBits, FlagTable, Union, Without;
    UnionWithNothing(v);
    WithoutNothing(v);
  }

  lemma WithoutNothing(v: bv32)
    ensures Without(v, 0) == v
  {}

  // The names of the first k rows are printed, those of the others still to come.
  ghost predicate Printed(u: bv32, k: nat, held: bool, operRows: bool, names: seq<string>) {
    k <= |FlagTable()| && names + RowNames(u, k, held, operRows) == RowNames(u, 0, held, operRows)
  }

  lemma PrintStarts(u: bv32, held: bool, operRows: bool)
    ensures Printed(u, 0, held, operRows, []) && Listed([]) == ""
  {
    hide FlagTable, RowNames;
    assert [] + RowNames(u, 0, held, operRows) == RowNames(u, 0, held, operRows);
  }

  lemma PrintStep(u: bv32, k: nat, held: bool, operRows: bool, names: seq<string>)
    requires Printed(u, k, held, operRows, names) && k < |FlagTable()|
    ensures var row := FlagTable()[k];
            Printed(u, k + 1, held, operRows,
                    if Has(u, row.mode) == held && (operRows || !row.oper) then names + [row.name] else names)
  {
    hide FlagTable, Has;
    var later := RowNames(u, k + 1, held, operRows);
    Regroup(names, [FlagTable()[k].name], later);
    assert [] + later == later;
  }

  lemma PrintEnds(u: bv32, held: bool, operRows: bool, names: seq<string>)
    requires Printed(u, |FlagTable()|, held, operRows, names)
    ensures names == RowNames(u, 0, held, operRows)
  {
    hide FlagTable;
    assert names + [] == names;
  }

  lemma SetNamesAre(u: bv32)
    ensures SetNames(u) == RowNames(u, 0, true, true) + if Has(u, UMODE_NCHANGE) then [NICKCHANGES] else []
  {}

  lemma UnsetNamesAre(u: bv32, operN: bool)
    ensures UnsetNames(u, operN)
            == RowNames(u, 0, false, Has(u, UMODE_OPER))
               + if Has(u, UMODE_OPER) && operN && !Has(u, UMODE_NCHANGE) then [NICKCHANGES] else []
  {}

  lemma SetNothing(u: bv32, add: bool)
    ensures SetBits(u, add, 0) == u
  {}

  lemma AddTwice(u: bv32, a: bv32, b: bv32)
    ensures Union(Union(u, a), b) == Union(u, Union(a, b))
  {}

  lemma RemoveTwice(u: bv32, a: bv32, b: bv32)
    ensures Without(Without(u, a), b) == Without(u, Union(a, b))
  {}

  lemma SetTwice(u: bv32, add: bool, a: bv32, b: bv32)
    ensures SetBits(SetBits(u, add, a), add, b) == SetBits(u, add, Union(a, b))
  {
    hide Union, Without;
    AddTwice(u, a, b);
    RemoveTwice(u, a, b);
  }
}
