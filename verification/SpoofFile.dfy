/**
 The auth-block file of contrib/m_spoof.c: the block that a SPOOF command appends to it, with its
 flags written as a list of names.
 */
module SpoofFile {
  import opened IrcString
  import opened Options
  import opened Sequences

  // The CONF_FLAGS_* bits that SPOOF can set, in the order it writes them.
  datatype AuthFlag = NoTilde | NeedIdentd | ExemptKline | ExemptGline | NoLimit | CanFlood | NeedPassword

  function FlagAt(k: nat): AuthFlag
    requires k < 7
  {
    match k
    case 0 => NoTilde
    case 1 => NeedIdentd
    case 2 => ExemptKline
    case 3 => ExemptGline
    case 4 => NoLimit
    case 5 => CanFlood
    case 6 => NeedPassword
  }

  function Position(f: AuthFlag): (k: nat)
    ensures k < 7 && FlagAt(k) == f
  {
    match f
    case NoTilde => 0
    case NeedIdentd => 1
    case ExemptKline => 2
    case ExemptGline => 3
    case NoLimit => 4
    case CanFlood => 5
    case NeedPassword => 6
  }

  function FlagName(f: AuthFlag): string {
    match f
    case NoTilde => "no_tilde"
    case NeedIdentd => "need_ident"
    case ExemptKline => "kline_exempt"
    case ExemptGline => "gline_exempt"
    case NoLimit => "exceed_limit"
    case CanFlood => "can_flood"
    case NeedPassword => "need_password"
  }

  datatype Block = Block(user: string, host: string, spoof: Option<string>, password: Option<string>,
                         flags: set<AuthFlag>, classOpers: bool)

  // -------- what SPOOF writes

  // What follows a flag name.
  function After(isLast: bool): string { if isLast then ";\n" else ", " }

  function Join(names: seq<string>): string {
    if names == [] then "" else if |names| == 1 then names[0] else names[0] + After(false) + Join(names[1..])
  }

  // The names of the flags that are set, in writing order, from the k-th on.
  function FlagNames(k: nat, flags: set<AuthFlag>): seq<string>
    requires k <= 7
    decreases 7 - k
  {
    if k == 7 then [] else (if FlagAt(k) in flags then [FlagName(FlagAt(k))] else []) + FlagNames(k + 1, flags)
  }

  function UserLine(user: string, host: string): string { "\tuser = \"" + user + "@" + host + "\";\n" }

  function SpoofLine(spoof: string): string { "\tspoof = \"" + spoof + "\";\n" }

  function PasswordLine(password: string): string { "\tpassword = \"" + password + "\";\n" }

  function SpoofLines(b: Block): seq<string> {
    if b.spoof.Some? then [SpoofLine(b.spoof.value)] else []
  }

  function PasswordLines(b: Block): seq<string> {
    if b.password.Some? then [PasswordLine(b.password.value)] else []
  }

  function FlagsStart(): string { "\tflags = " }

  function FlagLines(flags: set<AuthFlag>): seq<string> {
    if flags != {} then [FlagsStart() + (Join(FlagNames(0, flags)) + After(true))] else []
  }

  function ClassLine(opers: bool): string {
    "\tclass = \"" + (if opers then "opers" else "users") + "\";\n"
  }

  function BlockLines(b: Block): seq<string> {
    ["auth {\n", UserLine(b.user, b.host)] + SpoofLines(b) + PasswordLines(b) + FlagLines(b.flags)
    + [ClassLine(b.classOpers), "};\n", "\n"]
  }

  function BlockText(b: Block): string { Flat(BlockLines(b)) }

  function FileText(blocks: seq<Block>): string {
    if blocks == [] then "" else BlockText(blocks[0]) + FileText(blocks[1..])
  }

  // try_flag
  method TryFlag(f: string, flags: set<AuthFlag>, flag: AuthFlag, name: string)
      returns (f': string, flags': set<AuthFlag>)
    ensures flags' == flags - {flag}
    ensures name == FlagName(flag) ==> f' == f + Piece(Position(flag), flags)
  {
    f', flags' := f, flags;
    if flag in flags {
      f' := f' + name;
      flags' := flags' - {flag};
      f' := f' + After(flags' == {});
    }
  }

  // What try_flag writes for the k-th flag, and what it and the calls after it write.
  function Piece(k: nat, flags: set<AuthFlag>): string
    requires k < 7
  {
    if FlagAt(k) in flags then FlagName(FlagAt(k)) + After(flags - {FlagAt(k)} == {}) else ""
  }

  function Remaining(k: nat, flags: set<AuthFlag>): string
    requires k <= 7
    decreases 7 - k
  {
    if k == 7 then "" else Piece(k, flags) + Remaining(k + 1, flags - {FlagAt(k)})
  }

  lemma LaterFlags(k: nat, flags: set<AuthFlag>)
    requires k <= 7 && flags != {} && forall f :: f in flags ==> Position(f) >= k
    ensures k < 7
    ensures var rest := flags - {FlagAt(k)};
            && (FlagAt(k) !in flags ==> rest == flags)
            && (forall f :: f in rest ==> Position(f) >= k + 1)
            && (forall j :: k + 1 <= j < 7 ==> (FlagAt(j) in flags <==> FlagAt(j) in rest))
  {
    var f :| f in flags;
    assert Position(f) < 7;
  }

  // One flag more on the line.
  lemma RemainingStep(k: nat, flags: set<AuthFlag>)
    requires k < 7
    ensures var flag, rest := FlagAt(k), flags - {FlagAt(k)};
            if flag in flags
            then Remaining(k, flags) == (FlagName(flag) + After(rest == {})) + Remaining(k + 1, rest)
                 && FlagNames(k, flags) == [FlagName(flag)] + FlagNames(k + 1, flags)
            else Remaining(k, flags) == Remaining(k + 1, flags) && FlagNames(k, flags) == FlagNames(k + 1, flags)
  {
    hide FlagName, After, FlagAt;
    if FlagAt(k) !in flags {
      assert flags - {FlagAt(k)} == flags;
      assert "" + Remaining(k + 1, flags) == Remaining(k + 1, flags);
      assert [] + FlagNames(k + 1, flags) == FlagNames(k + 1, flags);
    }
  }

  lemma {:induction false} RemainingIsJoin(k: nat, flags: set<AuthFlag>)
    requires k <= 7 && flags != {} && forall f :: f in flags ==> Position(f) >= k
    ensures Remaining(k, flags) == Join(FlagNames(k, flags)) + After(true)
    ensures FlagNames(k, flags) != []
    decreases 7 - k
  {
    LaterFlags(k, flags);
    hide *;
    var rest := flags - {FlagAt(k)};
    RemainingStep(k, flags);
    SameNames(k + 1, flags, rest);
    if FlagAt(k) !in flags {
      RemainingIsJoin(k + 1, flags);
    } else if rest == {} {
      NothingRemains(k + 1);
      JoinOne(FlagName(FlagAt(k)), After(true));
    } else {
      RemainingIsJoin(k + 1, rest);
      JoinMore(FlagName(FlagAt(k)), FlagNames(k + 1, rest));
      Regroup(FlagName(FlagAt(k)) + After(false), Join(FlagNames(k + 1, rest)), After(true));
    }
  }

  lemma JoinOne(name: string, end: string)
    ensures Join([name] + []) + end == (name + end) + ""
  {
    assert [name] + [] == [name];
  }

  lemma JoinMore(name: string, names: seq<string>)
    requires names != []
    ensures Join([name] + names) == name + After(false) + Join(names)
  {
    hide After;
    assert ([name] + names)[1..] == names;
  }

  lemma {:induction false} SameNames(k: nat, flags: set<AuthFlag>, rest: set<AuthFlag>)
    requires k <= 7 && forall j :: k <= j < 7 ==> (FlagAt(j) in flags <==> FlagAt(j) in rest)
    ensures FlagNames(k, flags) == FlagNames(k, rest)
    decreases 7 - k
  {
    if k < 7 {
      SameNames(k + 1, flags, rest);
    }
  }

  lemma {:induction false} NothingRemains(k: nat)
    requires k <= 7
    ensures Remaining(k, {}) == "" && FlagNames(k, {}) == []
    decreases 7 - k
  {
    if k < 7 {
      var none: set<AuthFlag> := {};
      assert none - {FlagAt(k)} == none;
      NothingRemains(k + 1);
    }
  }

  // The mask splits at its first @; without one the user is "*".
  function UserOf(mask: string): string {
    if '@' in mask then mask[..IndexOf(mask, '@')] else "*"
  }

  function HostOf(mask: string): string {
    if '@' in mask then mask[IndexOf(mask, '@') + 1..] else mask
  }

  function IndexOf(s: string, c: char): (i: nat)
    ensures i <= |s| && c !in s[..i] && (i < |s| ==> s[i] == c) && (c in s ==> i < |s|)
  {
    if s == "" then 0 else if s[0] == c then 0 else
      var i := 1 + IndexOf(s[1..], c);
      assert s[..i] == [s[0]] + s[1..][..i - 1];
      i
  }

  function FlagLetter(f: AuthFlag): char {
    match f
    case NoTilde => 't'
    case NeedIdentd => 'i'
    case ExemptKline => 'k'
    case ExemptGline => 'g'
    case NoLimit => 'l'
    case CanFlood => 'f'
    case NeedPassword => 'p'
  }

  // The block that SPOOF <mask> <spoof> <flags> <password> asks for.
  function RequestedBlock(mask: string, spoof: string, flags: string, password: string): Block {
    Block(UserOf(mask), HostOf(mask), if spoof == "-" then None else Some(spoof),
          if password == "" then None else Some(password),
          FlagsIn(flags), 'o' in flags)
  }

  function FlagsIn(flags: string): set<AuthFlag> {
    set f: AuthFlag | FlagLetter(f) in flags
  }

  // The flags line: a comma after each name but the last.
  method WriteFlags(file: string, flags: set<AuthFlag>) returns (f: string)
    ensures f == file + Flat(FlagLines(flags))
  {
    hide FlagName, Remaining, Piece, FlagsStart, FlagLines, Flat;
    f := file;
    var i := flags;
    NoFlags(file, i);
    if i != {} {
      f := f + FlagsStart();
      ghost var f0, i0 := f, i;
      f, i := TryFlag(f, i, NoTilde, FlagName(NoTilde));
      Turn(0, f0, i0, f, i);
      f0, i0 := f, i;
      f, i := TryFlag(f, i, NeedIdentd, FlagName(NeedIdentd));
      Turn(1, f0, i0, f, i);
      f0, i0 := f, i;
      f, i := TryFlag(f, i, ExemptKline, FlagName(ExemptKline));
      Turn(2, f0, i0, f, i);
      f0, i0 := f, i;
      f, i := TryFlag(f, i, ExemptGline, FlagName(ExemptGline));
      Turn(3, f0, i0, f, i);
      f0, i0 := f, i;
      f, i := TryFlag(f, i, NoLimit, FlagName(NoLimit));
      Turn(4, f0, i0, f, i);
      f0, i0 := f, i;
      f, i := TryFlag(f, i, CanFlood, FlagName(CanFlood));
      Turn(5, f0, i0, f, i);
      f0, i0 := f, i;
      f, i := TryFlag(f, i, NeedPassword, FlagName(NeedPassword));
      Turn(6, f0, i0, f, i);
      WholeLine(file, flags, f, i);
    }
  }

  lemma Turn(k: nat, f: string, i: set<AuthFlag>, f': string, i': set<AuthFlag>)
    requires k < 7 && i' == i - {FlagAt(k)}
    requires f' == f + Piece(k, i)
    ensures f' + Remaining(k + 1, i') == f + Remaining(k, i)
  {
    hide Piece;
    assert (f + Piece(k, i)) + Remaining(k + 1, i') == f + (Piece(k, i) + Remaining(k + 1, i'));
  }

  lemma NoFlags(f: string, i: set<AuthFlag>)
    ensures f + Remaining(7, i) == f
    ensures f + Flat(FlagLines({})) == f
  {}

  lemma WholeLine(file: string, flags: set<AuthFlag>, f: string, i: set<AuthFlag>)
    requires flags != {} && f + Remaining(7, i) == file + FlagsStart() + Remaining(0, flags)
    ensures f == file + Flat(FlagLines(flags))
  {
    hide *;
    RemainingIsJoin(0, flags);
    FlagLineText(flags);
    NoFlags(f, i);
    assert file + FlagsStart() + Remaining(0, flags) == file + (FlagsStart() + Remaining(0, flags));
  }

  lemma FlagLineText(flags: set<AuthFlag>)
    requires flags != {}
    ensures Flat(FlagLines(flags)) == FlagsStart() + (Join(FlagNames(0, flags)) + After(true))
  {
    hide FlagsStart, After, Join;
    var line := FlagsStart() + (Join(FlagNames(0, flags)) + After(true));
    assert [line][1..] == [];
    assert Flat([line]) == line + "";
  }

  // The flag characters: every other character is ignored.
  method ReadFlags(flags: string) returns (i: set<AuthFlag>, classOpers: bool)
    ensures i == FlagsIn(flags) && classOpers == ('o' in flags)
  {
    i, classOpers := {}, false;
    for tmp := 0 to |flags|
      invariant i == FlagsIn(flags[..tmp]) && classOpers == ('o' in flags[..tmp])
    {
      assert flags[..tmp + 1] == flags[..tmp] + [flags[tmp]];
      match flags[tmp] {
        case 't' => i := i + {NoTilde};
        case 'i' => i := i + {NeedIdentd};
        case 'k' => i := i + {ExemptKline};
        case 'g' => i := i + {ExemptGline};
        case 'l' => i := i + {NoLimit};
        case 'o' => classOpers := true;
        case 'f' => i := i + {CanFlood};
        case 'p' => i := i + {NeedPassword};
        case _ =>
      }
    }
    assert flags[..|flags|] == flags;
  }
}
