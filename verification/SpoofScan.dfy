/**
 What the scanner of DELSPOOF does with one block that SPOOF wrote: it reads the mask up to its first
 quote, and drops the block, copies it with the mask it read, or fails.
 */
module SpoofScan {
  import opened IrcString
  import opened Options
  import opened SpoofFile
  import opened DelSpoof
  import opened Sequences

  // -------- files made of lines

  predicate NoBreak(s: string) { '\n' !in s && '\r' !in s && '\0' !in s }

  predicate OneLine(line: string) {
    0 < |line| <= LINE_ROOM && line[|line| - 1] == '\n' && NoBreak(line[..|line| - 1])
  }

  lemma {:induction false} NextLineIs(line: string, rest: string, room: nat)
    requires 0 < |line| <= room && line[|line| - 1] == '\n' && NoBreak(line[..|line| - 1])
    ensures NextLine(line + rest, room) == (line, rest)
    decreases |line|
  {
    if |line| == 1 {
      assert line == "\n";
      assert (line + rest)[1..] == rest;
    } else {
      assert line[0] == line[..|line| - 1][0];
      assert line[1..][..|line| - 2] == line[..|line| - 1][1..];
      assert (line + rest)[1..] == line[1..] + rest;
      NextLineIs(line[1..], rest, room - 1);
      assert [line[0]] + line[1..] == line;
    }
  }

  lemma LinesOfOne(line: string, rest: string)
    requires OneLine(line)
    ensures Lines(line + rest) == [line] + Lines(rest)
  {
    NextLineIs(line, rest, LINE_ROOM);
    hide NoBreak, NextLine;
  }

  lemma {:induction false} LinesOfConcat(lines: seq<string>, rest: string)
    requires forall l :: l in lines ==> OneLine(l)
    ensures Lines(Flat(lines) + rest) == lines + Lines(rest)
    decreases lines
  {
    hide OneLine, Lines;
    if lines == [] {
      assert "" + rest == rest && lines + Lines(rest) == Lines(rest);
    } else {
      var line, others := lines[0], lines[1..];
      assert line in lines;
      LinesOfConcat(others, rest);
      LinesOfOne(line, Flat(others) + rest);
      assert (line + Flat(others)) + rest == line + (Flat(others) + rest);
      assert [line] + (others + Lines(rest)) == lines + Lines(rest);
    }
  }

  lemma {:induction false} ScanAppend(st: Scan, a: seq<string>, b: seq<string>, user: string, host: string)
    ensures ScanLines(st, a + b, user, host) == ScanLines(ScanLines(st, a, user, host), b, user, host)
    decreases a
  {
    if a == [] {
      assert a + b == b;
    } else {
      assert (a + b)[1..] == a[1..] + b;
      ScanAppend(ScanLine(st, a[0], user, host), a[1..], b, user, host);
    }
  }

  // -------- lines that are neither the start of a block nor its user line

  predicate Plain(line: string) { !HasPrefix(line, AuthStart()) && UserField(line).None? }

  lemma ScanPlainLine(st: Scan, line: string, user: string, host: string)
    requires !st.Crashed? && Plain(line)
    ensures ScanLine(st, line, user, host) == if st.ignoreIt then st else st.(out := st.out + line)
  {}

  lemma {:induction false} ScanPlain(st: Scan, lines: seq<string>, user: string, host: string)
    requires !st.Crashed? && forall l :: l in lines ==> Plain(l)
    ensures ScanLines(st, lines, user, host) == if st.ignoreIt then st else st.(out := st.out + Flat(lines))
    decreases lines
  {
    hide ScanLine, Plain;
    if lines == [] {
      assert st.out + "" == st.out;
    } else {
      var line, rest := lines[0], Flat(lines[1..]);
      assert line in lines;
      ScanPlainLine(st, line, user, host);
      ScanPlain(if st.ignoreIt then st else st.(out := st.out + line), lines[1..], user, host);
      assert (st.out + line) + rest == st.out + (line + rest);
    }
  }

  // A line that starts with a tab and then neither a blank nor the letter U.
  lemma PlainAfterTab(line: string)
    requires |line| >= 2 && line[0] == '\t'
    requires line[1] != ' ' && line[1] != '\t' && ToUpper(line[1]) != 'U'
    ensures Plain(line)
  {
    assert AfterBlanks(line[1..]) == line[1..];
    assert AfterBlanks(line) == line[1..];
    NotPrefix(line[1..], UserWord());
    NotPrefix(line, AuthStart());
  }

  lemma PlainByFirst(line: string)
    requires line != "" && line[0] != ' ' && line[0] != '\t'
    requires ToUpper(line[0]) != 'U' && ToUpper(line[0]) != 'A'
    ensures Plain(line)
  {
    assert AfterBlanks(line) == line;
    NotPrefix(line, UserWord());
    NotPrefix(line, AuthStart());
  }

  lemma NotPrefix(s: string, word: string)
    requires s != "" && word != "" && ToUpper(s[0]) != ToUpper(word[0])
    ensures !HasPrefix(s, word)
  {}

  // -------- the lines of one block

  // What mo_spoof can be asked to write: the user holds no @ (the mask is split at the first one),
  // and no value holds a line break or makes its line longer than the buffer.
  predicate Clean(b: Block) {
    && '@' !in b.user && NoBreak(b.user) && NoBreak(b.host) && |b.user| + |b.host| <= 1000
    && (b.spoof.Some? ==> NoBreak(b.spoof.value) && |b.spoof.value| <= 1000)
    && (b.password.Some? ==> NoBreak(b.password.value) && |b.password.value| <= 1000)
  }

  function Mask(b: Block): string { b.user + "@" + b.host }

  lemma UserLineIsLine(user: string, host: string)
    requires NoBreak(user) && NoBreak(host) && |user| + |host| <= 1000
    ensures OneLine(UserLine(user, host))
  {
    var line := UserLine(user, host);
    var body := line[..|line| - 1];
    assert body == "\tuser = \"" + user + "@" + host + "\";";
    assert NoBreak("\tuser = \"") && NoBreak("@") && NoBreak("\";");
  }

  lemma ValueLineIsLine(start: string, value: string)
    requires NoBreak(start) && NoBreak(value) && |start| + |value| <= 1020
    ensures OneLine(start + value + "\";\n")
  {
    var line := start + value + "\";\n";
    assert line[..|line| - 1] == start + value + "\";";
  }

  // The field read back from a user line is the mask up to its first quote.
  lemma FieldOfUserLine(user: string, host: string)
    ensures var mask := user + "@" + host;
            UserField(UserLine(user, host)) == Some(mask[..IndexOf(mask, '\"')])
    ensures !HasPrefix(UserLine(user, host), AuthStart())
  {
    var mask := user + "@" + host;
    var tail := mask + "\";\n";
    var quoted := "\"" + tail;
    UserLineSplits(user, host);
    AfterTab(UserWord() + (" " + ("=" + (" " + quoted))));
    AfterTab("=" + (" " + quoted));
    AfterTab(quoted);
    FieldSteps(UserLine(user, host), " " + ("=" + (" " + quoted)), " " + quoted, tail);
    FirstIndex(mask, "\";\n", '\"');
  }

  lemma UserLineSplits(user: string, host: string)
    ensures UserLine(user, host)
            == "\t" + (UserWord() + (" " + ("=" + (" " + ("\"" + (user + "@" + host + "\";\n"))))))
    ensures UserWord()[0] == 'u' && !HasPrefix(UserLine(user, host), AuthStart())
  {
    assert "\tuser = \"" == "\t" + (UserWord() + (" " + ("=" + (" " + "\""))));
    assert UserLine(user, host)[0] == '\t' && AuthStart()[0] == 'a';
    NotPrefix(UserLine(user, host), AuthStart());
  }

  lemma FieldSteps(line: string, afterWord: string, afterSign: string, tail: string)
    requires AfterBlanks(line) == UserWord() + afterWord
    requires AfterBlanks(afterWord) == "=" + afterSign && AfterBlanks(afterSign) == "\"" + tail
    ensures UserField(line) == Some(tail[..IndexOf(tail, '\"')])
  {
    OwnPrefix(UserWord(), afterWord);
    hide UserWord, HasPrefix, AfterBlanks;
    assert ("=" + afterSign)[1..] == afterSign;
    assert ("\"" + tail)[1..] == tail;
  }

  lemma OwnPrefix(word: string, rest: string)
    ensures HasPrefix(word + rest, word) && (word + rest)[|word|..] == rest
  {
    assert (word + rest)[..|word|] == word;
  }

  lemma FirstIndexIs(s: string, c: char, i: nat)
    requires i < |s| && s[i] == c && c !in s[..i]
    ensures IndexOf(s, c) == i
  {
    assert c in s;
  }

  lemma FirstIndex(mask: string, rest: string, c: char)
    requires rest != "" && rest[0] == c
    ensures (mask + rest)[..IndexOf(mask + rest, c)] == mask[..IndexOf(mask, c)]
  {
    var i := IndexOf(mask, c);
    assert (mask + rest)[..i] == mask[..i];
    if i == |mask| {
      assert (mask + rest)[i] == rest[0];
    } else {
      assert (mask + rest)[i] == mask[i];
    }
    FirstIndexIs(mask + rest, c, i);
  }

  lemma AfterTab(s: string)
    requires s != "" && s[0] != '\t' && s[0] != ' '
    ensures AfterBlanks("\t" + s) == s && AfterBlanks(" " + s) == s
  {
    assert ("\t" + s)[1..] == s && (" " + s)[1..] == s;
  }

  // The lines after the user line.
  function RestLines(b: Block): seq<string> {
    SpoofLines(b) + PasswordLines(b) + FlagLines(b.flags) + [ClassLine(b.classOpers), "};\n", "\n"]
  }

  lemma BlockLinesSplit(b: Block)
    ensures BlockLines(b) == ["auth {\n", UserLine(b.user, b.host)] + RestLines(b)
  {
    hide UserLine, SpoofLines, PasswordLines, FlagLines, ClassLine;
  }

  predicate PlainLine(line: string) { OneLine(line) && Plain(line) }

  lemma {:induction false} FlagNamesAreShort(k: nat, flags: set<AuthFlag>)
    requires k <= 7
    ensures |FlagNames(k, flags)| <= 7 - k
    ensures forall n :: n in FlagNames(k, flags) ==> NoBreak(n) && |n| <= 13
    decreases 7 - k
  {
    if k < 7 {
      FlagNamesAreShort(k + 1, flags);
      NameIsShort(FlagAt(k));
      hide FlagName, NoBreak;
    }
  }

  lemma NameIsShort(f: AuthFlag)
    ensures NoBreak(FlagName(f)) && |FlagName(f)| <= 13
  {
    if f.NoTilde? {
    } else if f.NeedIdentd? {
    } else {
      OtherNameIsShort(f);
    }
  }

  lemma OtherNameIsShort(f: AuthFlag)
    requires !f.NoTilde? && !f.NeedIdentd?
    ensures NoBreak(FlagName(f)) && |FlagName(f)| <= 13
  {
    if f.ExemptKline? {
    } else if f.ExemptGline? {
    } else {
      LastNameIsShort(f);
    }
  }

  lemma LastNameIsShort(f: AuthFlag)
    requires f.NoLimit? || f.CanFlood? || f.NeedPassword?
    ensures NoBreak(FlagName(f)) && |FlagName(f)| <= 13
  {}

  lemma {:induction false} JoinIsShort(names: seq<string>)
    requires forall n :: n in names ==> NoBreak(n) && |n| <= 13
    ensures NoBreak(Join(names)) && |Join(names)| <= 15 * |names|
    decreases names
  {
    if |names| > 1 {
      assert names[0] in names;
      forall n | n in names[1..]
        ensures n in names
      {}
      JoinIsShort(names[1..]);
      NoBreakConcat(names[0] + After(false), Join(names[1..]));
    } else if |names| == 1 {
      assert names[0] in names;
    }
  }

  lemma NoBreakConcat(a: string, b: string)
    requires NoBreak(a) && NoBreak(b)
    ensures NoBreak(a + b)
  {}

  lemma FlagLineIsPlain(flags: set<AuthFlag>)
    requires flags != {}
    ensures PlainLine(FlagsStart() + (Join(FlagNames(0, flags)) + After(true)))
  {
    FlagNamesAreShort(0, flags);
    JoinIsShort(FlagNames(0, flags));
    ListLineIsPlain(Join(FlagNames(0, flags)));
  }

  lemma ListLineIsPlain(list: string)
    requires NoBreak(list) && |list| <= 105
    ensures PlainLine(FlagsStart() + (list + After(true)))
  {
    var line := FlagsStart() + (list + After(true));
    assert line[..|line| - 1] == FlagsStart() + list + ";";
    assert NoBreak(FlagsStart());
    PlainAfterTab(line);
  }

  lemma SpoofLineIsPlain(v: string)
    requires NoBreak(v) && |v| <= 1000
    ensures PlainLine(SpoofLine(v))
  {
    ValueLineIsLine("\tspoof = \"", v);
    PlainAfterTab(SpoofLine(v));
  }

  lemma PasswordLineIsPlain(v: string)
    requires NoBreak(v) && |v| <= 1000
    ensures PlainLine(PasswordLine(v))
  {
    ValueLineIsLine("\tpassword = \"", v);
    PlainAfterTab(PasswordLine(v));
  }

  lemma ClassLineIsPlain(opers: bool)
    ensures PlainLine(ClassLine(opers))
  {
    ValueLineIsLine("\tclass = \"", if opers then "opers" else "users");
    PlainAfterTab(ClassLine(opers));
  }

  lemma OnlyNewline(line: string)
    requires line == "};\n" || line == "\n"
    ensures OneLine(line)
  {}

  lemma LastLinesArePlain()
    ensures PlainLine("};\n") && PlainLine("\n")
  {
    OnlyNewline("};\n");
    OnlyNewline("\n");
    hide Plain;
    PlainByFirst("};\n");
    PlainByFirst("\n");
  }

  ghost predicate AllPlain(lines: seq<string>) { forall l :: l in lines ==> PlainLine(l) }

  lemma PlainSum(a: seq<string>, b: seq<string>)
    requires AllPlain(a) && AllPlain(b)
    ensures AllPlain(a + b)
  {
    hide PlainLine;
  }

  lemma PlainOne(line: string)
    requires PlainLine(line)
    ensures AllPlain([line])
  {
    hide PlainLine;
  }

  lemma OptionalLinesArePlain(b: Block)
    requires Clean(b)
    ensures AllPlain(SpoofLines(b)) && AllPlain(PasswordLines(b)) && AllPlain(FlagLines(b.flags))
  {
    hide PlainLine, SpoofLine, PasswordLine, FlagsStart, Join, After;
    if b.spoof.Some? {
      SpoofLineIsPlain(b.spoof.value);
      PlainOne(SpoofLine(b.spoof.value));
    }
    if b.password.Some? {
      PasswordLineIsPlain(b.password.value);
      PlainOne(PasswordLine(b.password.value));
    }
    if b.flags != {} {
      FlagLineIsPlain(b.flags);
      PlainOne(FlagsStart() + (Join(FlagNames(0, b.flags)) + After(true)));
    }
  }

  lemma ClosingLinesArePlain(opers: bool)
    ensures AllPlain([ClassLine(opers), "};\n", "\n"])
  {
    ClassLineIsPlain(opers);
    LastLinesArePlain();
    hide PlainLine, ClassLine;
  }

  lemma RestLinesArePlain(b: Block)
    requires Clean(b)
    ensures AllPlain(RestLines(b))
  {
    OptionalLinesArePlain(b);
    ClosingLinesArePlain(b.classOpers);
    hide AllPlain, Clean, SpoofLines, PasswordLines, FlagLines, ClassLine;
    PlainSum(SpoofLines(b), PasswordLines(b));
    PlainSum(SpoofLines(b) + PasswordLines(b), FlagLines(b.flags));
    PlainSum(SpoofLines(b) + PasswordLines(b) + FlagLines(b.flags), [ClassLine(b.classOpers), "};\n", "\n"]);
  }

  lemma BlockIsLines(b: Block)
    requires Clean(b)
    ensures forall l :: l in BlockLines(b) ==> OneLine(l)
  {
    BlockLinesSplit(b);
    RestLinesArePlain(b);
    UserLineIsLine(b.user, b.host);
    AuthLine();
    hide OneLine, Plain, UserLine, RestLines, BlockLines;
  }

  lemma AuthLine()
    ensures OneLine("auth {\n") && HasPrefix("auth {\n", AuthStart())
  {
    assert "auth {\n"[..6] == AuthStart();
  }

  // -------- scanning one block

  // What the scanner reads of a block's mask.
  function Field(b: Block): string { Mask(b)[..IndexOf(Mask(b), '\"')] }

  predicate Hit(user: string, host: string, b: Block) { Matches(user, host, Field(b)) }

  predicate Quoted(b: Block) { '\"' in b.user || '\"' in b.host }

  // The block as it is copied: its host ends at the first quote.
  function Shortened(b: Block): Block { b.(host := b.host[..IndexOf(b.host, '\"')]) }

  lemma SplitMask(b: Block)
    requires '@' !in b.user
    ensures UserOf(Mask(b)) == b.user && HostOf(Mask(b)) == b.host && '@' in Mask(b)
  {
    assert Mask(b)[|b.user|] == '@';
    assert IndexOf(Mask(b), '@') == |b.user|;
  }

  lemma {:induction false} IndexInSum(a: string, b: string, c: char)
    requires c !in a
    ensures IndexOf(a + b, c) == |a| + IndexOf(b, c)
    decreases a
  {
    if a == "" {
      assert a + b == b;
    } else {
      assert (a + b)[1..] == a[1..] + b;
      IndexInSum(a[1..], b, c);
    }
  }

  // The field keeps the user, and the host up to its quote; a quote in the user takes the @ away.
  lemma FieldParts(b: Block)
    requires '@' !in b.user
    ensures '\"' in b.user <==> '@' !in Field(b)
    ensures '\"' !in b.user ==> UserOf(Field(b)) == b.user && HostOf(Field(b)) == Shortened(b).host
    ensures '\"' !in Field(b)
  {
    var mask := Mask(b);
    if '\"' in b.user {
      var q := IndexOf(b.user, '\"');
      assert mask[..q] == b.user[..q] && mask[q] == '\"';
      FirstIndexIs(mask, '\"', q);
    } else {
      var start := b.user + "@";
      assert mask == start + b.host;
      IndexInSum(start, b.host, '\"');
      SplitMask(Shortened(b));
      assert Field(b) == start + Shortened(b).host == Mask(Shortened(b));
    }
  }

  lemma UnquotedField(b: Block)
    requires '@' !in b.user && !Quoted(b)
    ensures Field(b) == Mask(b) && Shortened(b) == b
  {
    assert '\"' !in Mask(b);
    assert b.host[..|b.host|] == b.host && Mask(b)[..|Mask(b)|] == Mask(b);
  }

  lemma ShortenedTwice(b: Block)
    requires Clean(b)
    ensures Clean(Shortened(b)) && Shortened(Shortened(b)) == Shortened(b)
    ensures '\"' !in b.user ==> !Quoted(Shortened(b)) && Field(Shortened(b)) == Field(b)
  {
    var i := IndexOf(b.host, '\"');
    var host := b.host[..i];
    assert IndexOf(host, '\"') == |host|;
    assert host[..|host|] == host;
    if '\"' !in b.user {
      var start := b.user + "@";
      assert Mask(b) == start + b.host && Mask(Shortened(b)) == start + host;
      IndexInSum(start, b.host, '\"');
      IndexInSum(start, host, '\"');
    }
  }

  lemma ScanAuthLine(st: Scan, line: string, user: string, host: string)
    requires !st.Crashed? && HasPrefix(line, AuthStart())
    ensures ScanLine(st, line, user, host) == Scan(true, st.spoofFound, st.out)
  {
    hide HasPrefix, UserField;
  }

  // A user line, in any file: the block's head is written in front of the first that is not hit.
  lemma ScanUserLine(st: Scan, line: string, user: string, host: string, field: string)
    requires !st.Crashed? && !HasPrefix(line, AuthStart()) && UserField(line) == Some(field)
    ensures ScanLine(st, line, user, host)
            == if Matches(user, host, field) then Scan(st.ignoreIt, true, st.out)
               else if '@' !in field then Crashed
               else Scan(false, st.spoofFound,
                         st.out + (if st.ignoreIt then "auth {\n" else "") + UserLine(UserOf(field), HostOf(field)))
  {
    hide HasPrefix, UserField, Same, UserOf, HostOf, UserLine;
  }

  lemma ScanTwo(st: Scan, a: string, b: string, rest: seq<string>, user: string, host: string)
    ensures ScanLines(st, [a, b] + rest, user, host)
            == ScanLines(ScanLine(ScanLine(st, a, user, host), b, user, host), rest, user, host)
  {
    hide ScanLine;
    assert ([a, b] + rest)[1..] == [b] + rest;
    assert ([b] + rest)[1..] == rest;
  }

  lemma FlatTwo(a: string, b: string, rest: seq<string>)
    ensures Flat([a, b] + rest) == a + (b + Flat(rest))
  {
    assert ([a, b] + rest)[1..] == [b] + rest;
    assert ([b] + rest)[1..] == rest;
  }

  // The lines of a block but for its user line do not depend on its mask.
  lemma ShortenedText(b: Block)
    ensures BlockText(Shortened(b)) == "auth {\n" + (UserLine(b.user, Shortened(b).host) + Flat(RestLines(b)))
  {
    var c := Shortened(b);
    BlockLinesSplit(c);
    assert RestLines(c) == RestLines(b);
    hide RestLines, BlockLines, UserLine, Flat;
    FlatTwo("auth {\n", UserLine(c.user, c.host), RestLines(c));
  }

  lemma ScanStart(st: Scan, b: Block, user: string, host: string)
    requires !st.Crashed? && Clean(b)
    ensures ScanLine(ScanLine(st, "auth {\n", user, host), UserLine(b.user, b.host), user, host)
            == if Hit(user, host, b) then Scan(true, true, st.out)
               else if '\"' in b.user then Crashed
               else Scan(false, st.spoofFound, st.out + "auth {\n" + UserLine(b.user, Shortened(b).host))
  {
    AuthLine();
    FieldOfUserLine(b.user, b.host);
    FieldParts(b);
    assert UserField(UserLine(b.user, b.host)) == Some(Field(b)) by {
      hide UserField, UserLine, IndexOf;
    }
    assert Hit(user, host, b) == Matches(user, host, Field(b));
    hide *;
    var start, line := "auth {\n", UserLine(b.user, b.host);
    ScanAuthLine(st, start, user, host);
    ScanUserLine(Scan(true, st.spoofFound, st.out), line, user, host, Field(b));
  }

  // A block is left out when what is read of its mask matches, is the end of the scan when there is
  // no @ in what is read, and is copied up to the quote otherwise.
  lemma ScanBlock(st: Scan, b: Block, user: string, host: string)
    requires !st.Crashed? && Clean(b)
    ensures ScanLines(st, BlockLines(b), user, host)
            == if Hit(user, host, b) then Scan(true, true, st.out)
               else if '\"' in b.user then Crashed
               else Scan(false, st.spoofFound, st.out + BlockText(Shortened(b)))
  {
    ScanStart(st, b, user, host);
    BlockLinesSplit(b);
    RestLinesArePlain(b);
    ShortenedText(b);
    hide UserLine, Plain, OneLine, RestLines, Hit, ScanLine, BlockLines, BlockText, Clean, Shortened, Flat;
    var start, line, rest := "auth {\n", UserLine(b.user, b.host), RestLines(b);
    ScanTwo(st, start, line, rest, user, host);
    var st2 := ScanLine(ScanLine(st, start, user, host), line, user, host);
    if st2.Crashed? {
      CrashedForGood(rest, user, host);
    } else {
      ScanPlain(st2, rest, user, host);
      var copied := UserLine(b.user, Shortened(b).host);
      hide ScanLines;
      Regroup(st.out + start, copied, Flat(rest));
      Regroup(st.out, start, copied + Flat(rest));
    }
  }

  lemma BlockIsNotEmpty(b: Block)
    ensures |BlockText(b)| > 0
  {
    BlockLinesSplit(b);
    FlatTwo("auth {\n", UserLine(b.user, b.host), RestLines(b));
  }

  // Cutting a host makes the block shorter.
  lemma ShortenedIsShorter(b: Block)
    requires '\"' in b.host
    ensures |BlockText(Shortened(b))| < |BlockText(b)|
  {
    ShortenedText(b);
    BlockLinesSplit(b);
    hide RestLines, BlockLines, Flat;
    FlatTwo("auth {\n", UserLine(b.user, b.host), RestLines(b));
  }
}
