/**
 DELSPOOF of contrib/m_spoof.c: reads the auth-block file line by line and rewrites it without the
 blocks of one mask.
 */
module DelSpoof {
  import opened CBuffer
  import opened IrcString
  import opened Options
  import opened Sequences
  import opened SpoofFile

  // -------- reading lines

  // The line fbgets reads into a buffer with `room` characters left, and what remains of the file:
  // a line ends after a newline, and a carriage return, alone or before a newline, reads as one.
  function NextLine(file: string, room: nat): (r: (string, string))
    ensures |r.1| <= |file| && (room > 0 && file != "" ==> |r.1| < |file|)
    ensures IsText(file) ==> IsText(r.0) && IsText(r.1)
  {
    if room == 0 || file == "" then ("", file)
    else if file[0] == '\n' then ("\n", file[1..])
    else if file[0] == '\r' then ("\n", if |file| > 1 && file[1] == '\n' then file[2..] else file[1..])
    else var (line, rest) := NextLine(file[1..], room - 1); ([file[0]] + line, rest)
  }

  const LINE_ROOM: nat := 1023

  function Lines(file: string): seq<string>
    decreases |file|
  {
    if file == "" then [] else
      var (line, rest) := NextLine(file, LINE_ROOM);
      [line] + Lines(rest)
  }

  // What one character makes of the line.
  lemma NextLineStep(rest: string, len: nat)
    requires len > 0 && rest != ""
    ensures NextLine(rest, len)
            == if rest[0] == '\n' then ("\n", rest[1..])
               else if rest[0] == '\r'
               then ("\n", if rest[1..] != "" && rest[1..][0] == '\n' then rest[1..][1..] else rest[1..])
               else ([rest[0]] + NextLine(rest[1..], len - 1).0, NextLine(rest[1..], len - 1).1)
  {
    if |rest| > 1 {
      assert rest[1..][0] == rest[1] && rest[1..][1..] == rest[2..];
    }
  }

  lemma NoRoom(rest: string, len: nat)
    requires len == 0 || rest == ""
    ensures NextLine(rest, len) == ("", rest)
  {}

  method FbGets(file: string) returns (buffer: string, rest: string)
    ensures (buffer, rest) == NextLine(file, LINE_ROOM)
  {
    buffer, rest := "", file;
    var len := LINE_ROOM;
    hide NextLine;
    assert "" + NextLine(file, LINE_ROOM).0 == NextLine(file, LINE_ROOM).0;
    while len > 0 && rest != ""
      invariant buffer + NextLine(rest, len).0 == NextLine(file, LINE_ROOM).0
      invariant NextLine(rest, len).1 == NextLine(file, LINE_ROOM).1
    {
      var c := rest[0];
      NextLineStep(rest, len);
      Regroup(buffer, [c], NextLine(rest[1..], len - 1).0);
      rest, len := rest[1..], len - 1;
      if c == '\n' {
        buffer := buffer + "\n";
        return;
      } else if c == '\r' {
        if rest != "" && rest[0] == '\n' {
          rest := rest[1..];
        }
        buffer := buffer + "\n";
        return;
      }
      buffer := buffer + [c];
    }
    NoRoom(rest, len);
    assert buffer + "" == buffer;
  }

  // -------- the lines are the file

  // The file with each carriage return, alone or before a newline, read as a newline.
  function Normal(file: string): string
    decreases |file|
  {
    if file == "" then ""
    else if file[0] == '\r' then "\n" + Normal(if |file| > 1 && file[1] == '\n' then file[2..] else file[1..])
    else [file[0]] + Normal(file[1..])
  }

  lemma {:induction false} NextLineKeeps(file: string, room: nat)
    ensures var (line, rest) := NextLine(file, room); line + Normal(rest) == Normal(file)
    decreases room
  {
    if room == 0 || file == "" {
      assert "" + Normal(file) == Normal(file);
    } else if file[0] != '\n' && file[0] != '\r' {
      NextLineKeeps(file[1..], room - 1);
      var (line, rest) := NextLine(file[1..], room - 1);
      assert ([file[0]] + line) + Normal(rest) == [file[0]] + (line + Normal(rest));
    }
  }

  // One newline at most, at the end; a line without one fills the room or is the last.
  ghost predicate IsLine(line: string, room: nat, last: bool) {
    && |line| <= room && '\r' !in line && (forall i :: 0 <= i < |line| - 1 ==> line[i] != '\n')
    && (line == "" || line[|line| - 1] == '\n' || |line| == room || last)
  }

  lemma LongerLine(c: char, line: string, room: nat, last: bool)
    requires IsLine(line, room, last) && c != '\n' && c != '\r' && (line == "" ==> room == 0 || last)
    ensures IsLine([c] + line, room + 1, last)
  {}

  lemma {:induction false} NextLineIsLine(file: string, room: nat)
    ensures var (line, rest) := NextLine(file, room);
            IsLine(line, room, rest == "") && (line == "" ==> room == 0 || (file == "" && rest == ""))
    decreases room
  {
    if room > 0 && file != "" && file[0] != '\n' && file[0] != '\r' {
      NextLineIsLine(file[1..], room - 1);
      var (line, rest) := NextLine(file[1..], room - 1);
      hide IsLine;
      LongerLine(file[0], line, room - 1, rest == "");
    }
  }

  // Read line by line, nothing of the file is lost. Each line ends at its only newline, or is as long as
  // the buffer, or is the last.
  lemma {:induction false} LinesAreTheFile(file: string)
    ensures Flat(Lines(file)) == Normal(file)
    ensures var lines := Lines(file);
            forall i :: 0 <= i < |lines| ==> lines[i] != "" && IsLine(lines[i], 1023, i == |lines| - 1)
    decreases |file|
  {
    if file != "" {
      var (line, rest) := NextLine(file, LINE_ROOM);
      NextLineKeeps(file, LINE_ROOM);
      NextLineIsLine(file, LINE_ROOM);
      LinesAreTheFile(rest);
      assert Lines(file)[1..] == Lines(rest);
      assert rest == "" ==> Lines(rest) == [];
      assert rest != "" ==> Lines(rest) != [];
      hide NextLine, Normal, IsLine;
    }
  }

  // -------- the user="..." field of a line

  function AuthStart(): (s: string)
    ensures |s| == 6 && IsText(s)
  {
    "auth {"
  }

  function UserWord(): (s: string)
    ensures |s| == 4 && IsText(s)
  {
    "user"
  }

  function AfterBlanks(s: string): (r: string)
    ensures |r| <= |s| && (IsText(s) ==> IsText(r))
  {
    if s != "" && (s[0] == '\t' || s[0] == ' ') then AfterBlanks(s[1..]) else s
  }

  // Advances the pointer over tabs and blanks; a pointer into the line is the text it points at.
  method SkipBlanks(text: string) returns (tmp: string)
    ensures tmp == AfterBlanks(text)
  {
    tmp := text;
    while tmp != "" && (tmp[0] == '\t' || tmp[0] == ' ')
      invariant AfterBlanks(tmp) == AfterBlanks(text)
      decreases |tmp|
    {
      tmp := tmp[1..];
    }
  }

  // What stands between the quotes of a user="..." line; a missing closing quote takes the whole
  // rest of the line.
  function UserField(line: string): Option<string> {
    var word := AfterBlanks(line);
    if !HasPrefix(word, UserWord()) then None else
      var sign := AfterBlanks(word[4..]);
      if sign == "" || sign[0] != '=' then None else
        var value := AfterBlanks(sign[1..]);
        if value == "" || value[0] != '\"' then None
        else Some(value[1..][..IndexOf(value[1..], '\"')])
  }

  predicate AreBlanks(s: string) { forall c :: c in s ==> c == ' ' || c == '\t' }

  predicate StartsInk(s: string) { s != "" && s[0] != ' ' && s[0] != '\t' }

  lemma {:induction false} BlanksInFront(s: string) returns (a: string)
    ensures AreBlanks(a) && s == a + AfterBlanks(s)
    ensures AfterBlanks(s) == "" || StartsInk(AfterBlanks(s))
  {
    a := "";
    if s != "" && (s[0] == '\t' || s[0] == ' ') {
      a := BlanksInFront(s[1..]);
      Regroup([s[0]], a, AfterBlanks(s));
      assert s == [s[0]] + s[1..];
      a := [s[0]] + a;
    }
  }

  lemma {:induction false} BlanksSkipped(blanks: string, s: string)
    requires AreBlanks(blanks) && StartsInk(s)
    ensures AfterBlanks(blanks + s) == s
  {
    if blanks == "" {
      assert blanks + s == s;
    } else {
      assert blanks[0] in blanks;
      assert forall c :: c in blanks[1..] ==> c in blanks;
      assert (blanks + s)[1..] == blanks[1..] + s;
      BlanksSkipped(blanks[1..], s);
    }
  }

  // The parts of a line with a user field: the word in any case, an equals sign and a quote, each
  // behind any number of blanks and tabs.
  ghost predicate IsUserLine(line: string, a: string, word: string, b: string, c: string, value: string) {
    && AreBlanks(a) && AreBlanks(b) && AreBlanks(c) && Same(word, "user")
    && line == a + (word + (b + ("=" + (c + ("\"" + value)))))
  }

  lemma UserLineHasField(line: string, a: string, word: string, b: string, c: string, value: string)
    requires IsUserLine(line, a, word, b, c, value)
    ensures UserField(line) == Some(value[..IndexOf(value, '\"')])
  {
    var quoted := "\"" + value;
    var sign := "=" + (c + quoted);
    var rest := word + (b + sign);
    WordIsInk(word, b + sign);
    BlanksSkipped(a, rest);
    BlanksSkipped(b, sign);
    BlanksSkipped(c, quoted);
    assert sign[1..] == c + quoted && quoted[1..] == value;
    hide AfterBlanks, IndexOf, Same, HasPrefix, UserWord;
  }

  lemma WordIsInk(word: string, rest: string)
    requires Same(word, "user")
    ensures StartsInk(word + rest) && HasPrefix(word + rest, UserWord()) && (word + rest)[4..] == rest
  {
    assert ToUpper(word[0]) == 'U';
    assert (word + rest)[..4] == word;
  }

  // The three places the parser stops at.
  lemma FieldPlaces(line: string)
    requires UserField(line).Some?
    ensures var rest := AfterBlanks(line);
            && |rest| >= 4 && Same(rest[..4], "user")
            && var sign := AfterBlanks(rest[4..]);
               && sign != "" && sign[0] == '='
               && var quoted := AfterBlanks(sign[1..]);
                  && quoted != "" && quoted[0] == '\"'
                  && UserField(line) == Some(quoted[1..][..IndexOf(quoted[1..], '\"')])
  {
    hide Same, AfterBlanks, IndexOf;
  }

  lemma FieldParts(line: string) returns (a: string, word: string, b: string, c: string, value: string)
    requires UserField(line).Some?
    ensures IsUserLine(line, a, word, b, c, value) && UserField(line) == Some(value[..IndexOf(value, '\"')])
  {
    FieldPlaces(line);
    hide *;
    var rest := AfterBlanks(line);
    var sign := AfterBlanks(rest[4..]);
    var quoted := AfterBlanks(sign[1..]);
    word, value := rest[..4], quoted[1..];
    a := BlanksInFront(line);
    b := BlanksInFront(rest[4..]);
    c := BlanksInFront(sign[1..]);
    HeadAndTail(sign);
    HeadAndTail(quoted);
    assert rest == word + rest[4..];
    AreParts(line, a, word, b, c, value);
  }

  lemma HeadAndTail(s: string)
    requires s != ""
    ensures s == [s[0]] + s[1..]
  {}

  lemma AreParts(line: string, a: string, word: string, b: string, c: string, value: string)
    requires AreBlanks(a) && AreBlanks(b) && AreBlanks(c) && Same(word, "user")
    requires line == a + (word + (b + (['='] + (c + (['\"'] + value)))))
    ensures IsUserLine(line, a, word, b, c, value)
  {
    hide AreBlanks, Same;
  }

  // A line has a user field exactly when it is made of these parts, and the field ends at the next quote.
  lemma UserFieldExactly(line: string, field: string)
    ensures UserField(line) == Some(field)
            <==> exists a, word, b, c, value ::
                   IsUserLine(line, a, word, b, c, value) && field == value[..IndexOf(value, '\"')]
  {
    hide IsUserLine, UserField;
    if a, word, b, c, value :| IsUserLine(line, a, word, b, c, value) && field == value[..IndexOf(value, '\"')] {
      UserLineHasField(line, a, word, b, c, value);
    }
    if UserField(line) == Some(field) {
      var a, word, b, c, value := FieldParts(line);
    }
  }

  method FindUserField(buffer: string) returns (field: Option<string>)
    requires IsText(buffer)
    ensures field == UserField(buffer)
  {
    hide HasPrefix, UserWord;
    var tmp := SkipBlanks(buffer);
    var differs := Ircncmp(tmp, UserWord());
    if differs == 0 {
      tmp := SkipBlanks(tmp[4..]);
      if tmp != "" && tmp[0] == '=' {
        tmp := SkipBlanks(tmp[1..]);
        if tmp != "" && tmp[0] == '\"' {
          tmp := tmp[1..];
          var tmp2 := IndexOf(tmp, '\"');
          return Some(tmp[..tmp2]);
        }
      }
    }
    return None;
  }

  // -------- the rewriting scan

  // ignore_it, spoof_found and the text written so far; Crashed once the code has taken the length
  // of a missing host.
  datatype Scan = Scan(ignoreIt: bool, spoofFound: bool, out: string) | Crashed

  predicate Matches(user: string, host: string, field: string) {
    Same(user, UserOf(field)) && Same(host, HostOf(field))
  }

  function ScanLine(st: Scan, line: string, user: string, host: string): Scan {
    if st.Crashed? then Crashed
    else if HasPrefix(line, AuthStart()) then st.(ignoreIt := true)
    else match UserField(line)
         case None => if st.ignoreIt then st else st.(out := st.out + line)
         case Some(field) =>
           if Matches(user, host, field) then st.(spoofFound := true)
           else if '@' !in field then Crashed
           else Scan(false, st.spoofFound, st.out + (if st.ignoreIt then "auth {\n" else "")
                                           + UserLine(UserOf(field), HostOf(field)))
  }

  function ScanLines(st: Scan, lines: seq<string>, user: string, host: string): Scan
    decreases lines
  {
    if lines == [] then st else ScanLines(ScanLine(st, lines[0], user, host), lines[1..], user, host)
  }

  // What becomes of the file: the new file replaces it only when a block was found.
  datatype Outcome = Rewritten(file: string) | NotFound | Failed

  function Finish(st: Scan): Outcome {
    if st.Crashed? then Failed else if st.spoofFound then Rewritten(st.out) else NotFound
  }

  function Deletion(file: string, mask: string): Outcome {
    Finish(ScanLines(Scan(true, false, ""), Lines(file), UserOf(mask), HostOf(mask)))
  }

  function FileAfter(file: string, outcome: Outcome): string {
    if outcome.Rewritten? then outcome.file else file
  }

  lemma PartsAreText(mask: string)
    requires IsText(mask)
    ensures IsText(UserOf(mask)) && IsText(HostOf(mask))
  {}

  // mo_delspoof, from the split of the mask on
  method MoDelSpoof(file: string, mask: string) returns (outcome: Outcome)
    requires IsText(file) && IsText(mask)
    ensures outcome == Deletion(file, mask)
  {
    hide HasPrefix, AuthStart, UserLine, UserField, UserOf, HostOf, Same;
    var user, host := UserOf(mask), HostOf(mask);
    PartsAreText(mask);
    var rest, ignoreIt, spoofFound, out := file, true, false, "";
    while rest != ""
      invariant IsText(rest)
      invariant ScanLines(Scan(ignoreIt, spoofFound, out), Lines(rest), user, host)
                == ScanLines(Scan(true, false, ""), Lines(file), user, host)
      decreases |rest|
    {
      ghost var st, before := Scan(ignoreIt, spoofFound, out), rest;
      var buffer;
      buffer, rest := FbGets(rest);
      assert Lines(before) == [buffer] + Lines(rest);
      assert ScanLines(st, Lines(before), user, host) == ScanLines(ScanLine(st, buffer, user, host), Lines(rest),
          user, host);
      var isAuth := Ircncmp(buffer, AuthStart());
      if isAuth == 0 {
        ignoreIt := true;
        continue;
      }
      var field := FindUserField(buffer);
      if field.Some? {
        FieldIsText(buffer);
        PartsAreText(field.value);
        var userDiffers := Irccmp(user, UserOf(field.value));
        var hostDiffers := Irccmp(host, HostOf(field.value));
        if userDiffers != 0 || hostDiffers != 0 {
          if ignoreIt {
            ignoreIt := false;
            out := out + "auth {\n";
          }
          if '@' !in field.value {
            CrashedForGood(Lines(rest), user, host);
            return Failed;
          }
          assert st.out + "" == st.out;
          out := out + UserLine(UserOf(field.value), HostOf(field.value));
        } else {
          spoofFound := true;
        }
        continue;
      }
      if !ignoreIt {
        out := out + buffer;
      }
    }
    return if spoofFound then Rewritten(out) else NotFound;
  }

  lemma FieldIsText(line: string)
    requires IsText(line) && UserField(line).Some?
    ensures IsText(UserField(line).value)
  {}

  lemma {:induction false} CrashedForGood(lines: seq<string>, user: string, host: string)
    ensures ScanLines(Crashed, lines, user, host) == Crashed
  {
    if lines != [] {
      CrashedForGood(lines[1..], user, host);
    }
  }
}
