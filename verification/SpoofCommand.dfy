/**
 The SPOOF command of contrib/m_spoof.c: the block it appends, and what the server makes of it when it
 reads the file again. Each part of the command comes back as it was given, exactly when no value holds
 a quote, a backslash or a line break.
 */
module SpoofCommand {
  import opened AuthReader
  import opened Options
  import opened Sequences
  import opened SpoofFile

  // -------- what the command asks for

  // The flag letters and their names, in the order they are written.
  function Letters(): (s: seq<(char, string)>)
    ensures |s| == 7
  {
    [ ('t', "no_tilde"), ('i', "need_ident"), ('k', "kline_exempt"), ('g', "gline_exempt"),
      ('l', "exceed_limit"), ('f', "can_flood"), ('p', "need_password") ]
  }

  // The names of the letters given, from the k-th on.
  function AskedFlags(flags: string, k: nat): seq<string>
    requires k <= |Letters()|
    decreases |Letters()| - k
  {
    if k == |Letters()| then []
    else (if Letters()[k].0 in flags then [Letters()[k].1] else []) + AskedFlags(flags, k + 1)
  }

  function Asked(mask: string, spoof: string, flags: string, password: string): seq<Item> {
    [Setting(User, if '@' in mask then mask else "*@" + mask)]
    + (if spoof == "-" then [] else [Setting(Spoof, spoof)])
    + (if password == "" then [] else [Setting(Password, password)])
    + (if AskedFlags(flags, 0) == [] then [] else [Flags(AskedFlags(flags, 0))])
    + [Setting(Class, if 'o' in flags then "opers" else "users")]
  }

  // Each name is asked for exactly when its letter is given, and no other name is.
  lemma AskedNames(flags: string, name: string)
    ensures name in AskedFlags(flags, 0)
            <==> exists k :: 0 <= k < 7 && name == Letters()[k].1 && Letters()[k].0 in flags
  {
    forall k | 0 <= k < 7
      ensures Letters()[k].1 in AskedFlags(flags, 0) <==> Letters()[k].0 in flags
    {
      AskedName(flags, 0, k);
    }
    if name in AskedFlags(flags, 0) {
      OnlyNames(flags, 0, name);
    }
    hide AskedFlags;
  }

  lemma {:induction false} OnlyNames(flags: string, k: nat, name: string)
    requires k <= 7 && name in AskedFlags(flags, k)
    ensures exists i :: k <= i < 7 && name == Letters()[i].1
    decreases 7 - k
  {
    hide Letters;
    if name != Letters()[k].1 {
      OnlyNames(flags, k + 1, name);
    }
  }

  lemma {:induction false} AskedName(flags: string, k: nat, i: nat)
    requires k <= 7 && i < 7
    ensures Letters()[i].1 in AskedFlags(flags, k) <==> k <= i && Letters()[i].0 in flags
    decreases 7 - k
  {
    if k < 7 {
      AskedName(flags, k + 1, i);
      if i != k {
        NamesAreApart(i, k);
      }
      hide Letters;
    }
  }

  lemma NamesAreApart(i: nat, k: nat)
    requires i < 7 && k < 7 && i != k
    ensures Letters()[i].1 != Letters()[k].1
  {}

  predicate Plain(v: string) { '\"' !in v && '\\' !in v && '\n' !in v }

  // -------- tokens

  lemma LexBlank(c: char, rest: string)
    requires IsBlank(c)
    ensures Lex([c] + rest) == Lex(rest)
  {
    assert ([c] + rest)[1..] == rest;
  }

  lemma LexSymbol(c: char, rest: string)
    requires !IsBlank(c) && !IsWordChar(c) && c != '\"'
    ensures Lex([c] + rest) == [Symbol(c)] + Lex(rest)
  {
    assert ([c] + rest)[1..] == rest;
  }

  predicate IsName(w: string) { w != "" && forall i :: 0 <= i < |w| ==> IsWordChar(w[i]) }

  lemma {:induction false} WordLengthIs(w: string, rest: string)
    requires forall i :: 0 <= i < |w| ==> IsWordChar(w[i])
    requires rest == "" || !IsWordChar(rest[0])
    ensures WordLength(w + rest) == |w|
  {
    if w == "" {
      assert w + rest == rest;
    } else {
      assert (w + rest)[1..] == w[1..] + rest;
      WordLengthIs(w[1..], rest);
    }
  }

  lemma LexWord(w: string, rest: string)
    requires IsName(w) && (rest == "" || !IsWordChar(rest[0]))
    ensures Lex(w + rest) == [Word(w)] + Lex(rest)
  {
    WordLengthIs(w, rest);
    var s := w + rest;
    assert s[0] == w[0];
    assert s[..|w|] == w && s[|w|..] == rest;
  }

  lemma {:induction false} QuoteLengthIs(v: string, rest: string)
    requires Plain(v) && rest != "" && rest[0] == '\"'
    ensures QuoteLength(v + rest, false) == Some(|v|) && Unescaped(v) == v
  {
    if v == "" {
      assert v + rest == rest;
    } else {
      assert (v + rest)[1..] == v[1..] + rest;
      QuoteLengthIs(v[1..], rest);
      assert v == [v[0]] + v[1..];
    }
  }

  lemma LexQuoted(v: string, rest: string)
    requires Plain(v)
    ensures Lex("\"" + (v + ("\"" + rest))) == [Quoted(v)] + Lex(rest)
  {
    var tail := v + ("\"" + rest);
    QuoteLengthIs(v, "\"" + rest);
    assert ("\"" + tail)[1..] == tail;
    assert tail[..|v|] == v && tail[|v| + 1..] == rest;
  }

  // Behind the last quote the line ends.
  lemma EndOfLine(rest: string)
    ensures QuoteLength("\";\n" + rest, false) == Some(0) && QuoteLength("\";\n" + rest, true) == None
  {
    var s2, s3 := ";\n" + rest, "\n" + rest;
    assert ("\";\n" + rest)[1..] == s2 && s2[1..] == s3;
    assert QuoteLength(s3, false) == None;
    assert QuoteLength(s2, false) == None;
  }

  // A value that is not plain ends too early, or does not end on its line, or loses a backslash.
  lemma {:induction false} QuoteEndsEarly(v: string, rest: string, escaped: bool)
    ensures var n := QuoteLength(v + ("\";\n" + rest), escaped); n.Some? ==> n.value <= |v|
    decreases |v|
  {
    var tail := "\";\n" + rest;
    hide Plain;
    if v == "" {
      assert v + tail == tail;
      EndOfLine(rest);
    } else {
      assert (v + tail)[1..] == v[1..] + tail;
      QuoteEndsEarly(v[1..], rest, v[0] == '\\');
    }
  }

  lemma {:induction false} WholeQuote(v: string, rest: string, escaped: bool)
    requires QuoteLength(v + ("\";\n" + rest), escaped) == Some(|v|)
    ensures '\n' !in v && (escaped || '\\' in v || '\"' !in v)
    decreases |v|
  {
    if v != "" {
      assert (v + ("\";\n" + rest))[1..] == v[1..] + ("\";\n" + rest);
      WholeQuote(v[1..], rest, v[0] == '\\');
    }
  }

  lemma {:induction false} UnescapedIsShorter(v: string)
    requires '\\' in v
    ensures |Unescaped(v)| < |v|
  {
    if v[0] != '\\' {
      UnescapedIsShorter(v[1..]);
    }
  }

  lemma LexSpoiled(v: string, rest: string)
    requires !Plain(v)
    ensures var tokens := Lex("\"" + (v + ("\";\n" + rest))); tokens != [] && tokens[0] != Quoted(v)
  {
    var tail := v + ("\";\n" + rest);
    assert ("\"" + tail)[1..] == tail;
    QuoteEndsEarly(v, rest, false);
    var n := QuoteLength(tail, false);
    if n == Some(|v|) {
      WholeQuote(v, rest, false);
      UnescapedIsShorter(v);
      assert tail[..|v|] == v;
    }
  }

  // -------- lines

  function SettingLine(key: string, v: string): string {
    "\t" + (key + (" " + ("=" + (" " + ("\"" + (v + "\";\n"))))))
  }

  lemma LexKey(key: string, rest: string)
    requires IsName(key)
    ensures Lex("\t" + (key + (" " + ("=" + (" " + rest))))) == [Word(key), Symbol('=')] + Lex(rest)
  {
    hide Lex, IsName;
    var afterSign := " " + rest;
    var afterKey := " " + ("=" + afterSign);
    LexBlank('\t', key + afterKey);
    LexWord(key, afterKey);
    LexBlank(' ', "=" + afterSign);
    LexSymbol('=', afterSign);
    LexBlank(' ', rest);
  }

  // What is read of a line with a value: the setting comes back exactly when the value is plain.
  lemma SettingReadsBack(word: string, key: Key, v: string, rest: string, items: seq<Item>)
    requires IsName(word) && KeyOf(word) == Some(key)
    ensures ReadItems(Lex(SettingLine(word, v) + rest)) == Some([Setting(key, v)] + items)
            <==> Plain(v) && ReadItems(Lex(rest)) == Some(items)
  {
    SettingSplits(word, v, rest);
    hide Lex, SettingLine, Plain, IsName, ReadItems, KeyOf;
    LexKey(word, "\"" + (v + ("\";\n" + rest)));
    if Plain(v) {
      LexEnd(v, rest);
      var later := Lex(rest);
      assert [Word(word), Symbol('=')] + ([Quoted(v), Symbol(';')] + later)
          == [Word(word), Symbol('='), Quoted(v), Symbol(';')] + later;
      ReadSetting(word, key, v, later, items);
    } else {
      LexSpoiled(v, rest);
      var later := Lex("\"" + (v + ("\";\n" + rest)));
      ReadSpoiled(word, key, v, later, items);
    }
  }

  lemma SettingSplits(key: string, v: string, rest: string)
    ensures SettingLine(key, v) + rest
            == "\t" + (key + (" " + ("=" + (" " + ("\"" + (v + ("\";\n" + rest)))))))
  {}

  lemma LexEnd(v: string, rest: string)
    requires Plain(v)
    ensures Lex("\"" + (v + ("\";\n" + rest))) == [Quoted(v), Symbol(';')] + Lex(rest)
  {
    hide Lex, Plain;
    assert "\";\n" + rest == "\"" + (";" + ("\n" + rest));
    LexQuoted(v, ";" + ("\n" + rest));
    LexSymbol(';', "\n" + rest);
    LexBlank('\n', rest);
  }

  lemma ReadSetting(word: string, key: Key, v: string, later: seq<Token>, items: seq<Item>)
    requires KeyOf(word) == Some(key)
    ensures ReadItems([Word(word), Symbol('='), Quoted(v), Symbol(';')] + later) == Some([Setting(key, v)] + items)
            <==> ReadItems(later) == Some(items)
  {
    var tokens := [Word(word), Symbol('='), Quoted(v), Symbol(';')] + later;
    assert tokens[0] == Word(word) && tokens[4..] == later;
    KeyIsNotFlags(word);
    assert ReadItem(tokens) == Some((Setting(key, v), later));
    NextItem(tokens, Setting(key, v), later, items);
  }

  lemma KeyIsNotFlags(word: string)
    requires KeyOf(word).Some?
    ensures word != "flags"
  {}

  lemma NextItem(tokens: seq<Token>, item: Item, later: seq<Token>, items: seq<Item>)
    requires tokens != [] && tokens[0].Word? && ReadItem(tokens) == Some((item, later)) && |later| < |tokens|
    ensures ReadItems(tokens) == Some([item] + items) <==> ReadItems(later) == Some(items)
  {
    hide ReadItem;
    if ReadItems(later).Some? {
      var more := ReadItems(later).value;
      assert ([item] + more)[1..] == more && ([item] + items)[1..] == items;
    }
  }

  lemma FirstItem(tokens: seq<Token>, item: Item, items: seq<Item>)
    requires tokens != [] && tokens[0].Word? && ReadItems(tokens) == Some([item] + items)
    ensures ReadItem(tokens).Some? && ReadItem(tokens).value.0 == item
  {
    hide ReadItem;
    assert ReadItems(tokens).value[0] == item;
  }

  lemma SpoiledItem(word: string, key: Key, v: string, later: seq<Token>)
    requires word != "flags" && later != [] && later[0] != Quoted(v)
    ensures var tokens := [Word(word), Symbol('=')] + later;
            ReadItem(tokens).Some? ==> ReadItem(tokens).value.0 != Setting(key, v)
  {
    var tokens := [Word(word), Symbol('=')] + later;
    assert tokens[0] == Word(word) && tokens[2] == later[0];
  }

  lemma ReadSpoiled(word: string, key: Key, v: string, later: seq<Token>, items: seq<Item>)
    requires KeyOf(word) == Some(key) && later != [] && later[0] != Quoted(v)
    ensures ReadItems([Word(word), Symbol('=')] + later) != Some([Setting(key, v)] + items)
  {
    var tokens := [Word(word), Symbol('=')] + later;
    KeyIsNotFlags(word);
    SpoiledItem(word, key, v, later);
    hide ReadItems, ReadItem, KeyOf;
    if ReadItems(tokens) == Some([Setting(key, v)] + items) {
      FirstItem(tokens, Setting(key, v), items);
    }
  }

  // -------- the flags

  function Commas(names: seq<string>): seq<Token> {
    if names == [] then []
    else if |names| == 1 then [Word(names[0]), Symbol(';')] else [Word(names[0]), Symbol(',')] + Commas(names[1..])
  }

  ghost predicate AreFlags(names: seq<string>) { forall n :: n in names ==> IsFlag(n) && IsName(n) }

  lemma LexOneName(n: string, rest: string)
    requires IsName(n)
    ensures Lex(n + ("," + (" " + rest))) == [Word(n), Symbol(',')] + Lex(rest)
    ensures Lex(n + (";" + ("\n" + rest))) == [Word(n), Symbol(';')] + Lex(rest)
  {
    hide Lex, IsName;
    LexWord(n, "," + (" " + rest));
    LexSymbol(',', " " + rest);
    LexBlank(' ', rest);
    LexWord(n, ";" + ("\n" + rest));
    LexSymbol(';', "\n" + rest);
    LexBlank('\n', rest);
  }

  lemma FirstOfJoin(names: seq<string>, end: string)
    requires names != []
    ensures Join(names) + end
            == names[0] + if |names| == 1 then end else "," + (" " + (Join(names[1..]) + end))
  {}

  lemma {:induction false} LexNames(names: seq<string>, rest: string)
    requires AreFlags(names) && names != []
    ensures Lex(Join(names) + (";" + ("\n" + rest))) == Commas(names) + Lex(rest)
    decreases |names|
  {
    var n, end := names[0], ";" + ("\n" + rest);
    assert n in names;
    assert forall m :: m in names[1..] ==> m in names;
    hide Lex, IsFlag, IsName, Join;
    FirstOfJoin(names, end);
    if |names| == 1 {
      LexOneName(n, rest);
    } else {
      LexNames(names[1..], rest);
      LexOneName(n, Join(names[1..]) + end);
      Regroup([Word(n), Symbol(',')], Commas(names[1..]), Lex(rest));
    }
  }

  lemma ReadMore(name: string, tokens: seq<Token>, names: seq<string>, later: seq<Token>)
    requires IsFlag(name)
    ensures ReadNames([Word(name), Symbol(';')] + later) == Some(([name], later))
    ensures ReadNames(tokens) == Some((names, later))
        ==> ReadNames([Word(name), Symbol(',')] + tokens) == Some(([name] + names, later))
  {
    var one, more := [Word(name), Symbol(';')] + later, [Word(name), Symbol(',')] + tokens;
    assert one[0] == Word(name) && one[1] == Symbol(';') && one[2..] == later;
    assert more[0] == Word(name) && more[1] == Symbol(',') && more[2..] == tokens;
    hide IsFlag;
  }

  lemma {:induction false} ReadCommas(names: seq<string>, later: seq<Token>)
    requires AreFlags(names) && names != []
    ensures ReadNames(Commas(names) + later) == Some((names, later))
    decreases |names|
  {
    var n := names[0];
    assert n in names;
    assert forall m :: m in names[1..] ==> m in names;
    hide ReadNames, IsFlag, IsName;
    if |names| == 1 {
      assert [n] == names;
      ReadMore(n, [], [], later);
    } else {
      ReadCommas(names[1..], later);
      Regroup([Word(n), Symbol(',')], Commas(names[1..]), later);
      ReadMore(n, Commas(names[1..]) + later, names[1..], later);
      assert [n] + names[1..] == names;
    }
  }

  lemma FlagsReadBack(names: seq<string>, rest: string, items: seq<Item>)
    requires AreFlags(names) && names != []
    ensures ReadItems(Lex((FlagsStart() + (Join(names) + After(true))) + rest)) == Some([Flags(names)] + items)
            <==> ReadItems(Lex(rest)) == Some(items)
  {
    var list := Join(names) + (";" + ("\n" + rest));
    assert (FlagsStart() + (Join(names) + After(true))) + rest == "\t" + ("flags" + (" " + ("=" + (" " + list))));
    assert IsName("flags");
    hide Lex, Join, IsName, IsFlag;
    LexKey("flags", list);
    LexNames(names, rest);
    ReadFlagItem(names, Lex(rest), items);
    Regroup([Word("flags"), Symbol('=')], Commas(names), Lex(rest));
  }

  lemma ReadFlagItem(names: seq<string>, later: seq<Token>, items: seq<Item>)
    requires AreFlags(names) && names != []
    ensures ReadItems([Word("flags"), Symbol('=')] + (Commas(names) + later)) == Some([Flags(names)] + items)
            <==> ReadItems(later) == Some(items)
  {
    var tokens := [Word("flags"), Symbol('=')] + (Commas(names) + later);
    ReadCommas(names, later);
    assert tokens[0] == Word("flags") && tokens[2..] == Commas(names) + later;
    assert |Commas(names)| >= 2;
    hide ReadNames, Commas;
    assert ReadItem(tokens) == Some((Flags(names), later));
    NextItem(tokens, Flags(names), later, items);
  }

  lemma EndReadsBack()
    ensures ReadItems(Lex("};\n" + ("\n" + ""))) == Some([])
  {
    LexSymbol('}', ";\n\n");
    LexSymbol(';', "\n\n");
    LexBlank('\n', "\n");
    LexBlank('\n', "");
    assert "};\n" + ("\n" + "") == "}" + ";\n\n";
    assert ";\n\n" == ";" + "\n\n" && "\n\n" == "\n" + "\n" && "\n" == "\n" + "";
    assert Lex("") == [];
  }

  // -------- the block

  lemma {:induction false} NamesAsked(flags: string, k: nat)
    requires k <= 7
    ensures FlagNames(k, FlagsIn(flags)) == AskedFlags(flags, k) && AreFlags(AskedFlags(flags, k))
    decreases 7 - k
  {
    if k < 7 {
      NamesAsked(flags, k + 1);
      LetterIs(k);
      hide Letters, FlagLetter, FlagName, FlagAt, IsFlag, IsName;
    }
  }

  lemma LetterIs(k: nat)
    requires k < 7
    ensures Letters()[k] == (FlagLetter(FlagAt(k)), FlagName(FlagAt(k)))
    ensures IsFlag(Letters()[k].1) && IsName(Letters()[k].1)
  {}

  lemma {:induction false} AnyAsked(flags: string, k: nat)
    requires k <= 7
    ensures AskedFlags(flags, k) == [] <==> forall i :: k <= i < 7 ==> FlagAt(i) !in FlagsIn(flags)
    decreases 7 - k
  {
    if k < 7 {
      AnyAsked(flags, k + 1);
      LetterIs(k);
      hide Letters, FlagLetter, FlagName, FlagAt;
    }
  }

  lemma NoneAsked(flags: string)
    ensures AskedFlags(flags, 0) == [] <==> FlagsIn(flags) == {}
  {
    AnyAsked(flags, 0);
    if f :| f in FlagsIn(flags) {
      assert FlagAt(Position(f)) == f;
    }
  }

  lemma OptionalReadsBack(word: string, key: Key, v: Option<string>, rest: string, items: seq<Item>)
    requires IsName(word) && KeyOf(word) == Some(key)
    ensures ReadItems(Lex((if v.Some? then SettingLine(word, v.value) else "") + rest))
            == Some((if v.Some? then [Setting(key, v.value)] else []) + items)
            <==> (v.Some? ==> Plain(v.value)) && ReadItems(Lex(rest)) == Some(items)
  {
    hide *;
    assert "" + rest == rest && [] + items == items;
    if v.Some? {
      SettingReadsBack(word, key, v.value, rest, items);
    }
  }

  lemma FlagsLineReadsBack(flags: string, rest: string, items: seq<Item>)
    ensures ReadItems(Lex(Flat(FlagLines(FlagsIn(flags))) + rest))
            == Some((if AskedFlags(flags, 0) == [] then [] else [Flags(AskedFlags(flags, 0))]) + items)
            <==> ReadItems(Lex(rest)) == Some(items)
  {
    var names := AskedFlags(flags, 0);
    NamesAsked(flags, 0);
    NoneAsked(flags);
    hide Lex, ReadItems, FlagsIn, AskedFlags, FlagNames, Join, IsFlag, IsName, FlagsStart, After;
    if names == [] {
      assert Flat(FlagLines({})) == "" && "" + rest == rest && [] + items == items;
    } else {
      FlagLineText(FlagsIn(flags));
      FlagsReadBack(names, rest, items);
    }
  }

  lemma LinesAreSettings(b: Block)
    ensures UserLine(b.user, b.host) == SettingLine("user", b.user + "@" + b.host)
    ensures Flat(SpoofLines(b)) == if b.spoof.Some? then SettingLine("spoof", b.spoof.value) else ""
    ensures Flat(PasswordLines(b)) == if b.password.Some? then SettingLine("password", b.password.value) else ""
    ensures ClassLine(b.classOpers) == SettingLine("class", if b.classOpers then "opers" else "users")
  {
    UserLineIs(b.user, b.host);
    ValueLinesAre(if b.spoof.Some? then b.spoof.value else "");
    ValueLinesAre(if b.password.Some? then b.password.value else "");
    FlatOne(SpoofLine(if b.spoof.Some? then b.spoof.value else ""));
    FlatOne(PasswordLine(if b.password.Some? then b.password.value else ""));
    ClassLineIs(b.classOpers);
    NoLines();
    hide Flat, SettingLine, UserLine, SpoofLine, PasswordLine, ClassLine;
  }

  lemma UserLineIs(user: string, host: string)
    ensures UserLine(user, host) == SettingLine("user", user + "@" + host)
  {}

  lemma ValueLinesAre(v: string)
    ensures SpoofLine(v) == SettingLine("spoof", v) && PasswordLine(v) == SettingLine("password", v)
  {}

  lemma ClassLineIs(opers: bool)
    ensures ClassLine(opers) == SettingLine("class", if opers then "opers" else "users")
  {}

  lemma NoLines()
    ensures Flat<char>([]) == []
  {}

  lemma KeysAreNames()
    ensures IsName("user") && IsName("spoof") && IsName("password") && IsName("class") && IsName("auth")
    ensures KeyOf("user") == Some(User) && KeyOf("spoof") == Some(Spoof) && KeyOf("password") == Some(Password)
    ensures KeyOf("class") == Some(Class) && Plain("opers") && Plain("users")
  {}

  lemma BlockParts(b: Block)
    ensures BlockText(b)
            == "auth {\n" + (UserLine(b.user, b.host) + (Flat(SpoofLines(b)) + (Flat(PasswordLines(b))
               + (Flat(FlagLines(b.flags)) + (ClassLine(b.classOpers) + ("};\n" + ("\n" + "")))))))
  {
    var head, s, p, f := ["auth {\n", UserLine(b.user, b.host)], SpoofLines(b), PasswordLines(b), FlagLines(b.flags);
    var last := [ClassLine(b.classOpers), "};\n", "\n"];
    hide UserLine, SpoofLines, PasswordLines, FlagLines, ClassLine;
    FlatSum(head + s + p + f, last);
    FlatSum(head + s + p, f);
    FlatSum(head + s, p);
    FlatSum(head, s);
    FlatOfTwo(head[0], head[1]);
    FlatOfThree(last[0], last[1], last[2]);
    hide Flat;
    SumOfSix(head[0], head[1], Flat(s), Flat(p), Flat(f), Flat(last));
  }

  lemma FlatOfTwo(a: string, b: string)
    ensures Flat([a, b]) == a + b
  {
    assert [a, b][1..] == [b];
    FlatOne(b);
  }

  lemma FlatOfThree(a: string, b: string, c: string)
    ensures Flat([a, b, c]) == a + (b + (c + ""))
  {
    assert [a, b, c][1..] == [b, c];
    FlatOfTwo(b, c);
    assert c + "" == c;
  }

  lemma SumOfSix(a: string, b: string, c: string, d: string, e: string, f: string)
    ensures ((((a + b) + c) + d) + e) + f == a + (b + (c + (d + (e + f))))
  {}

  lemma LexAuth(rest: string)
    ensures Lex("auth {\n" + rest) == [Word("auth"), Symbol('{')] + Lex(rest)
  {
    KeysAreNames();
    hide Lex, IsName;
    assert "auth {\n" + rest == "auth" + (" " + ("{" + ("\n" + rest)));
    LexWord("auth", " " + ("{" + ("\n" + rest)));
    LexBlank(' ', "{" + ("\n" + rest));
    LexSymbol('{', "\n" + rest);
    LexBlank('\n', rest);
  }

  lemma AuthReadsBack(rest: string)
    ensures ReadAuth("auth {\n" + rest) == ReadItems(Lex(rest))
  {
    LexAuth(rest);
    hide Lex, ReadItems;
    var tokens := Lex("auth {\n" + rest);
    assert tokens[..2] == [Word("auth"), Symbol('{')] && tokens[2..] == Lex(rest);
  }

  // The appended block reads back as it was asked for exactly when all values are plain.
  lemma BlockReadsBack(mask: string, spoof: string, flags: string, password: string)
    ensures ReadAuth(BlockText(RequestedBlock(mask, spoof, flags, password)))
            == Some(Asked(mask, spoof, flags, password))
            <==> Plain(mask) && Plain(spoof) && Plain(password)
  {
    var b := RequestedBlock(mask, spoof, flags, password);
    BlockParts(b);
    LinesAreSettings(b);
    KeysAreNames();
    MaskIsRead(mask);
    PlainWhenAbsent(spoof, password);
    ItemsAsked(mask, spoof, flags, password);
    var user := b.user + "@" + b.host;
    var opers := if b.classOpers then "opers" else "users";
    var flagItem := if AskedFlags(flags, 0) == [] then [] else [Flags(AskedFlags(flags, 0))];
    assert b.flags == FlagsIn(flags);
    hide *;
    var i4 := [Setting(Class, opers)] + [];
    var i3 := flagItem + i4;
    var i2 := (if b.password.Some? then [Setting(Password, b.password.value)] else []) + i3;
    var i1 := (if b.spoof.Some? then [Setting(Spoof, b.spoof.value)] else []) + i2;
    var t5 := "};\n" + ("\n" + "");
    var t4 := ClassLine(b.classOpers) + t5;
    var t3 := Flat(FlagLines(b.flags)) + t4;
    var t2 := Flat(PasswordLines(b)) + t3;
    var t1 := Flat(SpoofLines(b)) + t2;
    EndReadsBack();
    SettingReadsBack("class", Class, opers, t5, []);
    FlagsLineReadsBack(flags, t4, i4);
    OptionalReadsBack("password", Password, b.password, t3, i3);
    OptionalReadsBack("spoof", Spoof, b.spoof, t2, i2);
    SettingReadsBack("user", User, user, t1, i1);
    AuthReadsBack(UserLine(b.user, b.host) + t1);
  }

  lemma MaskIsRead(mask: string)
    ensures UserOf(mask) + "@" + HostOf(mask) == if '@' in mask then mask else "*@" + mask
    ensures Plain(UserOf(mask) + "@" + HostOf(mask)) <==> Plain(mask)
  {
    var user, host := UserOf(mask), HostOf(mask);
    if '@' in mask {
      var i := IndexOf(mask, '@');
      assert mask == mask[..i] + [mask[i]] + mask[i + 1..];
    } else {
      assert forall c :: c in "*@" + mask <==> c == '*' || c == '@' || c in mask;
    }
  }

  lemma PlainWhenAbsent(spoof: string, password: string)
    ensures spoof == "-" ==> Plain(spoof)
    ensures password == "" ==> Plain(password)
  {}

  lemma ItemsAsked(mask: string, spoof: string, flags: string, password: string)
    ensures var b, names := RequestedBlock(mask, spoof, flags, password), AskedFlags(flags, 0);
            Asked(mask, spoof, flags, password)
            == [Setting(User, if '@' in mask then mask else "*@" + mask)]
               + ((if b.spoof.Some? then [Setting(Spoof, b.spoof.value)] else [])
                  + ((if b.password.Some? then [Setting(Password, b.password.value)] else [])
                     + ((if names == [] then [] else [Flags(names)])
                        + ([Setting(Class, if b.classOpers then "opers" else "users")] + []))))
  {
    hide UserOf, HostOf, FlagsIn, AskedFlags;
  }

  // -------- the command

  // mo_spoof, from the split of the mask to the end of the block
  method MoSpoof(file: string, mask: string, spoof: string, flags: string, password: string) returns (f: string)
    ensures f == file + BlockText(RequestedBlock(mask, spoof, flags, password))
    ensures ReadAuth(f[|file|..]) == Some(Asked(mask, spoof, flags, password))
            <==> Plain(mask) && Plain(spoof) && Plain(password)
  {
    var user, host := UserOf(mask), HostOf(mask);
    f := file + "auth {\n";
    ghost var lines := ["auth {\n"];
    FirstLine(file);
    hide UserLine, SpoofLine, PasswordLine, ClassLine, FlagLines, Flat, RequestedBlock, FlagsIn, Asked, ReadAuth, Plain;
    PushLine(file, f, lines, UserLine(user, host));
    f := f + UserLine(user, host);
    lines := lines + [UserLine(user, host)];
    if spoof != "-" {
      PushLine(file, f, lines, SpoofLine(spoof));
      f := f + SpoofLine(spoof);
      lines := lines + [SpoofLine(spoof)];
    }
    if password != "" {
      PushLine(file, f, lines, PasswordLine(password));
      f := f + PasswordLine(password);
      lines := lines + [PasswordLine(password)];
    }
    var i, classOpers := ReadFlags(flags);
    FlatSum(lines, FlagLines(i));
    f := WriteFlags(f, i);
    lines := lines + FlagLines(i);
    PushLine(file, f, lines, ClassLine(classOpers));
    f := f + ClassLine(classOpers);
    lines := lines + [ClassLine(classOpers)];
    PushLine(file, f, lines, "};\n");
    PushLine(file, f + "};\n", lines + ["};\n"], "\n");
    assert "};\n\n" == "};\n" + "\n";
    f := f + "};\n\n";
    lines := lines + ["};\n"] + ["\n"];
    RequestedLines(mask, spoof, flags, password);
    BlockReadsBack(mask, spoof, flags, password);
    Appended(file, BlockText(RequestedBlock(mask, spoof, flags, password)));
  }

  lemma Appended(file: string, text: string)
    ensures (file + text)[|file|..] == text
  {}

  lemma RequestedLines(mask: string, spoof: string, flags: string, password: string)
    ensures var lines := ["auth {\n"] + [UserLine(UserOf(mask), HostOf(mask))];
            var lines := if spoof != "-" then lines + [SpoofLine(spoof)] else lines;
            var lines := if password != "" then lines + [PasswordLine(password)] else lines;
            var lines := lines + FlagLines(FlagsIn(flags)) + [ClassLine('o' in flags)] + ["};\n"] + ["\n"];
            lines == BlockLines(RequestedBlock(mask, spoof, flags, password))
  {
    hide UserLine, SpoofLine, PasswordLine, ClassLine, FlagLines, FlagsIn, UserOf, HostOf;
    var b := RequestedBlock(mask, spoof, flags, password);
    var head, spoofs, passwords := ["auth {\n"] + [UserLine(b.user, b.host)], SpoofLines(b), PasswordLines(b);
    assert head == ["auth {\n", UserLine(b.user, b.host)];
    assert head + spoofs == if spoof != "-" then head + [SpoofLine(spoof)] else head;
    var more := head + spoofs;
    assert more + passwords == if password != "" then more + [PasswordLine(password)] else more;
    var all := more + passwords + FlagLines(b.flags);
    hide SpoofLines, PasswordLines;
    ThreeMore(all, ClassLine(b.classOpers), "};\n", "\n");
  }

  lemma ThreeMore(lines: seq<string>, a: string, b: string, c: string)
    ensures lines + [a] + [b] + [c] == lines + [a, b, c]
  {}

  lemma FirstLine(file: string)
    ensures file + "auth {\n" == file + Flat(["auth {\n"])
  {
    assert Flat(["auth {\n"]) == "auth {\n" + "";
  }

  lemma PushLine(file: string, f: string, lines: seq<string>, line: string)
    requires f == file + Flat(lines)
    ensures f + line == file + Flat(lines + [line])
  {
    FlatSum(lines, [line]);
    assert Flat([line]) == line;
  }
}
