/**
 How the server reads an auth block back: the part of src/ircd_lexer.l and src/ircd_parser.y that
 concerns the items SPOOF writes. The reader knows nothing of the writer.
 */
module AuthReader {
  import opened Options

  // -------- tokens

  datatype Token = Word(word: string) | Quoted(value: string) | Symbol(c: char) | Unterminated

  predicate IsBlank(c: char) { c == ' ' || c == '\t' || c == '\n' }

  predicate IsWordChar(c: char) { 'a' <= c <= 'z' || c == '_' }

  function WordLength(s: string): (n: nat)
    ensures n <= |s|
  {
    if s == "" || !IsWordChar(s[0]) then 0 else 1 + WordLength(s[1..])
  }

  // Where a quoted string ends: at a quote on the same line with no backslash in front.
  function QuoteLength(s: string, escaped: bool): (n: Option<nat>)
    ensures n.Some? ==> n.value < |s|
  {
    if s == "" || s[0] == '\n' then None
    else if s[0] == '\"' && !escaped then Some(0)
    else
      var n := QuoteLength(s[1..], s[0] == '\\');
      if n.None? then None else Some(1 + n.value)
  }

  // A backslash gives way to the character behind it.
  function Unescaped(s: string): (t: string)
    ensures |t| <= |s|
  {
    if s == "" then ""
    else if s[0] != '\\' then [s[0]] + Unescaped(s[1..])
    else if |s| == 1 then "" else [s[1]] + Unescaped(s[2..])
  }

  function Lex(s: string): seq<Token>
    decreases |s|
  {
    if s == "" then []
    else if IsBlank(s[0]) then Lex(s[1..])
    else if IsWordChar(s[0]) then [Word(s[..WordLength(s)])] + Lex(s[WordLength(s)..])
    else if s[0] == '\"' then
      var n := QuoteLength(s[1..], false);
      if n.None? then [Unterminated] else [Quoted(Unescaped(s[1..][..n.value]))] + Lex(s[1..][n.value + 1..])
    else [Symbol(s[0])] + Lex(s[1..])
  }

  // -------- items

  datatype Key = User | Spoof | Password | Class

  datatype Item = Setting(key: Key, value: string) | Flags(names: seq<string>)

  function KeyOf(w: string): Option<Key> {
    if w == "user" then Some(User)
    else if w == "spoof" then Some(Spoof)
    else if w == "password" then Some(Password)
    else if w == "class" then Some(Class) else None
  }

  predicate IsFlag(w: string) {
    || w == "no_tilde" || w == "need_ident" || w == "kline_exempt" || w == "gline_exempt"
    || w == "exceed_limit" || w == "can_flood" || w == "need_password"
  }

  // Names between commas, up to the semicolon; and what follows.
  function ReadNames(tokens: seq<Token>): Option<(seq<string>, seq<Token>)> {
    if |tokens| < 2 || !tokens[0].Word? || !IsFlag(tokens[0].word) then None
    else if tokens[1] == Symbol(';') then Some(([tokens[0].word], tokens[2..]))
    else if tokens[1] != Symbol(',') then None
    else
      var more := ReadNames(tokens[2..]);
      if more.None? then None else Some(([tokens[0].word] + more.value.0, more.value.1))
  }

  function ReadItem(tokens: seq<Token>): Option<(Item, seq<Token>)> {
    if |tokens| < 4 || !tokens[0].Word? || tokens[1] != Symbol('=') then None
    else if tokens[0].word == "flags" then
      var names := ReadNames(tokens[2..]);
      if names.None? then None else Some((Flags(names.value.0), names.value.1))
    else if KeyOf(tokens[0].word).Some? && tokens[2].Quoted? && tokens[3] == Symbol(';')
    then Some((Setting(KeyOf(tokens[0].word).value, tokens[2].value), tokens[4..]))
    else None
  }

  // The items up to the closing brace, with which the text ends.
  function ReadItems(tokens: seq<Token>): Option<seq<Item>>
    decreases |tokens|
  {
    if tokens == [Symbol('}'), Symbol(';')] then Some([])
    else
      var first := ReadItem(tokens);
      if first.None? || |first.value.1| >= |tokens| then None
      else
        var more := ReadItems(first.value.1);
        if more.None? then None else Some([first.value.0] + more.value)
  }

  function ReadAuth(text: string): Option<seq<Item>> {
    var tokens := Lex(text);
    if |tokens| >= 2 && tokens[..2] == [Word("auth"), Symbol('{')] then ReadItems(tokens[2..]) else None
  }
}
