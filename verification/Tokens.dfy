/**
 The words of a text, as strtoken of src/irc_string.c cuts them at blanks.
 */
module Tokens {
  import opened CBuffer
  import opened Sequences

  predicate IsWord(s: string) { s != "" && ' ' !in s && IsText(s) }

  ghost predicate AreWords(words: seq<string>) { forall w :: w in words ==> IsWord(w) }

  function WordEnd(s: string): (n: nat)
    ensures n <= |s| && (n < |s| ==> s[n] == ' ') && ' ' !in s[..n]
  {
    if s == "" || s[0] == ' ' then 0 else
      assert forall n :: 0 <= n <= |s| - 1 ==> s[..n + 1] == [s[0]] + s[1..][..n];
      1 + WordEnd(s[1..])
  }

  // The words of a text, between blanks.
  function Words(s: string): seq<string>
    decreases |s|
  {
    if s == "" then []
    else if s[0] == ' ' then Words(s[1..])
    else [s[..WordEnd(s)]] + Words(s[WordEnd(s)..])
  }

  lemma {:induction false} WordEndAfter(word: string, rest: string)
    requires ' ' !in word && (rest == "" || rest[0] == ' ')
    ensures WordEnd(word + rest) == |word|
  {
    if word == "" {
      assert word + rest == rest;
    } else {
      assert (word + rest)[1..] == word[1..] + rest;
      WordEndAfter(word[1..], rest);
    }
  }

  lemma WordAhead(word: string, rest: string)
    requires IsWord(word) && (rest == "" || rest[0] == ' ')
    ensures Words(word + rest) == [word] + Words(rest)
  {
    var s := word + rest;
    WordEndAfter(word, rest);
    assert s[0] == word[0];
    assert s[..|word|] == word && s[|word|..] == rest;
  }

  lemma BlankAhead(s: string)
    ensures Words(" " + s) == Words(s)
  {
    assert (" " + s)[1..] == s;
  }

  // The words with a blank after each but the last.
  function Spaced(words: seq<string>): string {
    if words == [] then "" else words[0] + if |words| == 1 then "" else " " + Spaced(words[1..])
  }

  predicate IsTail(tail: string) { forall c :: c in tail ==> c == ' ' }

  lemma {:induction false} TailHasNoWords(tail: string)
    requires IsTail(tail)
    ensures Words(tail) == [] && (tail == "" || tail[0] == ' ')
  {
    if tail != "" {
      assert tail[0] in tail;
      assert forall c :: c in tail[1..] ==> c in tail;
      TailHasNoWords(tail[1..]);
    }
  }

  lemma {:induction false} SpacedReadsBack(words: seq<string>, tail: string)
    requires AreWords(words) && words != [] && IsTail(tail)
    ensures Words(Spaced(words) + tail) == words
  {
    var w, rest := words[0], words[1..];
    assert w in words;
    TailHasNoWords(tail);
    hide IsWord, Words, IsTail;
    if |words| == 1 {
      WordAhead(w, tail);
      assert w + "" == w;
    } else {
      assert forall v :: v in rest ==> v in words;
      SpacedReadsBack(rest, tail);
      var s := Spaced(rest);
      WordAhead(w, " " + (s + tail));
      BlankAhead(s + tail);
      Regroup(w, " " + s, tail);
      Regroup(" ", s, tail);
    }
  }

  lemma BlankSkipped(s: string, i: nat)
    requires i < |s| && s[i] == ' '
    ensures Words(s[i..]) == Words(s[i + 1..])
  {
    BlankAhead(s[i + 1..]);
    assert s[i..] == " " + s[i + 1..];
  }

  lemma TokenAhead(s: string, from: nat, to: nat)
    requires from < to <= |s| && (forall k :: from <= k < to ==> s[k] != ' ') && (to < |s| ==> s[to] == ' ')
    ensures Words(s[from..]) == [s[from..to]] + Words(s[to..])
  {
    var token, rest := s[from..to], s[to..];
    WordEndAfter(token, rest);
    assert s[from..] == token + rest;
    var t := token + rest;
    assert t[0] == token[0] && token[0] in token;
    assert t[..|token|] == token && t[|token|..] == rest;
  }

  lemma NothingLeft(s: string)
    ensures Words(s[|s|..]) == []
  {}

  // strtoken(&p, str, " "), with the position it saves as `next`: the token is s[from..to].
  method StrToken(s: string, start: nat) returns (found: bool, from: nat, to: nat, next: nat)
    requires start <= |s|
    ensures start <= from <= to <= next <= |s| && (found ==> start < next)
    ensures Words(s[start..]) == if found then [s[from..to]] + Words(s[next..]) else []
  {
    hide Words, WordEnd;
    from := start;
    while from < |s| && s[from] == ' '
      invariant start <= from <= |s| && Words(s[start..]) == Words(s[from..])
    {
      BlankSkipped(s, from);
      from := from + 1;
    }
    to, next, found := from, from, false;
    if from == |s| {
      NothingLeft(s);
      return;
    }
    found := true;
    while to < |s| && s[to] != ' '
      invariant from <= to <= |s| && (forall k :: from <= k < to ==> s[k] != ' ') && (to == from ==> s[to] != ' ')
    {
      to := to + 1;
    }
    TokenAhead(s, from, to);
    next := to;
    if to < |s| {
      BlankSkipped(s, to);
      next := to + 1;
    }
  }
}
