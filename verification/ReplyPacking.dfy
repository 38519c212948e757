/**
 The replies that list many names over several lines: the accept list, the users on no public
 channel, and the channels in an operator's WHOIS. Each fills one 512-byte buffer; what is sent is
 proved to be the greedy packing, to fit the protocol's line, and to read back as the names.
 */
module ReplyPacking {
  import opened CBuffer
  import opened GreedyPacking
  import opened Sequences
  import opened Tokens

  const HOSTLEN: nat := 63
  const CHANNELLEN: nat := 50

  // -------- names, and reading them back

  // A server name or a nick, in its field of HOSTLEN characters.
  predicate IsName(s: string) { IsWord(s) && |s| <= HOSTLEN }

  ghost predicate AreNames(names: seq<string>) { forall n :: n in names ==> IsName(n) }

  // -------- lines

  // The word a piece writes, without its blank.
  function Word(p: Piece): string { if p.text == "" then "" else p.text[..|p.text| - 1] }

  predicate IsListed(p: Piece) { p.text == Word(p) + " " && IsWord(Word(p)) }

  ghost predicate AreListed(line: seq<Piece>) { forall p :: p in line ==> IsListed(p) }

  function WordsOf(line: seq<Piece>): seq<string> {
    if line == [] then [] else [Word(line[0])] + WordsOf(line[1..])
  }

  lemma {:induction false} WordsOfAreWords(line: seq<Piece>)
    requires AreListed(line)
    ensures AreWords(WordsOf(line)) && |WordsOf(line)| == |line|
  {
    if line != [] {
      assert line[0] in line;
      assert forall p :: p in line[1..] ==> p in line;
      WordsOfAreWords(line[1..]);
    }
  }

  lemma TextFront(line: seq<Piece>)
    requires line != []
    ensures Text(line) == line[0].text + Text(line[1..])
  {
    var first := line[0];
    assert line == [first] + line[1..];
    TextSum([first], line[1..]);
    TextAppend([], first);
    assert [] + [first] == [first];
  }

  lemma {:induction false} TextIsSpaced(line: seq<Piece>)
    requires AreListed(line) && line != []
    ensures Text(line) == Spaced(WordsOf(line)) + " "
  {
    var first, rest := line[0], line[1..];
    TextFront(line);
    assert first in line;
    assert forall p :: p in rest ==> p in line;
    hide Text, Word, IsWord;
    if rest == [] {
      TextOfNothing();
      assert Text(line) == Word(first) + " ";
      assert WordsOf(line) == [Word(first)];
      assert Word(first) + "" == Word(first);
    } else {
      TextIsSpaced(rest);
      WordsOfAreWords(rest);
      var words := WordsOf(rest);
      assert ([Word(first)] + words)[1..] == words;
      assert Spaced(WordsOf(line)) == Word(first) + (" " + Spaced(words));
      Regroup(Word(first), " " + Spaced(words), " ");
      Regroup(" ", Spaced(words), " ");
      Regroup(Word(first), " ", Spaced(words) + " ");
    }
  }

  // -------- what is sent

  // The reply for a line of pieces, of which the last `cut` characters are overwritten.
  function Reply(header: string, line: seq<Piece>, cut: nat): string {
    var t := Text(line);
    Sent(header + if cut <= |t| then t[..|t| - cut] else "")
  }

  function Replies(header: string, lines: seq<seq<Piece>>, cut: nat): seq<string> {
    if lines == [] then [] else Replies(header, lines[..|lines| - 1], cut) + [Reply(header, lines[|lines| - 1], cut)]
  }

  lemma ReplyIs(header: string, line: seq<Piece>, body: string)
    requires Text(line) == body + " "
    ensures Reply(header, line, 1) == Sent(header + body) && Reply(header, line, 0) == Sent(header + (body + " "))
  {
    hide Text, Sent;
    var t := body + " ";
    assert t[..|t| - 1] == body && t[..|t| - 0] == t;
  }

  lemma {:induction false} WordsOfSum(a: seq<Piece>, b: seq<Piece>)
    ensures WordsOf(a + b) == WordsOf(a) + WordsOf(b)
  {
    if a == [] {
      assert a + b == b;
    } else {
      assert (a + b)[1..] == a[1..] + b;
      WordsOfSum(a[1..], b);
    }
  }

  ghost predicate GoodLines(header: string, lines: seq<seq<Piece>>) {
    forall l :: l in lines ==> l != [] && AreListed(l) && |header| + |Text(l)| <= 511
  }

  lemma WordsOfNothing(header: string, cut: nat)
    ensures Replies(header, [], cut) == [] && Flat<Piece>([]) == [] && WordsOf([]) == []
  {}

  lemma GoodLast(header: string, lines: seq<seq<Piece>>)
    requires GoodLines(header, lines) && lines != []
    ensures var front, last := lines[..|lines| - 1], lines[|lines| - 1];
            && lines == front + [last] && GoodLines(header, front)
            && last != [] && AreListed(last) && |header| + |Text(last)| <= 511
  {
    hide AreListed, Text;
    var front, last := lines[..|lines| - 1], lines[|lines| - 1];
    assert last in lines;
    assert lines == front + [last];
    assert forall l :: l in front ==> l in lines;
  }

  lemma RepliesGrow(header: string, lines: seq<seq<Piece>>, line: seq<Piece>, cut: nat)
    ensures Replies(header, lines + [line], cut) == Replies(header, lines, cut) + [Reply(header, line, cut)]
  {
    assert (lines + [line])[..|lines|] == lines;
  }

  // Each piece writes at most `slack` characters more than it asks for.
  ghost predicate WithinSlack(pieces: seq<Piece>, slack: nat) {
    forall p :: p in pieces ==> |p.text| <= p.need + slack
  }

  lemma FittingLength(line: seq<Piece>, limit: int, slack: nat)
    requires line != [] && Fits(line, limit) && WithinSlack(line, slack)
    ensures |Text(line)| <= limit + slack
  {
    var n := |line| - 1;
    assert line[n] in line;
  }

  lemma {:induction false} InFlat<T>(lines: seq<seq<T>>, line: seq<T>, x: T)
    requires line in lines && x in line
    ensures x in Flat(lines)
  {
    if lines[0] != line {
      InFlat(lines[1..], line, x);
    }
  }

  // -------- the whole line, read by a client that knows nothing of its header

  // The words of a line without its end.
  function LineWords(reply: string): seq<string> {
    if |reply| >= 2 && reply[|reply| - 2..] == "\r\n" then Words(reply[..|reply| - 2]) else []
  }

  // Prefix, number and parameters: the first n words.
  function Heading(reply: string, n: nat): seq<string> {
    if n <= |LineWords(reply)| then LineWords(reply)[..n] else []
  }

  // The names in the last parameter, which starts with a colon.
  function Listing(reply: string, n: nat): seq<string> {
    var words := LineWords(reply);
    if n < |words| && |words[n]| >= 2 && words[n][0] == ':' then [words[n][1..]] + words[n + 1..] else []
  }

  function Listings(replies: seq<string>, n: nat): seq<string> {
    if replies == [] then [] else Listings(replies[..|replies| - 1], n) + Listing(replies[|replies| - 1], n)
  }

  // All replies have the heading, and together they list these words.
  ghost predicate ReadsAs(replies: seq<string>, heading: seq<string>, list: seq<string>) {
    && (forall r :: r in replies ==> Heading(r, |heading|) == heading)
    && Listings(replies, |heading|) == list
  }

  lemma {:induction false} SpacedSum(a: seq<string>, b: seq<string>)
    requires a != [] && b != []
    ensures Spaced(a + b) == Spaced(a) + (" " + Spaced(b))
  {
    if |a| == 1 {
      assert (a + b)[1..] == b;
      assert a[0] + "" == a[0];
    } else {
      assert (a + b)[1..] == a[1..] + b;
      SpacedSum(a[1..], b);
      assert Spaced(a) == a[0] + (" " + Spaced(a[1..]));
      var later := " " + Spaced(b);
      assert (a[0] + (" " + Spaced(a[1..]))) + later == a[0] + (" " + (Spaced(a[1..]) + later));
    }
  }

  lemma ColonFirst(words: seq<string>)
    requires words != []
    ensures Spaced([":" + words[0]] + words[1..]) == ":" + Spaced(words)
  {
    assert ([":" + words[0]] + words[1..])[1..] == words[1..];
  }

  lemma AllAreWords(heading: seq<string>, words: seq<string>)
    requires AreWords(heading) && AreWords(words) && words != []
    ensures AreWords(heading + ([":" + words[0]] + words[1..]))
  {
    assert words[0] in words;
    ColonWord(words[0]);
    assert forall w :: w in words[1..] ==> w in words;
    hide IsWord;
  }

  lemma LineRegrouped(a: string, s: string, tail: string)
    ensures (a + " :") + (s + tail) == (a + (" " + (":" + s))) + tail
  {
    assert " :" == " " + ":";
    Regroup(a, " " + (":" + s), tail);
    Regroup(" ", ":" + s, tail);
    Regroup(":", s, tail);
    Regroup(a, " " + ":", s + tail);
    Regroup(" ", ":", s + tail);
  }

  lemma PartsOfWords(heading: seq<string>, words: seq<string>, reply: string)
    requires words != [] && words[0] != "" && LineWords(reply) == heading + ([":" + words[0]] + words[1..])
    ensures Heading(reply, |heading|) == heading && Listing(reply, |heading|) == words
  {
    hide LineWords;
    var all := heading + ([":" + words[0]] + words[1..]);
    assert all[..|heading|] == heading && all[|heading|] == ":" + words[0];
    assert all[|heading| + 1..] == words[1..];
    assert (":" + words[0])[1..] == words[0] && [words[0]] + words[1..] == words;
  }

  // A line made of heading, colon, words and blanks.
  lemma LineIsRead(heading: seq<string>, words: seq<string>, tail: string)
    requires AreWords(heading) && heading != [] && AreWords(words) && words != [] && IsTail(tail)
    ensures var reply := ((Spaced(heading) + " :") + (Spaced(words) + tail)) + "\r\n";
            Heading(reply, |heading|) == heading && Listing(reply, |heading|) == words
  {
    assert words[0] in words;
    assert words[0] != "";
    hide *;
    var colon := [":" + words[0]] + words[1..];
    AllAreWords(heading, words);
    SpacedSum(heading, colon);
    ColonFirst(words);
    SpacedReadsBack(heading + colon, tail);
    LineRegrouped(Spaced(heading), Spaced(words), tail);
    var line := (Spaced(heading) + " :") + (Spaced(words) + tail);
    WholeLine(line, heading + colon);
    PartsOfWords(heading, words, line + "\r\n");
  }

  lemma ColonWord(w: string)
    requires IsWord(w)
    ensures IsWord(":" + w)
  {}

  lemma WholeLine(line: string, words: seq<string>)
    requires Words(line) == words
    ensures LineWords(line + "\r\n") == words
  {
    var reply := line + "\r\n";
    assert reply[|reply| - 2..] == "\r\n" && reply[..|reply| - 2] == line;
  }

  // A reply reads as its heading and its words, even when cutting its line to 510 characters takes the
  // last blank away.
  lemma ReplyIsRead(heading: seq<string>, line: seq<Piece>, cut: nat)
    requires AreWords(heading) && heading != [] && AreListed(line) && line != [] && cut <= 1
    requires |Spaced(heading) + " :"| + |Text(line)| <= 511
    ensures var reply := Reply(Spaced(heading) + " :", line, cut);
            && Heading(reply, |heading|) == heading && Listing(reply, |heading|) == WordsOf(line)
            && |reply| <= IRCD_BUFSIZE
  {
    TextIsSpaced(line);
    WordsOfAreWords(line);
    var header, words := Spaced(heading) + " :", WordsOf(line);
    var body := Spaced(words);
    assert |words| == |line| && words != [];
    assert IsTail("") && IsTail(" ");
    hide *;
    ReplyIs(header, line, body);
    LineIsRead(heading, words, "");
    LineIsRead(heading, words, " ");
    assert body + "" == body;
    SentIsCut(header, body);
    if cut == 0 {
      assert Reply(header, line, cut) == Reply(header, line, 0);
    } else {
      assert Reply(header, line, cut) == Reply(header, line, 1);
    }
  }

  // Cutting the line takes at most its last blank.
  lemma SentIsCut(header: string, body: string)
    requires |header| + |body| <= 510
    ensures Sent(header + body) == (header + body) + "\r\n"
    ensures Sent(header + (body + " ")) == (header + body) + "\r\n"
            || Sent(header + (body + " ")) == (header + (body + " ")) + "\r\n"
  {
    if |header| + |body| == 510 {
      assert (header + (body + " "))[..510] == header + body;
    }
  }

  lemma {:induction false} RepliesAreRead(heading: seq<string>, lines: seq<seq<Piece>>, cut: nat)
    requires AreWords(heading) && heading != [] && cut <= 1 && GoodLines(Spaced(heading) + " :", lines)
    ensures var replies := Replies(Spaced(heading) + " :", lines, cut);
            && ReadsAs(replies, heading, WordsOf(Flat(lines))) && |replies| == |lines|
            && forall r :: r in replies ==> |r| <= IRCD_BUFSIZE
  {
    var header := Spaced(heading) + " :";
    if lines == [] {
      WordsOfNothing(header, cut);
      NothingReads(heading);
    } else {
      var front, last := lines[..|lines| - 1], lines[|lines| - 1];
      GoodLast(header, lines);
      hide *;
      RepliesAreRead(heading, front, cut);
      ReplyIsRead(heading, last, cut);
      FlatAppend(front, last);
      WordsOfSum(Flat(front), last);
      RepliesGrow(header, front, last, cut);
      ReadsMore(Replies(header, front, cut), Reply(header, last, cut), heading, WordsOf(Flat(front)));
    }
  }

  lemma NothingReads(heading: seq<string>)
    ensures ReadsAs([], heading, [])
  {}

  lemma ReadsMore(replies: seq<string>, reply: string, heading: seq<string>, list: seq<string>)
    requires ReadsAs(replies, heading, list) && Heading(reply, |heading|) == heading
    ensures ReadsAs(replies + [reply], heading, list + Listing(reply, |heading|))
  {
    hide Heading, Listing;
    assert (replies + [reply])[..|replies|] == replies;
  }

  lemma PackedLinesAreGood(header: string, pieces: seq<Piece>, limit: int, slack: nat)
    requires AreListed(pieces) && Packable(pieces, limit) && WithinSlack(pieces, slack)
    requires |header| + limit + slack <= 511
    ensures GoodLines(header, Lines(pieces, limit)) && Flat(Lines(pieces, limit)) == pieces
    ensures forall l :: l in Lines(pieces, limit) ==> l != [] && |Text(l)| <= limit + slack
  {
    var lines := Lines(pieces, limit);
    PackLosesNothing([], pieces, limit);
    assert [] + pieces == pieces;
    PackFits([], pieces, limit);
    forall l | l in lines
      ensures l != [] && AreListed(l) && |Text(l)| <= limit + slack
    {
      forall p | p in l ensures p in pieces { InFlat(lines, l, p); }
      FittingLength(l, limit, slack);
    }
  }

  // What every packer here sends reads as its heading and its list.
  lemma PackedRepliesAreRead(heading: seq<string>, pieces: seq<Piece>, limit: int, slack: nat, cut: nat)
    requires AreListed(pieces) && Packable(pieces, limit) && WithinSlack(pieces, slack)
    requires AreWords(heading) && heading != [] && cut <= 1 && |Spaced(heading) + " :"| + limit + slack <= 511
    ensures var lines := Lines(pieces, limit);
            var replies := Replies(Spaced(heading) + " :", lines, cut);
            && ReadsAs(replies, heading, WordsOf(pieces)) && |replies| == |lines|
            && (forall r :: r in replies ==> |r| <= IRCD_BUFSIZE)
            && forall l :: l in lines ==> l != [] && |Text(l)| <= limit + slack
  {
    hide *;
    PackedLinesAreGood(Spaced(heading) + " :", pieces, limit, slack);
    RepliesAreRead(heading, Lines(pieces, limit), cut);
  }
}
