/**
 The three packers: list_accepts of modules/m_accept.c, names_non_public_non_secret of
 modules/m_names.c and the channel list of operspy_whois in contrib/m_operspy.c.
 */
module ReplyPackers {
  import opened CBuffer
  import opened GreedyPacking
  import opened ReplyPacking
  import opened Sequences
  import opened Tokens

  function NamePieces(names: seq<string>, cut: nat): (pieces: seq<Piece>)
    requires cut <= 1
    ensures |pieces| == |names|
  {
    seq(|names|, i requires 0 <= i < |names| => Piece(names[i] + " ", |names[i]| + 1 - cut))
  }

  // -------- the loop all three share: what one turn does to the packing

  ghost predicate Packing(done: seq<seq<Piece>>, open: seq<Piece>, rest: seq<Piece>, limit: int, all: seq<seq<Piece>>) {
    done + Pack(open, rest, limit) == all
  }

  lemma Appends(done: seq<seq<Piece>>, open: seq<Piece>, rest: seq<Piece>, limit: int, all: seq<seq<Piece>>)
    requires Packing(done, open, rest, limit, all) && rest != [] && |Text(open)| + rest[0].need <= limit
    ensures Packing(done, open + [rest[0]], rest[1..], limit, all)
  {}

  lemma Flushes(done: seq<seq<Piece>>, open: seq<Piece>, rest: seq<Piece>, limit: int, all: seq<seq<Piece>>)
    requires Packing(done, open, rest, limit, all) && rest != []
    requires |Text(open)| + rest[0].need > limit && rest[0].need <= limit
    ensures Packing(done + [open], [], rest, limit, all)
  {
    var tail := Pack([rest[0]], rest[1..], limit);
    assert [] + [rest[0]] == [rest[0]];
    assert Pack([], rest, limit) == tail by { TextOfNothing(); }
    assert (done + [open]) + tail == done + ([open] + tail);
  }

  lemma StartsEmpty(header: string, pieces: seq<Piece>, limit: int, cut: nat)
    ensures Packing([], [], pieces, limit, Lines(pieces, limit)) && Replies(header, [], cut) == [] && Text([]) == ""
  {}

  lemma Finishes(done: seq<seq<Piece>>, open: seq<Piece>, limit: int, all: seq<seq<Piece>>)
    requires Packing(done, open, [], limit, all)
    ensures all == if open == [] then done else done + [open]
  {}

  // -------- list_accepts

  function AcceptHeader(me: string, nick: string): string { ":" + me + " 281 " + nick + " :" }

  function AcceptLimit(me: string, nick: string): int { IRCD_BUFSIZE - (|me| + |nick| + 12) }

  // The buffer starts with the open line, and `t` is where the next name goes.
  ghost predicate Started(nicks: array<char>, t: nat, open: seq<Piece>)
    reads nicks
  {
    && nicks.Length == IRCD_BUFSIZE && t == |Text(open)| < IRCD_BUFSIZE
    && nicks[..t] == Text(open) && IsText(Text(open))
  }

  // And the buffer is empty as a C string exactly when no name is in it.
  ghost predicate Collected(nicks: array<char>, t: nat, open: seq<Piece>)
    reads nicks
  {
    Started(nicks, t, open) && if open == [] then nicks[0] == '\0' else t >= 1 && nicks[0] != '\0'
  }

  // t += ircsprintf(t, "%s ", name)
  method AppendNick(nicks: array<char>, t: nat, name: string, ghost open: seq<Piece>) returns (t': nat)
    requires Started(nicks, t, open) && t + |name| + 1 < IRCD_BUFSIZE && IsText(name)
    modifies nicks
    ensures Collected(nicks, t', open + [Piece(name + " ", |name|)])
  {
    ghost var before := Text(open);
    TextAppend(open, Piece(name + " ", |name|));
    hide Text;
    var l := Write(nicks, t, name + " ");
    t' := t + l;
    assert IsText(before + (name + " "));
    assert nicks[0] == nicks[..t'][0];
  }

  // *(t - 1) = '\0' and sendto_one
  method SendNicks(nicks: array<char>, t: nat, sent: seq<string>, header: string, ghost done: seq<seq<Piece>>,
                   ghost open: seq<Piece>)
    returns (sent': seq<string>)
    requires Collected(nicks, t, open) && open != [] && sent == Replies(header, done, 1)
    modifies nicks
    ensures sent' == Replies(header, done + [open], 1)
    ensures nicks.Length == IRCD_BUFSIZE
  {
    ghost var text := Text(open);
    RepliesGrow(header, done, open, 1);
    ReplyWithout(header, open);
    hide Text, Replies, Reply, Sent, CString;
    nicks[t - 1] := '\0';
    assert nicks[..t - 1] == text[..t - 1];
    CStringIs(nicks[..], text[..t - 1]);
    sent' := sent + [Sent(header + CString(nicks[..]))];
  }

  lemma ReplyWithout(header: string, line: seq<Piece>)
    requires Text(line) != ""
    ensures Reply(header, line, 1) == Sent(header + Text(line)[..|Text(line)| - 1])
  {
    hide Text, Sent;
  }

  lemma StartsOver(nicks: array<char>)
    requires nicks.Length == IRCD_BUFSIZE
    ensures Started(nicks, 0, []) && |Text([])| == 0
    ensures nicks[0] == '\0' ==> Collected(nicks, 0, [])
  {
    TextOfNothing();
  }

  lemma CollectedIs(nicks: array<char>, t: nat, open: seq<Piece>)
    requires Collected(nicks, t, open)
    ensures Started(nicks, t, open) && t == |Text(open)| && nicks.Length == IRCD_BUFSIZE
    ensures nicks[0] == '\0' <==> open == []
    ensures open == [] ==> t == 0
  {
    TextOfNothing();
    hide Text, IsText;
  }

  // What a turn of the loop finds: a name that fits an empty line.
  lemma NickFits(me: string, nick: string, allowList: seq<string>, i: nat)
    requires IsName(me) && IsName(nick) && AreNames(allowList) && i < |allowList|
    ensures var name, pieces := allowList[i], NamePieces(allowList, 1);
            && IsText(name) && |name| <= 63 && |me| + |nick| <= 126 && IRCD_BUFSIZE == 512
            && pieces[i..] != [] && pieces[i..][0] == Piece(name + " ", |name|) && pieces[i..][1..] == pieces[i + 1..]
            && AcceptLimit(me, nick) == 512 - (|me| + |nick| + 12)
  {
    assert allowList[i] in allowList;
  }

  method ListAccepts(me: string, nick: string, allowList: seq<string>) returns (sent: seq<string>)
    requires IsName(me) && IsName(nick) && AreNames(allowList)
    ensures sent == Replies(AcceptHeader(me, nick), Lines(NamePieces(allowList, 1), AcceptLimit(me, nick)), 1)
    ensures ReadsAs(sent, [":" + me, "281", nick], allowList)
  {
    hide *;
    var header := AcceptHeader(me, nick);
    ghost var limit, pieces := AcceptLimit(me, nick), NamePieces(allowList, 1);
    StartsEmpty(header, pieces, limit, 1);
    var nicks := new char[IRCD_BUFSIZE](_ => '\0');
    var len := |me| + |nick| + 12;
    ghost var all := Lines(pieces, limit);
    ghost var done: seq<seq<Piece>>, open: seq<Piece> := [], [];
    var t: nat := 0;
    sent := [];
    BufferIsThere();
    StartsOver(nicks);
    assert pieces[0..] == pieces;
    for i := 0 to |allowList|
      invariant Collected(nicks, t, open)
      invariant sent == Replies(header, done, 1) && Packing(done, open, pieces[i..], limit, all)
    {
      var name := allowList[i];
      NickFits(me, nick, allowList, i);
      CollectedIs(nicks, t, open);
      if t + |name| + len > IRCD_BUFSIZE {
        sent := SendNicks(nicks, t, sent, header, done, open);
        Flushes(done, open, pieces[i..], limit, all);
        t := 0;
        done, open := done + [open], [];
        StartsOver(nicks);
      }
      Appends(done, open, pieces[i..], limit, all);
      t := AppendNick(nicks, t, name, open);
      open := open + [Piece(name + " ", |name|)];
    }
    assert pieces[|allowList|..] == [];
    Finishes(done, open, limit, all);
    CollectedIs(nicks, t, open);
    if nicks[0] != '\0' {
      sent := SendNicks(nicks, t, sent, header, done, open);
    }
    AcceptListReadsBack(me, nick, allowList);
  }

  lemma BufferIsThere()
    ensures IRCD_BUFSIZE == 512
  {}

  // -------- names_non_public_non_secret

  // A client of the global list, with the channels it is on.
  datatype User = User(name: string, isClient: bool, invisible: bool, channels: seq<nat>)

  // Shown to someone who is on the channels `mine`: visible, and not already shown with a channel.
  predicate Shown(u: User, mine: set<nat>) {
    u.isClient && !u.invisible && forall c :: c in u.channels ==> c !in mine
  }

  function ShownNames(users: seq<User>, mine: set<nat>): seq<string> {
    if users == [] then []
    else (if Shown(users[0], mine) then [users[0].name] else []) + ShownNames(users[1..], mine)
  }

  ghost predicate AreUsers(users: seq<User>) { forall u :: u in users ==> IsName(u.name) }

  function NamesHeader(me: string, nick: string): string { ":" + me + " 353 " + nick + " " + "*" + " " + "*" + " :" }

  function NamesLimit(header: string): int { IRCD_BUFSIZE - 2 - |header| }

  lemma NextUser(users: seq<User>, mine: set<nat>, i: nat)
    requires i < |users|
    ensures var now, later := NamePieces(ShownNames(users[i..], mine), 0),
        NamePieces(ShownNames(users[i + 1..], mine), 0);
            if Shown(users[i], mine)
            then now != [] && now[0] == Piece(users[i].name + " ", |users[i].name| + 1) && now[1..] == later
            else now == later
  {
    var rest := users[i..];
    assert rest[1..] == users[i + 1..];
    var names := ShownNames(rest[1..], mine);
    hide Shown;
    if Shown(users[i], mine) {
      assert ([users[i].name] + names)[1..] == names;
      assert NamePieces([users[i].name] + names, 0)[1..] == NamePieces(names, 0);
    } else {
      assert [] + names == names;
    }
  }

  // The buffer starts with the header and the open line; `t` is where the next piece goes.
  ghost predicate Filled(buf: array<char>, t: nat, header: string, open: seq<Piece>)
    reads buf
  {
    && buf.Length == IRCD_BUFSIZE && t == |header| + |Text(open)| < IRCD_BUFSIZE
    && buf[..t] == header + Text(open) && IsText(header + Text(open))
  }

  // And nothing more, as a C string.
  ghost predicate Holding(buf: array<char>, t: nat, header: string, open: seq<Piece>)
    reads buf
  {
    Filled(buf, t, header, open) && buf[t] == '\0'
  }

  // ircsprintf(t, "%s ", ...) or strcpy and the blank behind it: one more piece on the line
  method AppendPiece(buf: array<char>, t: nat, p: Piece, ghost header: string, ghost open: seq<Piece>) returns (t': nat)
    requires Filled(buf, t, header, open) && t + |p.text| < IRCD_BUFSIZE && IsText(p.text)
    modifies buf
    ensures Holding(buf, t', header, open + [p]) && t' == t + |p.text|
  {
    TextAppend(open, p);
    Regroup(header, Text(open), p.text);
    hide Text;
    var l := Write(buf, t, p.text);
    t' := t + l;
  }

  // sendto_one(source_p, "%s", buf)
  method SendBuffer(buf: array<char>, t: nat, sent: seq<string>, ghost header: string, ghost done: seq<seq<Piece>>,
                    ghost open: seq<Piece>)
    returns (sent': seq<string>)
    requires Holding(buf, t, header, open) && sent == Replies(header, done, 0)
    ensures sent' == Replies(header, done + [open], 0)
  {
    hide Sent, Text, Replies, CString;
    CStringIs(buf[..], header + Text(open));
    sent' := sent + [Sent(CString(buf[..]))];
    FlushedReply(header, done, open);
  }

  // One turn of the loop: send the line if the piece's test fails, and append the piece.
  method PackPiece(buf: array<char>, mlen: nat, curLen: nat, sent: seq<string>, p: Piece,
                   ghost header: string, ghost done: seq<seq<Piece>>, ghost open: seq<Piece>, ghost rest: seq<Piece>,
                   ghost limit: int, ghost all: seq<seq<Piece>>, top: nat)
    returns (curLen': nat, sent': seq<string>, ghost done': seq<seq<Piece>>, ghost open': seq<Piece>)
    requires Holding(buf, curLen, header, open) && mlen == |header| && sent == Replies(header, done, 0)
    requires Packing(done, open, rest, limit, all) && rest != [] && rest[0] == p
    requires limit == top - |header| && p.need <= limit && |p.text| + top < p.need + IRCD_BUFSIZE && IsText(p.text)
    modifies buf
    ensures Holding(buf, curLen', header, open') && sent' == Replies(header, done', 0)
    ensures Packing(done', open', rest[1..], limit, all) && open' != []
  {
    hide Packing, Pack, Replies, Text, Filled, Holding;
    curLen', sent', done', open' := curLen, sent, done, open;
    LineLength(buf, curLen, header, open);
    if curLen + p.need > top {
      sent' := SendBuffer(buf, curLen, sent, header, done, open);
      Flushes(done, open, rest, limit, all);
      LineRestarts(buf, curLen, header, open);
      curLen' := mlen;
      done', open' := done + [open], [];
    }
    Appends(done', open', rest, limit, all);
    curLen' := AppendPiece(buf, curLen', p, header, open');
    open' := open' + [p];
  }

  lemma LineLength(buf: array<char>, t: nat, header: string, open: seq<Piece>)
    requires Holding(buf, t, header, open)
    ensures Filled(buf, t, header, open) && t == |header| + |Text(open)| && buf.Length == IRCD_BUFSIZE
  {}

  lemma LineRestarts(buf: array<char>, t: nat, header: string, open: seq<Piece>)
    requires Filled(buf, t, header, open)
    ensures Filled(buf, |header|, header, []) && |Text([])| == 0
  {
    ghost var text := Text(open);
    TextOfNothing();
    hide Text;
    var line := buf[..t];
    assert line == header + text;
    assert buf[..|header|] == line[..|header|] == header == header + "";
  }

  method OnMyChannel(u: User, mine: set<nat>) returns (shownAlready: bool)
    ensures shownAlready <==> exists c :: c in u.channels && c in mine
    ensures Shown(u, mine) <==> u.isClient && !u.invisible && !shownAlready
  {
    shownAlready := false;
    for i := 0 to |u.channels|
      invariant !shownAlready && forall j :: 0 <= j < i ==> u.channels[j] !in mine
    {
      if u.channels[i] in mine {
        assert u.channels[i] in u.channels;
        shownAlready := true;
        break;
      }
    }
  }

  method NamesNonPublic(me: string, nick: string, users: seq<User>, mine: set<nat>) returns (sent: seq<string>)
    requires IsName(me) && IsName(nick) && AreUsers(users)
    ensures var header := NamesHeader(me, nick);
            sent == Replies(header, Lines(NamePieces(ShownNames(users, mine), 0), NamesLimit(header)), 0)
    ensures ReadsAs(sent, [":" + me, "353", nick, "*", "*"], ShownNames(users, mine))
  {
    ghost var header := NamesHeader(me, nick);
    ghost var limit, pieces := NamesLimit(header), NamePieces(ShownNames(users, mine), 0);
    hide *;
    NamesHeaderFits(me, nick);
    StartsEmpty(header, pieces, limit, 0);
    var buf := new char[IRCD_BUFSIZE](_ => '\0');
    var mlen := Write(buf, 0, NamesHeader(me, nick));
    ghost var all := Lines(pieces, limit);
    ghost var done: seq<seq<Piece>>, open: seq<Piece> := [], [];
    var curLen, replyToSend := mlen, false;
    sent := [];
    assert users[0..] == users;
    LineStarts(buf, header);
    for i := 0 to |users|
      invariant Holding(buf, curLen, header, open) && mlen == |header|
      invariant replyToSend <==> open != []
      invariant sent == Replies(header, done, 0)
      invariant Packing(done, open, NamePieces(ShownNames(users[i..], mine), 0), limit, all)
    {
      var u := users[i];
      UserFits(users, i);
      NextUser(users, mine, i);
      if !u.isClient || u.invisible {
        NotShown(u, mine);
        continue;
      }
      var shownAlready := OnMyChannel(u, mine);
      if shownAlready {
        continue;
      }
      curLen, sent, done, open := PackPiece(buf, mlen, curLen, sent, Piece(u.name + " ", |u.name| + 1), header, done,
                                            open,
                                            NamePieces(ShownNames(users[i..], mine), 0), limit, all, IRCD_BUFSIZE - 2);
      replyToSend := true;
    }
    NobodyLeft(users, mine);
    Finishes(done, open, limit, all);
    if replyToSend {
      sent := SendBuffer(buf, curLen, sent, header, done, open);
    }
    NamesReadBack(me, nick, users, mine);
  }

  lemma NamesHeaderFits(me: string, nick: string)
    requires IsName(me) && IsName(nick)
    ensures var header := NamesHeader(me, nick);
            IsText(header) && |header| <= 140 && NamesLimit(header) == IRCD_BUFSIZE - 2 - |header|
  {}

  lemma LineStarts(buf: array<char>, header: string)
    requires buf.Length == IRCD_BUFSIZE && |header| < IRCD_BUFSIZE && IsText(header)
    requires buf[..|header|] == header && buf[|header|] == '\0'
    ensures Holding(buf, |header|, header, [])
  {
    TextOfNothing();
    hide Text, IsText;
    assert header + "" == header;
  }

  lemma UserFits(users: seq<User>, i: nat)
    requires AreUsers(users) && i < |users|
    ensures |users[i].name| <= HOSTLEN && IsText(users[i].name + " ")
  {
    assert users[i] in users;
  }

  lemma NotShown(u: User, mine: set<nat>)
    requires !u.isClient || u.invisible
    ensures !Shown(u, mine)
  {}

  lemma NobodyLeft(users: seq<User>, mine: set<nat>)
    ensures NamePieces(ShownNames(users[|users|..], mine), 0) == []
  {}

  lemma FlushedReply(header: string, done: seq<seq<Piece>>, open: seq<Piece>)
    ensures Replies(header, done + [open], 0) == Replies(header, done, 0) + [Sent(header + Text(open))]
  {
    RepliesGrow(header, done, open, 0);
    assert Text(open)[..|Text(open)| - 0] == Text(open);
  }

  // -------- the channel list of operspy_whois

  // A channel the user is on: its name, whether the asking operator could see it anyway, and the
  // user's flags there.
  datatype Membership = Membership(chname: string, shown: bool, chanop: bool, halfop: bool, voice: bool)

  predicate IsMembership(m: Membership) { IsWord(m.chname) && |m.chname| <= CHANNELLEN }

  ghost predicate AreMemberships(channels: seq<Membership>) { forall m :: m in channels ==> IsMembership(m) }

  // get_member_status with all marks combined; `halfops` is the build option of that name
  function MemberStatus(m: Membership, halfops: bool): string {
    (if m.chanop then "@" else "") + (if halfops && m.halfop then "%" else "") + (if m.voice then "+" else "")
  }

  // What stands before the name of a channel.
  function Marks(m: Membership, halfops: bool): string { (if m.shown then "" else "%") + MemberStatus(m, halfops) }

  function ChannelWord(m: Membership, halfops: bool): string {
    Marks(m, halfops) + m.chname
  }

  function ChannelPiece(m: Membership, halfops: bool): Piece {
    Piece(ChannelWord(m, halfops) + " ", |m.chname| + 2)
  }

  function ChannelPieces(channels: seq<Membership>, halfops: bool): (pieces: seq<Piece>)
    ensures |pieces| == |channels|
  {
    seq(|channels|, i requires 0 <= i < |channels| => ChannelPiece(channels[i], halfops))
  }

  function ChannelWords(channels: seq<Membership>, halfops: bool): seq<string> {
    seq(|channels|, i requires 0 <= i < |channels| => ChannelWord(channels[i], halfops))
  }

  function WhoisHeader(me: string, nick: string, target: string): string {
    ":" + me + " 319 " + nick + " " + target + " :"
  }

  function WhoisLimit(header: string): int { IRCD_BUFSIZE - 4 - |header| }

  lemma MarksAreShort(m: Membership, halfops: bool)
    ensures |Marks(m, halfops)| <= if halfops then 4 else 3
    ensures forall c :: c in Marks(m, halfops) ==> c != ' ' && c != '\0'
  {}

  lemma MarkedWord(marks: string, name: string)
    requires IsWord(name) && forall c :: c in marks ==> c != ' ' && c != '\0'
    ensures var w := marks + name; IsWord(w) && IsText(w + " ") && (w + " ")[..|w|] == w
  {}

  lemma ChannelPieceIsListed(m: Membership, halfops: bool)
    requires IsMembership(m)
    ensures var p := ChannelPiece(m, halfops);
            && IsListed(p) && IsText(p.text) && Word(p) == ChannelWord(m, halfops)
            && |p.text| <= p.need + if halfops then 3 else 2
  {
    var marks := Marks(m, halfops);
    MarksAreShort(m, halfops);
    MarkedWord(marks, m.chname);
    hide Marks, MemberStatus, IsWord, IsText, ChannelWord;
  }

  method OperspyWhois(me: string, nick: string, target: string, channels: seq<Membership>, halfops: bool)
    returns (sent: seq<string>)
    requires IsName(me) && IsName(nick) && IsName(target) && AreMemberships(channels)
    ensures var header := WhoisHeader(me, nick, target);
            sent == Replies(header, Lines(ChannelPieces(channels, halfops), WhoisLimit(header)), 0)
    ensures ReadsAs(sent, [":" + me, "319", nick, target], ChannelWords(channels, halfops))
  {
    ghost var header := WhoisHeader(me, nick, target);
    ghost var limit, pieces := WhoisLimit(header), ChannelPieces(channels, halfops);
    hide *;
    WhoisHeaderFits(me, nick, target);
    StartsEmpty(header, pieces, limit, 0);
    var buf := new char[IRCD_BUFSIZE](_ => '\0');
    var mlen := Write(buf, 0, WhoisHeader(me, nick, target));
    ghost var all := Lines(pieces, limit);
    ghost var done: seq<seq<Piece>>, open: seq<Piece> := [], [];
    var curLen, replyToSend := mlen, false;
    sent := [];
    LineStarts(buf, header);
    assert pieces[0..] == pieces;
    for i := 0 to |channels|
      invariant Holding(buf, curLen, header, open) && mlen == |header|
      invariant replyToSend <==> open != []
      invariant sent == Replies(header, done, 0)
      invariant Packing(done, open, pieces[i..], limit, all)
    {
      var m := channels[i];
      ChannelFits(channels, halfops, i);
      curLen, sent, done, open := PackPiece(buf, mlen, curLen, sent, ChannelPiece(m, halfops), header, done, open,
                                            pieces[i..], limit, all, IRCD_BUFSIZE - 4);
      replyToSend := true;
    }
    assert pieces[|channels|..] == [];
    Finishes(done, open, limit, all);
    if replyToSend {
      sent := SendBuffer(buf, curLen, sent, header, done, open);
    }
    WhoisReadsBack(me, nick, target, channels, halfops);
  }

  lemma WhoisHeaderFits(me: string, nick: string, target: string)
    requires IsName(me) && IsName(nick) && IsName(target)
    ensures var header := WhoisHeader(me, nick, target);
            && IsText(header) && |header| <= 200 && IRCD_BUFSIZE == 512
            && WhoisLimit(header) == IRCD_BUFSIZE - 4 - |header|
  {}

  // What a turn of the loop finds: the channel's piece, which fits an empty line.
  lemma ChannelFits(channels: seq<Membership>, halfops: bool, i: nat)
    requires AreMemberships(channels) && i < |channels|
    ensures var p, pieces := ChannelPiece(channels[i], halfops), ChannelPieces(channels, halfops);
            && pieces[i..] != [] && pieces[i..][0] == p && pieces[i..][1..] == pieces[i + 1..]
            && IsText(p.text) && |p.text| <= p.need + 3 && p.need <= 52
  {
    assert channels[i] in channels;
    ChannelPieceIsListed(channels[i], halfops);
    hide ChannelWord, IsText, IsWord;
  }

  // -------- what the three promise

  lemma {:induction false} WordsOfNames(names: seq<string>, cut: nat)
    requires cut <= 1
    ensures WordsOf(NamePieces(names, cut)) == names
  {
    if names != [] {
      var n := names[0];
      assert (n + " ")[..|n|] == n;
      assert NamePieces(names, cut)[1..] == NamePieces(names[1..], cut);
      WordsOfNames(names[1..], cut);
    }
  }

  lemma NamePiecesAreListed(names: seq<string>, cut: nat)
    requires AreNames(names) && cut <= 1
    ensures var pieces := NamePieces(names, cut);
            AreListed(pieces) && forall p :: p in pieces ==> p.need + cut == |p.text| <= HOSTLEN + 1
  {
    var pieces := NamePieces(names, cut);
    forall p | p in pieces
      ensures IsListed(p) && p.need + cut == |p.text| <= HOSTLEN + 1
    {
      var i :| 0 <= i < |pieces| && pieces[i] == p;
      assert names[i] in names;
      assert (names[i] + " ")[..|names[i]|] == names[i];
    }
  }

  lemma SpacedFirst(word: string, words: seq<string>)
    requires words != []
    ensures Spaced([word] + words) == word + (" " + Spaced(words))
    ensures Spaced([word]) == word
  {
    assert ([word] + words)[1..] == words;
    assert word + "" == word;
  }

  lemma AcceptHeading(me: string, nick: string)
    requires IsName(me) && IsName(nick)
    ensures var heading := [":" + me, "281", nick];
            AreWords(heading) && AcceptHeader(me, nick) == Spaced(heading) + " :"
            && |AcceptHeader(me, nick)| == |me| + |nick| + 8
  {
    ColonWord(me);
    assert IsWord("281");
    assert [":" + me, "281", nick] == [":" + me] + (["281"] + [nick]);
    hide Spaced, IsWord;
    SpacedFirst(":" + me, ["281"] + [nick]);
    SpacedFirst("281", [nick]);
    SpacedFirst(nick, [nick]);
    assert " 281 " == " " + ("281" + " ");
    assert (":" + me) + (" " + ("281" + (" " + nick))) == ((":" + me) + (" " + ("281" + " "))) + nick;
  }

  lemma NamesHeading(me: string, nick: string)
    requires IsName(me) && IsName(nick)
    ensures var heading := [":" + me, "353", nick, "*", "*"];
            AreWords(heading) && NamesHeader(me, nick) == Spaced(heading) + " :"
  {
    ColonWord(me);
    assert IsWord("353") && IsWord("*");
    assert [":" + me, "353", nick, "*", "*"] == [":" + me] + (["353"] + ([nick] + (["*"] + ["*"])));
    hide Spaced, IsWord;
    SpacedFirst(":" + me, ["353"] + ([nick] + (["*"] + ["*"])));
    SpacedFirst("353", [nick] + (["*"] + ["*"]));
    SpacedFirst(nick, ["*"] + ["*"]);
    SpacedFirst("*", ["*"]);
    assert " 353 " == " " + ("353" + " ");
    assert (":" + me) + (" " + ("353" + (" " + (nick + (" " + ("*" + (" " + "*")))))))
        == ((((((":" + me) + (" " + ("353" + " "))) + nick) + " ") + "*") + " ") + "*";
  }

  lemma WhoisHeading(me: string, nick: string, target: string)
    requires IsName(me) && IsName(nick) && IsName(target)
    ensures var heading := [":" + me, "319", nick, target];
            AreWords(heading) && WhoisHeader(me, nick, target) == Spaced(heading) + " :"
  {
    ColonWord(me);
    assert IsWord("319");
    assert [":" + me, "319", nick, target] == [":" + me] + (["319"] + ([nick] + [target]));
    hide Spaced, IsWord;
    SpacedFirst(":" + me, ["319"] + ([nick] + [target]));
    SpacedFirst("319", [nick] + [target]);
    SpacedFirst(nick, [target]);
    SpacedFirst(target, [target]);
    assert " 319 " == " " + ("319" + " ");
    assert (":" + me) + (" " + ("319" + (" " + (nick + (" " + target)))))
        == ((((":" + me) + (" " + ("319" + " "))) + nick) + " ") + target;
  }

  // The accept list arrives complete and in order, on lines that keep two characters clear of the
  // protocol's 512.
  lemma AcceptListReadsBack(me: string, nick: string, allowList: seq<string>)
    requires IsName(me) && IsName(nick) && AreNames(allowList)
    ensures var header := AcceptHeader(me, nick);
            var lines := Lines(NamePieces(allowList, 1), AcceptLimit(me, nick));
            var replies := Replies(header, lines, 1);
            && ReadsAs(replies, [":" + me, "281", nick], allowList)
            && (forall r :: r in replies ==> |r| <= IRCD_BUFSIZE)
            && forall l :: l in lines ==> l != [] && |header| + |Text(l)| - 1 + 2 <= IRCD_BUFSIZE - 2
  {
    var pieces := NamePieces(allowList, 1);
    NamePiecesAreListed(allowList, 1);
    WordsOfNames(allowList, 1);
    AcceptHeading(me, nick);
    hide ReadsAs, Spaced, Text, AcceptHeader;
    PackedRepliesAreRead([":" + me, "281", nick], pieces, AcceptLimit(me, nick), 1, 1);
  }

  lemma NamesReadBack(me: string, nick: string, users: seq<User>, mine: set<nat>)
    requires IsName(me) && IsName(nick) && AreUsers(users)
    ensures var header := NamesHeader(me, nick);
            var lines := Lines(NamePieces(ShownNames(users, mine), 0), NamesLimit(header));
            var replies := Replies(header, lines, 0);
            && ReadsAs(replies, [":" + me, "353", nick, "*", "*"], ShownNames(users, mine))
            && (forall r :: r in replies ==> |r| <= IRCD_BUFSIZE)
            && forall l :: l in lines ==> l != [] && |header| + |Text(l)| + 2 <= IRCD_BUFSIZE
  {
    var names := ShownNames(users, mine);
    ShownAreNames(users, mine);
    NamePiecesAreListed(names, 0);
    WordsOfNames(names, 0);
    NamesHeading(me, nick);
    hide ReadsAs, Spaced, Text, NamesHeader;
    PackedRepliesAreRead([":" + me, "353", nick, "*", "*"], NamePieces(names, 0), NamesLimit(NamesHeader(me, nick)), 0,
                         0);
  }

  lemma {:induction false} ShownAreNames(users: seq<User>, mine: set<nat>)
    requires AreUsers(users)
    ensures AreNames(ShownNames(users, mine))
  {
    if users != [] {
      assert users[0] in users;
      assert forall u :: u in users[1..] ==> u in users;
      ShownAreNames(users[1..], mine);
    }
  }

  // A name is listed exactly when a visible user has it who is on none of these channels.
  lemma {:induction false} ShownExactly(users: seq<User>, mine: set<nat>, name: string)
    ensures name in ShownNames(users, mine)
            <==> exists u :: u in users && u.name == name && u.isClient && !u.invisible
                             && forall c :: c in u.channels ==> c !in mine
  {
    if users != [] {
      ShownExactly(users[1..], mine, name);
      assert users == [users[0]] + users[1..];
    }
  }

  // A WHOIS line can be one character longer than the protocol allows, when halfops are built in;
  // what cutting it costs is the last blank, so the channels still arrive complete and in order.
  lemma WhoisReadsBack(me: string, nick: string, target: string, channels: seq<Membership>, halfops: bool)
    requires IsName(me) && IsName(nick) && IsName(target) && AreMemberships(channels)
    ensures var header := WhoisHeader(me, nick, target);
            var lines := Lines(ChannelPieces(channels, halfops), WhoisLimit(header));
            var replies := Replies(header, lines, 0);
            && ReadsAs(replies, [":" + me, "319", nick, target], ChannelWords(channels, halfops))
            && (forall r :: r in replies ==> |r| <= IRCD_BUFSIZE)
            && forall l :: l in lines ==> l != [] && |header| + |Text(l)| <= IRCD_BUFSIZE - if halfops then 1 else 2
  {
    var header := WhoisHeader(me, nick, target);
    var pieces := ChannelPieces(channels, halfops);
    var slack := if halfops then 3 else 2;
    forall p | p in pieces
      ensures IsListed(p) && p.need <= WhoisLimit(header) && |p.text| <= p.need + slack
    {
      var i :| 0 <= i < |pieces| && pieces[i] == p;
      assert channels[i] in channels;
      ChannelPieceIsListed(channels[i], halfops);
    }
    WordsOfChannels(channels, halfops);
    WhoisHeading(me, nick, target);
    hide ReadsAs, Spaced, Text, WhoisHeader;
    PackedRepliesAreRead([":" + me, "319", nick, target], pieces, WhoisLimit(header), slack, 0);
  }

  lemma ChannelsArePackable(me: string, nick: string, target: string, channels: seq<Membership>, halfops: bool)
    requires IsName(me) && IsName(nick) && IsName(target) && AreMemberships(channels)
    ensures Packable(ChannelPieces(channels, halfops), WhoisLimit(WhoisHeader(me, nick, target)))
  {
    forall p | p in ChannelPieces(channels, halfops)
      ensures p.need <= WhoisLimit(WhoisHeader(me, nick, target))
    {
      var i :| 0 <= i < |channels| && ChannelPiece(channels[i], halfops) == p;
      assert channels[i] in channels;
    }
  }

  // The longer line needs a build with halfops, and at its end a channel the asker could not see with
  // every mark on it.
  predicate AllMarks(m: Membership, halfops: bool) {
    halfops && !m.shown && m.chanop && m.halfop && m.voice
  }

  lemma AllMarksAreFour(m: Membership, halfops: bool)
    ensures var p := ChannelPiece(m, halfops);
            |p.text| <= p.need + 3 && (|p.text| == p.need + 3 <==> AllMarks(m, halfops))
  {
    assert |Marks(m, halfops)| <= 4;
    assert |Marks(m, halfops)| == 4 <==> AllMarks(m, halfops);
  }

  lemma LastText(line: seq<Piece>, limit: int)
    requires line != [] && Fits(line, limit)
    ensures var n := |line| - 1;
            |Text(line)| == |Text(line[..n])| + |line[n].text| && |Text(line[..n])| + line[n].need <= limit
  {}

  // A line is too long exactly when its last channel has every mark and fills it to the last character,
  // and then it is one character too long.
  lemma WhoisLongExactly(me: string, nick: string, target: string, channels: seq<Membership>, halfops: bool,
                         line: seq<Piece>)
    requires IsName(me) && IsName(nick) && IsName(target) && AreMemberships(channels)
    requires line in Lines(ChannelPieces(channels, halfops), WhoisLimit(WhoisHeader(me, nick, target)))
    ensures line != []
    ensures var header, n := WhoisHeader(me, nick, target), |line| - 1;
            && (|header| + |Text(line)| > 510 <==>
                && |header| + |Text(line[..n])| + line[n].need == 508
                && exists m :: m in channels && AllMarks(m, halfops) && line[n] == ChannelPiece(m, halfops))
            && |header| + |Text(line)| <= 511
  {
    var header, pieces := WhoisHeader(me, nick, target), ChannelPieces(channels, halfops);
    var limit := WhoisLimit(header);
    ChannelsArePackable(me, nick, target, channels, halfops);
    hide Packable, Text, AllMarks, ChannelPiece, WhoisHeader, Fits;
    PackLosesNothing([], pieces, limit);
    assert [] + pieces == pieces;
    PackFits([], pieces, limit);
    LastText(line, limit);
    var last := line[|line| - 1];
    InFlat(Lines(pieces, limit), line, last);
    var i :| 0 <= i < |pieces| && pieces[i] == last;
    assert last == ChannelPiece(channels[i], halfops) && channels[i] in channels;
    AllMarksAreFour(channels[i], halfops);
    forall m | m in channels && AllMarks(m, halfops) && last == ChannelPiece(m, halfops)
      ensures |last.text| == last.need + 3
    {
      AllMarksAreFour(m, halfops);
    }
  }

  // The longer line does occur: nine channels with names of fifty characters, and one of
  // thirty-five that the user is hidden on with every mark.
  lemma WhoisLineOf511(m: Membership, last: Membership)
    requires |m.chname| == 50 && m.shown && !m.chanop && !m.halfop && !m.voice
    requires |last.chname| == 35 && !last.shown && last.chanop && last.halfop && last.voice
    ensures var header := WhoisHeader("a", "b", "c");
            var pieces := ChannelPieces(seq(9, _ => m) + [last], true);
            Lines(pieces, WhoisLimit(header)) == [pieces] && |header + Text(pieces)| == 511
  {
    var header := WhoisHeader("a", "b", "c");
    var limit, p, q := WhoisLimit(header), ChannelPiece(m, true), ChannelPiece(last, true);
    assert |header| == 12 && |p.text| == 51 && |q.text| == 40;
    hide *;
    assert p.need == 52 && q.need == 37 && limit == 496 by { NeedsOf(m, last, header); }
    var front := seq(9, _ => p);
    CopiesFit(p, 9, limit);
    FitsAppend(front, q, limit);
    TextAppend(front, q);
    var pieces := ChannelPieces(seq(9, _ => m) + [last], true);
    NinePieces(m, last);
    assert [] + pieces == pieces;
    OneLine([], pieces, limit);
    LinesArePack(pieces, limit);
  }

  lemma NeedsOf(m: Membership, last: Membership, header: string)
    requires |m.chname| == 50 && |last.chname| == 35 && |header| == 12
    ensures ChannelPiece(m, true).need == 52 && ChannelPiece(last, true).need == 37 && WhoisLimit(header) == 496
  {}

  lemma NinePieces(m: Membership, last: Membership)
    ensures ChannelPieces(seq(9, _ => m) + [last], true) == seq(9, _ => ChannelPiece(m, true))
        + [ChannelPiece(last, true)]
  {}

  lemma LinesArePack(pieces: seq<Piece>, limit: int)
    ensures Lines(pieces, limit) == Pack([], pieces, limit)
  {}

  lemma {:induction false} WordsOfChannels(channels: seq<Membership>, halfops: bool)
    requires AreMemberships(channels)
    ensures WordsOf(ChannelPieces(channels, halfops)) == ChannelWords(channels, halfops)
  {
    if channels != [] {
      assert channels[0] in channels;
      ChannelPieceIsListed(channels[0], halfops);
      ChannelsFront(channels, halfops);
      hide ChannelWord, IsMembership, IsListed, Word, ChannelPiece, ChannelPieces, ChannelWords;
      WordsOfChannels(channels[1..], halfops);
    } else {
      assert ChannelPieces(channels, halfops) == [] && ChannelWords(channels, halfops) == [];
    }
  }

  lemma ChannelsFront(channels: seq<Membership>, halfops: bool)
    requires channels != []
    ensures ChannelPieces(channels, halfops) == [ChannelPiece(channels[0], halfops)]
        + ChannelPieces(channels[1..], halfops)
    ensures ChannelWords(channels, halfops) == [ChannelWord(channels[0], halfops)]
        + ChannelWords(channels[1..], halfops)
  {
    hide ChannelPiece, ChannelWord;
  }

  // -------- and no one does with fewer lines

  function PieceLines(lines: seq<seq<string>>, cut: nat): (r: seq<seq<Piece>>)
    requires cut <= 1
    ensures |r| == |lines|
  {
    seq(|lines|, i requires 0 <= i < |lines| => NamePieces(lines[i], cut))
  }

  lemma {:induction false} FlatOfPieceLines(lines: seq<seq<string>>, cut: nat)
    requires cut <= 1
    ensures Flat(PieceLines(lines, cut)) == NamePieces(Flat(lines), cut)
  {
    if lines != [] {
      FlatOfPieceLines(lines[1..], cut);
      assert PieceLines(lines, cut)[1..] == PieceLines(lines[1..], cut);
      assert NamePieces(lines[0] + Flat(lines[1..]), cut) == NamePieces(lines[0], cut)
          + NamePieces(Flat(lines[1..]), cut);
    }
  }

  lemma WordLineFits(line: seq<string>, limit: int, cut: nat)
    requires AreNames(line) && cut <= 1 && |Spaced(line)| + 1 <= limit + cut
    ensures Fits(NamePieces(line, cut), limit)
  {
    if line != [] {
      NamePiecesAreListed(line, cut);
      WordsOfNames(line, cut);
      TextIsSpaced(NamePieces(line, cut));
      FitsIsLength(NamePieces(line, cut), limit, cut);
    }
  }

  // However the names are spread over lines of the same length in the same order, it takes at least
  // as many lines.
  lemma FewestNameLines(names: seq<string>, cut: nat, limit: int, other: seq<seq<string>>)
    requires AreNames(names) && cut <= 1 && HOSTLEN + 1 <= limit
    requires Flat(other) == names && forall l :: l in other ==> |Spaced(l)| + 1 <= limit + cut
    ensures |Lines(NamePieces(names, cut), limit)| <= |other|
  {
    NamePiecesAreListed(names, cut);
    FlatOfPieceLines(other, cut);
    var lines := PieceLines(other, cut);
    forall l | l in lines
      ensures Fits(l, limit)
    {
      var i :| 0 <= i < |lines| && lines[i] == l;
      forall n | n in other[i] ensures n in names { InFlat(other, other[i], n); }
      WordLineFits(other[i], limit, cut);
    }
    FewestLines(NamePieces(names, cut), limit, lines);
  }

  lemma AcceptListIsShortest(me: string, nick: string, allowList: seq<string>, other: seq<seq<string>>)
    requires IsName(me) && IsName(nick) && AreNames(allowList) && Flat(other) == allowList
    requires forall l :: l in other ==> |AcceptHeader(me, nick) + Spaced(l)| + 2 <= IRCD_BUFSIZE - 2
    ensures |Replies(AcceptHeader(me, nick), Lines(NamePieces(allowList, 1), AcceptLimit(me, nick)), 1)| <= |other|
  {
    RepliesCount(AcceptHeader(me, nick), Lines(NamePieces(allowList, 1), AcceptLimit(me, nick)), 1);
    FewestNameLines(allowList, 1, AcceptLimit(me, nick), other);
  }

  // Each line is counted with the blank NAMES leaves at its end.
  lemma NamesAreShortest(me: string, nick: string, users: seq<User>, mine: set<nat>, other: seq<seq<string>>)
    requires IsName(me) && IsName(nick) && AreUsers(users) && Flat(other) == ShownNames(users, mine)
    requires forall l :: l in other ==> |NamesHeader(me, nick) + Spaced(l) + " "| + 2 <= IRCD_BUFSIZE
    ensures var header := NamesHeader(me, nick);
            |Replies(header, Lines(NamePieces(ShownNames(users, mine), 0), NamesLimit(header)), 0)| <= |other|
  {
    var header := NamesHeader(me, nick);
    ShownAreNames(users, mine);
    RepliesCount(header, Lines(NamePieces(ShownNames(users, mine), 0), NamesLimit(header)), 0);
    FewestNameLines(ShownNames(users, mine), 0, NamesLimit(header), other);
  }

  lemma {:induction false} RepliesCount(header: string, lines: seq<seq<Piece>>, cut: nat)
    ensures |Replies(header, lines, cut)| == |lines|
  {
    if lines != [] {
      RepliesCount(header, lines[..|lines| - 1], cut);
    }
  }

  // The packing of WHOIS under its own test, too, is the shortest.
  lemma WhoisIsShortest(me: string, nick: string, target: string, channels: seq<Membership>, halfops: bool,
                        other: seq<seq<Piece>>)
    requires IsName(me) && IsName(nick) && IsName(target) && AreMemberships(channels)
    requires Flat(other) == ChannelPieces(channels, halfops) && AllFit(other, WhoisLimit(WhoisHeader(me, nick, target)))
    ensures var header := WhoisHeader(me, nick, target);
            |Replies(header, Lines(ChannelPieces(channels, halfops), WhoisLimit(header)), 0)| <= |other|
  {
    var header := WhoisHeader(me, nick, target);
    var pieces := ChannelPieces(channels, halfops);
    ChannelsArePackable(me, nick, target, channels, halfops);
    RepliesCount(header, Lines(pieces, WhoisLimit(header)), 0);
    FewestLines(pieces, WhoisLimit(header), other);
  }
}
