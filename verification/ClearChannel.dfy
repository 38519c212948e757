/**
 CLEARCHAN of contrib/m_clearchan.c: every member loses its channel privileges, announced in MODE
 lines of at most four changes, and then its place on the channel.
 */
module ClearChannel {
  import opened CBuffer
  import opened DLinkList
  import opened ModeBits
  import opened Sequences
  import opened Tokens

  const CHFL_CHANOP: bv32 := 0x1
  const CHFL_HALFOP: bv32 := 0x2
  const CHFL_VOICE: bv32 := 0x4

  const MODEBUFLEN: nat := 200

  class Membership {
    const client: string
    var flags: bv32

    constructor (client: string, flags: bv32)
      ensures this.client == client && this.flags == flags
    {
      this.client, this.flags := client, flags;
    }
  }

  // -------- the MODE lines

  function Letters(flag: char, n: nat): (s: string)
    ensures |s| == n
  {
    seq(n, _ => flag)
  }

  function Modes(flag: char, n: nat): string { "-" + Letters(flag, n) }

  function Empties(n: nat): seq<string> { seq(n, _ => "") }

  // ":%s MODE %s %s %s %s %s %s", with empty parameters for those there are not.
  function ModeLine(me: string, chname: string, modes: string, para: seq<string>): string
    requires |para| <= 4
  {
    Spaced([":" + me, "MODE", chname, modes] + para + Empties(4 - |para|))
  }

  function Batches(names: seq<string>): seq<seq<string>> {
    if names == [] then []
    else if |names| <= 4 then [names]
    else [names[..4]] + Batches(names[4..])
  }

  function BatchLine(me: string, chname: string, flag: char, batch: seq<string>): string {
    if |batch| <= 4 then ModeLine(me, chname, Modes(flag, |batch|), batch) else ""
  }

  function BatchLines(me: string, chname: string, flag: char, batches: seq<seq<string>>): seq<string> {
    if batches == [] then []
    else BatchLines(me, chname, flag, batches[..|batches| - 1]) + [BatchLine(me, chname, flag, batches[|batches| - 1])]
  }

  // The members that hold a flag.
  function Holders(names: seq<string>, flags: seq<bv32>, mask: bv32): seq<string>
    requires |names| == |flags|
  {
    if names == [] then []
    else (if Has(flags[0], mask) then [names[0]] else []) + Holders(names[1..], flags[1..], mask)
  }

  function Lines(me: string, chname: string, flag: char, holders: seq<string>): seq<string> {
    BatchLines(me, chname, flag, Batches(holders))
  }

  // -------- an observer of the channel

  type View = map<string, bv32>

  function MaskOf(letter: char): bv32 {
    if letter == 'o' then CHFL_CHANOP else if letter == 'h' then CHFL_HALFOP else if letter == 'v' then CHFL_VOICE
        else 0
  }

  function Clear(view: View, name: string, mask: bv32): View {
    if name in view then view[name := Without(view[name], mask)] else view
  }

  // Each letter takes the next parameter.
  function ClearEach(view: View, letters: string, names: seq<string>): View {
    if letters == "" || names == [] then view
    else ClearEach(Clear(view, names[0], MaskOf(letters[0])), letters[1..], names[1..])
  }

  // What someone on the channel who reads a line of the server does with it.
  function Observe(view: View, me: string, chname: string, line: string): View {
    var w := Words(line);
    if |w| >= 4 && w[..3] == [":" + me, "MODE", chname] && w[3] != "" && w[3][0] == '-'
    then ClearEach(view, w[3][1..], w[4..]) else view
  }

  function Replay(view: View, me: string, chname: string, lines: seq<string>): View {
    if lines == [] then view
    else Observe(Replay(view, me, chname, lines[..|lines| - 1]), me, chname, lines[|lines| - 1])
  }

  // -------- the lines read back

  function Blanks(n: nat): string { seq(n, _ => ' ') }

  lemma {:induction false} SpacedNothing(k: nat)
    ensures Spaced(Empties(k + 1)) == Blanks(k)
  {
    if k > 0 {
      SpacedNothing(k - 1);
      assert Empties(k + 1)[1..] == Empties(k);
      assert Blanks(k) == " " + Blanks(k - 1);
    }
  }

  lemma {:induction false} SpacedThenNothing(words: seq<string>, k: nat)
    requires words != []
    ensures Spaced(words + Empties(k)) == Spaced(words) + Blanks(k)
  {
    var all, w := words + Empties(k), words[0];
    if |words| == 1 {
      assert all[1..] == Empties(k);
      if k > 0 {
        SpacedNothing(k - 1);
        assert Blanks(k) == " " + Blanks(k - 1);
      }
    } else {
      assert all[1..] == words[1..] + Empties(k);
      SpacedThenNothing(words[1..], k);
      var s := Spaced(words[1..]);
      assert (w + (" " + s)) + Blanks(k) == w + (" " + (s + Blanks(k)));
    }
  }

  lemma BlanksAreATail(n: nat)
    ensures IsTail(Blanks(n))
  {}

  lemma ModeLineReadsBack(me: string, chname: string, modes: string, para: seq<string>)
    requires IsWord(":" + me) && IsWord(chname) && IsWord(modes) && AreWords(para) && |para| <= 4
    ensures Words(ModeLine(me, chname, modes, para)) == [":" + me, "MODE", chname, modes] + para
  {
    var words := [":" + me, "MODE", chname, modes] + para;
    assert IsWord("MODE");
    SpacedThenNothing(words, 4 - |para|);
    BlanksAreATail(4 - |para|);
    hide Words, Spaced, IsWord;
    SpacedReadsBack(words, Blanks(4 - |para|));
  }

  function ClearNames(view: View, names: seq<string>, mask: bv32): View {
    if names == [] then view else ClearNames(Clear(view, names[0], mask), names[1..], mask)
  }

  lemma {:induction false} ClearEachIsClearNames(view: View, flag: char, names: seq<string>)
    ensures ClearEach(view, Letters(flag, |names|), names) == ClearNames(view, names, MaskOf(flag))
    decreases |names|
  {
    hide Clear;
    if names != [] {
      assert Letters(flag, |names|)[1..] == Letters(flag, |names| - 1);
      ClearEachIsClearNames(Clear(view, names[0], MaskOf(flag)), flag, names[1..]);
    }
  }

  predicate IsModeLetter(flag: char) { flag == 'o' || flag == 'h' || flag == 'v' }

  lemma ModesAreAWord(flag: char, n: nat)
    requires IsModeLetter(flag)
    ensures IsWord(Modes(flag, n)) && Modes(flag, n)[0] == '-' && Modes(flag, n)[1..] == Letters(flag, n)
  {}

  // An observer takes the flag from exactly the members the line names.
  lemma ObserveBatch(view: View, me: string, chname: string, flag: char, batch: seq<string>)
    requires IsWord(":" + me) && IsWord(chname) && IsModeLetter(flag) && AreWords(batch) && |batch| <= 4
    ensures Observe(view, me, chname, BatchLine(me, chname, flag, batch)) == ClearNames(view, batch, MaskOf(flag))
  {
    var modes := Modes(flag, |batch|);
    ModesAreAWord(flag, |batch|);
    ModeLineReadsBack(me, chname, modes, batch);
    ClearEachIsClearNames(view, flag, batch);
    hide Words, IsWord, Spaced, ClearEach, ClearNames, Modes;
    var w := [":" + me, "MODE", chname, modes] + batch;
    assert w[..3] == [":" + me, "MODE", chname] && w[4..] == batch;
  }

  lemma {:induction false} ClearNamesSum(view: View, a: seq<string>, b: seq<string>, mask: bv32)
    ensures ClearNames(view, a + b, mask) == ClearNames(ClearNames(view, a, mask), b, mask)
    decreases |a|
  {
    hide Clear;
    if a == [] {
      assert a + b == b;
    } else {
      assert (a + b)[1..] == a[1..] + b;
      ClearNamesSum(Clear(view, a[0], mask), a[1..], b, mask);
    }
  }

  // No line carries more than four changes, or none.
  ghost predicate AreBatches(batches: seq<seq<string>>) {
    forall b :: b in batches ==> 1 <= |b| <= 4 && AreWords(b)
  }

  // All holders, in order, four to a line as long as there are four.
  lemma {:induction false} BatchesOf(names: seq<string>)
    requires AreWords(names)
    ensures Flat(Batches(names)) == names && AreBatches(Batches(names))
    ensures forall i :: 0 <= i < |Batches(names)| - 1 ==> |Batches(names)[i]| == 4
  {
    hide IsWord;
    if names == [] {
    } else if |names| <= 4 {
      assert Flat([names]) == names + Flat<string>([]);
    } else {
      BatchesOf(names[4..]);
      assert ([names[..4]] + Batches(names[4..]))[1..] == Batches(names[4..]);
      assert names[..4] + names[4..] == names;
    }
  }

  lemma {:induction false} ReplayBatches(view: View, me: string, chname: string, flag: char, batches: seq<seq<string>>)
    requires IsWord(":" + me) && IsWord(chname) && IsModeLetter(flag) && AreBatches(batches)
    ensures Replay(view, me, chname, BatchLines(me, chname, flag, batches))
            == ClearNames(view, Flat(batches), MaskOf(flag))
  {
    if batches == [] {
      NothingToClear(view, MaskOf(flag));
    } else {
      var front, last := batches[..|batches| - 1], batches[|batches| - 1];
      LastBatch(batches);
      hide *;
      ReplayBatches(view, me, chname, flag, front);
      FlatAppend(front, last);
      ReplayLast(view, me, chname, flag, front, last);
      ObserveBatch(ClearNames(view, Flat(front), MaskOf(flag)), me, chname, flag, last);
      ClearNamesSum(view, Flat(front), last, MaskOf(flag));
    }
  }

  lemma LastBatch(batches: seq<seq<string>>)
    requires AreBatches(batches) && batches != []
    ensures var front, last := batches[..|batches| - 1], batches[|batches| - 1];
            batches == front + [last] && AreBatches(front) && 1 <= |last| <= 4 && AreWords(last)
  {
    hide AreWords;
    var front, last := batches[..|batches| - 1], batches[|batches| - 1];
    assert last in batches;
    assert forall b :: b in front ==> b in batches;
  }

  lemma ReplayLast(view: View, me: string, chname: string, flag: char, front: seq<seq<string>>, last: seq<string>)
    ensures Replay(view, me, chname, BatchLines(me, chname, flag, front + [last]))
            == Observe(Replay(view, me, chname, BatchLines(me, chname, flag, front)), me, chname,
                       BatchLine(me, chname, flag, last))
  {
    hide Observe, BatchLine;
    assert (front + [last])[..|front|] == front;
    var lines := BatchLines(me, chname, flag, front);
    assert (lines + [BatchLine(me, chname, flag, last)])[..|lines|] == lines;
  }

  lemma NothingToClear(view: View, mask: bv32)
    ensures ClearNames(view, Flat<string>([]), mask) == view
  {}

  lemma WithoutTwice(u: bv32, mask: bv32)
    ensures Without(Without(u, mask), mask) == Without(u, mask)
  {}

  lemma {:induction false} ClearNamesAt(view: View, names: seq<string>, mask: bv32, n: string)
    requires n in view
    ensures n in ClearNames(view, names, mask)
    ensures ClearNames(view, names, mask)[n] == if n in names then Without(view[n], mask) else view[n]
  {
    hide Without;
    if names != [] {
      WithoutTwice(view[n], mask);
      ClearNamesAt(Clear(view, names[0], mask), names[1..], mask, n);
    }
  }

  // -------- the observer's state and the server's

  ghost predicate Matches(view: View, names: seq<string>, flags: seq<bv32>) {
    |names| == |flags| && forall i :: 0 <= i < |names| ==> names[i] in view && view[names[i]] == flags[i]
  }

  function Cleared(flags: seq<bv32>, mask: bv32): (r: seq<bv32>)
    ensures |r| == |flags|
  {
    seq(|flags|, i requires 0 <= i < |flags| => Without(flags[i], mask))
  }

  lemma {:induction false} HoldersExactly(names: seq<string>, flags: seq<bv32>, mask: bv32, i: nat)
    requires |names| == |flags| && NoDuplicates(names) && i < |names|
    ensures names[i] in Holders(names, flags, mask) <==> Has(flags[i], mask)
  {
    hide Has;
    HoldersAreNames(names[1..], flags[1..], mask);
    if i > 0 {
      HoldersExactly(names[1..], flags[1..], mask, i - 1);
    }
  }

  lemma {:induction false} HoldersAreNames(names: seq<string>, flags: seq<bv32>, mask: bv32)
    requires |names| == |flags|
    ensures forall n :: n in Holders(names, flags, mask) ==> n in names
  {
    if names != [] {
      HoldersAreNames(names[1..], flags[1..], mask);
    }
  }

  lemma NotHeld(u: bv32, mask: bv32)
    requires !Has(u, mask)
    ensures Without(u, mask) == u
  {}

  // Whoever knew the flags of all members before the lines of one mode, and reads the lines in order,
  // knows them afterwards.
  lemma ObserverAgrees(view: View, me: string, chname: string, flag: char, names: seq<string>, flags: seq<bv32>)
    requires IsWord(":" + me) && IsWord(chname) && IsModeLetter(flag) && AreWords(names) && NoDuplicates(names)
    requires Matches(view, names, flags)
    ensures Matches(Replay(view, me, chname, Lines(me, chname, flag, Holders(names, flags, MaskOf(flag)))), names,
                    Cleared(flags, MaskOf(flag)))
  {
    hide IsWord, IsModeLetter, Has, Without, Replay, Batches, BatchLines;
    var mask := MaskOf(flag);
    var holders := Holders(names, flags, mask);
    HoldersAreNames(names, flags, mask);
    BatchesOf(holders);
    ReplayBatches(view, me, chname, flag, Batches(holders));
    var view' := ClearNames(view, holders, mask);
    forall i | 0 <= i < |names|
      ensures names[i] in view' && view'[names[i]] == Without(flags[i], mask)
    {
      HoldersExactly(names, flags, mask, i);
      ClearNamesAt(view, holders, mask, names[i]);
      if !Has(flags[i], mask) {
        NotHeld(flags[i], mask);
      }
    }
  }

  // -------- remove_a_mode

  ghost function NamesOf(all: seq<Membership>): (r: seq<string>)
    ensures |r| == |all|
  {
    seq(|all|, i requires 0 <= i < |all| => all[i].client)
  }

  ghost function FlagsOf(all: seq<Membership>): (r: seq<bv32>)
    reads all
    ensures |r| == |all|
  {
    seq(|all|, i requires 0 <= i < |all| reads all => all[i].flags)
  }

  // sendto_channel_local with the mode buffer and the four parameters
  method SendModes(me: string, chname: string, lmodebuf: array<char>, mbuf: nat, lpara: array<string>,
                   ghost flag: char, ghost batch: seq<string>) returns (line: string)
    requires lmodebuf.Length == MODEBUFLEN && lpara.Length == 4 && |batch| <= 4 && IsModeLetter(flag)
    requires mbuf == 1 + |batch| && lmodebuf[..mbuf] == Modes(flag, |batch|) && lpara[..] == batch
        + Empties(4 - |batch|)
    modifies lmodebuf
    ensures line == BatchLine(me, chname, flag, batch)
  {
    ModesAreAWord(flag, |batch|);
    hide Spaced, Modes, Empties;
    lmodebuf[mbuf] := '\0';
    CStringIs(lmodebuf[..], Modes(flag, |batch|));
    line := Spaced([":" + me, "MODE", chname, CString(lmodebuf[..])] + lpara[..]);
    assert [":" + me, "MODE", chname, Modes(flag, |batch|)] + (batch + Empties(4 - |batch|))
        == [":" + me, "MODE", chname, Modes(flag, |batch|)] + batch + Empties(4 - |batch|);
  }

  // What is sent once the lines `done` are out, and the changes `open` and those of the members from
  // the i-th on are still to come.
  ghost predicate Sending(done: seq<seq<string>>, open: seq<string>, names: seq<string>, flags: seq<bv32>, mask: bv32,
                          i: nat) {
    && |names| == |flags| && i <= |names| && |open| <= 4
    && done + Batches(open + Holders(names[i..], flags[i..], mask)) == Batches(Holders(names, flags, mask))
  }

  lemma SendingStarts(names: seq<string>, flags: seq<bv32>, mask: bv32)
    requires |names| == |flags|
    ensures Sending([], [], names, flags, mask, 0)
  {
    assert names[0..] == names && flags[0..] == flags;
    var holders := Holders(names, flags, mask);
    assert [] + holders == holders && [] + Batches(holders) == Batches(holders);
  }

  lemma SendingNext(done: seq<seq<string>>, open: seq<string>, names: seq<string>, flags: seq<bv32>, mask: bv32, i: nat)
    requires Sending(done, open, names, flags, mask, i) && i < |names| && |open| < 4
    ensures Sending(done, if Has(flags[i], mask) then open + [names[i]] else open, names, flags, mask, i + 1)
  {
    hide Batches, Has;
    assert names[i..][1..] == names[i + 1..] && flags[i..][1..] == flags[i + 1..];
    var later := Holders(names[i + 1..], flags[i + 1..], mask);
    Regroup(open, [names[i]], later);
    assert [] + later == later;
  }

  lemma SendingFlush(done: seq<seq<string>>, open: seq<string>, names: seq<string>, flags: seq<bv32>, mask: bv32,
                     i: nat)
    requires Sending(done, open, names, flags, mask, i) && |open| == 4
    ensures Sending(done + [open], [], names, flags, mask, i)
  {
    var later := Holders(names[i..], flags[i..], mask);
    var all := open + later;
    assert [] + later == later;
    if later == [] {
      assert all == open;
      assert Batches(later) == [];
    } else {
      assert all[..4] == open && all[4..] == later;
    }
    hide Holders;
    Regroup(done, [open], Batches(later));
    assert Batches(all) == [open] + Batches(later);
  }

  lemma SendingEnds(done: seq<seq<string>>, open: seq<string>, names: seq<string>, flags: seq<bv32>, mask: bv32)
    requires Sending(done, open, names, flags, mask, |names|) && |open| < 4
    ensures Batches(Holders(names, flags, mask)) == if open == [] then done else done + [open]
  {
    assert Holders(names[|names|..], flags[|names|..], mask) == [];
    assert open + [] == open;
  }

  lemma LinesGrow(me: string, chname: string, flag: char, done: seq<seq<string>>, batch: seq<string>)
    ensures BatchLines(me, chname, flag, done + [batch]) == BatchLines(me, chname, flag, done)
        + [BatchLine(me, chname, flag, batch)]
  {
    assert (done + [batch])[..|done|] == done;
  }

  lemma OneMoreLetter(flag: char, n: nat)
    ensures Modes(flag, n) + [flag] == Modes(flag, n + 1) && Modes(flag, 0) == "-"
  {}

  // lpara after one more parameter, and after none.
  lemma OneMorePara(open: seq<string>, para: seq<string>, name: string)
    requires |open| < 4 && para == open + Empties(4 - |open|)
    ensures |para| == 4 && para[|open| := name] == (open + [name]) + Empties(3 - |open|)
  {}

  // The two buffers hold the changes of `open`.
  ghost predicate Buffered(lmodebuf: array<char>, mbuf: nat, lpara: array<string>, count: nat, flag: char,
                           open: seq<string>)
    reads lmodebuf, lpara
  {
    && lmodebuf.Length == MODEBUFLEN && lpara.Length == 4 && count == |open| < 4
    && mbuf == 1 + count && lmodebuf[..mbuf] == Modes(flag, count) && lpara[..] == open + Empties(4 - count)
  }

  method ResetBuffers(lmodebuf: array<char>, lpara: array<string>, ghost flag: char) returns (mbuf: nat, count: nat)
    requires lmodebuf.Length == MODEBUFLEN && lpara.Length == 4
    modifies lmodebuf, lpara
    ensures Buffered(lmodebuf, mbuf, lpara, count, flag, [])
  {
    lmodebuf[0] := '-';
    mbuf, count := 1, 0;
    lpara[0], lpara[1], lpara[2], lpara[3] := "", "", "", "";
    OneMoreLetter(flag, 0);
    assert lpara[..] == [] + Empties(4);
  }

  // One more change, and the line when there are four.
  method AddChange(me: string, chname: string, lmodebuf: array<char>, mbuf: nat, lpara: array<string>, count: nat,
                   name: string,
                   flag: char, sent: seq<string>, ghost done: seq<seq<string>>, ghost open: seq<string>)
    returns (mbuf': nat, count': nat, sent': seq<string>, ghost done': seq<seq<string>>, ghost open': seq<string>)
    requires Buffered(lmodebuf, mbuf, lpara, count, flag, open) && IsModeLetter(flag)
    requires sent == BatchLines(me, chname, flag, done)
    modifies lmodebuf, lpara
    ensures Buffered(lmodebuf, mbuf', lpara, count', flag, open') && sent' == BatchLines(me, chname, flag, done')
    ensures if |open| == 3 then done' == done + [open + [name]] && open' == []
            else done' == done && open' == open + [name]
  {
    hide BatchLine, BatchLines, Modes, Empties;
    sent', done', open' := sent, done, open + [name];
    OneMorePara(open, lpara[..], name);
    OneMoreLetter(flag, count);
    lpara[count] := name;
    count' := count + 1;
    mbuf' := Put(lmodebuf, mbuf, flag);
    if count' == 4 {
      var line := SendModes(me, chname, lmodebuf, mbuf', lpara, flag, open');
      sent' := sent + [line];
      LinesGrow(me, chname, flag, done, open');
      done', open' := done + [open'], [];
      mbuf', count' := ResetBuffers(lmodebuf, lpara, flag);
    }
  }

  ghost predicate Holds(members: List<Membership>, all: seq<Membership>)
    reads members, members.nodes
  {
    |members.nodes| == |all| && forall i :: 0 <= i < |all| ==> members.nodes[i].data == all[i]
  }

  // The first i members have lost the flag, the others are as they were.
  ghost predicate ClearedUpTo(all: seq<Membership>, flags: seq<bv32>, mask: bv32, i: nat)
    reads all
  {
    |flags| == |all| && forall j :: 0 <= j < |all| ==> all[j].flags == if j < i then Without(flags[j], mask)
        else flags[j]
  }

  method TakeFlag(ms: Membership, mask: bv32, ghost all: seq<Membership>, ghost flags: seq<bv32>, ghost i: nat)
      returns (held: bool)
    requires NoDuplicates(all) && i < |all| && ms == all[i] && ClearedUpTo(all, flags, mask, i)
    modifies ms
    ensures ClearedUpTo(all, flags, mask, i + 1) && held == Has(flags[i], mask)
  {
    hide Has, Without;
    held := Has(ms.flags, mask);
    if held {
      ms.flags := Without(ms.flags, mask);
    } else {
      NotHeld(ms.flags, mask);
    }
  }

  lemma ClearedAll(all: seq<Membership>, flags: seq<bv32>, mask: bv32)
    ensures ClearedUpTo(all, FlagsOf(all), mask, 0)
    ensures ClearedUpTo(all, flags, mask, |all|) ==> FlagsOf(all) == Cleared(flags, mask)
  {}

  method RemoveAMode(me: string, chname: string, members: List<Membership>, ghost all: seq<Membership>, mask: bv32,
                     flag: char)
    returns (sent: seq<string>)
    requires members.Valid() && Holds(members, all) && NoDuplicates(all) && IsModeLetter(flag)
    modifies all
    ensures FlagsOf(all) == Cleared(old(FlagsOf(all)), mask)
    ensures sent == Lines(me, chname, flag, Holders(NamesOf(all), old(FlagsOf(all)), mask))
  {
    ghost var names, flags := NamesOf(all), FlagsOf(all);
    hide *;
    var lmodebuf := new char[MODEBUFLEN](_ => '\0');
    var lpara := new string[4](_ => "");
    ghost var done: seq<seq<string>>, open: seq<string> := [], [];
    sent := [];
    var mbuf, count := ResetBuffers(lmodebuf, lpara, flag);
    var ptr := members.head;
    ghost var i := 0;
    SendingStarts(names, flags, mask);
    NothingSent(me, chname, flag);
    ClearedAll(all, flags, mask);
    WalkStarts(members, all);
    while ptr != null
      invariant 0 <= i <= |all| && Walk(members, all, ptr, i)
      invariant ClearedUpTo(all, flags, mask, i)
      invariant Buffered(lmodebuf, mbuf, lpara, count, flag, open)
      invariant sent == BatchLines(me, chname, flag, done) && Sending(done, open, names, flags, mask, i)
      decreases |all| - i
    {
      WalkTurn(members, all, ptr, i);
      BufferedCount(lmodebuf, mbuf, lpara, count, flag, open);
      var ms := ptr.data;
      NamesAt(all, i);
      SendingNext(done, open, names, flags, mask, i);
      var held := TakeFlag(ms, mask, all, flags, i);
      if held {
        if |open| == 3 {
          SendingFlush(done, open + [ms.client], names, flags, mask, i + 1);
        }
        mbuf, count, sent, done, open := AddChange(me, chname, lmodebuf, mbuf, lpara, count, ms.client, flag, sent,
                                                   done, open);
      }
      ptr := ptr.next;
      i := i + 1;
    }
    WalkEnds(members, all, ptr, i);
    ClearedAll(all, flags, mask);
    BufferedCount(lmodebuf, mbuf, lpara, count, flag, open);
    SendingEnds(done, open, names, flags, mask);
    if count != 0 {
      var line := SendModes(me, chname, lmodebuf, mbuf, lpara, flag, open);
      sent := sent + [line];
      LinesGrow(me, chname, flag, done, open);
    }
    LinesAre(me, chname, flag, Holders(names, flags, mask));
  }

  lemma LinesAre(me: string, chname: string, flag: char, holders: seq<string>)
    ensures Lines(me, chname, flag, holders) == BatchLines(me, chname, flag, Batches(holders))
  {}

  lemma NamesAt(all: seq<Membership>, i: nat)
    requires i < |all|
    ensures NamesOf(all)[i] == all[i].client
  {}

  // DLINK_FOREACH over the members, at the i-th of them
  ghost predicate Walk(members: List<Membership>, all: seq<Membership>, ptr: Node?<Membership>, i: nat)
    reads members, members.nodes
  {
    members.Valid() && Holds(members, all) && i <= |all| && ptr == if i < |all| then members.nodes[i] else null
  }

  lemma WalkStarts(members: List<Membership>, all: seq<Membership>)
    requires members.Valid() && Holds(members, all)
    ensures Walk(members, all, members.head, 0)
  {}

  lemma WalkTurn(members: List<Membership>, all: seq<Membership>, ptr: Node<Membership>, i: nat)
    requires Walk(members, all, ptr, i)
    ensures i < |all| && ptr.data == all[i] && Walk(members, all, ptr.next, i + 1)
  {}

  lemma WalkEnds(members: List<Membership>, all: seq<Membership>, ptr: Node?<Membership>, i: nat)
    requires Walk(members, all, ptr, i) && ptr == null
    ensures i == |all|
  {}

  lemma BufferedCount(lmodebuf: array<char>, mbuf: nat, lpara: array<string>, count: nat, flag: char, open: seq<string>)
    requires Buffered(lmodebuf, mbuf, lpara, count, flag, open)
    ensures lmodebuf.Length == MODEBUFLEN && lpara.Length == 4 && count == |open| < 4
    ensures mbuf == 1 + count && lmodebuf[..mbuf] == Modes(flag, count) && lpara[..] == open + Empties(4 - count)
  {}

  lemma NothingSent(me: string, chname: string, flag: char)
    ensures BatchLines(me, chname, flag, []) == []
  {}

  // -------- remove_our_modes

  function FlagsLeft(flags: seq<bv32>, halfops: bool): seq<bv32> {
    var after := Cleared(flags, CHFL_CHANOP);
    Cleared(if halfops then Cleared(after, CHFL_HALFOP) else after, CHFL_VOICE)
  }

  function OurModesLines(me: string, chname: string, names: seq<string>, flags: seq<bv32>, halfops: bool): seq<string>
    requires |names| == |flags|
  {
    var after := Cleared(flags, CHFL_CHANOP);
    var later := if halfops then Cleared(after, CHFL_HALFOP) else after;
    Lines(me, chname, 'o', Holders(names, flags, CHFL_CHANOP))
    + (if halfops then Lines(me, chname, 'h', Holders(names, after, CHFL_HALFOP)) else [])
    + Lines(me, chname, 'v', Holders(names, later, CHFL_VOICE))
  }

  // `halfops` is the build option of that name.
  method RemoveOurModes(me: string, chname: string, members: List<Membership>, ghost all: seq<Membership>,
                        halfops: bool)
    returns (sent: seq<string>)
    requires members.Valid() && Holds(members, all) && NoDuplicates(all)
    modifies all
    ensures FlagsOf(all) == FlagsLeft(old(FlagsOf(all)), halfops)
    ensures sent == OurModesLines(me, chname, NamesOf(all), old(FlagsOf(all)), halfops)
  {
    hide members.Valid, Lines, Holders, Cleared, NoDuplicates;
    sent := RemoveAMode(me, chname, members, all, CHFL_CHANOP, 'o');
    var more: seq<string> := [];
    if halfops {
      more := RemoveAMode(me, chname, members, all, CHFL_HALFOP, 'h');
    }
    sent := sent + more;
    more := RemoveAMode(me, chname, members, all, CHFL_VOICE, 'v');
    sent := sent + more;
  }

  lemma {:induction false} ReplaySum(view: View, me: string, chname: string, a: seq<string>, b: seq<string>)
    ensures Replay(view, me, chname, a + b) == Replay(Replay(view, me, chname, a), me, chname, b)
    decreases |b|
  {
    hide Observe;
    if b == [] {
      assert a + b == a;
    } else {
      var front := b[..|b| - 1];
      assert (a + b)[..|a + b| - 1] == a + front;
      ReplaySum(view, me, chname, a, front);
    }
  }

  // After all three, an observer who knew everyone's flags still does, and nobody is an operator, a
  // half operator or voiced.
  lemma ObserverAgreesOnAll(view: View, me: string, chname: string, names: seq<string>, flags: seq<bv32>, halfops: bool)
    requires IsWord(":" + me) && IsWord(chname) && AreWords(names) && NoDuplicates(names) && Matches(view, names, flags)
    ensures Matches(Replay(view, me, chname, OurModesLines(me, chname, names, flags, halfops)), names,
                    FlagsLeft(flags, halfops))
  {
    hide IsWord, Replay, Lines, Holders, Cleared, Matches, NoDuplicates;
    SameLength(view, names, flags);
    var after := Cleared(flags, CHFL_CHANOP);
    var later := if halfops then Cleared(after, CHFL_HALFOP) else after;
    var l1 := Lines(me, chname, 'o', Holders(names, flags, CHFL_CHANOP));
    var l2 := if halfops then Lines(me, chname, 'h', Holders(names, after, CHFL_HALFOP)) else [];
    var l3 := Lines(me, chname, 'v', Holders(names, later, CHFL_VOICE));
    ReplaySum(view, me, chname, l1 + l2, l3);
    ReplaySum(view, me, chname, l1, l2);
    ObserverAgrees(view, me, chname, 'o', names, flags);
    var view1 := Replay(view, me, chname, l1);
    if halfops {
      ObserverAgrees(view1, me, chname, 'h', names, after);
    } else {
      assert l1 + l2 == l1;
    }
    ObserverAgrees(Replay(view, me, chname, l1 + l2), me, chname, 'v', names, later);
  }

  lemma SameLength(view: View, names: seq<string>, flags: seq<bv32>)
    requires Matches(view, names, flags)
    ensures |names| == |flags|
  {}

  // Nobody is an operator or voiced, or a half operator in a build that has them. A build without them
  // leaves that flag alone, and every build all other flags.
  lemma NoPrivilegeLeft(flags: seq<bv32>, i: nat, halfops: bool)
    requires i < |flags|
    ensures var left := FlagsLeft(flags, halfops)[i];
            && !Has(left, CHFL_CHANOP) && !Has(left, CHFL_VOICE)
            && (Has(left, CHFL_HALFOP) <==> !halfops && Has(flags[i], CHFL_HALFOP))
            && Without(left, 0x7) == Without(flags[i], 0x7)
  {
    FlagsAreDisjoint();
    LeftAt(flags, i, halfops);
    hide *;
    if halfops {
      ThreeTaken(flags[i], CHFL_CHANOP, CHFL_HALFOP, CHFL_VOICE, 0x7);
    } else {
      TwoTaken(flags[i], CHFL_CHANOP, CHFL_HALFOP, CHFL_VOICE, 0x7);
    }
  }

  lemma LeftAt(flags: seq<bv32>, i: nat, halfops: bool)
    requires i < |flags|
    ensures FlagsLeft(flags, halfops)[i]
            == var f := Without(flags[i], CHFL_CHANOP);
               Without(if halfops then Without(f, CHFL_HALFOP) else f, CHFL_VOICE)
  {
    hide Without;
  }

  ghost predicate Disjoint(a: bv32, b: bv32, c: bv32, all: bv32) {
    && Common(a, b) == Common(b, a) == Common(c, a) == Common(c, b) == Common(a, c) == 0
    && Common(a, all) == a && Common(b, all) == b && Common(c, all) == c
  }

  lemma FlagsAreDisjoint()
    ensures Disjoint(CHFL_CHANOP, CHFL_HALFOP, CHFL_VOICE, 0x7)
  {}

  lemma IsTaken(f: bv32, mask: bv32)
    ensures !Has(Without(f, mask), mask)
  {}

  lemma HasIsCommon(f: bv32, mask: bv32)
    ensures Has(f, mask) <==> Common(f, mask) != 0
  {}

  lemma BitsAreKept(f: bv32, mask: bv32, other: bv32)
    requires mask & other == 0
    ensures (f & !mask) & other == f & other
  {}

  lemma CommonIsKept(f: bv32, mask: bv32, other: bv32)
    requires Common(mask, other) == 0
    ensures Common(Without(f, mask), other) == Common(f, other)
  {
    BitsAreKept(f, mask, other);
  }

  lemma IsKept(f: bv32, mask: bv32, other: bv32)
    requires Common(mask, other) == 0
    ensures Has(Without(f, mask), other) <==> Has(f, other)
  {
    hide *;
    CommonIsKept(f, mask, other);
    HasIsCommon(Without(f, mask), other);
    HasIsCommon(f, other);
  }

  lemma RestIsKept(f: bv32, mask: bv32, all: bv32)
    requires Common(mask, all) == mask
    ensures Without(Without(f, mask), all) == Without(f, all)
  {}

  lemma TakesOnly(f: bv32, mask: bv32, other: bv32, all: bv32)
    requires Common(mask, other) == 0 && Common(mask, all) == mask
    ensures !Has(Without(f, mask), mask) && (Has(Without(f, mask), other) <==> Has(f, other))
    ensures Without(Without(f, mask), all) == Without(f, all)
  {
    hide *;
    IsTaken(f, mask);
    IsKept(f, mask, other);
    RestIsKept(f, mask, all);
  }

  lemma ThreeTaken(f: bv32, a: bv32, b: bv32, c: bv32, all: bv32)
    requires Disjoint(a, b, c, all)
    ensures var left := Without(Without(Without(f, a), b), c);
            !Has(left, a) && !Has(left, b) && !Has(left, c) && Without(left, all) == Without(f, all)
  {
    hide Has, Without, Common;
    var g := Without(f, a);
    var h := Without(g, b);
    TakesOnly(f, a, b, all);
    TakesOnly(g, b, a, all);
    TakesOnly(h, c, a, all);
    TakesOnly(h, c, b, all);
  }

  lemma TwoTaken(f: bv32, a: bv32, b: bv32, c: bv32, all: bv32)
    requires Disjoint(a, b, c, all)
    ensures var left := Without(Without(f, a), c);
            && !Has(left, a) && !Has(left, c) && (Has(left, b) <==> Has(f, b))
            && Without(left, all) == Without(f, all)
  {
    hide Has, Without, Common;
    var g := Without(f, a);
    TakesOnly(f, a, b, all);
    TakesOnly(g, c, a, all);
    TakesOnly(g, c, b, all);
  }

  // -------- kick_list

  // The members before the oper joins are kicked in the order of the list, and the oper is left
  // alone, as a channel operator.
  method KickList(members: List<Membership>, source: string, m: Node<Membership>)
    returns (ghost kicked: seq<Node<Membership>>)
    requires members.Valid() && m !in members.nodes
    requires forall n :: n in members.nodes ==> n.data.client != source
    modifies members, m, members.nodes
    ensures members.Valid() && members.nodes == [m] && kicked == old(members.nodes)
    ensures m.data.client == source && m.data.flags == CHFL_CHANOP && fresh(m.data)
  {
    var ms := new Membership(source, CHFL_CHANOP);
    ghost var others := members.nodes;
    members.Add(ms, m);
    hide *;
    SeatsAre(m, others, source);
    kicked := KickOthers(members, source, m, others);
  }

  // Who is on the channel: the oper, and others before it.
  ghost predicate Seats(m: Node<Membership>, others: seq<Node<Membership>>, source: string)
    reads m, others
  {
    m.data.client == source && forall x :: x in others ==> x.data.client != source
  }

  lemma SeatsAre(m: Node<Membership>, others: seq<Node<Membership>>, source: string)
    requires m.data.client == source && forall x :: x in others ==> x.data.client != source
    ensures Seats(m, others, source)
  {}

  lemma SeatOf(m: Node<Membership>, others: seq<Node<Membership>>, source: string, x: Node<Membership>)
    requires Seats(m, others, source)
    ensures x == m ==> x.data.client == source
    ensures x in others ==> x.data.client != source
  {}

  method KickOthers(members: List<Membership>, source: string, m: Node<Membership>, ghost others: seq<Node<Membership>>)
    returns (ghost kicked: seq<Node<Membership>>)
    requires members.Valid() && members.nodes == [m] + others && Seats(m, others, source)
    modifies members, m, others
    ensures members.Valid() && members.nodes == [m] && kicked == others
    ensures m.data == old(m.data)
  {
    hide *;
    ghost var scope := ScopeOf(m, others);
    ScopeHolds(m, others);
    kicked := [];
    var pos := members.head;
    var n := if pos != null then pos.next else null;
    ghost var i := 0;
    KickStarts(members, m, others, pos, n);
    while pos != null
      invariant 0 <= i <= |others| + 1 && KickWalk(members, m, others, pos, n, i)
      invariant kicked == Kicked(others, i)
      invariant Seats(m, others, source) && m.data == old(m.data)
      invariant forall x :: x in members.nodes ==> x in scope
      decreases |others| + 1 - i
    {
      PosIs(members, m, others, pos, n, i);
      SeatOf(m, others, source, pos);
      var remove := pos.data.client != source;
      if remove {
        kicked := kicked + [pos];
      }
      pos, n := KickOne(members, pos, n, remove, m, others, i, scope, source);
      i := i + 1;
    }
    KickEnds(members, m, others, pos, n, i);
  }

  ghost function ScopeOf(m: Node<Membership>, others: seq<Node<Membership>>): set<Node<Membership>> {
    {m} + set x | x in others
  }

  lemma ScopeHolds(m: Node<Membership>, others: seq<Node<Membership>>)
    ensures forall x: Node<Membership> :: x in ScopeOf(m, others) <==> x == m || x in others
  {}

  // The body of the loop: whoever is not the oper is removed.
  method KickOne(members: List<Membership>, pos: Node<Membership>, n: Node?<Membership>, remove: bool,
                 ghost m: Node<Membership>, ghost others: seq<Node<Membership>>, ghost i: nat,
                 ghost scope: set<Node<Membership>>, ghost source: string)
    returns (pos': Node?<Membership>, n': Node?<Membership>)
    requires i <= |others| && KickWalk(members, m, others, pos, n, i) && (remove <==> i > 0)
    requires forall x :: x in members.nodes ==> x in scope
    requires scope == ScopeOf(m, others) && Seats(m, others, source)
    modifies members, scope
    ensures KickWalk(members, m, others, pos', n', i + 1)
    ensures forall x :: x in members.nodes ==> x in scope
    ensures Seats(m, others, source) && m.data == old(m.data)
  {
    ScopeHolds(m, others);
    hide members.Valid, KickWalk, First, ScopeOf;
    KickTurn(members, m, others, pos, n, i);
    ghost var kept, later := if i == 0 then [] else [m], others[i..];
    pos', n' := members.SafeTurn(pos, n, remove, kept, later, scope);
    assert kept + (if remove then [] else [pos]) == [m];
    KickNext(members, m, others, pos', n', i, later);
  }

  lemma PosIs(members: List<Membership>, m: Node<Membership>, others: seq<Node<Membership>>,
              pos: Node<Membership>, n: Node?<Membership>, i: nat)
    requires i <= |others| + 1 && KickWalk(members, m, others, pos, n, i)
    ensures i <= |others|
    ensures if i == 0 then pos == m && Kicked(others, i) == Kicked(others, i + 1)
            else pos in others && Kicked(others, i) + [pos] == Kicked(others, i + 1)
  {
    hide members.Valid;
    KickTurn(members, m, others, pos, n, i);
  }

  ghost function Kicked(others: seq<Node<Membership>>, i: nat): seq<Node<Membership>>
    requires i <= |others| + 1
  {
    if i == 0 then [] else others[..i - 1]
  }

  // The walk over m and the others after i turns: m is kept, and those behind it were kicked.
  ghost predicate KickWalk(members: List<Membership>, m: Node<Membership>, others: seq<Node<Membership>>,
                           pos: Node?<Membership>, n: Node?<Membership>, i: nat)
    requires i <= |others| + 1
    reads members, members.nodes
  {
    && members.Valid() && members.nodes == [m] + (if i == 0 then others else others[i - 1..])
    && if i == 0 then pos == m && n == First(others)
       else pos == First(others[i - 1..]) && (i <= |others| ==> n == First(others[i..]))
  }

  lemma KickStarts(members: List<Membership>, m: Node<Membership>, others: seq<Node<Membership>>,
                   pos: Node?<Membership>, n: Node?<Membership>)
    requires members.Valid() && members.nodes == [m] + others
    requires pos == members.head && n == if pos != null then pos.next else null
    ensures KickWalk(members, m, others, pos, n, 0) && Kicked(others, 0) == []
  {
    members.HeadIsFirst();
    hide members.Valid;
    assert members.nodes[1..] == others && members.nodes[0] == m;
  }

  lemma KickTurn(members: List<Membership>, m: Node<Membership>, others: seq<Node<Membership>>,
                 pos: Node<Membership>, n: Node?<Membership>, i: nat)
    requires i <= |others| + 1 && KickWalk(members, m, others, pos, n, i)
    ensures i <= |others| && members.Valid() && n == First(others[i..])
    ensures members.nodes == (if i == 0 then [] else [m]) + ([pos] + others[i..])
    ensures if i == 0 then pos == m else pos in others && Kicked(others, i) + [pos] == Kicked(others, i + 1)
    ensures i == 0 ==> Kicked(others, i) == Kicked(others, i + 1)
  {
    hide members.Valid;
    if i == 0 {
      assert others[0..] == others;
      assert [] + ([pos] + others) == [m] + others;
    } else {
      assert others[i - 1..] == [others[i - 1]] + others[i..];
      assert others[..i - 1] + [others[i - 1]] == others[..i];
    }
  }

  lemma KickNext(members: List<Membership>, m: Node<Membership>, others: seq<Node<Membership>>,
                 pos: Node?<Membership>, n: Node?<Membership>, i: nat, later: seq<Node<Membership>>)
    requires i <= |others| && members.Valid() && later == others[i..]
    requires members.nodes == [m] + later
    requires pos == First(later) && n == if later == [] then null else First(later[1..])
    ensures KickWalk(members, m, others, pos, n, i + 1)
  {
    hide members.Valid;
    if later != [] {
      assert later[1..] == others[i + 1..];
    }
  }

  lemma KickEnds(members: List<Membership>, m: Node<Membership>, others: seq<Node<Membership>>,
                 pos: Node?<Membership>, n: Node?<Membership>, i: nat)
    requires i <= |others| + 1 && KickWalk(members, m, others, pos, n, i) && pos == null
    ensures members.Valid() && members.nodes == [m] && Kicked(others, i) == others
  {
    hide members.Valid;
    assert i == |others| + 1;
  }
}
