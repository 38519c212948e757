/**
 What SPOOF and DELSPOOF promise together, on every file SPOOF can have written. DELSPOOF is a filter
 on blocks, and undoes SPOOF, exactly as long as no mask holds a quote; with quotes in hosts it also
 cuts the masks it copies, and with a quote in the user of a block that stays it fails.
 */
module SpoofRoundTrip {
  import opened IrcString
  import opened Options
  import opened SpoofFile
  import opened DelSpoof
  import opened Sequences
  import opened SpoofScan

  // A file SPOOF wrote, one block per command.
  ghost predicate Written(blocks: seq<Block>) { forall b :: b in blocks ==> Clean(b) }

  predicate NoQuotes(blocks: seq<Block>) { forall b :: b in blocks ==> !Quoted(b) }

  // -------- the scan of a whole file

  function FileLines(blocks: seq<Block>): seq<string> {
    if blocks == [] then [] else BlockLines(blocks[0]) + FileLines(blocks[1..])
  }

  lemma {:induction false} FileIsLines(blocks: seq<Block>, rest: string)
    requires Written(blocks)
    ensures Lines(FileText(blocks) + rest) == FileLines(blocks) + Lines(rest)
    decreases blocks
  {
    hide Clean, BlockLines, Lines, OneLine;
    if blocks == [] {
      assert "" + rest == rest;
      assert FileLines(blocks) + Lines(rest) == Lines(rest);
    } else {
      var b, tail := blocks[0], FileText(blocks[1..]) + rest;
      assert b in blocks;
      FileIsLines(blocks[1..], rest);
      BlockIsLines(b);
      LinesOfConcat(BlockLines(b), tail);
      assert FileText(blocks) + rest == BlockText(b) + tail;
      Regroup(BlockLines(b), FileLines(blocks[1..]), Lines(rest));
    }
  }

  // A block that is not hit has no @ in what is read of its mask.
  predicate Fails(blocks: seq<Block>, user: string, host: string) {
    exists b :: b in blocks && '\"' in b.user && !Hit(user, host, b)
  }

  predicate Found(blocks: seq<Block>, user: string, host: string) {
    exists b :: b in blocks && Hit(user, host, b)
  }

  // The blocks that are not hit, each with its mask up to the first quote.
  function Left(blocks: seq<Block>, user: string, host: string): seq<Block> {
    if blocks == [] then []
    else (if Hit(user, host, blocks[0]) then [] else [Shortened(blocks[0])]) + Left(blocks[1..], user, host)
  }

  lemma FirstAndRest(blocks: seq<Block>, user: string, host: string)
    requires blocks != []
    ensures Found(blocks, user, host) <==> Hit(user, host, blocks[0]) || Found(blocks[1..], user, host)
    ensures Fails(blocks, user, host)
            <==> ('\"' in blocks[0].user && !Hit(user, host, blocks[0])) || Fails(blocks[1..], user, host)
    ensures NoQuotes(blocks) <==> !Quoted(blocks[0]) && NoQuotes(blocks[1..])
    ensures Written(blocks) <==> Clean(blocks[0]) && Written(blocks[1..])
  {
    hide Hit, Quoted, Clean;
    assert blocks == [blocks[0]] + blocks[1..];
  }

  lemma FileStep(blocks: seq<Block>, user: string, host: string)
    requires blocks != []
    ensures var left := Left(blocks[1..], user, host);
            if Hit(user, host, blocks[0]) then Left(blocks, user, host) == left
            else Left(blocks, user, host) == [Shortened(blocks[0])] + left
                 && FileText(Left(blocks, user, host)) == BlockText(Shortened(blocks[0])) + FileText(left)
  {
    hide Hit, Shortened, BlockText;
    var left := Left(blocks[1..], user, host);
    assert ([Shortened(blocks[0])] + left)[1..] == left && [] + left == left;
  }

  lemma {:induction false} ScanFile(st: Scan, blocks: seq<Block>, user: string, host: string)
    requires !st.Crashed? && Written(blocks)
    ensures var st' := ScanLines(st, FileLines(blocks), user, host);
            if Fails(blocks, user, host) then st' == Crashed
            else !st'.Crashed? && st'.out == st.out + FileText(Left(blocks, user, host))
                 && st'.spoofFound == (st.spoofFound || Found(blocks, user, host))
    decreases blocks
  {
    hide Clean, BlockLines, ScanLine, BlockText, Hit, Shortened;
    if blocks == [] {
      assert st.out + "" == st.out;
    } else {
      FirstAndRest(blocks, user, host);
      FileStep(blocks, user, host);
      hide Fails, Found, Left, FileText;
      var b := blocks[0];
      ScanAppend(st, BlockLines(b), FileLines(blocks[1..]), user, host);
      ScanBlock(st, b, user, host);
      var st1 := ScanLines(st, BlockLines(b), user, host);
      if st1.Crashed? {
        CrashedForGood(FileLines(blocks[1..]), user, host);
      } else {
        ScanFile(st1, blocks[1..], user, host);
        Regroup(st.out, BlockText(Shortened(b)), FileText(Left(blocks[1..], user, host)));
      }
    }
  }

  // On every file SPOOF wrote: DELSPOOF fails exactly when there is a block with a quote in its user
  // that is not hit; otherwise it says "not found" exactly when no block is hit, and else leaves those
  // out and copies the others up to their quotes.
  lemma DeletionExactly(blocks: seq<Block>, mask: string)
    requires Written(blocks)
    ensures var user, host := UserOf(mask), HostOf(mask);
            Deletion(FileText(blocks), mask)
            == if Fails(blocks, user, host) then Failed
               else if Found(blocks, user, host) then Rewritten(FileText(Left(blocks, user, host)))
               else NotFound
  {
    hide *;
    var user, host := UserOf(mask), HostOf(mask);
    FileIsLines(blocks, "");
    NoLines();
    assert FileText(blocks) + "" == FileText(blocks) && FileLines(blocks) + [] == FileLines(blocks);
    ScanFile(Scan(true, false, ""), blocks, user, host);
    assert "" + FileText(Left(blocks, user, host)) == FileText(Left(blocks, user, host));
    DeletionIs(FileText(blocks), mask);
  }

  lemma NoLines()
    ensures Lines("") == []
  {}

  lemma DeletionIs(file: string, mask: string)
    ensures Deletion(file, mask)
            == Finish(ScanLines(Scan(true, false, ""), Lines(file), UserOf(mask), HostOf(mask)))
    ensures Finish(Crashed) == Failed
    ensures forall ignoring, out :: Finish(Scan(ignoring, true, out)) == Rewritten(out)
    ensures forall ignoring, out :: Finish(Scan(ignoring, false, out)) == NotFound
  {}

  // -------- masks with a quote find nothing

  lemma QuoteIsSame(s: string, t: string)
    requires Same(s, t) && '\"' in s
    ensures '\"' in t
  {
    var i :| 0 <= i < |s| && s[i] == '\"';
    assert ToUpper(t[i]) == '\"';
  }

  lemma FieldHasNoQuote(line: string)
    requires UserField(line).Some?
    ensures '\"' !in UserField(line).value
  {}

  lemma NoQuoteInParts(field: string)
    requires '\"' !in field
    ensures '\"' !in UserOf(field) && '\"' !in HostOf(field)
  {}

  lemma QuotedDoesNotMatch(user: string, host: string, field: string)
    requires '\"' !in field && ('\"' in user || '\"' in host)
    ensures !Matches(user, host, field)
  {
    NoQuoteInParts(field);
    hide Same, UserOf, HostOf;
    if Matches(user, host, field) {
      if '\"' in user { QuoteIsSame(user, UserOf(field)); } else { QuoteIsSame(host, HostOf(field)); }
    }
  }

  lemma QuotedLineFindsNothing(st: Scan, line: string, user: string, host: string)
    requires ('\"' in user || '\"' in host) && !st.Crashed? && !st.spoofFound
    ensures var st' := ScanLine(st, line, user, host); st'.Crashed? || !st'.spoofFound
  {
    if UserField(line).Some? {
      FieldHasNoQuote(line);
      QuotedDoesNotMatch(user, host, UserField(line).value);
    }
    hide UserField, Matches, HasPrefix, UserLine, UserOf, HostOf;
  }

  lemma {:induction false} QuotedScanFindsNothing(st: Scan, lines: seq<string>, user: string, host: string)
    requires ('\"' in user || '\"' in host) && !st.Crashed? && !st.spoofFound
    ensures var st' := ScanLines(st, lines, user, host); st'.Crashed? || !st'.spoofFound
    decreases lines
  {
    hide ScanLine;
    if lines != [] {
      QuotedLineFindsNothing(st, lines[0], user, host);
      var st1 := ScanLine(st, lines[0], user, host);
      if st1.Crashed? {
        CrashedForGood(lines[1..], user, host);
      } else {
        QuotedScanFindsNothing(st1, lines[1..], user, host);
      }
    }
  }

  // A mask with a quote deletes nothing, whatever the file holds.
  lemma QuotedMaskFindsNothing(file: string, mask: string)
    requires '\"' in mask
    ensures !Deletion(file, mask).Rewritten?
  {
    var user, host := UserOf(mask), HostOf(mask);
    assert '\"' in user || '\"' in host by {
      if '@' in mask {
        var i := IndexOf(mask, '@');
        assert mask == mask[..i] + [mask[i]] + mask[i + 1..];
      }
    }
    hide ScanLines;
    QuotedScanFindsNothing(Scan(true, false, ""), Lines(file), user, host);
  }

  // -------- filters

  // The file after DELSPOOF <mask>.
  function Delete(file: string, mask: string): string { FileAfter(file, Deletion(file, mask)) }

  predicate Names(user: string, host: string, b: Block) { Same(user, b.user) && Same(host, b.host) }

  predicate Held(blocks: seq<Block>, user: string, host: string) {
    exists b :: b in blocks && Names(user, host, b)
  }

  // The blocks but for those with the mask.
  function Kept(blocks: seq<Block>, user: string, host: string): seq<Block> {
    if blocks == [] then []
    else (if Names(user, host, blocks[0]) then [] else [blocks[0]]) + Kept(blocks[1..], user, host)
  }

  // What DELSPOOF is for.
  function Filtered(blocks: seq<Block>, mask: string): Outcome {
    if Held(blocks, UserOf(mask), HostOf(mask)) then Rewritten(FileText(Kept(blocks, UserOf(mask), HostOf(mask))))
    else NotFound
  }

  lemma HitIsNamed(user: string, host: string, b: Block)
    requires Clean(b) && !Quoted(b)
    ensures Hit(user, host, b) <==> Names(user, host, b)
  {
    UnquotedField(b);
    SplitMask(b);
    hide Same, Mask, UserOf, HostOf, Field;
  }

  // Without quotes, being hit is having the mask.
  lemma {:induction false} UnquotedFile(blocks: seq<Block>, user: string, host: string)
    requires Written(blocks) && NoQuotes(blocks)
    ensures !Fails(blocks, user, host) && (Found(blocks, user, host) <==> Held(blocks, user, host))
    ensures Left(blocks, user, host) == Kept(blocks, user, host)
    decreases blocks
  {
    if blocks != [] {
      FirstAndRest(blocks, user, host);
      HeldStep(blocks, user, host);
      UnquotedField(blocks[0]);
      HitIsNamed(user, host, blocks[0]);
      hide Fails, Found, Held, Names, Hit, Clean, Shortened;
      UnquotedFile(blocks[1..], user, host);
    }
  }

  lemma HeldStep(blocks: seq<Block>, user: string, host: string)
    requires blocks != []
    ensures Held(blocks, user, host) <==> Names(user, host, blocks[0]) || Held(blocks[1..], user, host)
  {
    hide Names;
    assert blocks == [blocks[0]] + blocks[1..];
  }

  lemma FilterWithoutQuotes(blocks: seq<Block>, mask: string)
    requires Written(blocks) && NoQuotes(blocks)
    ensures Deletion(FileText(blocks), mask) == Filtered(blocks, mask)
  {
    hide Fails, Found, Held, Left, Kept, Deletion, FileText, UserOf, HostOf, Clean;
    UnquotedFile(blocks, UserOf(mask), HostOf(mask));
    DeletionExactly(blocks, mask);
  }

  // DELSPOOF is the filter for every mask exactly when no block of the file holds a quote: the mask of
  // a quoted block is one it does not find.
  lemma FilterExactly(blocks: seq<Block>)
    requires Written(blocks)
    ensures (forall mask :: Deletion(FileText(blocks), mask) == Filtered(blocks, mask)) <==> NoQuotes(blocks)
  {
    if NoQuotes(blocks) {
      forall mask
        ensures Deletion(FileText(blocks), mask) == Filtered(blocks, mask)
      {
        FilterWithoutQuotes(blocks, mask);
      }
    } else {
      var b :| b in blocks && Quoted(b);
      var mask := Mask(b);
      QuotedBlockIsMissed(blocks, b);
      assert Deletion(FileText(blocks), mask) != Filtered(blocks, mask);
    }
  }

  lemma QuotedBlockIsMissed(blocks: seq<Block>, b: Block)
    requires b in blocks && Clean(b) && Quoted(b)
    ensures Deletion(FileText(blocks), Mask(b)) != Filtered(blocks, Mask(b))
  {
    SplitMask(b);
    assert Names(b.user, b.host, b);
    assert '\"' in Mask(b);
    hide Deletion, FileText, UserOf, HostOf, Names, Mask, Kept;
    QuotedMaskFindsNothing(FileText(blocks), Mask(b));
  }

  // -------- the round trip

  lemma {:induction false} FileAppend(blocks: seq<Block>, b: Block)
    ensures FileText(blocks + [b]) == FileText(blocks) + BlockText(b)
    decreases blocks
  {
    hide BlockText;
    if blocks == [] {
      assert [b][1..] == [] && [] + [b] == [b];
      assert BlockText(b) + "" == BlockText(b) && "" + BlockText(b) == BlockText(b);
    } else {
      assert (blocks + [b])[1..] == blocks[1..] + [b];
      FileAppend(blocks[1..], b);
      Regroup(BlockText(blocks[0]), FileText(blocks[1..]), BlockText(b));
    }
  }

  lemma {:induction false} HitAppended(blocks: seq<Block>, b: Block, user: string, host: string)
    requires Hit(user, host, b)
    ensures Left(blocks + [b], user, host) == Left(blocks, user, host)
    ensures Found(blocks + [b], user, host)
    ensures Fails(blocks + [b], user, host) <==> Fails(blocks, user, host)
    decreases blocks
  {
    hide Hit, Shortened;
    assert (blocks + [b])[|blocks|] == b;
    if blocks == [] {
      assert [] + [b] == [b] && [b][1..] == [];
      FirstAndRest([b], user, host);
    } else {
      assert (blocks + [b])[1..] == blocks[1..] + [b];
      HitAppended(blocks[1..], b, user, host);
      FirstAndRest(blocks, user, host);
      FirstAndRest(blocks + [b], user, host);
      FileStep(blocks, user, host);
      FileStep(blocks + [b], user, host);
    }
  }

  // What is left is shorter, unless no block was hit and none is cut.
  lemma {:induction false} LeftIsShorter(blocks: seq<Block>, user: string, host: string)
    requires Written(blocks) && !Fails(blocks, user, host)
    ensures if Found(blocks, user, host) || !NoQuotes(blocks)
            then |FileText(Left(blocks, user, host))| < |FileText(blocks)|
            else Left(blocks, user, host) == blocks
    decreases blocks
  {
    if blocks != [] {
      var b := blocks[0];
      FirstAndRest(blocks, user, host);
      FileStep(blocks, user, host);
      BlockIsNotEmpty(b);
      if '\"' in b.host { ShortenedIsShorter(b); } else { UncutBlock(b); }
      hide Fails, Found, NoQuotes, Written, Clean, Hit, BlockText, Left, Shortened;
      LeftIsShorter(blocks[1..], user, host);
      assert blocks == [b] + blocks[1..];
    }
  }

  lemma UncutBlock(b: Block)
    requires '\"' !in b.host
    ensures Shortened(b) == b
  {
    assert b.host[..|b.host|] == b.host;
  }

  // What the protocol guarantees of a command's parameters: no line breaks, and lines of 512
  // characters (section 2.3 of RFC 1459).
  predicate IsCommand(mask: string, spoof: string, password: string) {
    && NoBreak(mask) && |mask| <= 512
    && NoBreak(spoof) && |spoof| <= 512
    && NoBreak(password) && |password| <= 512
  }

  lemma RequestIsClean(mask: string, spoof: string, flags: string, password: string)
    requires IsCommand(mask, spoof, password)
    ensures var b := RequestedBlock(mask, spoof, flags, password); Clean(b) && (Quoted(b) <==> '\"' in mask)
  {
    if '@' in mask {
      var i := IndexOf(mask, '@');
      assert mask == mask[..i] + [mask[i]] + mask[i + 1..];
    }
  }

  lemma RequestIsHit(mask: string, b: Block)
    requires Clean(b) && !Quoted(b) && b.user == UserOf(mask) && b.host == HostOf(mask)
    ensures Hit(UserOf(mask), HostOf(mask), b)
  {
    HitIsNamed(b.user, b.host, b);
  }

  // On every file SPOOF wrote: SPOOF followed by DELSPOOF of the same mask restores it byte for byte
  // exactly when neither the mask nor a block of the file holds a quote, and no block had the mask.
  lemma RoundTripExactly(blocks: seq<Block>, mask: string, spoof: string, flags: string, password: string)
    requires Written(blocks) && IsCommand(mask, spoof, password)
    ensures var file := FileText(blocks);
            Delete(file + BlockText(RequestedBlock(mask, spoof, flags, password)), mask) == file
            <==> '\"' !in mask && NoQuotes(blocks) && !Held(blocks, UserOf(mask), HostOf(mask))
  {
    var b := RequestedBlock(mask, spoof, flags, password);
    var user, host := UserOf(mask), HostOf(mask);
    RequestIsClean(mask, spoof, flags, password);
    BlockIsNotEmpty(b);
    FileAppend(blocks, b);
    hide UserOf, HostOf, FileText, BlockText, Clean, Left, Deletion, Fails, Found, Held, Hit, Quoted;
    if '\"' in mask {
      QuotedMaskFindsNothing(FileText(blocks + [b]), mask);
    } else {
      RequestIsHit(mask, b);
      DeletionExactly(blocks + [b], mask);
      HitAppended(blocks, b, user, host);
      if NoQuotes(blocks) {
        UnquotedFile(blocks, user, host);
      }
      if Fails(blocks, user, host) {
      } else {
        LeftIsShorter(blocks, user, host);
      }
    }
  }

  // A mask with a quote: the block stays in the file.
  lemma QuoteBreaksTheRoundTrip()
    ensures Delete(BlockText(RequestedBlock("a@h\"x", "-", "-", "")), "a@h\"x") != ""
  {
    var mask := "a@h\"x";
    assert mask[3] == '\"';
    var b := RequestedBlock(mask, "-", "-", "");
    hide RequestedBlock, Deletion, BlockText;
    QuotedMaskFindsNothing(BlockText(b), mask);
    BlockIsNotEmpty(b);
  }

  // -------- two deletions

  // What a deletion leaves of the blocks: they stay as they are unless the file is rewritten.
  function Remaining(blocks: seq<Block>, mask: string): seq<Block> {
    var user, host := UserOf(mask), HostOf(mask);
    if !Fails(blocks, user, host) && Found(blocks, user, host) then Left(blocks, user, host) else blocks
  }

  lemma DeleteIs(blocks: seq<Block>, mask: string)
    requires Written(blocks)
    ensures Delete(FileText(blocks), mask) == FileText(Remaining(blocks, mask)) && Written(Remaining(blocks, mask))
  {
    DeletionExactly(blocks, mask);
    LeftIsWritten(blocks, UserOf(mask), HostOf(mask));
    hide Deletion, FileText, UserOf, HostOf, Fails, Found, Left, Written;
  }

  lemma {:induction false} LeftIsWritten(blocks: seq<Block>, user: string, host: string)
    requires Written(blocks)
    ensures Written(Left(blocks, user, host))
    decreases blocks
  {
    if blocks != [] {
      FirstAndRest(blocks, user, host);
      FileStep(blocks, user, host);
      ShortenedTwice(blocks[0]);
      hide Clean, Hit, Shortened, FileText, BlockText, Left;
      LeftIsWritten(blocks[1..], user, host);
    }
  }

  lemma {:induction false} LeftMembers(blocks: seq<Block>, user: string, host: string)
    ensures forall c :: c in Left(blocks, user, host) ==>
              exists b :: b in blocks && !Hit(user, host, b) && c == Shortened(b)
    ensures forall b :: b in blocks && !Hit(user, host, b) ==> Shortened(b) in Left(blocks, user, host)
    decreases blocks
  {
    hide Hit, Shortened;
    if blocks != [] {
      LeftMembers(blocks[1..], user, host);
      FileStep(blocks, user, host);
      assert blocks == [blocks[0]] + blocks[1..];
      var left := Left(blocks, user, host);
      forall c | c in left
        ensures exists b :: b in blocks && !Hit(user, host, b) && c == Shortened(b)
      {
        if c in Left(blocks[1..], user, host) {
          var b :| b in blocks[1..] && !Hit(user, host, b) && c == Shortened(b);
          assert b in blocks;
        } else {
          assert blocks[0] in blocks;
        }
      }
    }
  }

  // Once a file has been rewritten it holds no quote, and the mask is not found again.
  lemma LeftIsDone(blocks: seq<Block>, user: string, host: string)
    requires Written(blocks) && !Fails(blocks, user, host)
    ensures var left := Left(blocks, user, host); NoQuotes(left) && !Found(left, user, host)
  {
    LeftMembers(blocks, user, host);
    var left := Left(blocks, user, host);
    forall c | c in left
      ensures !Quoted(c) && !Hit(user, host, c)
    {
      var b :| b in blocks && !Hit(user, host, b) && c == Shortened(b);
      ShortenedTwice(b);
      SameFieldSameHit(user, host, b, c);
      hide Quoted, Clean, Hit, Shortened;
    }
  }

  lemma SameFieldSameHit(user: string, host: string, b: Block, c: Block)
    requires Field(b) == Field(c)
    ensures Hit(user, host, b) <==> Hit(user, host, c)
  {}

  // Deleting twice is deleting once, on every file SPOOF wrote.
  lemma DeletingTwice(blocks: seq<Block>, mask: string)
    requires Written(blocks)
    ensures Delete(Delete(FileText(blocks), mask), mask) == Delete(FileText(blocks), mask)
  {
    var user, host := UserOf(mask), HostOf(mask);
    DeleteIs(blocks, mask);
    DeleteIs(Remaining(blocks, mask), mask);
    hide Delete, FileText, Fails, Found, Left, UserOf, HostOf, Written;
    if !Fails(blocks, user, host) && Found(blocks, user, host) {
      LeftIsDone(blocks, user, host);
    }
  }

  // Two blocks of which the scanner reads the same mask up to case, so every mask hits both or neither.
  predicate SameField(b: Block, c: Block) {
    Same(UserOf(Field(b)), UserOf(Field(c))) && Same(HostOf(Field(b)), HostOf(Field(c)))
  }

  lemma SameIsTransitive(s: string, t: string, u: string)
    ensures Same(s, t) && Same(t, u) ==> Same(s, u)
    ensures Same(s, t) ==> Same(t, s)
    ensures Same(s, s)
  {}

  lemma SameFieldIsSameHit(user: string, host: string, b: Block, c: Block)
    ensures SameField(b, c) ==> (Hit(user, host, b) <==> Hit(user, host, c))
    ensures Hit(user, host, b) && Hit(user, host, c) ==> SameField(b, c)
  {
    var ub, uc, hb, hc := UserOf(Field(b)), UserOf(Field(c)), HostOf(Field(b)), HostOf(Field(c));
    SameIsTransitive(user, ub, uc);
    SameIsTransitive(user, uc, ub);
    SameIsTransitive(ub, user, uc);
    SameIsTransitive(ub, uc, uc);
    SameIsTransitive(host, hb, hc);
    SameIsTransitive(host, hc, hb);
    SameIsTransitive(hb, host, hc);
    SameIsTransitive(hb, hc, hc);
    hide Same, UserOf, HostOf, Field;
  }

  // A mask that hits the block.
  function MaskFor(b: Block): string { UserOf(Field(b)) + "@" + HostOf(Field(b)) }

  lemma MaskForHits(b: Block, c: Block)
    requires Clean(b)
    ensures Hit(UserOf(MaskFor(b)), HostOf(MaskFor(b)), c) <==> SameField(b, c)
  {
    var user, host := UserOf(Field(b)), HostOf(Field(b));
    assert '@' !in user;
    SplitAt(user, host);
    hide Same, UserOf, HostOf, Field;
  }

  lemma SplitAt(user: string, host: string)
    requires '@' !in user
    ensures UserOf(user + "@" + host) == user && HostOf(user + "@" + host) == host
  {
    var mask := user + "@" + host;
    assert mask[|user|] == '@' && mask[..|user|] == user;
    IndexInSum(user, "@" + host, '@');
    assert mask == user + ("@" + host);
  }

  ghost predicate AlwaysCommute(blocks: seq<Block>) {
    forall mask, mask2 :: CommuteFor(blocks, mask, mask2)
  }

  predicate CommuteFor(blocks: seq<Block>, mask: string, mask2: string) {
    Delete(Delete(FileText(blocks), mask), mask2) == Delete(Delete(FileText(blocks), mask2), mask)
  }

  // One mask stands in the way of all others: a block with a quote in its user, which lets every
  // deletion fail that does not hit it, all such blocks alike, and another block besides.
  predicate Blocked(blocks: seq<Block>, b: Block) {
    && b in blocks && '\"' in b.user
    && (forall c :: c in blocks && '\"' in c.user ==> SameField(b, c))
    && (exists c :: c in blocks && !SameField(b, c))
  }

  lemma {:induction false} LeftCommutes(blocks: seq<Block>, user: string, host: string, user2: string, host2: string)
    requires Written(blocks) && forall b :: b in blocks ==> '\"' !in b.user
    ensures Left(Left(blocks, user, host), user2, host2) == Left(Left(blocks, user2, host2), user, host)
    decreases blocks
  {
    if blocks != [] {
      var b := blocks[0];
      assert b in blocks;
      ShortenedTwice(b);
      SameFieldSameHit(user, host, b, Shortened(b));
      SameFieldSameHit(user2, host2, b, Shortened(b));
      FirstAndRest(blocks, user, host);
      FileStep(blocks, user, host);
      FileStep(blocks, user2, host2);
      assert forall c :: c in blocks[1..] ==> c in blocks;
      hide Clean, Hit, Shortened, FileText, BlockText, Field, Quoted, Fails, Found;
      LeftCommutes(blocks[1..], user, host, user2, host2);
      LeftCons(Shortened(b), Left(blocks[1..], user, host), user2, host2);
      LeftCons(Shortened(b), Left(blocks[1..], user2, host2), user, host);
    }
  }

  lemma LeftCons(b: Block, blocks: seq<Block>, user: string, host: string)
    ensures Left([b] + blocks, user, host)
            == (if Hit(user, host, b) then [] else [Shortened(b)]) + Left(blocks, user, host)
    ensures [] + Left(blocks, user, host) == Left(blocks, user, host)
  {
    hide Hit, Shortened;
    assert ([b] + blocks)[1..] == blocks;
  }

  lemma UnquotedRemaining(blocks: seq<Block>, mask: string)
    requires Written(blocks) && NoQuotes(blocks)
    ensures Remaining(blocks, mask) == Left(blocks, UserOf(mask), HostOf(mask))
  {
    var user, host := UserOf(mask), HostOf(mask);
    UnquotedFile(blocks, user, host);
    LeftIsShorter(blocks, user, host);
    hide Fails, Found, Left, FileText, UserOf, HostOf, Written, NoQuotes;
  }

  lemma FoundInLeft(blocks: seq<Block>, user: string, host: string, user2: string, host2: string)
    requires Written(blocks) && !Fails(blocks, user, host) && Found(Left(blocks, user, host), user2, host2)
    ensures Found(blocks, user2, host2)
  {
    LeftMembers(blocks, user, host);
    var c :| c in Left(blocks, user, host) && Hit(user2, host2, c);
    var b :| b in blocks && !Hit(user, host, b) && c == Shortened(b);
    ShortenedTwice(b);
    SameFieldSameHit(user2, host2, b, c);
    hide Hit, Shortened, Clean;
  }

  lemma DeletesAre(blocks: seq<Block>, mask: string, mask2: string)
    requires Written(blocks)
    ensures CommuteFor(blocks, mask, mask2)
            <==> FileText(Remaining(Remaining(blocks, mask), mask2))
                 == FileText(Remaining(Remaining(blocks, mask2), mask))
  {
    DeleteIs(blocks, mask);
    DeleteIs(blocks, mask2);
    hide Delete, Remaining, FileText, Written;
    DeleteIs(Remaining(blocks, mask), mask2);
    DeleteIs(Remaining(blocks, mask2), mask);
  }

  // First case: no block has a quote in its user.
  lemma PlainUsersCommute(blocks: seq<Block>, mask: string, mask2: string)
    requires Written(blocks) && forall b :: b in blocks ==> '\"' !in b.user
    ensures CommuteFor(blocks, mask, mask2)
  {
    var u, h, u2, h2 := UserOf(mask), HostOf(mask), UserOf(mask2), HostOf(mask2);
    assert !Fails(blocks, u, h) && !Fails(blocks, u2, h2);
    DeletesAre(blocks, mask, mask2);
    LeftIsDone(blocks, u, h);
    LeftIsDone(blocks, u2, h2);
    LeftIsWritten(blocks, u, h);
    LeftIsWritten(blocks, u2, h2);
    UnquotedRemaining(Left(blocks, u, h), mask2);
    UnquotedRemaining(Left(blocks, u2, h2), mask);
    LeftCommutes(blocks, u, h, u2, h2);
    if !Found(blocks, u2, h2) { OtherMask(blocks, u, h, u2, h2); }
    if !Found(blocks, u, h) { OtherMask(blocks, u2, h2, u, h); }
    hide Fails, Found, Left, FileText, UserOf, HostOf, Written, NoQuotes, CommuteFor;
  }

  // A mask that is not found is not found in what another mask leaves.
  lemma OtherMask(blocks: seq<Block>, user: string, host: string, user2: string, host2: string)
    requires Written(blocks) && !Fails(blocks, user, host) && !Found(blocks, user2, host2)
    ensures Left(Left(blocks, user, host), user2, host2) == Left(blocks, user, host)
  {
    hide Fails, Found, Left, FileText, Written, NoQuotes;
    if Found(Left(blocks, user, host), user2, host2) {
      FoundInLeft(blocks, user, host, user2, host2);
    }
    LeftIsDone(blocks, user, host);
    LeftIsWritten(blocks, user, host);
    UnquotedFile(Left(blocks, user, host), user2, host2);
    LeftIsShorter(Left(blocks, user, host), user2, host2);
  }

  // Second case: all blocks read alike, so each mask hits all of them or fails.
  lemma {:induction false} AllHit(blocks: seq<Block>, user: string, host: string)
    requires forall b :: b in blocks ==> Hit(user, host, b)
    ensures Left(blocks, user, host) == []
    decreases blocks
  {
    hide Hit;
    if blocks != [] {
      assert blocks[0] in blocks;
      assert forall b :: b in blocks[1..] ==> b in blocks;
      AllHit(blocks[1..], user, host);
    }
  }

  lemma AlikeRemaining(blocks: seq<Block>, b: Block, mask: string)
    requires b in blocks && '\"' in b.user && forall c :: c in blocks ==> SameField(b, c)
    ensures Remaining(blocks, mask) == if Hit(UserOf(mask), HostOf(mask), b) then [] else blocks
  {
    var user, host := UserOf(mask), HostOf(mask);
    forall c | c in blocks
      ensures Hit(user, host, c) <==> Hit(user, host, b)
    {
      SameFieldIsSameHit(user, host, b, c);
    }
    hide Hit, SameField, UserOf, HostOf;
    if Hit(user, host, b) {
      AllHit(blocks, user, host);
    }
  }

  lemma NothingRemains(mask: string)
    ensures Remaining([], mask) == []
  {}

  lemma AlikeCommute(blocks: seq<Block>, b: Block, mask: string, mask2: string)
    requires Written(blocks) && b in blocks && '\"' in b.user && forall c :: c in blocks ==> SameField(b, c)
    ensures CommuteFor(blocks, mask, mask2)
  {
    hide *;
    DeletesAre(blocks, mask, mask2);
    AlikeRemaining(blocks, b, mask);
    AlikeRemaining(blocks, b, mask2);
    NothingRemains(mask);
    NothingRemains(mask2);
  }

  // Third case: two blocks with a quote in their users read differently, so every deletion fails.
  lemma FailingRemaining(blocks: seq<Block>, b: Block, c: Block, mask: string)
    requires b in blocks && c in blocks && '\"' in b.user && '\"' in c.user && !SameField(b, c)
    ensures Remaining(blocks, mask) == blocks
  {
    SameFieldIsSameHit(UserOf(mask), HostOf(mask), b, c);
    hide Hit, SameField, UserOf, HostOf, Left;
  }

  lemma FailingCommute(blocks: seq<Block>, b: Block, c: Block, mask: string, mask2: string)
    requires Written(blocks) && b in blocks && c in blocks && '\"' in b.user && '\"' in c.user && !SameField(b, c)
    ensures CommuteFor(blocks, mask, mask2)
  {
    hide *;
    DeletesAre(blocks, mask, mask2);
    FailingRemaining(blocks, b, c, mask);
    FailingRemaining(blocks, b, c, mask2);
  }

  // Otherwise the blocking block's mask and that of another block do not commute: the other deletion
  // fails before the first has been done, and succeeds after it.
  lemma BlockedRemaining(blocks: seq<Block>, b: Block, c: Block)
    requires Written(blocks) && Blocked(blocks, b) && c in blocks && !SameField(b, c)
    ensures var left := Left(blocks, UserOf(MaskFor(b)), HostOf(MaskFor(b)));
            && Remaining(blocks, MaskFor(b)) == left && Written(left) && NoQuotes(left)
            && Remaining(blocks, MaskFor(c)) == blocks
            && Found(left, UserOf(MaskFor(c)), HostOf(MaskFor(c)))
  {
    var user, host := UserOf(MaskFor(b)), HostOf(MaskFor(b));
    var user2, host2 := UserOf(MaskFor(c)), HostOf(MaskFor(c));
    forall d | d in blocks
      ensures Hit(user, host, d) <==> SameField(b, d)
    {
      MaskForHits(b, d);
    }
    assert SameField(b, b);
    MaskForHits(c, b);
    SameFieldIsSymmetric(b, c);
    MaskForHits(c, c);
    assert SameField(c, c) by {
      SameIsTransitive(UserOf(Field(c)), "", "");
      SameIsTransitive(HostOf(Field(c)), "", "");
    }
    hide Hit, SameField, UserOf, HostOf, Left, MaskFor, Clean, Shortened;
    assert Found(blocks, user, host);
    assert !Fails(blocks, user, host);
    LeftIsDone(blocks, user, host);
    LeftIsWritten(blocks, user, host);
    LeftMembers(blocks, user, host);
    ShortenedTwice(c);
    SameFieldSameHit(user2, host2, c, Shortened(c));
    assert Fails(blocks, user2, host2);
  }

  lemma SameFieldIsSymmetric(b: Block, c: Block)
    ensures SameField(b, c) <==> SameField(c, b)
  {}

  lemma BlockedDoesNotCommute(blocks: seq<Block>, b: Block)
    requires Written(blocks) && Blocked(blocks, b)
    ensures !AlwaysCommute(blocks)
  {
    var c :| c in blocks && !SameField(b, c);
    var mask, mask2 := MaskFor(b), MaskFor(c);
    BlockedRemaining(blocks, b, c);
    hide *;
    var left := Remaining(blocks, mask);
    DeletesAre(blocks, mask, mask2);
    UnquotedRemaining(left, mask2);
    UnquotedFile(left, UserOf(mask2), HostOf(mask2));
    LeftIsShorter(left, UserOf(mask2), HostOf(mask2));
    assert !CommuteFor(blocks, mask, mask2);
    DoNotCommute(blocks, mask, mask2);
  }

  lemma DoNotCommute(blocks: seq<Block>, mask: string, mask2: string)
    requires !CommuteFor(blocks, mask, mask2)
    ensures !AlwaysCommute(blocks)
  {}

  // On a file SPOOF wrote, all deletions commute exactly when it holds no blocking block. Quotes in
  // hosts do no harm to that.
  lemma CommuteExactly(blocks: seq<Block>)
    requires Written(blocks)
    ensures AlwaysCommute(blocks) <==> !exists b :: Blocked(blocks, b)
  {
    hide Clean, SameField, CommuteFor;
    if b :| Blocked(blocks, b) {
      BlockedDoesNotCommute(blocks, b);
    } else if b :| b in blocks && '\"' in b.user {
      assert !Blocked(blocks, b);
      if c :| c in blocks && '\"' in c.user && !SameField(b, c) {
        forall mask, mask2 ensures CommuteFor(blocks, mask, mask2) { FailingCommute(blocks, b, c, mask, mask2); }
      } else {
        forall mask, mask2 ensures CommuteFor(blocks, mask, mask2) { AlikeCommute(blocks, b, mask, mask2); }
      }
    } else {
      forall mask, mask2 ensures CommuteFor(blocks, mask, mask2) { PlainUsersCommute(blocks, mask, mask2); }
    }
  }

  // -------- whole histories

  datatype Command = Add(mask: string, spoof: string, flags: string, password: string) | Remove(mask: string)

  predicate IsGood(c: Command) { c.Add? ==> IsCommand(c.mask, c.spoof, c.password) }

  // The file after the commands, starting from none.
  function FileOf(commands: seq<Command>): string {
    if commands == [] then ""
    else
      var file := FileOf(commands[..|commands| - 1]);
      match commands[|commands| - 1]
      case Add(mask, spoof, flags, password) => file + BlockText(RequestedBlock(mask, spoof, flags, password))
      case Remove(mask) => Delete(file, mask)
  }

  // Whatever SPOOF and DELSPOOF commands have been given, the file is one that SPOOF could have written,
  // so all of the above holds of it.
  lemma {:induction false} HistoryIsWritten(commands: seq<Command>)
    requires forall c :: c in commands ==> IsGood(c)
    ensures exists blocks :: Written(blocks) && FileOf(commands) == FileText(blocks)
    decreases |commands|
  {
    if commands == [] {
      assert Written([]) && FileText([]) == "";
    } else {
      var front, last := commands[..|commands| - 1], commands[|commands| - 1];
      assert last in commands;
      assert forall c :: c in front ==> c in commands;
      HistoryIsWritten(front);
      hide Clean, FileText, BlockText, RequestedBlock, Delete, Remaining;
      var blocks :| Written(blocks) && FileOf(front) == FileText(blocks);
      if last.Add? {
        var b := RequestedBlock(last.mask, last.spoof, last.flags, last.password);
        RequestIsClean(last.mask, last.spoof, last.flags, last.password);
        FileAppend(blocks, b);
        assert Written(blocks + [b]);
      } else {
        DeleteIs(blocks, last.mask);
      }
    }
  }
}
