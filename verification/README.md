# Verified model of an IRC server's protocols and algorithms

A Dafny model of the parts of this IRC server whose correctness rests on arithmetic, pointers or the
order of events, with proofs for all inputs and all runs.

* `TopicBurst.dfy`, `TopicConvergence.dfy` - the timestamped topic burst (TB): accept or drop, then
  re-send. All servers of a connected network end with the oldest topic, every burst ends, and the
  exact condition under which bursts of given topics converge at all.
* `ServerMap.dfy`, `MapPositions.dfy`, `MapReading.dfy` - the MAP printer, which recurses through one
  shared buffer and patches its connectors backwards, refines a printer without a buffer; where each
  server stands; and the printed map reads back into the tree exactly when no line is cut on sending.
* `SpoofFile.dfy`, `AuthReader.dfy`, `SpoofCommand.dfy` - SPOOF writes auth blocks; a model of the
  configuration reader gets each part of the command back, exactly when no value needs escaping.
* `DelSpoof.dfy`, `SpoofScan.dfy`, `SpoofRoundTrip.dfy` - DELSPOOF scans and rewrites the file: its
  outcome on every file SPOOF can have written, and the exact conditions under which it is a filter on
  blocks, undoes SPOOF, and commutes with itself.
* `ShiftRegister.dfy`, `CrcTable.dfy`, `CrcRegister.dfy`, `CrcBytes.dfy`, `IpCloaking.dfy` - the
  table-driven checksum against bitwise polynomial division, linearity and burst detection; the host
  hashes on 32-bit and 64-bit machines; the search for a free user mode bit.
* `DLinkList.dfy` - the intrusive doubly linked lists and the two ways to walk them.
* `GlineVoting.dfy`, `GlineHistory.dfy` - G-line votes over all histories: what places a G-line, what each
  vote touches, and when an entry leaves.
* `GreedyPacking.dfy`, `ReplyPacking.dfy`, `ReplyPackers.dfy`, `WhoisWords.dfy` - the three replies that
  pack names into lines of 512 characters: they read back with heading and list, and take the fewest
  lines; what a reader learns from the words for channels.
* `UserFlags.dfy`, `FlagEffects.dfy` - FLAGS prints modes as names and parses names into modes; each
  undoes the other, and what each flag does is given in numbers.
* `AwayPropagation.dfy` - AWAY passed on only on transitions, over a tree of servers with ordered links.
* `AcceptLists.dfy`, `AcceptCommand.dfy`, `SoftCallerId.dfy` - accept lists and their back pointers over
  all runs of commands and exits; what one command does to the list, from its names; who gets through to
  a client.
* `ClearChannel.dfy` - CLEARCHAN: batched MODE lines against an observer who replays them, and the kick
  loop.
* `KnockLimit.dfy` - which answer a KNOCK gets in which state, and the rate limits with unthrottled remote
  knocks in between.
* `CBuffer.dfy`, `IrcString.dfy`, `Tokens.dfy`, `ModeBits.dfy`, `Options.dfy`, `Sequences.dfy` - character
  buffers, case-insensitive comparison, words, flag words and facts about sequences used above.

`dafny verify dfyconfig.toml` checks the whole project.

Findings, each proved in the place named:

* Two topics that share a time or a text but not both can keep two servers apart for good
  (`TopicConvergence.AmbiguousPairStays`). A burst of given topics always converges exactly when the
  oldest shares neither with another (`TopicConvergence.HoldingConvergesExactly`).
* DELSPOOF reads a mask up to its first quote, and SPOOF writes masks with quotes. Such a mask is never
  found again (`SpoofRoundTrip.QuotedMaskFindsNothing`), and its block harms the others: with a quote in
  the host, any deletion that succeeds cuts it at the quote; with a quote in the user, every deletion
  that leaves the block in the file ends in a null dereference, at line 468 of `contrib/m_spoof.c`, before
  the new file is in place (`SpoofRoundTrip.DeletionExactly`).
* So SPOOF and DELSPOOF of one mask restore the file exactly when neither the mask nor a block already
  there holds a quote, and no block had the mask up to case (`SpoofRoundTrip.RoundTripExactly`). Two
  deletions can fail to commute only because of a quote in a user
  (`SpoofRoundTrip.CommuteExactly`).
* SPOOF writes values as they are, but the configuration reader ends a string at a quote and drops
  backslashes: what it reads is what was asked for exactly when mask, spoof and password hold no quote,
  backslash or line break (`SpoofCommand.MoSpoof`).
* A G-line mask longer than the fields of a pending entry (21 and 127 characters) is stored cut off and
  never found again, so each vote for it makes another entry (`GlineVoting.TwoVotesShareExactly`).
* The third hash of a cloaked host differs between 32-bit and 64-bit machines exactly when bit 30 of the
  mixed checksum is set (`CloakHash.Hash2AgreesExactly`); it is not printed.
* With halfops built in, a line of the operator WHOIS can be 511 characters long before its line end,
  exactly when a hidden channel with every mark fills it (`ReplyPackers.WhoisLongExactly`,
  `ReplyPackers.WhoisLineOf511`); the one that is cut is a blank (`ReplyPackers.WhoisReadsBack`).
* In the operator WHOIS a percent sign marks a channel the reader could not see, and a half operator. On
  channels where the user is no operator the two look the same (`WhoisWords.WordsAgreeExactly`).
* After a second AWAY with a new text only the user's own server shows it
  (`AwayPropagation.TextsAgreeExactly`).
* In ACCEPT, names that are passed over still count against max_accept
  (`AcceptLists.SkippedNamesCount`).
* A soft caller id is documented to let members of a common channel in (`doc/modes.txt` line 22,
  `help/opers/umode` line 27). accept_message compares membership records with channels, so the test
  never succeeds and only the accept list counts (`SoftCallerId.Client.AcceptMessage`). The proofs about
  accept lists hold for any answer it could give.
* A body that removes nodes inside the plain list walk ends it at the first node removed
  (`DLinkList.List.Foreach`); the safe walk visits them all.

## Model

| member | source | states |
|---|---|---|
| TopicChannel.Channel.SetChannelTopic | src/channel.c:914-933 | the stored topic, setter and time after a change: cut to their fields, or all cleared by an empty text |
| TopicChannel.Channel.SetTopic | modules/m_tb.c:136-152 | what is applied, and that the line passed on carries the state just stored |
| TopicChannel.Channel.MsTb | modules/m_tb.c:87-122 | the new state is the one the accept rule gives; a line goes out exactly when the topic was accepted on a # channel, and carries the new state; a dropped line changes nothing |
| TopicBurst.DeliverKeepsInv | modules/m_tb.c:110-151 | for every delivery: on each link the neighbour of a holder of the oldest topic has it or it is on its way, although nothing is sent back where it came from |
| TopicBurst.BurstConverges | modules/m_tb.c:110-151 | in any connected network, after any run that leaves no line in flight, every server holds the oldest topic |
| TopicBurst.FinishedBurstAgrees | modules/m_tb.c:110-151 | a run that cannot be continued has no line in flight and all servers agree on the oldest topic |
| TopicBurst.DeliverDecreases | modules/m_tb.c:110-151 | every delivery lowers a measure over topics and lines in flight, although an accepted line creates new ones |
| TopicBurst.BurstTerminates | modules/m_tb.c:110-151 | no run is longer than the measure of its first state |
| TopicBurst.BurstIsFinite | modules/m_tb.c:110-151 | every burst has one bound for all its runs |
| TopicConvergence.UnambiguousConverges | modules/m_tb.c:110-120 | bursts of topics whose times and texts determine each other always converge |
| TopicConvergence.AmbiguousPairStays | modules/m_tb.c:110-120 | two topics that share a time or a text but not both can leave two servers apart |
| TopicConvergence.QuietRun | modules/m_tb.c:110-151 | from every state of a burst some run delivers all lines, those it creates included |
| TopicConvergence.HoldingConvergesExactly | modules/m_tb.c:110-151 | for every set of topics: all bursts in which exactly these are held converge, on all networks, if and only if the oldest shares neither time nor text with another |
| TopicConvergence.ConvergesExactly | modules/m_tb.c:110-120 | for every set of topics: all bursts of some of them converge if and only if times and texts determine each other |
| ServerMap.PrintRow | modules/m_map.c:102-135 | one server's line, written behind the prefix in the shared buffer, which it leaves as it was |
| ServerMap.PatchConnector | modules/m_map.c:137-151 | the two patched characters turn the server's own connector into a column that passes through |
| ServerMap.PutConnector | modules/m_map.c:159-166 | the connector of a child says whether it is the last |
| ServerMap.StartServer | modules/m_map.c:102-151 | a server's line, and the buffer as its children need it |
| ServerMap.DumpChild | modules/m_map.c:155-170 | after a child's part of the map, the buffer is ready for the next child |
| ServerMap.DumpMap | modules/m_map.c:92-171 | the recursive printer with its patched buffer sends exactly the lines of a printer that has no buffer, for every tree whose lines fit |
| ServerMap.BarColumn | modules/m_map.c:120-128 | the bar stands in column 50 whenever prefix, label and one blank fit in front of it |
| MapPositions.PathOfLine | modules/m_map.c:92-171 | no two servers share a line: the path of child indices to a server can be computed from its line |
| MapPositions.LineIsServers | modules/m_map.c:92-171 | every line of the map is the line of a server |
| MapPositions.ServerStandsAt | modules/m_map.c:92-171 | for every server: which line is its own, its title behind four columns for each step down, and in the column of each server on the way a bar if and only if that server is not its parent's last child |
| ServerMap.LastColumn | modules/m_map.c:143-166 | printed and patched prefix differ only in the server's own connector |
| MapReading.ReadLineOfRow | modules/m_map.c:105-135 | a reader that counts four-character columns gets depth, label and statistics back from a line |
| MapReading.ReadPreOrders | modules/m_map.c:155-170 | depths in preorder determine the forest, whatever shallower lines follow |
| MapReading.ReadForestKeeps | modules/m_map.c:155-170 | the reader loses nothing: its trees, printed again, and the rest are the lines it was given |
| MapReading.MapIsReadable | modules/m_map.c:92-171 | the printed map is unambiguous: reading its lines rebuilds the same ordered tree |
| MapReading.MapArrivesExactly | src/send.c:67-91 | the map as received, behind its headers and cut to 510 characters a line, reads as the tree if and only if no line was cut |
| MapPositions.LineCount | modules/m_map.c:92-171 | as many lines as servers |
| SpoofFile.TryFlag | contrib/m_spoof.c:135-145 | one flag name with the right separator, and the bit is cleared |
| SpoofFile.RemainingIsJoin | contrib/m_spoof.c:309-319 | the seven calls together write the names of all set flags with commas between them and one end |
| SpoofFile.WriteFlags | contrib/m_spoof.c:309-319 | the flags line of a block |
| SpoofFile.ReadFlags | contrib/m_spoof.c:287-307 | the flags and the class that the flag characters ask for, in any order and with repeats |
| SpoofCommand.MoSpoof | contrib/m_spoof.c:196-327 | the file grows by exactly the block requested, and what the configuration reader makes of it are mask, spoof, password, flags and class as asked for, if and only if no value holds a quote, a backslash or a line break |
| SpoofCommand.AskedNames | contrib/m_spoof.c:287-319 | each flag name is asked for if and only if its letter is among the flag letters, and no other name is |
| SpoofCommand.LexSpoiled | src/ircd_lexer.l:81-117 | a quoted value with a quote, a backslash or a line break is never read as it was |
| SpoofCommand.SettingReadsBack | src/ircd_parser.y:1776-1826 | a line with a key and a value reads as that setting if and only if the value is plain |
| SpoofCommand.FlagsReadBack | src/ircd_parser.y:1839-1845 | a flags line reads as its names in order |
| DelSpoof.FbGets | src/fileio.c:212-261 | one line of at most 1023 characters, with CR and CRLF read as LF |
| DelSpoof.LinesAreTheFile | src/fileio.c:212-261 | for any file: its lines together are the file with CR and CRLF read as LF; each ends at its only newline, or is 1023 long, or is the last |
| DelSpoof.FindUserField | contrib/m_spoof.c:421-439 | the value of a user field, up to the next quote, or that the line has none |
| DelSpoof.UserFieldExactly | contrib/m_spoof.c:421-439 | a line has a user field if and only if it is the word in any case, an equals sign and a quote, with any blanks between, and the field ends at the next quote |
| DelSpoof.MoDelSpoof | contrib/m_spoof.c:370-500 | the outcome of the rewriting scan: the new file, not found, or a crash on a field without an at sign |
| SpoofScan.FieldParts | contrib/m_spoof.c:421-447 | what is read of a mask: its user, and its host up to a quote; no at sign exactly when the quote is in the user |
| SpoofScan.ScanUserLine | contrib/m_spoof.c:441-477 | what any user line does to the scan, the head of the block being written in front of the first |
| SpoofScan.ScanBlock | contrib/m_spoof.c:410-484 | the scanner drops a whole block whose field matches, copies any other with its host up to the first quote, and fails on one with a quote in its user |
| SpoofRoundTrip.DeletionExactly | contrib/m_spoof.c:410-500 | on every file SPOOF can have written: fails if and only if a block with a quote in its user is not hit; else not found if and only if none is hit; else the exact new file |
| SpoofRoundTrip.QuotedMaskFindsNothing | contrib/m_spoof.c:433-448 | a mask with a quote deletes nothing from any file at all |
| SpoofRoundTrip.FilterExactly | contrib/m_spoof.c:410-500 | for every mask a filter on blocks by their masks, if and only if no block holds a quote |
| SpoofRoundTrip.DeletingTwice | contrib/m_spoof.c:410-500 | deleting twice is deleting once, on every file SPOOF can have written |
| SpoofRoundTrip.BlockedDoesNotCommute | contrib/m_spoof.c:450-476 | blocks with a quote in their user that all read alike, and another that reads differently: two deletions that do not commute |
| SpoofRoundTrip.CommuteExactly | contrib/m_spoof.c:410-500 | all deletions commute, except if and only if there are blocks with a quote in their user, all of these read alike, and another block reads differently |
| SpoofRoundTrip.RoundTripExactly | contrib/m_spoof.c:272-484 | on every file SPOOF can have written: SPOOF then DELSPOOF restores it byte for byte if and only if neither the mask nor a block holds a quote and no block had the mask |
| SpoofRoundTrip.QuoteBreaksTheRoundTrip | contrib/m_spoof.c:433-448 | a mask with a quote for which the block stays |
| SpoofRoundTrip.HistoryIsWritten | contrib/m_spoof.c:272-500 | after any history of the two commands, failing ones included, the file is one SPOOF can have written |
| IrcString.Irccmp | src/match.c:354-372 | 0 exactly when the strings are equal up to the case rules of section 2.2 of RFC 1459 |
| IrcString.FoldsExactly | src/match.c:428-461 | two characters count as the same if and only if they are, or are a small and a large letter, braces, bar and tilde being the small brackets, backslash and caret |
| IrcString.Ircncmp | src/match.c:374-391 | 0 exactly when the string begins with the word up to case |
| CrcTable.EntryIsEightDivisions | contrib/ip_cloaking.c:189-242 | every one of the 256 table entries is eight division steps by 0xEDB88320 applied to its index |
| IpCloaking.TableIsEightSteps | contrib/ip_cloaking.c:189-242 | a table entry is what eight zero bits make of the index |
| IpCloaking.TableStep | contrib/ip_cloaking.c:253 | one table lookup equals the bitwise register after the eight bits of the byte |
| IpCloaking.Crc32 | contrib/ip_cloaking.c:244-256 | the table loop computes reflected bitwise division with start value 0 and no final complement |
| IpCloaking.ChecksumIsLinear | contrib/ip_cloaking.c:244-256 | the checksum of the XOR of two strings of one length is the XOR of their checksums |
| CrcRegister.DifferenceOfRuns | contrib/ip_cloaking.c:250-255 | the checksums of two messages differ by the checksum of their difference, from any two start values |
| CrcRegister.UndetectedExactly | contrib/ip_cloaking.c:250-255 | an error goes unnoticed if and only if its pattern alone leaves the register at zero |
| CrcRegister.StepIsInjective | contrib/ip_cloaking.c:253 | each step with a fixed bit can be undone |
| CrcRegister.BurstIsDetected | contrib/ip_cloaking.c:250-255 | messages that differ only inside a window of 32 bits never have the same checksum |
| IpCloaking.FourByteErrorIsDetected | contrib/ip_cloaking.c:250-255 | strings that differ only inside four consecutive bytes never have the same checksum |
| IpCloaking.BurstOf33IsNotDetected | contrib/ip_cloaking.c:250-255 | 32 bits is the best possible bound |
| IpCloaking.AgreesWithRfc1952 | contrib/ip_cloaking.c:244-256 | the checksum tells the same strings apart as the one of section 8 of RFC 1952 |
| IpCloaking.Crc32Wide | contrib/ip_cloaking.c:244-256 | the loop on 64-bit words gives the same checksum |
| IpCloaking.WideStepIsNarrow | contrib/ip_cloaking.c:253 | one turn on 64-bit words is one turn on 32-bit words |
| CloakHash.HashSegments | contrib/ip_cloaking.c:304-324 | all four hashes are the low 30 bits of the mixed checksums where unsigned long has 32 bits |
| CloakHash.HashSegmentsWide | contrib/ip_cloaking.c:304-324 | where it has 64 bits, the printed hashes are the same and the third keeps one bit more |
| CloakHash.Hash2AgreesExactly | contrib/ip_cloaking.c:306-320 | hashes are below 2^30, and the third agrees between the machines if and only if bit 30 is clear |
| UserModeBit.FindFreeMode | contrib/ip_cloaking.c:81-102 | the lowest of 32 bits no user mode uses, or 0 exactly when there is none |
| UserModeBit.UnionIsFree | contrib/ip_cloaking.c:87-88 | a bit is clear in the union if and only if every mode leaves it clear |
| DLinkList.List.Add | include/tools.h:101-114 | prepends, and keeps every other node and its data |
| DLinkList.List.AddBefore | include/tools.h:116-130 | inserts before a node at any position |
| DLinkList.List.AddTail | include/tools.h:132-145 | appends |
| DLinkList.List.Delete | include/tools.h:150-171 | removes exactly that node and clears its links |
| DLinkList.List.Find | include/tools.h:180-192 | the first node with the data, or null when there is none |
| DLinkList.List.MoveFrom | include/tools.h:194-227 | concatenates in front and empties the other list |
| DLinkList.List.FindDelete | include/tools.h:229-261 | removes the first node with the data, or changes nothing |
| DLinkList.List.ForeachSafe | include/tools.h:80 | for every body that removes at most the current node: visits each node once in order and leaves the unremoved ones in order |
| DLinkList.List.Foreach | include/tools.h:72 | the plain walk stops at the first node its body removes |
| GlineVoting.PendingGlines.CheckMajority | modules/m_gline.c:496-568 | the answer, the pending list and the G-line placed, with the reason of the first voter |
| GlineVoting.PendingGlines.AddNew | modules/m_gline.c:459-479 | a new entry in front, each text cut to its field |
| GlineVoting.PendingGlines.Cleanup | src/s_gline.c:85-118 | exactly the expired or already placed entries are dropped |
| GlineVoting.PlacedNeedsThreeVotes | modules/m_gline.c:496-568 | in every history, a placement has three accepted votes behind it whose usernames, hosts and servers are pairwise different, and the reason of the first |
| GlineVoting.ThreeVotesPlace | modules/m_gline.c:496-568 | and three such votes do place the G-line |
| GlineVoting.StepKeepsOneEntry | modules/m_gline.c:496-568 | no vote or cleanup makes a second pending entry for a mask that fits |
| GlineVoting.RunKeepsOneEntry | modules/m_gline.c:496-568 | in no history are there two pending entries for one mask, as long as masks fit |
| GlineVoting.FoundAgainExactly | modules/m_gline.c:471-472 | an entry is found again by its own mask if and only if the mask fits its fields |
| GlineVoting.TwoVotesShareExactly | modules/m_gline.c:514-567 | the first two votes for a mask share one entry if and only if it fits |
| GlineHistory.ReplyExactly | modules/m_gline.c:496-568 | turned down if and only if the mask is not G-lined, there is an entry, and the operator shares a username, host or server with one of its voters; places if and only if the entry has two others |
| GlineHistory.VoteTouchesItsEntry | modules/m_gline.c:459-567 | a vote turned down or late changes nothing; any other that does not place opens or seconds the entry of its own mask and changes no other |
| GlineHistory.CleanupSifts | src/s_gline.c:100-118 | a cleanup leaves exactly the entries not due, in order |
| GlineHistory.EntriesLeaveWhenDue | src/s_gline.c:100-118 | in every history, an entry leaves if and only if there is a cleanup and its mask is G-lined or its latest vote is 600 seconds old |
| GreedyPacking.PackLosesNothing | modules/m_accept.c:222-242 | the lines together are the pieces, in order |
| GreedyPacking.PackFits | modules/m_accept.c:222-242 | no line is empty, and every piece had the room the packer asks for |
| GreedyPacking.NeverBehind | modules/m_accept.c:222-242 | the greedy packer is never behind another split of the same pieces |
| GreedyPacking.FewestLines | modules/m_accept.c:222-242 | no split in order under the same test uses fewer lines |
| ReplyPackers.ListAccepts | modules/m_accept.c:212-242 | the loop over one 512-byte buffer sends the greedy packing and drops each line's last blank; the lines read as prefix, 281 and nick, and together as the accept list |
| ReplyPackers.AcceptListReadsBack | modules/m_accept.c:212-242 | the replies read back as their heading and the accept list, in order; no line is empty; all keep two characters clear of the 512 of section 2.3 of RFC 1459 |
| ReplyPackers.AcceptListIsShortest | modules/m_accept.c:219-242 | no way to spread the names in order over lines of that length takes fewer lines |
| ReplyPackers.OnMyChannel | modules/m_names.c:178-194 | the search with its break finds whether a common channel exists |
| ReplyPackers.NamesNonPublic | modules/m_names.c:153-217 | the replies are the greedy packing of exactly the visible users on no common channel, behind prefix, 353, nick and two stars |
| ReplyPackers.ShownExactly | modules/m_names.c:165-194 | a name is listed if and only if a visible user on no common channel has it |
| ReplyPackers.NamesReadBack | modules/m_names.c:165-216 | they read back as those users, in order, on lines within 512 characters |
| ReplyPackers.NamesAreShortest | modules/m_names.c:165-216 | on the fewest lines |
| ReplyPackers.OperspyWhois | contrib/m_operspy.c:467-493 | the replies are the greedy packing of the channels with their marks, behind prefix, 319, nick and target |
| WhoisWords.WhoisWordReads | contrib/m_operspy.c:483-486 | a channel's word gives its name, operator and voice, how many percent signs are due, and for operators whether it was hidden |
| WhoisWords.WordsAgreeExactly | contrib/m_operspy.c:483-486 | two channels have the same word if and only if name, operator, voice and number of percent signs agree, and for operators whether they were hidden |
| ReplyPackers.WhoisReadsBack | contrib/m_operspy.c:467-493 | they read back as all channels in order even after a line is cut to 510 characters |
| ReplyPackers.WhoisLongExactly | contrib/m_operspy.c:472-488 | a line is longer than 510 characters, and then 511, if and only if halfops are built in and its last channel is hidden, has every mark and fills it to the last character |
| ReplyPackers.WhoisLineOf511 | contrib/m_operspy.c:472-488 | a line of 511 characters does occur with halfops |
| ReplyPackers.WhoisIsShortest | contrib/m_operspy.c:467-493 | no split under the same test uses fewer lines |
| ReplyPacking.ReplyIsRead | src/send.c:67-91 | a client that knows no header reads heading and words from a reply, even when cutting it to 510 characters takes its last blank |
| Tokens.StrToken | src/irc_string.c:151-178 | one call returns the next word between blanks and where to go on |
| UserFlags.NamesDiffer | contrib/m_flags.c:87-126 | no two names of the table are equal up to case |
| UserFlags.Client.SetFlagsToString | contrib/m_flags.c:358-395 | the printed text lists exactly the names whose mode is set |
| UserFlags.Client.UnsetFlagsToString | contrib/m_flags.c:397-431 | and those not set that the client may know of |
| UserFlags.Client.MFlags | contrib/m_flags.c:144-238 | the modes after the token and table loops of a client that is no oper, and the two lists printed |
| UserFlags.Client.MoFlags | contrib/m_flags.c:245-356 | the same for an oper, with NICKCHANGES checked against its privilege |
| UserFlags.SetFlagsRoundTrip | contrib/m_flags.c:273-395 | what FLAGS prints as set for u, given to a client with modes v, leaves v together with the reachable bits of u, although names share bits |
| UserFlags.UnsetFlagsRoundTrip | contrib/m_flags.c:273-431 | the missing names with a minus clear exactly the reachable bits u does not have |
| UserFlags.FlagsRestores | contrib/m_flags.c:273-431 | both together bring back u on the reachable bits and leave all others as in v |
| UserFlags.OthersAreLeftAlone | contrib/m_flags.c:144-356 | no sequence of flags changes a bit outside the reachable ones |
| UserFlags.FlagsGiveNoPrivilege | contrib/m_flags.c:144-356 | nobody becomes an oper or admin, deaf or soft caller id by FLAGS, and nick change notices need the privilege |
| UserFlags.AllEndsTheCommand | contrib/m_flags.c:192-205 | what follows ALL is not read |
| UserFlags.ListedIsSpaced | contrib/m_flags.c:358-431 | the printed text is the names with a blank in front of each |
| FlagEffects.NameDoes | contrib/m_flags.c:177-219 | a name in any case, bare or behind any sign but a minus, sets exactly the mode of its row, behind a minus clears it; an oper's name does nothing for others |
| FlagEffects.NickchangesDoes | contrib/m_flags.c:308-324 | the same for NICKCHANGES, for opers with the privilege only |
| FlagEffects.AllDoes | contrib/m_flags.c:130-137 | the same for ALL, with the masks 0x109 and 0x19b7f |
| FlagEffects.UnknownDoesNothing | contrib/m_flags.c:207-227 | a flag for no name changes nothing |
| FlagEffects.FlagsInTurn | contrib/m_flags.c:172-227 | flags up to ALL work one after the other |
| FlagEffects.ParametersAreOneText | contrib/m_flags.c:172-175 | flags in several parameters are the same as in one |
| FlagEffects.PrintedExactly | contrib/m_flags.c:358-431 | a name is printed as set if and only if its mode is, and as missing if and only if it is not and the client may use it |
| FlagEffects.OnlyNamesArePrinted | contrib/m_flags.c:358-431 | no other name is printed |
| FlagEffects.NickchangesPrinted | contrib/m_flags.c:384-426 | and NICKCHANGES if and only if set, or missing for an oper with the privilege |
| UserFlags.FlagStringsFit | contrib/m_flags.c:358-431 | neither static buffer is overrun |
| AwayPropagation.User.MAway | modules/m_away.c:83-148 | the new text and the line sent, or nothing at all when the user was away too recently |
| AwayPropagation.User.MoAway | modules/m_away.c:150-206 | the new text, and that a line is sent only when the status changes |
| AwayPropagation.User.MsAway | modules/m_away.c:208-262 | the same for a line from a server; ignored when its source is no user |
| AwayPropagation.CommandKeepsInv | modules/m_away.c:83-206 | a command keeps every link in step |
| AwayPropagation.DeliverKeepsInv | modules/m_away.c:221-261 | reading a line keeps every link in step: each line in flight will be a transition at its receiver |
| AwayPropagation.RunKeepsInv | modules/m_away.c:83-262 | in every run: applying the lines in flight on a link to the receiver gives what the sender has told, and nothing flows towards the user |
| AwayPropagation.TakenExactly | modules/m_away.c:94-122 | in every run a command is refused if and only if someone who is no oper wants to be away again before the pace allows |
| AwayPropagation.RunFits | modules/m_away.c:123-137 | no line in flight is longer than an away text |
| AwayPropagation.AllAgreeWhenQuiet | modules/m_away.c:83-262 | with no line in flight, all servers agree on whether the user is away |
| AwayPropagation.TextsAgreeExactly | modules/m_away.c:94-147 | they show the first text of the present absence, and the texts agree everywhere if and only if the last one is still the first |
| AwayPropagation.ReadingLowersTheLoad | modules/m_away.c:221-261 | each line read lowers a bound on the readings to come |
| AcceptLists.BuildNicklist | modules/m_accept.c:160-189 | the clients found among the names, split by their minus |
| AcceptLists.ClientLists.AddAccept | modules/m_accept.c:198-204 | both lists grow at the front |
| SoftCallerId.Client.FindChannelLink | src/channel.c:680-693 | a membership of the client whose channel is the pointer given, or null when there is none |
| SoftCallerId.Client.AcceptMessage | src/client.c:1218-1239 | a message is let in if and only if its source is on the accept list, soft caller id or not |
| AcceptLists.ClientLists.Unlink | src/client.c:1269-1278 | the inner walk takes every occurrence off the source's list |
| AcceptLists.ClientLists.DelFromAccept | src/client.c:1251-1281 | every occurrence goes, from both lists, by the two nested walks |
| AcceptLists.ClientLists.MAccept | modules/m_accept.c:73-149 | the lists after the delete list and then the add list, with its counter and its early end |
| AcceptLists.ClientLists.DelAllAccepts | src/client.c:1290-1300 | the client is gone from every list and its own are empty; each turn of both walks removes exactly the current node |
| AcceptLists.ClientLists.DelAllTheirAccepts | src/client.c:1310-1317 | the client is gone from everyone's list |
| AcceptLists.RunKeepsInv | modules/m_accept.c:92-149 | in every run of commands, registrations and exits: b is on a's list if and only if a is among b's back pointers, no list holds anyone twice, and none exceeds max_accept |
| AcceptCommand.CommandDoes | modules/m_accept.c:73-149 | after any command: those not found behind a minus stay, in order; in front of them, newest first, exactly those found without one before the counted limit; no other list changes, and the back pointers follow |
| AcceptCommand.RemovedIsOff | modules/m_accept.c:92-113 | who is found behind a minus and not named without is off the list and has no back pointer |
| AcceptCommand.NamedGetsThrough | modules/m_accept.c:119-148 | who is found without a minus in time gets through afterwards |
| AcceptLists.ExitedStaysAbsent | src/client.c:1290-1300 | once a client has exited no list mentions it at any later moment, until a command finds it again |
| AcceptLists.AddThenDrop | modules/m_accept.c:198-204 | taking someone off again undoes adding them |
| AcceptLists.SkippedNamesCount | modules/m_accept.c:115-148 | after k names passed over, a new one is added if and only if the length plus k is below the limit |
| ClearChannel.RemoveAMode | contrib/m_clearchan.c:222-266 | every member loses exactly the flag, and the lines name exactly the members that held it, in list order |
| ClearChannel.RemoveOurModes | contrib/m_clearchan.c:201-214 | the three modes in turn |
| ClearChannel.BatchesOf | contrib/m_clearchan.c:233-265 | the lines carry all holders in order, four each as long as there are four |
| ClearChannel.ModeLineReadsBack | contrib/m_clearchan.c:245-250 | a line with its padding of empty parameters reads back as command, letters and names |
| ClearChannel.ObserveBatch | contrib/m_clearchan.c:239-250 | a reader of a line takes the flag from exactly the members it names, one letter each |
| ClearChannel.ObserverAgrees | contrib/m_clearchan.c:222-266 | whoever knew all flags and reads the lines in order knows them afterwards, for any member list |
| ClearChannel.ObserverAgreesOnAll | contrib/m_clearchan.c:201-266 | the same for all three modes |
| ClearChannel.NoPrivilegeLeft | contrib/m_clearchan.c:201-208 | nobody is an operator or voiced afterwards, nor a half operator if the build has them; a build without them leaves that flag, and all other flags stay |
| ClearChannel.KickList | contrib/m_clearchan.c:151-180 | the oper is left alone as channel operator, and exactly the members of before are removed, in order |
| KnockLimit.Knocks.ParseKnockLocal | modules/m_knock.c:185-284 | the answer in every case, and that only a delivered knock leaves its times behind |
| KnockLimit.KnockIsAnswered | modules/m_knock.c:231-284 | for a knock at a channel, the state in which each answer is given, in both directions; it is delivered if and only if the user is outside, not kept out, and the last knocks are long enough ago |
| KnockLimit.KnockForNothing | modules/m_knock.c:198-229 | the answers when no channel is found |
| KnockLimit.RemoteIsPassedOn | modules/m_knock.c:296-322 | a remote knock is passed on if and only if its user is outside a closed channel |
| KnockLimit.KnockTakesTimes | modules/m_knock.c:333-342 | a knock that gets through sets exactly the last knock of the channel and of the server's own user; any other changes nothing |
| KnockLimit.Knocks.ParseKnockRemote | modules/m_knock.c:296-322 | a remote knock is passed on without a limit, and leaves its time behind |
| KnockLimit.Knocks.SendKnock | modules/m_knock.c:333-342 | which times are taken down |
| KnockLimit.KnocksAreSpaced | modules/m_knock.c:265-342 | in every run with a clock that does not go back, delivered knocks of one user, or on one channel, are a delay apart |
| KnockLimit.KnockRate | modules/m_knock.c:265-342 | any window of L seconds holds at most L / delay + 1 of them, whatever remote knocks come between |

## Left out

- TopicBurst.BurstConverges: the network model is the burst phase of one # channel that exists on every TB-capable server, with non-empty topics; local TOPIC commands, splits and the setter's name are not in it (setters are in `TopicChannel`).
- ServerMap.DumpMap: the user counts and percentages of a line are one opaque text, every line has to fit the 512-byte buffer, and hidden servers and the final numeric are not modelled.
- SpoofCommand.MoSpoof: privilege checks, validation of masks and flags, the search for an existing auth block in memory, opening, renaming and rehashing; the file is a string in memory.
- AuthReader.Lex: comments, numbers, included files and capital letters in keywords; items SPOOF does not write, and what the server then does with the items.
- DelSpoof.MoDelSpoof: collapse() of the mask and NUL characters in the file.
- CloakHash.HashSegments: the text of the cloaked host made from the hashes, and splitting the host at its dots.
- DLinkList.List.Valid: the length is unbounded; wrap-around after 2^32 nodes is not modelled.
- GlineVoting.PendingGlines.CheckMajority: find_is_glined is a parameter, and the handlers' own unconditional placement outside this function is not modelled; the nick fields play no part in the rule.
- remove_gline_match: a first-match search through address parsing that is not modelled; it would only add an easy member.
- ReplyPackers.ListAccepts: the closing numeric; names are assumed non-empty and free of blanks and NULs, as the server keeps them.
- ReplyPackers.OperspyWhois: the other numerics of WHOIS and the operspy log.
- UserFlags.Client.MoFlags: the notices about unknown names and the notification of the changed user mode.
- AwayPropagation.User.MAway: numerics to the user, the flood grace period, and the two ways a line names its user on TS5 and TS6 links; one user on a fixed tree of servers is modelled, without splits and bursts.
- AcceptLists.ClientLists.MAccept: the request to show the list (that is `ReplyPackers.ListAccepts`), cutting the parameter at commas and joining it again, the numerics, and the list shown after each addition; find_client and the soft caller id answer through parameters.
- AcceptLists: the lists are sequences keyed by client rather than linked nodes; `DLinkList` covers the nodes.
- ClearChannel.KickList: the KICK lines and the channel's local members and users' own channel lists; ban, exception and invite lists freed alongside.
- KnockLimit.Knocks.ParseKnockLocal: the checks of m_knock in front of it (KNOCK disabled, the form of a forwarded lazy-link request), numerics, and the lines to operators and other servers; a channel keeps its last_knock as long as it exists, and a channel created again starts anew.
- Lazy links, cryptlinks, challenges, regular-expression lines, password hashing and compression: foreign calls or hidden helpers.
- STATS, INFO, TRACE, LINKS, USERS, HASH, the spy modules, permission checks and one-branch validations: easy or pure output.
