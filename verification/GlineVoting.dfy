/**
 G-line voting of modules/m_gline.c: three operators on three servers, asking for the same mask,
 place a G-line. Pending votes live in one list, are compared without regard to case, and are
 stored in fixed-size fields that cut what does not fit.
 */
module GlineVoting {
  import opened CBuffer
  import opened IrcString
  import opened Sequences

  const USERLEN: nat := 10
  const HOSTLEN: nat := 63
  const REASONLEN: nat := 120
  // configure adds one to its default of nine.
  const NICKLEN: nat := 10

  // The longest masks a pending entry holds.
  const MASKUSERLEN: nat := USERLEN * 2 + 1
  const MASKHOSTLEN: nat := HOSTLEN * 2 + 1

  const GLINE_PENDING_EXPIRE: int := 600

  // An operator: nick, username, host and server name, each no longer than its field.
  datatype Oper = Oper(nick: string, user: string, host: string, server: string)

  predicate IsOper(o: Oper) {
    |o.user| <= USERLEN && |o.host| <= HOSTLEN && |o.server| <= HOSTLEN
  }

  // One vote held by a pending entry; the second one is there when its username is not empty.
  datatype Vote = Vote(nick: string, user: string, host: string, server: string, reason: string, time: int)

  const NO_VOTE: Vote := Vote("", "", "", "", "", 0)

  datatype Pending = Pending(user: string, host: string, first: Vote, second: Vote, lastTime: int)

  datatype Result = AlreadyVoted | Placed | NotPlaced

  datatype Gline = Gline(user: string, host: string, reason: string)

  function StoredVote(o: Oper, reason: string, now: int): Vote {
    Vote(Cut(o.nick, NICKLEN), Cut(o.user, USERLEN), Cut(o.host, HOSTLEN), Cut(o.server, HOSTLEN),
         Cut(reason, REASONLEN), now)
  }

  // -------- the rule, as a function of the pending list

  predicate SameMask(p: Pending, user: string, host: string) {
    Same(p.user, user) && Same(p.host, host)
  }

  // The operator shares a username, a host or a server with the voter.
  predicate Clashes(v: Vote, o: Oper) {
    Same(v.user, o.user) || Same(v.host, o.host) || Same(v.server, o.server)
  }

  // The first entry with the mask, or |pending|.
  function FindMask(pending: seq<Pending>, user: string, host: string): (i: nat)
    ensures i <= |pending| && (i < |pending| ==> SameMask(pending[i], user, host))
    ensures forall j :: 0 <= j < i ==> !SameMask(pending[j], user, host)
  {
    if pending == [] then 0
    else if SameMask(pending[0], user, host) then 0
    else 1 + FindMask(pending[1..], user, host)
  }

  function NewEntry(o: Oper, user: string, host: string, reason: string, now: int): Pending {
    Pending(Cut(user, MASKUSERLEN), Cut(host, MASKHOSTLEN), StoredVote(o, reason, now), NO_VOTE, now)
  }

  // cleanup_glines: entries too old, or whose mask is now G-lined, are dropped.
  function Expire(pending: seq<Pending>, now: int, glined: (string, string) -> bool): seq<Pending> {
    if pending == [] then []
    else (if pending[0].lastTime + GLINE_PENDING_EXPIRE <= now || glined(pending[0].host, pending[0].user) then []
          else [pending[0]])
         + Expire(pending[1..], now, glined)
  }

  lemma ExpireNext(pending: seq<Pending>, i: nat, now: int, glined: (string, string) -> bool)
    requires i < |pending|
    ensures Expire(pending[i..], now, glined)
            == if pending[i].lastTime + GLINE_PENDING_EXPIRE <= now || glined(pending[i].host, pending[i].user)
               then Expire(pending[i + 1..], now, glined)
               else [pending[i]] + Expire(pending[i + 1..], now, glined)
  {
    var rest := pending[i..];
    assert rest[1..] == pending[i + 1..] && rest[0] == pending[i];
    assert [] + Expire(rest[1..], now, glined) == Expire(rest[1..], now, glined);
  }

  lemma NothingToExpire(pending: seq<Pending>, now: int, glined: (string, string) -> bool)
    ensures Expire(pending[|pending|..], now, glined) == []
  {}

  datatype Request = Request(source: Oper, user: string, host: string, reason: string)

  // check_majority_gline: its answer, and the list it leaves. `glined` says whether the mask is
  // G-lined already, `after` which masks are when the list is cleaned up after a placement.
  function Answer(pending: seq<Pending>, r: Request, now: int, glined: bool,
                  after: (string, string) -> bool): (Result, seq<Pending>) {
    var i := FindMask(pending, r.user, r.host);
    if glined then (NotPlaced, pending)
    else if i == |pending| then (NotPlaced, [NewEntry(r.source, r.user, r.host, r.reason, now)] + pending)
    else if Clashes(pending[i].first, r.source) then (AlreadyVoted, pending)
    else if pending[i].second.user == "" then
      (NotPlaced, pending[i := pending[i].(second := StoredVote(r.source, r.reason, now), lastTime := now)])
    else if Clashes(pending[i].second, r.source) then (AlreadyVoted, pending)
    else (Placed, Expire(pending, now, after))
  }

  class PendingGlines {
    var pending: seq<Pending>
    var placed: seq<Gline>

    constructor ()
      ensures pending == [] && placed == []
    {
      pending, placed := [], [];
    }

    // add_new_majority_gline
    method AddNew(source: Oper, user: string, host: string, reason: string, now: int)
      modifies this`pending
      ensures pending == [NewEntry(source, user, host, reason, now)] + old(pending)
    {
      var entry := Pending(Cut(user, MASKUSERLEN), Cut(host, MASKHOSTLEN), StoredVote(source, reason, now), NO_VOTE,
                           now);
      pending := [entry] + pending;
    }

    // cleanup_glines; `glined` is find_is_glined at this moment
    method Cleanup(now: int, glined: (string, string) -> bool)
      modifies this`pending
      ensures pending == Expire(old(pending), now, glined)
    {
      var all, kept: seq<Pending>, i := pending, [], 0;
      assert all[0..] == all && [] + Expire(all, now, glined) == Expire(all, now, glined);
      hide Expire;
      while i < |all|
        invariant 0 <= i <= |all| && kept + Expire(all[i..], now, glined) == Expire(all, now, glined)
      {
        var p := all[i];
        ExpireNext(all, i, now, glined);
        if !(p.lastTime + GLINE_PENDING_EXPIRE <= now || glined(p.host, p.user)) {
          Regroup(kept, [p], Expire(all[i + 1..], now, glined));
          kept := kept + [p];
        }
        i := i + 1;
      }
      NothingToExpire(all, now, glined);
      assert kept + [] == kept;
      pending := kept;
    }

    // check_majority_gline
    method CheckMajority(source: Oper, user: string, host: string, reason: string, now: int,
                         glined: bool, after: (string, string) -> bool) returns (result: Result)
      modifies this
      ensures (result, pending) == Answer(old(pending), Request(source, user, host, reason), now, glined, after)
      ensures if result == Placed
              then placed == old(placed)
                             + [Gline(user, host, old(pending)[FindMask(old(pending), user, host)].first.reason)]
              else placed == old(placed)
    {
      if glined {
        return NotPlaced;
      }
      if |pending| == 0 {
        AddNew(source, user, host, reason, now);
        return NotPlaced;
      }
      var i := 0;
      while i < |pending|
        invariant 0 <= i <= |pending| && i <= FindMask(pending, user, host)
        invariant pending == old(pending) && placed == old(placed)
      {
        var p := pending[i];
        if Same(p.user, user) && Same(p.host, host) {
          assert i == FindMask(pending, user, host);
          if Same(p.first.user, source.user) || Same(p.first.host, source.host) || Same(p.first.server, source.server) {
            return AlreadyVoted;
          }
          if p.second.user != "" {
            if Same(p.second.user, source.user) || Same(p.second.host, source.host) || Same(p.second.server,
                source.server) {
              return AlreadyVoted;
            }
            placed := placed + [Gline(user, host, p.first.reason)];
            Cleanup(now, after);
            return Placed;
          } else {
            pending := pending[i := p.(second := StoredVote(source, reason, now), lastTime := now)];
            return NotPlaced;
          }
        }
        i := i + 1;
      }
      AddNew(source, user, host, reason, now);
      return NotPlaced;
    }
  }

  // -------- whole runs

  // A vote request with the time it arrives and the G-lines then in force, or the periodic cleanup.
  datatype Event =
    | Ask(r: Request, voteTime: int, glined: bool, after: (string, string) -> bool)
    | Tick(tickTime: int, tickGlined: (string, string) -> bool)

  // A vote, and when it was accepted.
  datatype Ballot = Ballot(r: Request, time: int)

  // The pending list, and every vote accepted so far.
  datatype State = State(pending: seq<Pending>, accepted: seq<Ballot>)

  // The answer to a vote.
  function Reply(st: State, e: Event): Result
    requires e.Ask?
  {
    Answer(st.pending, e.r, e.voteTime, e.glined, e.after).0
  }

  predicate Counts(st: State, e: Event) { e.Ask? && !e.glined && Reply(st, e) != AlreadyVoted }

  function Step(st: State, e: Event): State {
    match e
    case Ask(r, now, glined, after) =>
      State(Answer(st.pending, r, now, glined, after).1,
            if Counts(st, e) then st.accepted + [Ballot(r, now)] else st.accepted)
    case Tick(now, glined) => State(Expire(st.pending, now, glined), st.accepted)
  }

  function Run(events: seq<Event>): State {
    if events == [] then State([], []) else Step(Run(events[..|events| - 1]), events[|events| - 1])
  }

  ghost predicate OnlyOpers(events: seq<Event>) {
    forall e :: e in events && e.Ask? ==> IsOper(e.r.source)
  }

  predicate Different(a: Oper, b: Oper) {
    !Same(a.user, b.user) && !Same(a.host, b.host) && !Same(a.server, b.server)
  }

  // The entry's votes are those of the i-th and, if it has a second one, the j-th accepted request.
  ghost predicate Backed(p: Pending, accepted: seq<Ballot>, i: int, j: int) {
    && 0 <= i < |accepted|
    && var a := accepted[i].r;
       && p.user == Cut(a.user, MASKUSERLEN) && p.host == Cut(a.host, MASKHOSTLEN)
       && p.first == StoredVote(a.source, a.reason, accepted[i].time) && IsOper(a.source)
       && ((p.second == NO_VOTE && p.lastTime == accepted[i].time)
           || (i < j < |accepted| && BackedTwice(p, a, accepted[j])))
  }

  ghost predicate BackedTwice(p: Pending, a: Request, b: Ballot) {
    && SameMask(p, b.r.user, b.r.host)
    && p.second == StoredVote(b.r.source, b.r.reason, b.time) && IsOper(b.r.source)
    && Different(a.source, b.r.source) && p.lastTime == b.time
  }

  ghost predicate Recorded(st: State) {
    forall p :: p in st.pending ==> exists i, j :: Backed(p, st.accepted, i, j)
  }

  lemma {:induction false} ExpireKeeps(pending: seq<Pending>, now: int, glined: (string, string) -> bool)
    ensures forall p :: p in Expire(pending, now, glined) ==> p in pending
  {
    if pending != [] {
      ExpireKeeps(pending[1..], now, glined);
    }
  }

  lemma BackedGrows(p: Pending, accepted: seq<Ballot>, r: Ballot)
    requires exists i, j :: Backed(p, accepted, i, j)
    ensures exists i, j :: Backed(p, accepted + [r], i, j)
  {
    var i, j :| Backed(p, accepted, i, j);
    assert Backed(p, accepted + [r], i, j);
  }

  lemma StepKeepsRecorded(st: State, e: Event)
    requires Recorded(st) && (e.Ask? ==> IsOper(e.r.source))
    ensures Recorded(Step(st, e))
  {
    var st' := Step(st, e);
    if e.Tick? {
      ExpireKeeps(st.pending, e.tickTime, e.tickGlined);
    } else {
      var r, n := e.r, |st.accepted|;
      ExpireKeeps(st.pending, e.voteTime, e.after);
      hide Same, Expire;
      forall p | p in st'.pending
        ensures exists i, j :: Backed(p, st'.accepted, i, j)
      {
        if p in st.pending {
          BackedGrows(p, st.accepted, Ballot(r, e.voteTime));
        } else {
          var k := FindMask(st.pending, r.user, r.host);
          assert st'.accepted == st.accepted + [Ballot(r, e.voteTime)];
          if k == |st.pending| {
            assert Backed(p, st'.accepted, n, n);
          } else {
            assert p == st.pending[k].(second := StoredVote(r.source, r.reason, e.voteTime), lastTime := e.voteTime);
            assert st.pending[k] in st.pending;
            var i, j :| Backed(st.pending[k], st.accepted, i, j);
            assert Backed(p, st'.accepted, i, n);
          }
        }
      }
    }
  }

  lemma {:induction false} RunIsRecorded(events: seq<Event>)
    requires OnlyOpers(events)
    ensures Recorded(Run(events))
    decreases |events|
  {
    if events != [] {
      var front, last := events[..|events| - 1], events[|events| - 1];
      assert last in events;
      RunIsRecorded(front);
      StepKeepsRecorded(Run(front), last);
    }
  }

  // Whenever a G-line is placed, three accepted votes for the mask stand behind it, from operators
  // with pairwise different usernames, hosts and servers; its reason is the first voter's. The mask
  // of the first vote is the one stored, that is, cut to the length of its field.
  lemma PlacedNeedsThreeVotes(events: seq<Event>, e: Event)
    requires OnlyOpers(events) && e.Ask? && IsOper(e.r.source) && Reply(Run(events), e) == Placed
    ensures var st, r := Run(events), e.r;
            exists i, j :: 0 <= i < j < |st.accepted| && Supports(st.accepted[i].r, st.accepted[j].r, r)
              && st.pending[FindMask(st.pending, r.user, r.host)].first.reason
                 == Cut(st.accepted[i].r.reason, REASONLEN)
  {
    var st, r := Run(events), e.r;
    RunIsRecorded(events);
    var p := st.pending[FindMask(st.pending, r.user, r.host)];
    assert p in st.pending;
    hide Same, Run;
    var i, j :| Backed(p, st.accepted, i, j);
    assert Supports(st.accepted[i].r, st.accepted[j].r, r);
  }

  // Two accepted votes and the one that triggers.
  predicate Supports(a: Request, b: Request, r: Request) {
    && Different(a.source, b.source) && Different(a.source, r.source) && Different(b.source, r.source)
    && Same(Cut(a.user, MASKUSERLEN), b.user) && Same(Cut(a.host, MASKHOSTLEN), b.host)
    && Same(Cut(a.user, MASKUSERLEN), r.user) && Same(Cut(a.host, MASKHOSTLEN), r.host)
  }

  // -------- masks and their fields

  predicate MaskFits(user: string, host: string) { |user| <= MASKUSERLEN && |host| <= MASKHOSTLEN }

  // A new entry is found again by its own mask exactly when the mask fits the entry's fields. A
  // mask that does not fit gets a new entry with every vote and is never placed by its own votes.
  lemma FoundAgainExactly(r: Request, now: int)
    ensures SameMask(NewEntry(r.source, r.user, r.host, r.reason, now), r.user, r.host) <==> MaskFits(r.user, r.host)
  {}

  // At most one pending entry has a given mask.
  ghost predicate OneEntryEach(pending: seq<Pending>) {
    forall i, j :: 0 <= i < j < |pending| ==> !SameMask(pending[i], pending[j].user, pending[j].host)
  }

  ghost predicate MasksFit(events: seq<Event>) {
    forall e :: e in events && e.Ask? ==> MaskFits(e.r.user, e.r.host)
  }

  lemma {:induction false} ExpireKeepsOrder(pending: seq<Pending>, now: int, glined: (string, string) -> bool)
    requires OneEntryEach(pending)
    ensures OneEntryEach(Expire(pending, now, glined))
  {
    if pending != [] {
      hide SameMask;
      assert forall i :: 0 <= i < |pending[1..]| ==> pending[1..][i] == pending[i + 1];
      ExpireKeepsOrder(pending[1..], now, glined);
      ExpireKeeps(pending[1..], now, glined);
      var rest := Expire(pending[1..], now, glined);
      forall j | 0 <= j < |rest|
        ensures !SameMask(pending[0], rest[j].user, rest[j].host)
      {
        assert rest[j] in pending[1..];
      }
    }
  }

  lemma StepKeepsOneEntry(st: State, e: Event)
    requires OneEntryEach(st.pending) && (e.Ask? ==> MaskFits(e.r.user, e.r.host))
    ensures OneEntryEach(Step(st, e).pending)
  {
    if e.Tick? {
      ExpireKeepsOrder(st.pending, e.tickTime, e.tickGlined);
    } else {
      ExpireKeepsOrder(st.pending, e.voteTime, e.after);
      var r := e.r;
      var k := FindMask(st.pending, r.user, r.host);
      hide Expire;
      if k == |st.pending| {
        SameIsSymmetric();
      }
      hide Same;
    }
  }

  lemma SameIsSymmetric()
    ensures forall s, t :: Same(s, t) ==> Same(t, s)
  {}

  // As long as all masks fit, no run ever leaves two pending entries with one mask.
  lemma {:induction false} RunKeepsOneEntry(events: seq<Event>)
    requires MasksFit(events)
    ensures OneEntryEach(Run(events).pending)
    decreases |events|
  {
    if events != [] {
      var front, last := events[..|events| - 1], events[|events| - 1];
      assert last in events;
      RunKeepsOneEntry(front);
      StepKeepsOneEntry(Run(front), last);
    }
  }

  // Three votes by different operators for a mask that fits and is not pending yet place it, with
  // the first voter's reason.
  lemma ThreeVotesPlace(pending: seq<Pending>, r1: Request, r2: Request, r3: Request, t1: int, t2: int, t3: int,
                        after: (string, string) -> bool)
    requires FindMask(pending, r1.user, r1.host) == |pending| && MaskFits(r1.user, r1.host)
    requires Same(r2.user, r1.user) && Same(r2.host, r1.host) && Same(r3.user, r1.user) && Same(r3.host, r1.host)
    requires IsOper(r1.source) && IsOper(r2.source) && IsOper(r3.source) && r2.source.user != ""
    requires Different(r1.source, r2.source) && Different(r1.source, r3.source) && Different(r2.source, r3.source)
    ensures var a1 := Answer(pending, r1, t1, false, after);
            var a2 := Answer(a1.1, r2, t2, false, after);
            var a3 := Answer(a2.1, r3, t3, false, after);
            && a1.0 == NotPlaced && a2.0 == NotPlaced && a3.0 == Placed
            && a2.1[FindMask(a2.1, r3.user, r3.host)].first.reason == Cut(r1.reason, REASONLEN)
  {
    var entry := NewEntry(r1.source, r1.user, r1.host, r1.reason, t1);
    var entry2 := entry.(second := StoredVote(r2.source, r2.reason, t2), lastTime := t2);
    VotesDoNotClash(r1.source, r2.source, r1.reason, t1);
    VotesDoNotClash(r1.source, r3.source, r1.reason, t1);
    VotesDoNotClash(r2.source, r3.source, r2.reason, t2);
    MasksMeet(r1, r2, t1);
    MasksMeet(r1, r3, t1);
    hide Answer, Same, SameMask, Clashes, FindMask, Different, IsOper;
    FirstVote(pending, r1, t1, after);
    SecondVote(entry, pending, r2, t2, after);
    ThirdVote(entry2, pending, r3, t3, after);
  }

  lemma VotesDoNotClash(a: Oper, b: Oper, reason: string, now: int)
    requires IsOper(a) && Different(a, b)
    ensures !Clashes(StoredVote(a, reason, now), b) && StoredVote(a, reason, now).user == a.user
  {
    hide Same;
  }

  lemma MasksMeet(r: Request, later: Request, now: int)
    requires MaskFits(r.user, r.host) && Same(later.user, r.user) && Same(later.host, r.host)
    ensures var p := NewEntry(r.source, r.user, r.host, r.reason, now);
            forall second, time :: SameMask(p.(second := second, lastTime := time), later.user, later.host)
  {
    SameIsSymmetric();
    hide Same;
  }

  lemma FirstVote(pending: seq<Pending>, r: Request, now: int, after: (string, string) -> bool)
    requires FindMask(pending, r.user, r.host) == |pending|
    ensures Answer(pending, r, now, false, after) == (NotPlaced, [NewEntry(r.source, r.user, r.host, r.reason, now)]
                                                      + pending)
  {}

  lemma SecondVote(p: Pending, rest: seq<Pending>, r: Request, now: int, after: (string, string) -> bool)
    requires SameMask(p, r.user, r.host) && !Clashes(p.first, r.source) && p.second.user == ""
    ensures Answer([p] + rest, r, now, false, after)
            == (NotPlaced, [p.(second := StoredVote(r.source, r.reason, now), lastTime := now)] + rest)
  {
    var p' := p.(second := StoredVote(r.source, r.reason, now), lastTime := now);
    FoundFirst(p, rest, r.user, r.host);
    hide Same, SameMask, Clashes, FindMask, Expire;
    assert ([p] + rest)[0 := p'] == [p'] + rest;
  }

  lemma ThirdVote(p: Pending, rest: seq<Pending>, r: Request, now: int, after: (string, string) -> bool)
    requires SameMask(p, r.user, r.host) && !Clashes(p.first, r.source) && !Clashes(p.second, r.source)
        && p.second.user != ""
    ensures Answer([p] + rest, r, now, false, after).0 == Placed && FindMask([p] + rest, r.user, r.host) == 0
  {
    FoundFirst(p, rest, r.user, r.host);
    hide Same, SameMask, Clashes, FindMask, Expire;
  }

  lemma FoundFirst(p: Pending, rest: seq<Pending>, user: string, host: string)
    requires SameMask(p, user, host)
    ensures FindMask([p] + rest, user, host) == 0
  {}

  // The first two votes for a mask share one pending entry exactly when the mask fits; a longer one
  // leaves two entries with one stored mask, whoever the operators are.
  lemma TwoVotesShareExactly(r1: Request, r2: Request, t1: int, t2: int, after: (string, string) -> bool)
    requires r1.user == r2.user && r1.host == r2.host
    ensures var events := [Ask(r1, t1, false, after), Ask(r2, t2, false, after)];
            OneEntryEach(Run(events).pending) <==> MaskFits(r1.user, r1.host)
  {
    var e1, e2 := Ask(r1, t1, false, after), Ask(r2, t2, false, after);
    var entry, again := NewEntry(r1.source, r1.user, r1.host, r1.reason, t1),
        NewEntry(r2.source, r2.user, r2.host, r2.reason, t2);
    FoundAgainExactly(r1, t1);
    RunOfTwo(e1, e2);
    hide Run;
    var l1 := [entry];
    assert Step(State([], []), e1).pending == [entry] + [] == l1;
    assert l1[1..] == [];
    if MaskFits(r1.user, r1.host) {
      assert FindMask(l1, r2.user, r2.host) == 0;
      assert |Answer(l1, r2, t2, false, after).1| == 1;
    } else {
      assert FindMask(l1, r2.user, r2.host) == 1;
      var l2 := Run([e1, e2]).pending;
      assert l2 == [again] + l1;
      assert l2[0] == again && l2[1] == entry && SameMask(l2[0], l2[1].user, l2[1].host);
    }
  }

  lemma RunOfTwo(e1: Event, e2: Event)
    ensures Run([e1, e2]) == Step(Step(State([], []), e1), e2)
  {
    assert [e1, e2][..1] == [e1] && [e1][..0] == [];
    assert Run([e1]) == Step(Run([]), e1);
    hide Step;
  }
}
