/**
 What G-line votes do to the pending list of modules/m_gline.c, said without the rule that decides
 them: which votes count for nothing, which entry a vote touches, and when an entry leaves the list.
 */
module GlineHistory {
  import opened CBuffer
  import opened GlineVoting
  import opened IrcString
  import opened Sequences

  // -------- the answer

  // The entry a vote is about: the first one with its mask, up to case.
  ghost predicate IsEntryOf(pending: seq<Pending>, i: nat, user: string, host: string) {
    && i < |pending| && Same(pending[i].user, user) && Same(pending[i].host, host)
    && forall j :: 0 <= j < i ==> !(Same(pending[j].user, user) && Same(pending[j].host, host))
  }

  predicate Shares(v: Vote, o: Oper) { Same(v.user, o.user) || Same(v.host, o.host) || Same(v.server, o.server) }

  // The operator shares a username, a host or a server with one of the entry's voters.
  predicate VotedOn(p: Pending, o: Oper) { Shares(p.first, o) || (p.second.user != "" && Shares(p.second, o)) }

  lemma FoundIs(pending: seq<Pending>, user: string, host: string)
    ensures var k := FindMask(pending, user, host);
            forall i: nat :: IsEntryOf(pending, i, user, host) <==> i == k < |pending|
  {
    hide Same;
  }

  // A vote is turned down exactly when its mask is not G-lined yet, there is an entry for it, and the
  // operator has voted on that entry, or someone has who counts as the same. It places the G-line
  // exactly when there is an entry with two other voters.
  lemma ReplyExactly(st: State, e: Event)
    requires e.Ask?
    ensures Reply(st, e) == AlreadyVoted
            <==> !e.glined && exists i: nat :: IsEntryOf(st.pending, i, e.r.user, e.r.host)
                                               && VotedOn(st.pending[i], e.r.source)
    ensures Reply(st, e) == Placed
            <==> !e.glined && exists i: nat :: IsEntryOf(st.pending, i, e.r.user, e.r.host)
                                               && st.pending[i].second.user != ""
                                               && !VotedOn(st.pending[i], e.r.source)
  {
    FoundIs(st.pending, e.r.user, e.r.host);
    hide Same, FindMask, Expire, SameMask, IsEntryOf;
    var i := FindMask(st.pending, e.r.user, e.r.host);
    if i < |st.pending| {
      assert IsEntryOf(st.pending, i, e.r.user, e.r.host);
    }
  }

  // The operator's vote as an entry holds it.
  ghost predicate IsVoteOf(v: Vote, r: Request, now: int) {
    && v.nick == Cut(r.source.nick, NICKLEN) && v.user == Cut(r.source.user, USERLEN)
    && v.host == Cut(r.source.host, HOSTLEN) && v.server == Cut(r.source.server, HOSTLEN)
    && v.reason == Cut(r.reason, REASONLEN) && v.time == now
  }

  // A new entry for the request, in front of all others.
  ghost predicate OpensEntry(pending: seq<Pending>, pending': seq<Pending>, r: Request, now: int) {
    && pending' != [] && pending'[1..] == pending
    && pending'[0].user == Cut(r.user, MASKUSERLEN) && pending'[0].host == Cut(r.host, MASKHOSTLEN)
    && IsVoteOf(pending'[0].first, r, now) && pending'[0].second.user == "" && pending'[0].lastTime == now
  }

  // The i-th entry takes the request as its second vote, and no other entry changes.
  ghost predicate SecondsEntry(pending: seq<Pending>, pending': seq<Pending>, i: nat, r: Request, now: int) {
    && i < |pending| == |pending'| && (forall j :: 0 <= j < |pending| && j != i ==> pending'[j] == pending[j])
    && Continues(pending[i], pending'[i]) && IsVoteOf(pending'[i].second, r, now) && pending'[i].lastTime == now
  }

  // The same entry: its mask and its first vote stay for good.
  ghost predicate Continues(p: Pending, p': Pending) {
    p'.user == p.user && p'.host == p.host && p'.first == p.first
  }

  // A vote that is turned down, or comes too late, changes nothing; any other that does not place the
  // G-line touches the entry of its own mask and no other.
  lemma VoteTouchesItsEntry(st: State, e: Event)
    requires e.Ask?
    ensures e.glined || Reply(st, e) == AlreadyVoted ==> Step(st, e) == st
    ensures var pending, pending', r := st.pending, Step(st, e).pending, e.r;
            !e.glined && Reply(st, e) == NotPlaced ==>
              && Step(st, e).accepted == st.accepted + [Ballot(r, e.voteTime)]
              && (OpensEntry(pending, pending', r, e.voteTime)
                  || exists i: nat :: IsEntryOf(pending, i, r.user, r.host)
                                      && SecondsEntry(pending, pending', i, r, e.voteTime))
              && ((exists i: nat :: IsEntryOf(pending, i, r.user, r.host))
                  ==> !OpensEntry(pending, pending', r, e.voteTime))
  {
    FoundIs(st.pending, e.r.user, e.r.host);
    hide Same, FindMask, Expire, SameMask, IsEntryOf, Clashes;
    var pending, pending', r := st.pending, Step(st, e).pending, e.r;
    var i := FindMask(pending, r.user, r.host);
    if !e.glined && Reply(st, e) == NotPlaced {
      if i == |pending| {
        assert OpensEntry(pending, pending', r, e.voteTime);
      } else {
        assert IsEntryOf(pending, i, r.user, r.host);
        assert SecondsEntry(pending, pending', i, r, e.voteTime);
      }
    }
  }

  // -------- the cleanup

  // An entry that a cleanup drops: its mask is G-lined, or it has waited too long.
  predicate Due(p: Pending, now: int, glined: (string, string) -> bool) {
    glined(p.host, p.user) || now - p.lastTime >= 600
  }

  // Of the list before, exactly the entries that are not due are left, in order.
  ghost predicate Sifted(before: seq<Pending>, after: seq<Pending>, now: int, glined: (string, string) -> bool) {
    exists at: seq<nat> :: SiftedAt(before, after, now, glined, at)
  }

  ghost predicate SiftedAt(before: seq<Pending>, after: seq<Pending>, now: int, glined: (string, string) -> bool,
                           at: seq<nat>)
  {
    && |at| == |after| && (forall i, j :: 0 <= i < j < |at| ==> at[i] < at[j])
    && (forall i :: 0 <= i < |at| ==> at[i] < |before| && after[i] == before[at[i]])
    && forall k: nat :: k < |before| ==> (k in at <==> !Due(before[k], now, glined))
  }

  lemma {:induction false} ExpireSifts(pending: seq<Pending>, now: int, glined: (string, string) -> bool)
    ensures Sifted(pending, Expire(pending, now, glined), now, glined)
    decreases |pending|
  {
    hide SiftedAt;
    if pending == [] {
      NothingToSift(now, glined);
    } else {
      var p, rest := pending[0], Expire(pending[1..], now, glined);
      ExpireSifts(pending[1..], now, glined);
      FirstExpires(pending, now, glined);
      var at :| SiftedAt(pending[1..], rest, now, glined, at);
      hide Expire, Due;
      if Due(p, now, glined) {
        SiftedPast(p, pending[1..], rest, now, glined, at);
      } else {
        SiftedKept(p, pending[1..], rest, now, glined, at);
      }
    }
  }

  lemma NothingToSift(now: int, glined: (string, string) -> bool)
    ensures SiftedAt([], [], now, glined, [])
  {}

  lemma FirstExpires(pending: seq<Pending>, now: int, glined: (string, string) -> bool)
    requires pending != []
    ensures var rest := Expire(pending[1..], now, glined);
            Expire(pending, now, glined) == if Due(pending[0], now, glined) then rest else [pending[0]] + rest
    ensures pending == [pending[0]] + pending[1..]
  {
    assert [] + Expire(pending[1..], now, glined) == Expire(pending[1..], now, glined);
  }

  function Shifted(at: seq<nat>): (r: seq<nat>)
    ensures |r| == |at| && forall i :: 0 <= i < |at| ==> r[i] == at[i] + 1
  {
    seq(|at|, i requires 0 <= i < |at| => at[i] + 1)
  }

  lemma InShifted(at: seq<nat>, k: nat)
    ensures k in Shifted(at) <==> k > 0 && k - 1 in at
  {
    if k > 0 && k - 1 in at {
      var i :| 0 <= i < |at| && at[i] == k - 1;
      assert Shifted(at)[i] == k;
    }
  }

  lemma SiftedPast(p: Pending, before: seq<Pending>, after: seq<Pending>, now: int, glined: (string, string) -> bool,
                   at: seq<nat>)
    requires SiftedAt(before, after, now, glined, at) && Due(p, now, glined)
    ensures SiftedAt([p] + before, after, now, glined, Shifted(at))
  {
    hide Due, Shifted;
    forall k: nat | k < |[p] + before|
      ensures k in Shifted(at) <==> !Due(([p] + before)[k], now, glined)
    {
      InShifted(at, k);
    }
  }

  lemma SiftedKept(p: Pending, before: seq<Pending>, after: seq<Pending>, now: int, glined: (string, string) -> bool,
                   at: seq<nat>)
    requires SiftedAt(before, after, now, glined, at) && !Due(p, now, glined)
    ensures SiftedAt([p] + before, [p] + after, now, glined, [0] + Shifted(at))
  {
    hide Due, Shifted;
    var at' := [0] + Shifted(at);
    forall k: nat | k < |[p] + before|
      ensures k in at' <==> !Due(([p] + before)[k], now, glined)
    {
      InShifted(at, k);
    }
    forall i | 0 <= i < |at'|
      ensures at'[i] < |[p] + before| && ([p] + after)[i] == ([p] + before)[at'[i]]
    {
      if i > 0 {
        assert at'[i] == at[i - 1] + 1;
      }
    }
  }

  // The list is cleaned up by the periodic event and by the vote that places a G-line.
  ghost predicate CleansUp(st: State, e: Event) { e.Tick? || Reply(st, e) == Placed }

  function TimeOf(e: Event): int { if e.Ask? then e.voteTime else e.tickTime }

  function GlinedAt(e: Event): (string, string) -> bool { if e.Ask? then e.after else e.tickGlined }

  // A cleanup leaves exactly the entries that are not due.
  lemma CleanupSifts(st: State, e: Event)
    requires CleansUp(st, e)
    ensures Sifted(st.pending, Step(st, e).pending, TimeOf(e), GlinedAt(e))
  {
    ExpireSifts(st.pending, TimeOf(e), GlinedAt(e));
    hide Same, FindMask, Expire, SameMask, Clashes, Sifted;
  }

  // -------- when an entry leaves

  // The vote that the entry was opened or seconded with last, as recorded in the history.
  ghost predicate LatestVote(p: Pending, b: Ballot) {
    && p.lastTime == b.time
    && ((p.second == NO_VOTE && IsVoteOf(p.first, b.r, b.time))
        || (Same(p.user, b.r.user) && Same(p.host, b.r.host) && IsVoteOf(p.second, b.r, b.time)))
  }

  lemma LatestVoteIsThere(events: seq<Event>, p: Pending)
    requires OnlyOpers(events) && p in Run(events).pending
    ensures exists b :: b in Run(events).accepted && LatestVote(p, b)
  {
    var accepted := Run(events).accepted;
    RunIsRecorded(events);
    hide Run, Same, Cut;
    var i, j :| Backed(p, accepted, i, j);
    if p.second == NO_VOTE && p.lastTime == accepted[i].time {
      assert p.first == StoredVote(accepted[i].r.source, accepted[i].r.reason, p.lastTime);
      assert LatestVote(p, accepted[i]);
    } else {
      assert p.second == StoredVote(accepted[j].r.source, accepted[j].r.reason, accepted[j].time);
      assert LatestVote(p, accepted[j]);
    }
  }

  lemma SiftedMembers(before: seq<Pending>, after: seq<Pending>, now: int, glined: (string, string) -> bool, p: Pending)
    requires Sifted(before, after, now, glined) && p in before
    ensures p in after <==> !Due(p, now, glined)
  {
    hide Due;
    var at :| SiftedAt(before, after, now, glined, at);
    var k: nat :| k < |before| && before[k] == p;
    if k in at {
      var i :| 0 <= i < |at| && at[i] == k;
      assert after[i] == p;
    }
  }

  // No vote but one that places a G-line makes any entry leave.
  lemma VotesKeepEntries(st: State, e: Event, p: Pending)
    requires p in st.pending && !CleansUp(st, e)
    ensures exists p' :: p' in Step(st, e).pending && Continues(p, p')
  {
    var pending' := Step(st, e).pending;
    var k :| 0 <= k < |st.pending| && st.pending[k] == p;
    VoteTouchesItsEntry(st, e);
    hide Step, Reply, IsVoteOf, IsEntryOf, Cut;
    if pending' == st.pending {
      assert Continues(p, p);
    } else if OpensEntry(st.pending, pending', e.r, e.voteTime) {
      assert pending'[k + 1] == pending'[1..][k];
      assert p in pending' && Continues(p, p);
    } else {
      assert pending'[k] in pending' && Continues(p, pending'[k]);
    }
  }

  // In every history, an entry leaves the list exactly at a cleanup at which its mask is G-lined or its
  // latest vote is at least 600 seconds old; otherwise its mask and its first vote stay.
  lemma EntriesLeaveWhenDue(events: seq<Event>, e: Event, p: Pending)
    requires OnlyOpers(events) && p in Run(events).pending
    ensures var st, st' := Run(events), Run(events + [e]);
            exists b :: b in st.accepted && LatestVote(p, b)
              && if CleansUp(st, e) && (GlinedAt(e)(p.host, p.user) || TimeOf(e) - b.time >= 600)
                 then p !in st'.pending
                 else exists p' :: p' in st'.pending && Continues(p, p')
  {
    var st := Run(events);
    assert (events + [e])[..|events|] == events;
    assert Run(events + [e]) == Step(st, e);
    LatestVoteIsThere(events, p);
    hide Run, Step, CleansUp, LatestVote, OnlyOpers;
    var b :| b in st.accepted && LatestVote(p, b);
    assert p.lastTime == b.time by { LatestTime(p, b); }
    if CleansUp(st, e) {
      CleanupSifts(st, e);
      SiftedMembers(st.pending, Step(st, e).pending, TimeOf(e), GlinedAt(e), p);
    } else {
      VotesKeepEntries(st, e, p);
    }
  }

  lemma LatestTime(p: Pending, b: Ballot)
    requires LatestVote(p, b)
    ensures p.lastTime == b.time
  {}
}
