/**
 The KNOCK command of modules/m_knock.c: knocks of local users are limited per user and per channel,
 knocks that other servers pass on are not, and both leave the time of the last knock behind.
 */
module KnockLimit {
  import opened IrcString
  import opened Options
  import opened Sequences

  type Id = nat

  // Of a channel, what decides whether one can knock there.
  datatype Channel = Channel(members: set<Id>, inviteOnly: bool, key: string, limit: nat, isPrivate: bool,
                             lastKnock: int)

  // The channels, and the last_knock of the server's own users; a user not in the map has none yet.
  datatype State = State(channels: map<Id, Channel>, userKnock: map<Id, int>)

  datatype Delays = Delays(user: int, channel: int)

  datatype Reply =
    | NeedMoreParams | NoSuchChannel | AskedUplink | OnChannel | ChannelOpen | CannotSend
    | TooManyByUser | TooManyOnChannel | Delivered

  // -------- the command

  // The name is cut at the first comma.
  function CutAtComma(s: string): string {
    if s == "" || s[0] == ',' then "" else [s[0]] + CutAtComma(s[1..])
  }

  lemma CutFurther(param: string, i: nat)
    requires i < |param| && param[i] != ','
    requires CutAtComma(param) == param[..i] + CutAtComma(param[i..])
    ensures CutAtComma(param) == param[..i + 1] + CutAtComma(param[i + 1..])
  {
    var rest := CutAtComma(param[i + 1..]);
    assert param[i..][1..] == param[i + 1..];
    assert CutAtComma(param[i..]) == [param[i]] + rest;
    hide CutAtComma;
    assert param[..i + 1] == param[..i] + [param[i]];
    Regroup(param[..i], [param[i]], rest);
  }

  lemma CutHere(param: string, i: nat)
    requires i <= |param| && (i < |param| ==> param[i] == ',')
    requires CutAtComma(param) == param[..i] + CutAtComma(param[i..])
    ensures CutAtComma(param) == param[..i]
  {
    assert CutAtComma(param[i..]) == "";
    assert param[..i] + "" == param[..i];
  }

  predicate IsClosed(ch: Channel) { ch.inviteOnly || ch.key != "" || (ch.limit != 0 && |ch.members| >= ch.limit) }

  function LastKnock(st: State, user: Id): int { if user in st.userKnock then st.userKnock[user] else 0 }

  // send_knock: the times are taken down; `my` says whether the user is the server's own.
  function Knocked(st: State, user: Id, my: bool, id: Id, now: int): State {
    if id in st.channels
    then State(st.channels[id := st.channels[id].(lastKnock := now)], if my then st.userKnock[user := now]
               else st.userKnock)
    else st
  }

  // A knock: who knocks, the parameter, what hash_find_channel answers, whether the user is banned
  // there, and when.
  datatype Knock = Knock(user: Id, my: bool, param: string, find: string -> Option<Id>, banned: bool, now: int)

  function Found(st: State, k: Knock): Option<Id> {
    var found := k.find(CutAtComma(k.param));
    if found.Some? && found.value in st.channels then found else None
  }

  // parse_knock_local, without its effect; `uplink` says whether there is a lazy uplink to ask.
  function LocalReply(st: State, k: Knock, d: Delays, uplink: bool): Reply {
    var name := CutAtComma(k.param);
    if name == "" then NeedMoreParams
    else if !IsChanPrefix(name[0]) then NoSuchChannel
    else if Found(st, k).None? then if uplink then AskedUplink else NoSuchChannel
    else
      var ch := st.channels[Found(st, k).value];
      if k.user in ch.members then OnChannel
      else if !IsClosed(ch) then ChannelOpen
      else if ch.isPrivate || k.banned then CannotSend
      else if k.my && LastKnock(st, k.user) + d.user > k.now then TooManyByUser
      else if ch.lastKnock + d.channel > k.now then TooManyOnChannel
      else Delivered
  }

  // parse_knock_remote: whether the knock is passed on
  predicate RemotePasses(st: State, k: Knock) {
    var name := CutAtComma(k.param);
    && name != "" && IsChanPrefix(name[0]) && Found(st, k).Some?
    && k.user !in st.channels[Found(st, k).value].members && IsClosed(st.channels[Found(st, k).value])
  }

  class Knocks {
    var channels: map<Id, Channel>
    var userKnock: map<Id, int>

    constructor (channels: map<Id, Channel>)
      ensures this.channels == channels && userKnock == map[]
    {
      this.channels, userKnock := channels, map[];
    }

    // send_knock
    method SendKnock(user: Id, my: bool, id: Id, now: int)
      requires id in channels
      modifies this
      ensures State(channels, userKnock) == Knocked(old(State(channels, userKnock)), user, my, id, now)
    {
      channels := channels[id := channels[id].(lastKnock := now)];
      if my {
        userKnock := userKnock[user := now];
      }
    }

    // strchr(name, ',') and the NUL put there
    method CutName(param: string) returns (name: string)
      ensures name == CutAtComma(param)
    {
      var i := 0;
      assert param[0..] == param && "" + CutAtComma(param) == CutAtComma(param);
      hide CutAtComma;
      while i < |param| && param[i] != ','
        invariant i <= |param| && CutAtComma(param) == param[..i] + CutAtComma(param[i..])
      {
        CutFurther(param, i);
        i := i + 1;
      }
      CutHere(param, i);
      name := param[..i];
    }

    method ParseKnockLocal(k: Knock, d: Delays, uplink: bool) returns (reply: Reply)
      modifies this
      ensures var st := old(State(channels, userKnock));
              && reply == LocalReply(st, k, d, uplink)
              && State(channels, userKnock)
                 == if reply == Delivered then Knocked(st, k.user, k.my, Found(st, k).value, k.now) else st
    {
      var name := CutName(k.param);
      if name == "" {
        return NeedMoreParams;
      }
      if !IsChanPrefix(name[0]) {
        return NoSuchChannel;
      }
      var found := k.find(name);
      if found.None? || found.value !in channels {
        return if uplink then AskedUplink else NoSuchChannel;
      }
      var ch := channels[found.value];
      if k.user in ch.members {
        return OnChannel;
      }
      if !IsClosed(ch) {
        return ChannelOpen;
      }
      if ch.isPrivate || k.banned {
        return CannotSend;
      }
      if k.my && (if k.user in userKnock then userKnock[k.user] else 0) + d.user > k.now {
        return TooManyByUser;
      } else if ch.lastKnock + d.channel > k.now {
        return TooManyOnChannel;
      }
      SendKnock(k.user, k.my, found.value, k.now);
      return Delivered;
    }

    method ParseKnockRemote(k: Knock)
      modifies this
      ensures var st := old(State(channels, userKnock));
              State(channels, userKnock)
              == if RemotePasses(st, k) then Knocked(st, k.user, k.my, Found(st, k).value, k.now) else st
    {
      var name := CutName(k.param);
      if name == "" || !IsChanPrefix(name[0]) {
        return;
      }
      var found := k.find(name);
      if found.None? || found.value !in channels {
        return;
      }
      var ch := channels[found.value];
      if k.user in ch.members {
        return;
      }
      if !IsClosed(ch) {
        return;
      }
      SendKnock(k.user, k.my, found.value, k.now);
    }
  }

  // -------- runs

  // Between knocks anything about a channel may change but its last_knock.
  datatype Event = Local(k: Knock, uplink: bool) | Remote(k: Knock) | Change(id: Id, to: Channel)

  function Step(st: State, e: Event, d: Delays): State {
    match e
    case Local(k, uplink) =>
      if LocalReply(st, k, d, uplink) == Delivered then Knocked(st, k.user, k.my, Found(st, k).value, k.now) else st
    case Remote(k) => if RemotePasses(st, k) then Knocked(st, k.user, k.my, Found(st, k).value, k.now) else st
    case Change(id, to) =>
      if id in st.channels then st.(channels := st.channels[id := to.(lastKnock := st.channels[id].lastKnock)]) else st
  }

  function Run(start: State, events: seq<Event>, d: Delays): State {
    if events == [] then start else Step(Run(start, events[..|events| - 1], d), events[|events| - 1], d)
  }

  // What a limit is about: the knocks of one of the server's users, or those on one channel.
  datatype Limit = PerUser(user: Id) | PerChannel(channel: Id)

  // The event is a knock delivered through parse_knock_local that the limit is about.
  predicate Hits(st: State, e: Event, d: Delays, limit: Limit) {
    && e.Local? && LocalReply(st, e.k, d, e.uplink) == Delivered
    && match limit
       case PerUser(user) => e.k.my && e.k.user == user
       case PerChannel(channel) => Found(st, e.k) == Some(channel)
  }

  // The times of those knocks, in order.
  function Times(start: State, events: seq<Event>, d: Delays, limit: Limit): seq<int> {
    if events == [] then []
    else
      var front, last := events[..|events| - 1], events[|events| - 1];
      Times(start, front, d, limit) + if Hits(Run(start, front, d), last, d, limit) then [last.k.now] else []
  }

  predicate IsKnock(e: Event) { !e.Change? }

  // The clock does not run backwards.
  ghost predicate ClockRuns(events: seq<Event>) {
    forall i, j :: 0 <= i < j < |events| && IsKnock(events[i]) && IsKnock(events[j])
        ==> events[i].k.now <= events[j].k.now
  }

  // -------- what answers a knock

  // The knock is for this channel: the parameter up to its first comma starts like a channel's name
  // and is found to be that of the channel.
  ghost predicate IsFor(st: State, k: Knock, id: Id) {
    exists n: nat :: IsName(k.param, n) && (k.param[0] == '#' || k.param[0] == '&')
                     && k.find(k.param[..n]) == Some(id) && id in st.channels
  }

  predicate IsName(param: string, n: nat) {
    0 < n <= |param| && ',' !in param[..n] && (n < |param| ==> param[n] == ',')
  }

  lemma {:induction false} CutIs(param: string)
    ensures var n := |CutAtComma(param)|;
            n <= |param| && CutAtComma(param) == param[..n] && ',' !in param[..n] && (n < |param| ==> param[n] == ',')
  {
    if param != "" && param[0] != ',' {
      CutIs(param[1..]);
      var n := |CutAtComma(param[1..])|;
      assert param[..n + 1] == [param[0]] + param[1..][..n];
    }
  }

  lemma OneName(param: string, n: nat)
    requires IsName(param, n)
    ensures CutAtComma(param) == param[..n]
  {
    CutIs(param);
    var m := |CutAtComma(param)|;
    InFront(param, m, n);
    InFront(param, n, m);
  }

  lemma InFront(s: string, i: nat, n: nat)
    ensures i < n <= |s| ==> s[i] in s[..n]
  {
    if i < n <= |s| {
      assert s[..n][i] == s[i];
    }
  }

  lemma ForIs(st: State, k: Knock, id: Id)
    ensures IsFor(st, k, id)
            <==> CutAtComma(k.param) != "" && IsChanPrefix(CutAtComma(k.param)[0]) && Found(st, k) == Some(id)
  {
    CutIs(k.param);
    var m := |CutAtComma(k.param)|;
    if m > 0 {
      assert IsName(k.param, m);
    }
    if n: nat :| IsName(k.param, n) && k.find(k.param[..n]) == Some(id) {
      OneName(k.param, n);
    }
  }

  // The channel can be joined without an invitation, a key or a free place that is not there.
  predicate CanBeJoined(ch: Channel) {
    !ch.inviteOnly && ch.key == "" && (ch.limit == 0 || |ch.members| < ch.limit)
  }

  // The user has to wait: the last knock was less than a delay ago. Users of other servers do not.
  predicate UserWaits(st: State, k: Knock, d: Delays) { k.my && k.now - LastKnock(st, k.user) < d.user }

  // A knock for a channel: each answer is given in exactly these states. In particular it is delivered
  // exactly when the user is outside and can neither join nor is kept out, and nobody has to wait.
  lemma KnockIsAnswered(st: State, k: Knock, d: Delays, uplink: bool, id: Id)
    requires IsFor(st, k, id)
    ensures id in st.channels
    ensures var ch, reply := st.channels[id], LocalReply(st, k, d, uplink);
            var outside := k.user !in ch.members && !CanBeJoined(ch);
            var allowed := outside && !ch.isPrivate && !k.banned;
            && (reply == OnChannel <==> k.user in ch.members)
            && (reply == ChannelOpen <==> k.user !in ch.members && CanBeJoined(ch))
            && (reply == CannotSend <==> outside && (ch.isPrivate || k.banned))
            && (reply == TooManyByUser <==> allowed && UserWaits(st, k, d))
            && (reply == TooManyOnChannel <==> allowed && !UserWaits(st, k, d) && k.now - ch.lastKnock < d.channel)
            && (reply == Delivered <==> allowed && !UserWaits(st, k, d) && k.now - ch.lastKnock >= d.channel)
  {
    ForIs(st, k, id);
    hide IsFor, CutAtComma;
  }

  // A knock for no channel: the parameter is empty up to its first comma, or the uplink is asked.
  lemma KnockForNothing(st: State, k: Knock, d: Delays, uplink: bool)
    requires forall id :: !IsFor(st, k, id)
    ensures var reply, empty := LocalReply(st, k, d, uplink), k.param == "" || k.param[0] == ',';
            && (reply == NeedMoreParams <==> empty)
            && (reply == AskedUplink <==> !empty && (k.param[0] == '#' || k.param[0] == '&') && uplink)
            && (reply == NoSuchChannel <==> !empty && !((k.param[0] == '#' || k.param[0] == '&') && uplink))
  {
    CutIs(k.param);
    var name := CutAtComma(k.param);
    assert name == "" <==> k.param == "" || k.param[0] == ',';
    assert name != "" ==> name[0] == k.param[0];
    if Found(st, k).Some? {
      ForIs(st, k, Found(st, k).value);
    }
    hide IsFor, CutAtComma;
  }

  // A knock of another server's user is passed on exactly when the user is outside.
  lemma RemoteIsPassedOn(st: State, k: Knock)
    ensures RemotePasses(st, k)
            <==> exists id :: IsFor(st, k, id) && k.user !in st.channels[id].members && !CanBeJoined(st.channels[id])
  {
    if Found(st, k).Some? {
      ForIs(st, k, Found(st, k).value);
    }
    forall id: Id | IsFor(st, k, id)
      ensures Found(st, k) == Some(id) && CutAtComma(k.param) != "" && IsChanPrefix(CutAtComma(k.param)[0])
    {
      ForIs(st, k, id);
    }
    hide IsFor, CutAtComma;
  }

  // Everything but the channel's last knock, and that of the server's own user, is as it was.
  ghost predicate TimesTaken(st: State, st': State, k: Knock, id: Id) {
    && st'.channels.Keys == st.channels.Keys && id in st.channels
    && (forall c :: c in st.channels && c != id ==> st'.channels[c] == st.channels[c])
    && st'.channels[id].lastKnock == k.now
    && st'.channels[id].(lastKnock := 0) == st.channels[id].(lastKnock := 0)
    && (forall u :: LastKnock(st', u) == if k.my && u == k.user then k.now else LastKnock(st, u))
  }

  // A knock that gets through takes down its time; any other changes nothing.
  lemma KnockTakesTimes(st: State, e: Event, d: Delays)
    requires !e.Change?
    ensures if (e.Local? && LocalReply(st, e.k, d, e.uplink) == Delivered) || (e.Remote? && RemotePasses(st, e.k))
            then exists id :: IsFor(st, e.k, id) && TimesTaken(st, Step(st, e, d), e.k, id)
            else Step(st, e, d) == st
  {
    if Found(st, e.k).Some? {
      var id := Found(st, e.k).value;
      ForIs(st, e.k, id);
      hide IsFor, CutAtComma;
      if (e.Local? && LocalReply(st, e.k, d, e.uplink) == Delivered) || (e.Remote? && RemotePasses(st, e.k)) {
        assert TimesTaken(st, Step(st, e, d), e.k, id);
      }
    }
  }

  // -------- the rate

  function DelayOf(d: Delays, limit: Limit): int { if limit.PerUser? then d.user else d.channel }

  function LastOf(st: State, limit: Limit): int {
    match limit
    case PerUser(user) => LastKnock(st, user)
    case PerChannel(channel) => if channel in st.channels then st.channels[channel].lastKnock else 0
  }

  ghost predicate Spaced(times: seq<int>, gap: int) {
    forall i, j :: 0 <= i < j < |times| ==> times[i] + gap <= times[j]
  }

  lemma SpacedGrows(times: seq<int>, gap: int, t: int)
    requires Spaced(times, gap) && forall s :: s in times ==> s + gap <= t
    ensures Spaced(times + [t], gap)
  {
    forall i | 0 <= i < |times|
      ensures times[i] + gap <= t
    {
      assert times[i] in times;
    }
  }

  // The last knock counted is no later than the time taken down, nor than any knock to come.
  ghost predicate UpTo(times: seq<int>, events: seq<Event>) {
    forall t :: t in times ==> exists i :: 0 <= i < |events| && IsKnock(events[i]) && events[i].k.now == t
  }

  lemma HitIsSpaced(st: State, e: Event, d: Delays, limit: Limit)
    requires Hits(st, e, d, limit)
    ensures LastOf(st, limit) + DelayOf(d, limit) <= e.k.now && LastOf(Step(st, e, d), limit) == e.k.now
  {}

  // Every step leaves the time taken down alone, or sets it to the time of its knock.
  lemma MissKeepsLast(st: State, e: Event, d: Delays, limit: Limit)
    requires !Hits(st, e, d, limit)
    ensures LastOf(Step(st, e, d), limit) == LastOf(st, limit) || (e.Remote?
        && LastOf(Step(st, e, d), limit) == e.k.now)
  {}

  lemma {:induction false} KnocksAreSpaced(start: State, events: seq<Event>, d: Delays, limit: Limit)
    requires ClockRuns(events) && DelayOf(d, limit) > 0
    ensures var times := Times(start, events, d, limit);
            && Spaced(times, DelayOf(d, limit)) && UpTo(times, events)
            && forall t :: t in times ==> t <= LastOf(Run(start, events, d), limit)
    decreases |events|
  {
    if events != [] {
      var front, last := events[..|events| - 1], events[|events| - 1];
      assert events == front + [last];
      KnocksAreSpaced(start, front, d, limit);
      var st, times := Run(start, front, d), Times(start, front, d, limit);
      UpToGrows(times, front, last);
      hide Hits, Step, LastOf, Run;
      assert Run(start, events, d) == Step(st, last, d) by { RunStep(start, events, d); }
      if Hits(st, last, d, limit) {
        HitIsSpaced(st, last, d, limit);
        SpacedGrows(times, DelayOf(d, limit), last.k.now);
        HitIsAKnock(st, last, d, limit);
        assert events[|front|].k.now == last.k.now;
      } else {
        MissKeepsLast(st, last, d, limit);
        assert times + [] == times;
      }
    }
  }

  lemma RunStep(start: State, events: seq<Event>, d: Delays)
    requires events != []
    ensures Run(start, events, d) == Step(Run(start, events[..|events| - 1], d), events[|events| - 1], d)
  {}

  lemma HitIsAKnock(st: State, e: Event, d: Delays, limit: Limit)
    requires Hits(st, e, d, limit)
    ensures IsKnock(e)
  {}

  lemma UpToGrows(times: seq<int>, front: seq<Event>, last: Event)
    requires UpTo(times, front) && ClockRuns(front + [last])
    ensures UpTo(times, front + [last])
    ensures IsKnock(last) ==> forall t :: t in times ==> t <= last.k.now
  {
    var events := front + [last];
    forall t | t in times
      ensures exists i :: 0 <= i < |events| && IsKnock(events[i]) && events[i].k.now == t
      ensures IsKnock(last) ==> t <= last.k.now
    {
      var i :| 0 <= i < |front| && IsKnock(front[i]) && front[i].k.now == t;
      assert events[i] == front[i] && events[|front|] == last;
    }
  }

  // The times from `from` on, for `length` seconds.
  function Window(times: seq<int>, from: int, length: nat): seq<int> {
    if times == [] then []
    else Window(times[..|times| - 1], from, length)
         + if from <= times[|times| - 1] <= from + length then [times[|times| - 1]] else []
  }

  // The last of these times is at least a gap per step behind the first.
  ghost predicate Spread(w: seq<int>, gap: int) {
    w != [] ==> w[0] + (|w| - 1) * gap <= w[|w| - 1]
  }

  lemma SpreadGrows(w: seq<int>, gap: int, t: int)
    requires Spread(w, gap) && (w != [] ==> w[|w| - 1] + gap <= t)
    ensures Spread(w + [t], gap)
  {
    var n := |w|;
    assert (n - 1) * gap + gap == n * gap;
  }

  lemma {:induction false} WindowIsSpread(times: seq<int>, gap: int, from: int, length: nat)
    requires Spaced(times, gap)
    ensures var w := Window(times, from, length);
            (forall t :: t in w ==> t in times && from <= t <= from + length) && Spread(w, gap)
    decreases |times|
  {
    hide Spread;
    if times == [] {
      NothingIsSpread(gap);
    } else {
      var front, last := times[..|times| - 1], times[|times| - 1];
      WindowIsSpread(front, gap, from, length);
      var v := Window(front, from, length);
      assert v + [] == v;
      if from <= last <= from + length {
        if v != [] {
          assert v[|v| - 1] in v;
          var i :| 0 <= i < |front| && front[i] == v[|v| - 1];
          assert times[i] + gap <= times[|front|];
        }
        SpreadGrows(v, gap, last);
      }
    }
  }

  lemma NothingIsSpread(gap: int)
    ensures Spread([], gap)
  {}

  lemma QuotientBound(n: nat, gap: int, length: nat)
    requires gap > 0 && n * gap <= length
    ensures n <= length / gap
  {
    if n >= length / gap + 1 {
      assert n * gap >= (length / gap + 1) * gap by { Larger(n, length / gap + 1, gap); }
    }
  }

  lemma Larger(a: int, b: int, gap: int)
    requires a >= b && gap > 0
    ensures a * gap >= b * gap
  {}

  // However knocks are tried, and whatever other servers pass on in between: within any stretch of
  // `length` seconds, at most length / delay + 1 knocks are delivered for a channel, or for a user.
  lemma KnockRate(start: State, events: seq<Event>, d: Delays, limit: Limit, from: int, length: nat)
    requires ClockRuns(events) && DelayOf(d, limit) > 0
    ensures |Window(Times(start, events, d, limit), from, length)| <= length / DelayOf(d, limit) + 1
  {
    var gap := DelayOf(d, limit);
    KnocksAreSpaced(start, events, d, limit);
    var times := Times(start, events, d, limit);
    hide Times, DelayOf, Spaced;
    WindowIsSpread(times, gap, from, length);
    var w := Window(times, from, length);
    if w != [] {
      assert w[0] in w && w[|w| - 1] in w && (|w| - 1) * gap <= length;
      QuotientBound(|w| - 1, gap, length);
    } else {
      QuotientBound(0, gap, length);
    }
  }
}
