/**
 Which topics the burst of modules/m_tb.c brings into agreement: for every set of topics, the exact
 condition under which all bursts of them converge.
 */
module TopicConvergence {
  import opened Options
  import opened TopicChannel
  import opened TopicBurst

  // Among the topics in use, times and texts determine each other.
  ghost predicate Unambiguous(topics: set<Topic>) {
    forall a, b :: a in topics && b in topics ==> (a.time == b.time <==> a.text == b.text)
  }

  ghost predicate Agree(best: Topic, st: State) {
    forall s :: 0 <= s < |st.held| ==> st.held[s] == Some(best)
  }

  // The topics come from the given set and at least one server has one.
  ghost predicate DrawnFrom(topics: set<Topic>, st: State) {
    && (exists s, t :: Has(st, s, t))
    && (forall s, t :: Has(st, s, t) ==> t in topics)
  }

  // Some topic held at the start that no other is older than.
  ghost predicate Oldest(best: Topic, st: State) {
    && (exists s :: Has(st, s, best))
    && (forall s, t :: Has(st, s, t) ==> best.time <= t.time)
  }

  // Every quiet end of every burst of these topics, on every connected network, agrees on a topic
  // that was oldest at the start.
  ghost predicate AlwaysConverges(topics: set<Topic>) {
    forall links: Links, init: State, run: seq<Message> ::
      && IsNetwork(links, |init.held|) && Connected(links, |init.held|)
      && Initial(links, init) && DrawnFrom(topics, init)
      && IsRun(links, init, run) && Quiet(After(links, init, run))
      ==> exists best :: Oldest(best, init) && Agree(best, After(links, init, run))
  }

  lemma {:induction false} OldestExists(held: seq<Option<Topic>>, some: Topic) returns (best: Topic)
    requires Some(some) in held
    ensures Some(best) in held && forall t :: Some(t) in held ==> best.time <= t.time
    decreases held
  {
    var rest := held[1..];
    assert held == [held[0]] + rest;
    if t: Topic :| Some(t) in rest {
      best := OldestExists(rest, t);
      if held[0].Some? && held[0].value.time < best.time {
        best := held[0].value;
      }
    } else {
      best := some;
    }
  }

  lemma UnambiguousConverges(topics: set<Topic>)
    requires Unambiguous(topics)
    ensures AlwaysConverges(topics)
  {
    forall links: Links, init: State, run: seq<Message> |
      && IsNetwork(links, |init.held|) && Connected(links, |init.held|)
      && Initial(links, init) && DrawnFrom(topics, init)
      && IsRun(links, init, run) && Quiet(After(links, init, run))
      ensures exists best :: Oldest(best, init) && Agree(best, After(links, init, run))
    {
      OldestIsBest(links, topics, init);
      var best :| Oldest(best, init) && IsBest(best, init);
      BurstConverges(links, best, init, run);
      assert Agree(best, After(links, init, run));
    }
  }

  lemma OldestIsBest(links: Links, topics: set<Topic>, init: State)
    requires Unambiguous(topics) && Initial(links, init) && DrawnFrom(topics, init)
    ensures exists best :: Oldest(best, init) && IsBest(best, init)
  {
    var s0, t0 :| Has(init, s0, t0);
    var best := OldestExists(init.held, t0);
    var i :| 0 <= i < |init.held| && init.held[i] == Some(best);
    assert Has(init, i, best);
    assert Oldest(best, init);
    forall s | 0 <= s < |init.held| && init.held[s].Some?
      ensures Fits(best, init.held[s].value)
    {
      assert Has(init, s, init.held[s].value);
    }
    assert IsBest(best, init);
  }

  // -------- a star of servers in which an ambiguous pair stays apart

  // Server 0 is linked to all others.
  ghost function StarLinks(n: nat): Links {
    (set i: nat | 1 <= i < n :: (0, i)) + (set i: nat | 1 <= i < n :: (i, 0))
  }

  lemma StarIsConnected(n: nat)
    ensures IsNetwork(StarLinks(n), n) && Connected(StarLinks(n), n)
  {
    forall group: set<nat> | Divides(group, n)
      ensures exists l :: l in StarLinks(n) && l.0 in group && l.1 !in group
    {
      var inside :| inside in group && inside < n;
      var outside: nat :| outside < n && outside !in group;
      if 0 in group {
        assert (0, outside) in StarLinks(n);
      } else {
        assert (inside, 0) in StarLinks(n);
      }
    }
  }

  ghost function StarHeld(a: Topic, b: Topic, others: seq<Topic>): seq<Option<Topic>> {
    [Some(a), Some(b)] + seq(|others|, i requires 0 <= i < |others| => Some(others[i]))
  }

  // Server 0 holds a, server 1 holds b, and the other topics are on the servers behind them.
  ghost function StarState(a: Topic, b: Topic, others: seq<Topic>): State {
    var held := StarHeld(a, b, others);
    State(held, multiset(FirstSends(StarLinks(|held|), held)))
  }

  // They share a time or a text but not both.
  predicate Ambiguous(a: Topic, b: Topic) { (a.time == b.time) != (a.text == b.text) }

  // Server 0 has the oldest topic and keeps it; server 1 hears of no other and ignores it.
  ghost predicate StayApart(a: Topic, b: Topic, st: State) {
    && |st.held| >= 2 && st.held[0] == Some(a) && st.held[1] == Some(b)
    && (forall s :: 0 <= s < |st.held| && st.held[s].Some? ==> a.time <= st.held[s].value.time)
    && (forall m :: m in st.flight ==>
          && (m.src, m.dst) in StarLinks(|st.held|) && Stored(m.topic) && a.time <= m.topic.time
          && (m.src == 0 ==> m.topic == a))
  }

  lemma StarReceives(a: Topic, b: Topic, st: State, m: Message)
    requires StayApart(a, b, st) && Ambiguous(a, b) && a.time <= b.time && m in st.flight
    ensures m.dst < |st.held|
    ensures var held' := Receive(st.held[m.dst], m.topic.time, m.topic.text);
            && (m.dst <= 1 ==> held' == st.held[m.dst])
            && (held'.Some? ==> a.time <= held'.value.time)
            && (held' == st.held[m.dst] || held' == Some(m.topic))
  {
    assert (m.src, m.dst) in StarLinks(|st.held|);
  }

  lemma DeliverKeepsApart(a: Topic, b: Topic, st: State, m: Message)
    requires StayApart(a, b, st) && Ambiguous(a, b) && a.time <= b.time && m in st.flight
    requires forall s :: 0 <= s < |st.held| && st.held[s].Some? ==> Stored(st.held[s].value)
    ensures m.dst < |st.held|
    ensures var st' := Deliver(StarLinks(|st.held|), st, m);
            && |st'.held| == |st.held| && StayApart(a, b, st')
            && forall s :: 0 <= s < |st'.held| && st'.held[s].Some? ==> Stored(st'.held[s].value)
  {
    StarReceives(a, b, st, m);
    DeliverChanges(StarLinks(|st.held|), st, m);
    hide Deliver, Receive, Accepts, Stored, StarLinks;
  }

  lemma {:induction false} RunKeepsApart(a: Topic, b: Topic, st: State, run: seq<Message>)
    requires StayApart(a, b, st) && Ambiguous(a, b) && a.time <= b.time
    requires forall s :: 0 <= s < |st.held| && st.held[s].Some? ==> Stored(st.held[s].value)
    requires IsRun(StarLinks(|st.held|), st, run)
    ensures StayApart(a, b, After(StarLinks(|st.held|), st, run))
    decreases run
  {
    if run != [] {
      DeliverKeepsApart(a, b, st, run[0]);
      hide Deliver, StayApart, Stored, StarLinks;
      RunKeepsApart(a, b, Deliver(StarLinks(|st.held|), st, run[0]), run[1..]);
    }
  }

  // Every burst can be brought to an end.
  lemma {:induction false} QuietRun(links: Links, st: State, oldest: int, newest: int) returns (run: seq<Message>)
    requires IsNetwork(links, |st.held|) && Between(oldest, newest, st) && OnLinks(links, st)
    ensures IsRun(links, st, run) && Quiet(After(links, st, run))
    decreases Measure(st, oldest, newest)
  {
    if m :| m in st.flight {
      assert (m.src, m.dst) in links;
      DeliverDecreases(links, st, m, oldest, newest);
      DeliverChanges(links, st, m);
      MeasureIsNatural(st, oldest, newest);
      hide Measure, Between, Deliver, IsNetwork;
      run := QuietRun(links, Deliver(links, st, m), oldest, newest);
      assert ([m] + run)[1..] == run;
      run := [m] + run;
    } else {
      run := [];
    }
  }

  lemma MeasureIsNatural(st: State, oldest: int, newest: int)
    requires Between(oldest, newest, st)
    ensures Measure(st, oldest, newest) >= 0
  {
    RankSumIsNatural(st.held, oldest, newest);
    assert RankSum(st.held, oldest, newest) * |st.held| >= 0;
  }

  lemma StarStarts(a: Topic, b: Topic, others: seq<Topic>)
    requires Stored(a) && Stored(b) && a.time <= b.time
    requires forall t :: t in others ==> Stored(t) && a.time <= t.time
    ensures var st := StarState(a, b, others);
            && Initial(StarLinks(|st.held|), st) && OnLinks(StarLinks(|st.held|), st) && StayApart(a, b, st)
            && forall s :: 0 <= s < |st.held| && st.held[s].Some? ==> Stored(st.held[s].value)
  {
    var st := StarState(a, b, others);
    var sent := FirstSends(StarLinks(|st.held|), st.held);
    assert forall s :: 2 <= s < |st.held| ==> st.held[s] == Some(others[s - 2]) && others[s - 2] in others;
    assert forall m :: m in st.flight <==> m in sent;
    hide StarLinks;
  }

  // The star holds exactly these topics, and some run of it ends without agreement.
  lemma StarStaysApart(a: Topic, b: Topic, others: seq<Topic>) returns (run: seq<Message>)
    requires Stored(a) && Stored(b) && Ambiguous(a, b) && a.time <= b.time
    requires forall t :: t in others ==> Stored(t) && a.time <= t.time
    ensures var st := StarState(a, b, others);
            var links := StarLinks(|st.held|);
            && IsNetwork(links, |st.held|) && Connected(links, |st.held|) && Initial(links, st)
            && IsRun(links, st, run) && Quiet(After(links, st, run))
            && forall best :: !Agree(best, After(links, st, run))
  {
    var st := StarState(a, b, others);
    var links := StarLinks(|st.held|);
    StarIsConnected(|st.held|);
    StarStarts(a, b, others);
    var oldest, newest := TimesAreBounded(st.held);
    InitialIsBetween(links, st, oldest, newest);
    hide StarLinks, StarState, Initial, Connected, IsNetwork, Between, OnLinks;
    run := QuietRun(links, st, oldest, newest);
    RunKeepsApart(a, b, st, run);
    var end := After(links, st, run);
    assert end.held[0] == Some(a) && end.held[1] == Some(b);
  }

  // -------- the exact conditions

  // The servers hold exactly these topics.
  ghost predicate HoldsExactly(topics: set<Topic>, st: State) {
    forall t :: t in topics <==> exists s :: Has(st, s, t)
  }

  // Every quiet end of every burst in which exactly these topics are held, on every connected network,
  // agrees on the oldest.
  ghost predicate HoldingConverges(topics: set<Topic>) {
    forall links: Links, init: State, run: seq<Message> ::
      && IsNetwork(links, |init.held|) && Connected(links, |init.held|)
      && Initial(links, init) && HoldsExactly(topics, init)
      && IsRun(links, init, run) && Quiet(After(links, init, run))
      ==> exists best :: Oldest(best, init) && Agree(best, After(links, init, run))
  }

  // One topic is older than all others and has a text of its own.
  ghost predicate HasClearOldest(topics: set<Topic>) {
    exists best :: best in topics && forall t :: t in topics && t != best ==> best.time < t.time && best.text != t.text
  }

  lemma {:induction false} AsSequence(topics: set<Topic>) returns (list: seq<Topic>)
    ensures forall t :: t in list <==> t in topics
  {
    if t :| t in topics {
      list := AsSequence(topics - {t});
      list := list + [t];
    } else {
      list := [];
    }
  }

  lemma ClearOldestConverges(topics: set<Topic>)
    requires HasClearOldest(topics)
    ensures HoldingConverges(topics)
  {
    var best :| best in topics && forall t :: t in topics && t != best ==> best.time < t.time && best.text != t.text;
    forall links: Links, init: State, run: seq<Message> |
      && IsNetwork(links, |init.held|) && Connected(links, |init.held|)
      && Initial(links, init) && HoldsExactly(topics, init)
      && IsRun(links, init, run) && Quiet(After(links, init, run))
      ensures exists best :: Oldest(best, init) && Agree(best, After(links, init, run))
    {
      ClearIsBest(topics, best, links, init);
      hide *;
      BurstConverges(links, best, init, run);
      AllHold(best, After(links, init, run));
    }
  }

  lemma AllHold(best: Topic, st: State)
    requires forall s :: 0 <= s < |st.held| ==> st.held[s] == Some(best)
    ensures Agree(best, st)
  {}

  lemma ClearIsBest(topics: set<Topic>, best: Topic, links: Links, init: State)
    requires best in topics && HoldsExactly(topics, init) && Initial(links, init)
    requires forall t :: t in topics && t != best ==> best.time < t.time && best.text != t.text
    ensures Oldest(best, init) && IsBest(best, init)
  {
    forall s | 0 <= s < |init.held| && init.held[s].Some?
      ensures init.held[s].value in topics
    {
      assert Has(init, s, init.held[s].value);
    }
  }

  lemma AmbiguousPairOf(topics: set<Topic>) returns (a: Topic, b: Topic)
    requires topics != {} && !HasClearOldest(topics)
    ensures a in topics && b in topics && Ambiguous(a, b)
    ensures forall t :: t in topics ==> a.time <= t.time
  {
    var list := AsSequence(topics);
    var some :| some in topics;
    var held := seq(|list|, i requires 0 <= i < |list| => Some(list[i]));
    assert forall t :: t in list ==> Some(t) in held by {
      forall t | t in list
        ensures Some(t) in held
      {
        var i :| 0 <= i < |list| && list[i] == t;
        assert held[i] == Some(t);
      }
    }
    a := OldestExists(held, some);
    assert a in topics;
    b :| b in topics && b != a && !(a.time < b.time && a.text != b.text);
    assert Some(b) in held;
  }

  lemma StarHoldsExactly(topics: set<Topic>, a: Topic, b: Topic, others: seq<Topic>)
    requires a in topics && b in topics && forall t :: t in others <==> t in topics
    ensures HoldsExactly(topics, StarState(a, b, others))
  {
    var st := StarState(a, b, others);
    forall t | t in topics
      ensures exists s :: Has(st, s, t)
    {
      var i :| 0 <= i < |others| && others[i] == t;
      assert Has(st, i + 2, t);
    }
    forall s, t | Has(st, s, t)
      ensures t in topics
    {
      if s >= 2 { assert others[s - 2] in others; }
    }
  }

  // Bursts in which exactly these topics are held always converge exactly when the oldest topic shares
  // neither its time nor its text with another.
  lemma HoldingConvergesExactly(topics: set<Topic>)
    requires topics != {} && forall t :: t in topics ==> Stored(t)
    ensures HoldingConverges(topics) <==> HasClearOldest(topics)
  {
    if HasClearOldest(topics) {
      ClearOldestConverges(topics);
    } else {
      var a, b := AmbiguousPairOf(topics);
      var others := AsSequence(topics);
      StarHoldsExactly(topics, a, b, others);
      hide *;
      var run := StarStaysApart(a, b, others);
      NotConverging(topics, StarState(a, b, others), run);
    }
  }

  lemma NotConverging(topics: set<Topic>, st: State, run: seq<Message>)
    requires var links := StarLinks(|st.held|);
             && IsNetwork(links, |st.held|) && Connected(links, |st.held|) && Initial(links, st)
             && IsRun(links, st, run) && Quiet(After(links, st, run))
             && forall best :: !Agree(best, After(links, st, run))
    requires HoldsExactly(topics, st)
    ensures !HoldingConverges(topics)
  {}

  // Two topics that share a time or a text but not both: two servers that hold one each may stay apart.
  lemma AmbiguousPairStays(a: Topic, b: Topic)
    requires Stored(a) && Stored(b) && Ambiguous(a, b)
    ensures !HoldingConverges({a, b})
  {
    HoldingConvergesExactly({a, b});
    assert a in {a, b} && b in {a, b};
  }

  // All bursts of these and fewer topics converge only if bursts of any of them do.
  lemma FewerTopics(few: set<Topic>, topics: set<Topic>)
    requires few != {} && few <= topics && AlwaysConverges(topics)
    ensures HoldingConverges(few)
  {
    forall links: Links, init: State, run: seq<Message> |
      && IsNetwork(links, |init.held|) && Connected(links, |init.held|)
      && Initial(links, init) && HoldsExactly(few, init)
      && IsRun(links, init, run) && Quiet(After(links, init, run))
      ensures exists best :: Oldest(best, init) && Agree(best, After(links, init, run))
    {
      var t :| t in few;
      assert DrawnFrom(topics, init);
    }
  }

  // Bursts of these topics always converge exactly when times and texts determine each other.
  lemma ConvergesExactly(topics: set<Topic>)
    requires forall t :: t in topics ==> Stored(t)
    ensures AlwaysConverges(topics) <==> Unambiguous(topics)
  {
    if Unambiguous(topics) {
      UnambiguousConverges(topics);
    } else {
      var a, b :| a in topics && b in topics && (a.time == b.time) != (a.text == b.text);
      if AlwaysConverges(topics) {
        FewerTopics({a, b}, topics);
      }
      AmbiguousPairStays(a, b);
    }
  }
}
