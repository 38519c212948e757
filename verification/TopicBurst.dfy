/**
 The topic burst of modules/m_tb.c: on a TB line a server takes a topic that is older than its own
 and sends its new state to every neighbour but the one the line came from.
 */
module TopicChannel {
  import opened CBuffer
  import opened Options

  // A topic as the rest of the network sees it: its text and when it was set.
  datatype Topic = Topic(text: string, time: int)

  // A TB line: who re-sends it, when the topic was set, by whom, and its text.
  datatype TbLine = TbLine(sender: string, time: int, who: string, text: string)

  // The longest topic that can be configured, and the longest setter kept with it: strlcpy keeps one
  // character less than USERHOST_REPLYLEN, which is 10 + 63 + 10 + 5.
  const TOPICLEN: nat := 390
  const USERHOST_REPLYLEN: nat := 88
  const TOPICINFOLEN: nat := USERHOST_REPLYLEN - 1

  // The accept rule: a server without a topic takes any, a server with one takes an older one
  // unless the text is the same.
  predicate Accepts(held: Option<Topic>, time: int, text: string) {
    held.None? || (time < held.value.time && held.value.text != text)
  }

  function Receive(held: Option<Topic>, time: int, text: string): Option<Topic> {
    if !Accepts(held, time, text) then held
    else if text == "" then None
    else Some(Topic(Cut(text, TOPICLEN), time))
  }

  class Channel {
    const chname: string
    var topic: Option<string>
    var topicInfo: Option<string>
    var topicTime: int

    // A stored topic is never empty and never longer than its buffer.
    ghost predicate Valid()
      reads this
    {
      && (topic.Some? <==> topicInfo.Some?)
      && (topic.Some? ==> topic.value != "" && |topic.value| <= TOPICLEN)
    }

    function Held(): Option<Topic>
      reads this
    {
      if topic.None? then None else Some(Topic(topic.value, topicTime))
    }

    // set_channel_topic
    method SetChannelTopic(text: string, info: string, time: int)
      requires Valid()
      modifies this
      ensures Valid()
      ensures if text != "" then topic == Some(Cut(text, TOPICLEN)) && topicInfo == Some(Cut(info, TOPICINFOLEN))
                                 && topicTime == time
              else topic == None && topicInfo == None && topicTime == 0
    {
      if text != "" {
        topic := Some(Cut(text, TOPICLEN));
        topicInfo := Some(Cut(info, TOPICINFOLEN));
        topicTime := time;
      } else {
        topic, topicInfo := None, None;
        topicTime := 0;
      }
    }

    // set_topic: apply, then pass on what is now stored. Only # channels are sent to servers.
    method SetTopic(me: string, time: int, who: string, text: string) returns (forward: Option<TbLine>)
      requires Valid()
      modifies this
      ensures Valid()
      ensures Held() == if text == "" then None else Some(Topic(Cut(text, TOPICLEN), time))
      ensures if text == "" then topicTime == 0 && topicInfo == None
              else topicTime == time && topicInfo == Some(Cut(who, TOPICINFOLEN))
      ensures forward.Some? <==> chname != "" && chname[0] == '#'
      ensures forward.Some? ==>
                forward.value == if text == "" then TbLine(me, 0, "", "")
                                 else TbLine(me, time, Cut(who, TOPICINFOLEN), Cut(text, TOPICLEN))
    {
      SetChannelTopic(text, who, time);
      if chname != "" && chname[0] == '#' {
        forward := Some(TbLine(me, topicTime, if topicInfo.None? then "" else topicInfo.value,
                               if topic.None? then "" else topic.value));
      } else {
        forward := None;
      }
    }

    // ms_tb: `setter` is absent when the line has four parameters
    method MsTb(me: string, sourceName: string, time: int, setter: Option<string>, text: string)
      returns (forward: Option<TbLine>)
      requires Valid()
      modifies this
      ensures Valid() && Held() == Receive(old(Held()), time, text)
      ensures forward.Some? <==> Accepts(old(Held()), time, text) && chname != "" && chname[0] == '#'
      ensures forward.Some? ==>
                forward.value == if text == "" then TbLine(me, 0, "", "")
                                 else TbLine(me, time,
                                             Cut(if setter.Some? then setter.value else sourceName, TOPICINFOLEN),
                                             Cut(text, TOPICLEN))
      ensures Accepts(old(Held()), time, text) && text != "" ==>
                topicTime == time
                && topicInfo == Some(Cut(if setter.Some? then setter.value else sourceName, TOPICINFOLEN))
      ensures Accepts(old(Held()), time, text) && text == "" ==> topicTime == 0 && topicInfo == None
      ensures !Accepts(old(Held()), time, text) ==> topicInfo == old(topicInfo) && topicTime == old(topicTime)
    {
      var who := if setter.Some? then setter.value else sourceName;
      forward := None;
      if topic.Some? {
        if time < topicTime {
          if topic.value == text {
            return;
          }
        } else {
          return;
        }
      }
      forward := SetTopic(me, time, who, text);
    }
  }
}

/**
 The burst phase as a transition system: servers 0, 1, ... hold topics, TB lines are in flight on
 the links, and delivering a line is one step. Lines may overtake each other, so what is proved
 holds for ordered links as well.
 */
module TopicBurst {
  import opened Options
  import opened TopicChannel

  datatype Message = Message(src: nat, dst: nat, topic: Topic)

  datatype State = State(held: seq<Option<Topic>>, flight: multiset<Message>)

  type Links = set<(nat, nat)>

  ghost predicate IsNetwork(links: Links, n: nat) {
    forall l :: l in links ==> l.0 < n && l.1 < n && l.0 != l.1 && (l.1, l.0) in links
  }

  ghost predicate Divides(group: set<nat>, n: nat) {
    (exists s :: s in group && s < n) && (exists s: nat :: s < n && s !in group)
  }

  // No division of the servers into two groups leaves the groups without a link.
  ghost predicate Connected(links: Links, n: nat) {
    forall group: set<nat> :: Divides(group, n) ==> exists l :: l in links && l.0 in group && l.1 !in group
  }

  predicate Stored(t: Topic) { t.text != "" && |t.text| <= TOPICLEN }

  function Sends(links: Links, src: nat, except: Option<nat>, t: Topic): set<Message> {
    set l | l in links && l.0 == src && except != Some(l.1) :: Message(src, l.1, t)
  }

  ghost function FirstSends(links: Links, held: seq<Option<Topic>>): set<Message> {
    set l | l in links && l.0 < |held| && held[l.0].Some? :: Message(l.0, l.1, held[l.0].value)
  }

  // Every server has just sent its topic, if it has one, over every link.
  ghost predicate Initial(links: Links, st: State) {
    && (forall i :: 0 <= i < |st.held| && st.held[i].Some? ==> Stored(st.held[i].value))
    && st.flight == multiset(FirstSends(links, st.held))
  }

  // Delivering one line.
  ghost function Deliver(links: Links, st: State, m: Message): State
    requires m in st.flight && m.dst < |st.held|
  {
    var held := st.held[m.dst];
    var held' := Receive(held, m.topic.time, m.topic.text);
    var sent := if Accepts(held, m.topic.time, m.topic.text) && held'.Some?
                then Sends(links, m.dst, Some(m.src), held'.value) else {};
    State(st.held[m.dst := held'], st.flight - multiset{m} + multiset(sent))
  }

  ghost predicate IsRun(links: Links, st: State, run: seq<Message>)
    decreases run
  {
    run == [] || (run[0] in st.flight && run[0].dst < |st.held| && IsRun(links, Deliver(links, st, run[0]), run[1..]))
  }

  ghost function After(links: Links, st: State, run: seq<Message>): State
    requires IsRun(links, st, run)
    decreases run
  {
    if run == [] then st else After(links, Deliver(links, st, run[0]), run[1..])
  }

  ghost predicate Quiet(st: State) { st.flight == multiset{} }

  // -------- convergence

  // The topic best is the oldest around, and its time and its text each determine the other.
  ghost predicate Fits(best: Topic, t: Topic) {
    Stored(t) && t.time >= best.time && (t.time == best.time <==> t.text == best.text)
  }

  ghost predicate AllFit(best: Topic, st: State) {
    && (forall i :: 0 <= i < |st.held| && st.held[i].Some? ==> Fits(best, st.held[i].value))
    && (forall m :: m in st.flight ==> Fits(best, m.topic))
  }

  ghost predicate OnLinks(links: Links, st: State) {
    forall m :: m in st.flight ==> (m.src, m.dst) in links
  }

  ghost predicate Has(st: State, s: nat, t: Topic) { s < |st.held| && st.held[s] == Some(t) }

  // A line with the best topic comes from a server that holds it.
  ghost predicate Sourced(best: Topic, st: State) {
    forall m :: m in st.flight && m.topic == best ==> Has(st, m.src, best)
  }

  // The neighbours of a server with the best topic have it too, or it is on its way to them.
  ghost predicate Covered(links: Links, best: Topic, st: State) {
    forall l :: l in links && Has(st, l.0, best) ==> Has(st, l.1, best) || Message(l.0, l.1, best) in st.flight
  }

  ghost predicate Inv(links: Links, best: Topic, st: State) {
    AllFit(best, st) && OnLinks(links, st) && Sourced(best, st) && Covered(links, best, st)
    && exists s :: Has(st, s, best)
  }

  // What one delivery changes.
  lemma DeliverChanges(links: Links, st: State, m: Message)
    requires m in st.flight && m.dst < |st.held|
    ensures var st' := Deliver(links, st, m);
            var held := st.held[m.dst];
            var held' := Receive(held, m.topic.time, m.topic.text);
            && |st'.held| == |st.held| && st'.held[m.dst] == held'
            && (forall s :: 0 <= s < |st.held| && s != m.dst ==> st'.held[s] == st.held[s])
            && (forall x :: x in st.flight && x != m ==> x in st'.flight)
            && (forall x :: x in st'.flight && x !in st.flight ==>
                  held' == Some(x.topic) && x.src == m.dst && x.dst != m.src && (x.src, x.dst) in links)
            && (held' != held && held'.Some? ==>
                forall l :: l in links && l.0 == m.dst && l.1 != m.src ==> Message(l.0, l.1, held'.value) in st'.flight)
  {
    var held := st.held[m.dst];
    var held' := Receive(held, m.topic.time, m.topic.text);
    var sent := if Accepts(held, m.topic.time, m.topic.text) && held'.Some?
                then Sends(links, m.dst, Some(m.src), held'.value) else {};
    var st' := Deliver(links, st, m);
    assert st'.flight == st.flight - multiset{m} + multiset(sent);
    forall x | x in st'.flight && x !in st.flight
      ensures held' == Some(x.topic) && x.src == m.dst && x.dst != m.src && (x.src, x.dst) in links
    {
      assert x in sent;
    }
    if held' != held && held'.Some? {
      forall l | l in links && l.0 == m.dst && l.1 != m.src
        ensures Message(l.0, l.1, held'.value) in st'.flight
      {
        assert Message(l.0, l.1, held'.value) in sent;
      }
    }
  }

  // The receiver of a line that fits: it keeps the best topic, and takes it when offered.
  lemma ReceiveFits(best: Topic, held: Option<Topic>, t: Topic)
    requires Fits(best, t) && (held.Some? ==> Fits(best, held.value))
    ensures var held' := Receive(held, t.time, t.text);
            && (held' == held || held' == Some(t))
            && (held == Some(best) || t == best ==> held' == Some(best))
  {}

  lemma DeliverKeepsLines(links: Links, best: Topic, st: State, m: Message)
    requires IsNetwork(links, |st.held|) && Inv(links, best, st) && m in st.flight
    ensures m.dst < |st.held|
    ensures var st' := Deliver(links, st, m); AllFit(best, st') && OnLinks(links, st')
  {
    assert (m.src, m.dst) in links;
    DeliverChanges(links, st, m);
    ReceiveFits(best, st.held[m.dst], m.topic);
    hide Deliver, Receive, Accepts, Fits, Covered, Sourced, Has;
  }

  lemma DeliverKeepsHolders(links: Links, best: Topic, st: State, m: Message)
    requires IsNetwork(links, |st.held|) && Inv(links, best, st) && m in st.flight
    ensures m.dst < |st.held|
    ensures var st' := Deliver(links, st, m);
            Sourced(best, st') && forall s :: Has(st, s, best) ==> Has(st', s, best)
  {
    assert (m.src, m.dst) in links;
    DeliverChanges(links, st, m);
    ReceiveFits(best, st.held[m.dst], m.topic);
    hide Deliver, Receive, Accepts, Fits, Covered;
  }

  lemma DeliverKeepsCovered(links: Links, best: Topic, st: State, m: Message)
    requires IsNetwork(links, |st.held|) && Inv(links, best, st) && m in st.flight
    ensures m.dst < |st.held| && Covered(links, best, Deliver(links, st, m))
  {
    assert (m.src, m.dst) in links;
    DeliverChanges(links, st, m);
    ReceiveFits(best, st.held[m.dst], m.topic);
    DeliverKeepsHolders(links, best, st, m);
    var st' := Deliver(links, st, m);
    hide Deliver, Receive, Accepts, Fits, OnLinks;
    forall l | l in links && Has(st', l.0, best)
      ensures Has(st', l.1, best) || Message(l.0, l.1, best) in st'.flight
    {
      if Has(st, l.0, best) {
        if !Has(st, l.1, best) && Message(l.0, l.1, best) == m {
          assert Has(st', l.1, best);
        }
      } else {
        assert l.0 == m.dst;
      }
    }
  }

  lemma DeliverKeepsInv(links: Links, best: Topic, st: State, m: Message)
    requires IsNetwork(links, |st.held|) && Inv(links, best, st) && m in st.flight
    ensures m.dst < |st.held| && Inv(links, best, Deliver(links, st, m))
  {
    DeliverKeepsLines(links, best, st, m);
    DeliverKeepsHolders(links, best, st, m);
    DeliverKeepsCovered(links, best, st, m);
    hide Deliver, AllFit, OnLinks, Sourced, Covered, Has;
  }

  lemma {:induction false} RunKeepsInv(links: Links, best: Topic, st: State, run: seq<Message>)
    requires IsNetwork(links, |st.held|) && Inv(links, best, st) && IsRun(links, st, run)
    ensures |After(links, st, run).held| == |st.held| && Inv(links, best, After(links, st, run))
    decreases run
  {
    if run != [] {
      DeliverKeepsInv(links, best, st, run[0]);
      DeliverChanges(links, st, run[0]);
      hide Deliver, Inv, IsNetwork;
      RunKeepsInv(links, best, Deliver(links, st, run[0]), run[1..]);
    }
  }

  lemma QuietAgrees(links: Links, best: Topic, st: State)
    requires IsNetwork(links, |st.held|) && Connected(links, |st.held|)
    requires Inv(links, best, st) && Quiet(st)
    ensures forall s :: 0 <= s < |st.held| ==> st.held[s] == Some(best)
  {
    var group := set s: nat | s < |st.held| && Has(st, s, best);
    var one :| Has(st, one, best);
    assert one in group;
    if s: nat :| s < |st.held| && s !in group {
      assert Divides(group, |st.held|);
    }
    forall s: nat | s < |st.held|
      ensures st.held[s] == Some(best)
    {
      assert s in group;
    }
  }

  // The oldest topic held at the start, when its time and its text each determine the other.
  ghost predicate IsBest(best: Topic, st: State) {
    && (exists s :: Has(st, s, best))
    && (forall s :: 0 <= s < |st.held| && st.held[s].Some? ==> Fits(best, st.held[s].value))
  }

  lemma InitialInv(links: Links, best: Topic, st: State)
    requires IsNetwork(links, |st.held|) && Initial(links, st) && IsBest(best, st)
    ensures Inv(links, best, st)
  {
    var sent := FirstSends(links, st.held);
    assert forall m :: m in st.flight <==> m in sent;
    hide Fits;
    forall l | l in links && Has(st, l.0, best)
      ensures Message(l.0, l.1, best) in st.flight
    {
      assert Message(l.0, l.1, best) in sent;
    }
  }

  // Whatever order the lines arrive in, once none is in flight every server holds the oldest topic.
  lemma BurstConverges(links: Links, best: Topic, init: State, run: seq<Message>)
    requires IsNetwork(links, |init.held|) && Connected(links, |init.held|)
    requires Initial(links, init) && IsBest(best, init)
    requires IsRun(links, init, run) && Quiet(After(links, init, run))
    ensures var end := After(links, init, run);
            |end.held| == |init.held| && forall s :: 0 <= s < |end.held| ==> end.held[s] == Some(best)
  {
    InitialInv(links, best, init);
    RunKeepsInv(links, best, init, run);
    QuietAgrees(links, best, After(links, init, run));
  }

  lemma {:induction false} RunAppend(links: Links, st: State, run: seq<Message>, m: Message)
    requires IsRun(links, st, run)
    ensures IsRun(links, st, run + [m]) <==> var end := After(links, st, run); m in end.flight && m.dst < |end.held|
    decreases run
  {
    if run == [] {
      assert [] + [m] == [m] && [m][1..] == [];
      if m in st.flight && m.dst < |st.held| {
        assert IsRun(links, Deliver(links, st, m), []);
      }
    } else {
      assert (run + [m])[1..] == run[1..] + [m];
      RunAppend(links, Deliver(links, st, run[0]), run[1..], m);
    }
  }

  // A burst that has gone as far as it can leaves every server with the oldest topic.
  lemma FinishedBurstAgrees(links: Links, best: Topic, init: State, run: seq<Message>)
    requires IsNetwork(links, |init.held|) && Connected(links, |init.held|)
    requires Initial(links, init) && IsBest(best, init)
    requires IsRun(links, init, run) && forall m :: !IsRun(links, init, run + [m])
    ensures var end := After(links, init, run);
            Quiet(end) && |end.held| == |init.held| && forall s :: 0 <= s < |end.held| ==> end.held[s] == Some(best)
  {
    InitialInv(links, best, init);
    RunKeepsInv(links, best, init, run);
    var end := After(links, init, run);
    if m :| m in end.flight {
      assert (m.src, m.dst) in links;
      RunAppend(links, init, run, m);
    }
    assert end.flight == multiset{};
    QuietAgrees(links, best, end);
  }

  // -------- termination

  // How far a server's topic is from the oldest one around.
  function Rank(held: Option<Topic>, oldest: int, newest: int): int {
    if held.None? then newest - oldest + 1 else held.value.time - oldest
  }

  function RankSum(held: seq<Option<Topic>>, oldest: int, newest: int): int {
    if held == [] then 0
    else RankSum(held[..|held| - 1], oldest, newest) + Rank(held[|held| - 1], oldest, newest)
  }

  // All topics around were set between the two times.
  ghost predicate Between(oldest: int, newest: int, st: State) {
    && oldest <= newest
    && (forall s :: 0 <= s < |st.held| && st.held[s].Some? ==> oldest <= st.held[s].value.time <= newest)
    && (forall m :: m in st.flight ==> oldest <= m.topic.time <= newest && Stored(m.topic))
  }

  ghost function Measure(st: State, oldest: int, newest: int): int {
    RankSum(st.held, oldest, newest) * |st.held| + |st.flight|
  }

  lemma {:induction false} RankSumUpdate(held: seq<Option<Topic>>, s: nat, h: Option<Topic>, oldest: int, newest: int)
    requires s < |held|
    ensures RankSum(held[s := h], oldest, newest)
            == RankSum(held, oldest, newest) - Rank(held[s], oldest, newest) + Rank(h, oldest, newest)
  {
    var last := |held| - 1;
    if s == last {
      assert held[s := h][..last] == held[..last];
    } else {
      assert held[s := h][..last] == held[..last][s := h];
      RankSumUpdate(held[..last], s, h, oldest, newest);
    }
  }

  lemma {:induction false} RankSumIsNatural(held: seq<Option<Topic>>, oldest: int, newest: int)
    requires oldest <= newest
    requires forall s :: 0 <= s < |held| && held[s].Some? ==> oldest <= held[s].value.time
    ensures RankSum(held, oldest, newest) >= 0
  {
    if held != [] {
      var front := held[..|held| - 1];
      assert forall s :: 0 <= s < |front| ==> front[s] == held[s];
      RankSumIsNatural(front, oldest, newest);
    }
  }

  lemma SendsAreFew(links: Links, n: nat, src: nat, except: Option<nat>, t: Topic)
    requires IsNetwork(links, n)
    ensures |Sends(links, src, except, t)| <= n
  {
    var dsts := set m | m in Sends(links, src, except, t) :: m.dst;
    Subset(dsts, Below(n));
    SameSize(Sends(links, src, except, t), src, t);
  }

  ghost function Below(n: nat): (s: set<nat>)
    ensures |s| == n && forall i: nat :: i in s <==> i < n
  {
    if n == 0 then {} else Below(n - 1) + {n - 1}
  }

  lemma {:induction false} Subset(a: set<nat>, b: set<nat>)
    requires a <= b
    ensures |a| <= |b|
  {
    if a != {} {
      var x :| x in a;
      Subset(a - {x}, b - {x});
    }
  }

  lemma {:induction false} SameSize(sends: set<Message>, src: nat, t: Topic)
    requires forall m :: m in sends ==> m.src == src && m.topic == t
    ensures |sends| == |set m | m in sends :: m.dst|
    decreases sends
  {
    var dsts := set m | m in sends :: m.dst;
    if sends != {} {
      var m :| m in sends;
      var rest := sends - {m};
      SameSize(rest, src, t);
      assert dsts == (set x | x in rest :: x.dst) + {m.dst};
      assert m.dst !in set x | x in rest :: x.dst;
    }
  }

  // Every delivery makes the measure smaller, although accepting a topic creates new lines.
  lemma DeliverDecreases(links: Links, st: State, m: Message, oldest: int, newest: int)
    requires IsNetwork(links, |st.held|) && Between(oldest, newest, st) && m in st.flight && m.dst < |st.held|
    ensures Measure(Deliver(links, st, m), oldest, newest) < Measure(st, oldest, newest)
    ensures Between(oldest, newest, Deliver(links, st, m))
  {
    var st' := Deliver(links, st, m);
    var held := st.held[m.dst];
    var held' := Receive(held, m.topic.time, m.topic.text);
    DeliverChanges(links, st, m);
    RankSumUpdate(st.held, m.dst, held', oldest, newest);
    if Accepts(held, m.topic.time, m.topic.text) {
      SendsAreFew(links, |st.held|, m.dst, Some(m.src), m.topic);
      assert held' == Some(m.topic);
      assert Rank(held', oldest, newest) <= Rank(held, oldest, newest) - 1;
      Times(RankSum(st'.held, oldest, newest), RankSum(st.held, oldest, newest), |st.held|);
    } else {
      assert st'.held == st.held;
    }
  }

  lemma Times(a: int, b: int, n: nat)
    requires a <= b - 1
    ensures a * n <= b * n - n
  {
    var d := (b - 1) - a;
    assert d * n >= 0;
    assert (a + d) * n == a * n + d * n;
    assert (b - 1) * n == b * n - n;
  }

  // No run is longer than the measure of its first state, so the burst ends whatever is delivered
  // when.
  lemma {:induction false} BurstTerminates(links: Links, st: State, run: seq<Message>, oldest: int, newest: int)
    requires IsNetwork(links, |st.held|) && Between(oldest, newest, st) && IsRun(links, st, run)
    ensures |run| <= Measure(st, oldest, newest)
    decreases run
  {
    if run == [] {
      RankSumIsNatural(st.held, oldest, newest);
      assert RankSum(st.held, oldest, newest) * |st.held| >= 0;
    } else {
      DeliverDecreases(links, st, run[0], oldest, newest);
      BurstTerminates(links, Deliver(links, st, run[0]), run[1..], oldest, newest);
    }
  }

  lemma {:induction false} TimesAreBounded(held: seq<Option<Topic>>) returns (oldest: int, newest: int)
    ensures oldest <= newest
    ensures forall s :: 0 <= s < |held| && held[s].Some? ==> oldest <= held[s].value.time <= newest
  {
    if held == [] {
      oldest, newest := 0, 0;
    } else {
      oldest, newest := TimesAreBounded(held[1..]);
      assert forall s :: 1 <= s < |held| ==> held[s] == held[1..][s - 1];
      if held[0].Some? {
        var time := held[0].value.time;
        oldest, newest := if time < oldest then time else oldest, if time > newest then time else newest;
      }
    }
  }

  lemma InitialIsBetween(links: Links, init: State, oldest: int, newest: int)
    requires Initial(links, init) && oldest <= newest
    requires forall s :: 0 <= s < |init.held| && init.held[s].Some? ==> oldest <= init.held[s].value.time <= newest
    ensures Between(oldest, newest, init)
  {
    assert forall m :: m in init.flight ==> m in FirstSends(links, init.held);
  }

  // Every burst ends: its runs have a common bound.
  lemma BurstIsFinite(links: Links, init: State) returns (bound: int)
    requires IsNetwork(links, |init.held|) && Initial(links, init)
    ensures forall run :: IsRun(links, init, run) ==> |run| <= bound
  {
    var oldest, newest := TimesAreBounded(init.held);
    InitialIsBetween(links, init, oldest, newest);
    bound := Measure(init, oldest, newest);
    hide Deliver, Measure, Between, Initial, IsNetwork;
    forall run | IsRun(links, init, run)
      ensures |run| <= bound
    {
      BurstTerminates(links, init, run, oldest, newest);
    }
  }
}
