/**
 The AWAY command of modules/m_away.c: the handlers for a local user, a local oper and a server, and
 the protocol they make on a tree of servers with ordered links. A server passes AWAY on only when
 the status changes, and yet all agree on the status when the network is quiet.
 */
module AwayPropagation {
  import opened CBuffer
  import opened Options

  const AWAYLEN: nat := 160

  // The new away text, and the AWAY line sent on to all servers but the one it came from. A line
  // without a text means back.
  function Handle(away: Option<string>, text: string): (Option<string>, Option<string>) {
    if text == "" then (None, if away.Some? then Some("") else None)
    else (Some(Cut(text, AWAYLEN)), if away.None? then Some(Cut(text, AWAYLEN)) else None)
  }

  // -------- the handlers

  class User {
    var away: Option<string>
    var lastAway: int

    constructor (lastAway: int)
      ensures away == None && this.lastAway == lastAway
    {
      away, this.lastAway := None, lastAway;
    }

    // m_away; an absent parameter is an empty one
    method MAway(text: string, now: int, paceWait: int) returns (sent: Option<string>)
      modifies this
      ensures if text != "" && now - old(lastAway) < paceWait
              then away == old(away) && lastAway == old(lastAway) && sent == None
              else (away, sent) == Handle(old(away), text) && lastAway == if text != "" then now else old(lastAway)
    {
      var curAwayMsg := away;
      sent := None;
      if text == "" {
        if curAwayMsg.Some? {
          sent := Some("");
          away := None;
        }
        return;
      }
      if now - lastAway < paceWait {
        return;
      }
      lastAway := now;
      var newAwayMsg := text;
      if |newAwayMsg| > AWAYLEN {
        newAwayMsg := newAwayMsg[..AWAYLEN];
      }
      if curAwayMsg.None? {
        sent := Some(newAwayMsg);
      }
      away := Some(newAwayMsg);
    }

    // mo_away, and ms_away for a source that is a user
    method MoAway(text: string) returns (sent: Option<string>)
      modifies this`away
      ensures (away, sent) == Handle(old(away), text)
    {
      var curAwayMsg := away;
      sent := None;
      if text == "" {
        if curAwayMsg.Some? {
          sent := Some("");
          away := None;
        }
        return;
      }
      var newAwayMsg := text;
      if |newAwayMsg| > AWAYLEN {
        newAwayMsg := newAwayMsg[..AWAYLEN];
      }
      if curAwayMsg.None? {
        sent := Some(newAwayMsg);
      }
      away := Some(newAwayMsg);
    }

    method MsAway(isClient: bool, text: string) returns (sent: Option<string>)
      modifies this`away
      ensures if isClient then (away, sent) == Handle(old(away), text) else away == old(away) && sent == None
    {
      if !isClient {
        return None;
      }
      sent := MoAway(text);
    }
  }

  // -------- the network, as one user's AWAY sees it

  // Server 0 is the user's own; every other server i is linked to server parent[i], nearer to it.
  ghost predicate IsTree(parent: seq<nat>) {
    |parent| > 0 && forall i :: 0 < i < |parent| ==> parent[i] < i
  }

  predicate IsChild(parent: seq<nat>, a: int, b: int) { 0 < b < |parent| && parent[b] == a }

  predicate Linked(parent: seq<nat>, a: int, b: int) { IsChild(parent, a, b) || IsChild(parent, b, a) }

  type Queues = seq<seq<seq<string>>>

  // away[s] is the user's away text on server s, queue[a][b] what a sent to b and b has not read
  // yet. `told` is what the last line of the user's own server said.
  datatype State = State(away: seq<Option<string>>, queue: Queues, told: Option<string>, lastAway: int)

  ghost predicate HasShape(parent: seq<nat>, st: State) {
    && |st.away| == |st.queue| == |parent|
    && forall a :: 0 <= a < |parent| ==> |st.queue[a]| == |parent|
  }

  // sendto_server on server s: to every linked server but `except`
  function Send(parent: seq<nat>, queue: Queues, s: nat, except: int, text: string): (q: Queues)
    requires s < |queue|
    ensures |q| == |queue|
  {
    queue[s := seq(|queue[s]|, b requires 0 <= b < |queue[s]| =>
      if Linked(parent, s, b) && b != except then queue[s][b] + [text] else queue[s][b])]
  }

  function SendIf(parent: seq<nat>, queue: Queues, s: nat, except: int, sent: Option<string>): Queues
    requires s < |queue|
  {
    if sent.Some? then Send(parent, queue, s, except, sent.value) else queue
  }

  // The user's command, or server dst reading the next line from server src.
  datatype Event = Command(text: string, now: int, oper: bool) | Deliver(src: nat, dst: nat)

  predicate Refused(st: State, e: Event, paceWait: int) {
    e.Command? && !e.oper && e.text != "" && e.now - st.lastAway < paceWait
  }

  ghost predicate CanDeliver(parent: seq<nat>, st: State, src: nat, dst: nat)
    requires HasShape(parent, st)
  {
    src < |parent| && dst < |parent| && st.queue[src][dst] != []
  }

  ghost function Step(parent: seq<nat>, paceWait: int, st: State, e: Event): State
    requires IsTree(parent) && HasShape(parent, st)
  {
    if e.Command? then
      if Refused(st, e, paceWait) then st
      else
        var (away, sent) := Handle(st.away[0], e.text);
        State(st.away[0 := away], SendIf(parent, st.queue, 0, -1, sent),
              if sent.Some? then away else st.told, if e.text != "" && !e.oper then e.now else st.lastAway)
    else if CanDeliver(parent, st, e.src, e.dst) then
      var q := st.queue[e.src][e.dst];
      var (away, sent) := Handle(st.away[e.dst], q[0]);
      var read := st.queue[e.src := st.queue[e.src][e.dst := q[1..]]];
      st.(away := st.away[e.dst := away], queue := SendIf(parent, read, e.dst, e.src, sent))
    else st
  }

  lemma StepKeepsShape(parent: seq<nat>, paceWait: int, st: State, e: Event)
    requires IsTree(parent) && HasShape(parent, st)
    ensures HasShape(parent, Step(parent, paceWait, st, e))
  {}

  ghost function Start(parent: seq<nat>): State {
    State(seq(|parent|, _ => None), seq(|parent|, _ => seq(|parent|, _ => [])), None, 0)
  }

  ghost function Run(parent: seq<nat>, paceWait: int, events: seq<Event>): (st: State)
    requires IsTree(parent)
    ensures HasShape(parent, st)
  {
    if events == [] then Start(parent)
    else
      var st := Run(parent, paceWait, events[..|events| - 1]);
      StepKeepsShape(parent, paceWait, st, events[|events| - 1]);
      Step(parent, paceWait, st, events[|events| - 1])
  }

  // -------- one link

  // Reading the lines of the queue, a server that has `away` now ends with `goal`, and each line
  // changes its status and is passed on as it is.
  ghost predicate Link(away: Option<string>, queue: seq<string>, goal: Option<string>)
    decreases |queue|
  {
    if queue == [] then away == goal
    else Handle(away, queue[0]).1 == Some(queue[0]) && Link(Handle(away, queue[0]).0, queue[1..], goal)
  }

  lemma {:induction false} LinkGrows(away: Option<string>, queue: seq<string>, goal: Option<string>, text: string)
    requires Link(away, queue, goal) && Handle(goal, text).1 == Some(text)
    ensures Link(away, queue + [text], Handle(goal, text).0)
    decreases |queue|
  {
    hide Handle;
    if queue == [] {
      assert ([] + [text])[1..] == [];
    } else {
      assert (queue + [text])[1..] == queue[1..] + [text];
      LinkGrows(Handle(away, queue[0]).0, queue[1..], goal, text);
    }
  }

  // -------- the invariant

  // What server s has last told its neighbours.
  ghost function Told(st: State, s: nat): Option<string>
    requires s < |st.away|
  {
    if s == 0 then st.told else st.away[s]
  }

  ghost predicate NothingFlowsUp(parent: seq<nat>, st: State)
    requires HasShape(parent, st)
  {
    forall a, b :: 0 <= a < |parent| && 0 <= b < |parent| && !IsChild(parent, a, b) ==> st.queue[a][b] == []
  }

  ghost predicate LinkAgrees(parent: seq<nat>, st: State, b: nat)
    requires IsTree(parent) && HasShape(parent, st) && 0 < b < |parent|
  {
    Link(st.away[b], st.queue[parent[b]][b], Told(st, parent[b]))
  }

  ghost predicate Inv(parent: seq<nat>, st: State)
    requires IsTree(parent) && HasShape(parent, st)
  {
    && NothingFlowsUp(parent, st)
    && (forall b :: 0 < b < |parent| ==> LinkAgrees(parent, st, b))
    && st.told.Some? == st.away[0].Some?
  }

  // A line that changes the status is told as it is handled.
  lemma SentIsHandled(away: Option<string>, told: Option<string>, text: string)
    requires told.Some? == away.Some? && Handle(away, text).1.Some?
    ensures var (now, sent) := Handle(away, text); Handle(told, sent.value) == (now, Some(sent.value))
  {}

  lemma CommandKeepsInv(parent: seq<nat>, paceWait: int, st: State, e: Event)
    requires IsTree(parent) && HasShape(parent, st) && Inv(parent, st) && e.Command?
    ensures var st' := Step(parent, paceWait, st, e); HasShape(parent, st') && Inv(parent, st')
  {
    var st' := Step(parent, paceWait, st, e);
    StepKeepsShape(parent, paceWait, st, e);
    var (away, sent) := Handle(st.away[0], e.text);
    if !Refused(st, e, paceWait) && sent.Some? {
      SentIsHandled(st.away[0], st.told, e.text);
      hide Link;
      forall b | 0 < b < |parent|
        ensures LinkAgrees(parent, st', b)
      {
        assert LinkAgrees(parent, st, b);
        if parent[b] == 0 {
          LinkGrows(st.away[b], st.queue[0][b], st.told, sent.value);
        }
      }
    } else {
      hide Link;
      forall b | 0 < b < |parent|
        ensures LinkAgrees(parent, st', b)
      {
        assert LinkAgrees(parent, st, b);
      }
    }
  }

  lemma DeliverKeepsInv(parent: seq<nat>, paceWait: int, st: State, e: Event)
    requires IsTree(parent) && HasShape(parent, st) && Inv(parent, st) && e.Deliver?
    ensures var st' := Step(parent, paceWait, st, e); HasShape(parent, st') && Inv(parent, st')
  {
    var st' := Step(parent, paceWait, st, e);
    StepKeepsShape(parent, paceWait, st, e);
    if CanDeliver(parent, st, e.src, e.dst) {
      var q, d := st.queue[e.src][e.dst], e.dst;
      assert IsChild(parent, e.src, d);
      assert LinkAgrees(parent, st, d);
      assert Handle(st.away[d], q[0]).1 == Some(q[0]);
      hide Link;
      forall b | 0 < b < |parent|
        ensures LinkAgrees(parent, st', b)
      {
        assert LinkAgrees(parent, st, b);
        if parent[b] == d {
          LinkGrows(st.away[b], st.queue[d][b], st.away[d], q[0]);
        } else if b == d {
        }
      }
    }
  }

  lemma StartIsQuiet(parent: seq<nat>)
    requires IsTree(parent)
    ensures HasShape(parent, Start(parent)) && Inv(parent, Start(parent))
  {}

  // Every reachable state keeps the invariant: on each link, the lines in flight bring the receiver
  // to what the sender has told, one change of status at a time, and no line ever flows up.
  lemma {:induction false} RunKeepsInv(parent: seq<nat>, paceWait: int, events: seq<Event>)
    requires IsTree(parent)
    ensures Inv(parent, Run(parent, paceWait, events))
    decreases |events|
  {
    if events == [] {
      StartIsQuiet(parent);
    } else {
      var front, last := events[..|events| - 1], events[|events| - 1];
      RunKeepsInv(parent, paceWait, front);
      var st := Run(parent, paceWait, front);
      hide Inv, Run;
      if last.Command? {
        CommandKeepsInv(parent, paceWait, st, last);
      } else {
        DeliverKeepsInv(parent, paceWait, st, last);
      }
      assert Run(parent, paceWait, events) == Step(parent, paceWait, st, last) by { RunStep(parent, paceWait, events); }
    }
  }

  lemma RunStep(parent: seq<nat>, paceWait: int, events: seq<Event>)
    requires IsTree(parent) && events != []
    ensures Run(parent, paceWait, events)
            == Step(parent, paceWait, Run(parent, paceWait, events[..|events| - 1]), events[|events| - 1])
  {}

  // -------- agreement

  ghost predicate Quiet(parent: seq<nat>, st: State)
    requires HasShape(parent, st)
  {
    forall a, b :: 0 <= a < |parent| && 0 <= b < |parent| ==> st.queue[a][b] == []
  }

  lemma {:induction false} QuietServerWasTold(parent: seq<nat>, st: State, s: nat)
    requires IsTree(parent) && HasShape(parent, st) && Inv(parent, st) && Quiet(parent, st) && s < |parent|
    ensures Told(st, s) == st.told
  {
    if s > 0 {
      assert LinkAgrees(parent, st, s);
      QuietServerWasTold(parent, st, parent[s]);
    }
  }

  // When no line is in flight, every server agrees with the user's own on whether the user is away.
  lemma AllAgreeWhenQuiet(parent: seq<nat>, paceWait: int, events: seq<Event>, s: nat)
    requires IsTree(parent) && s < |parent| && Quiet(parent, Run(parent, paceWait, events))
    ensures var st := Run(parent, paceWait, events); st.away[s].Some? == st.away[0].Some?
  {
    RunKeepsInv(parent, paceWait, events);
    QuietServerWasTold(parent, Run(parent, paceWait, events), s);
  }

  // -------- the lines

  // Every line in flight is cut to the length of an away text.
  ghost predicate LinesFit(queue: Queues) {
    forall a, b, i :: 0 <= a < |queue| && 0 <= b < |queue[a]| && 0 <= i < |queue[a][b]| ==> |queue[a][b][i]| <= 160
  }

  lemma SendFits(parent: seq<nat>, queue: Queues, s: nat, except: int, sent: Option<string>)
    requires LinesFit(queue) && s < |queue| && (sent.Some? ==> |sent.value| <= 160)
    ensures LinesFit(SendIf(parent, queue, s, except, sent))
  {
    var queue' := SendIf(parent, queue, s, except, sent);
    forall a, b, i | 0 <= a < |queue'| && 0 <= b < |queue'[a]| && 0 <= i < |queue'[a][b]|
      ensures |queue'[a][b][i]| <= 160
    {
      if a == s && i < |queue[a][b]| {
        assert queue'[a][b][i] == queue[a][b][i];
      }
    }
  }

  lemma SentFits(away: Option<string>, text: string)
    ensures var sent := Handle(away, text).1; sent.Some? ==> |sent.value| <= 160
  {}

  lemma ReadFits(queue: Queues, src: nat, dst: nat)
    requires LinesFit(queue) && src < |queue| && dst < |queue[src]| && queue[src][dst] != []
    ensures LinesFit(queue[src := queue[src][dst := queue[src][dst][1..]]])
  {}

  lemma StepFits(parent: seq<nat>, paceWait: int, st: State, e: Event)
    requires IsTree(parent) && HasShape(parent, st) && LinesFit(st.queue)
    ensures LinesFit(Step(parent, paceWait, st, e).queue)
  {
    if e.Command? {
      SentFits(st.away[0], e.text);
      hide LinesFit, Handle;
      SendFits(parent, st.queue, 0, -1, Handle(st.away[0], e.text).1);
    } else if CanDeliver(parent, st, e.src, e.dst) {
      var q := st.queue[e.src][e.dst];
      SentFits(st.away[e.dst], q[0]);
      ReadFits(st.queue, e.src, e.dst);
      hide LinesFit, Handle;
      var read := st.queue[e.src := st.queue[e.src][e.dst := q[1..]]];
      SendFits(parent, read, e.dst, e.src, Handle(st.away[e.dst], q[0]).1);
    }
  }

  lemma {:induction false} RunFits(parent: seq<nat>, paceWait: int, events: seq<Event>)
    requires IsTree(parent)
    ensures LinesFit(Run(parent, paceWait, events).queue)
    decreases |events|
  {
    if events != [] {
      RunFits(parent, paceWait, events[..|events| - 1]);
      RunStep(parent, paceWait, events);
      StepFits(parent, paceWait, Run(parent, paceWait, events[..|events| - 1]), events[|events| - 1]);
      hide Run, Step;
    }
  }

  // -------- the texts

  // The texts of the commands that were not refused, in order.
  ghost function Taken(parent: seq<nat>, paceWait: int, events: seq<Event>): seq<string>
    requires IsTree(parent)
  {
    if events == [] then []
    else
      var front, last := events[..|events| - 1], events[|events| - 1];
      Taken(parent, paceWait, front)
      + if last.Command? && !Refused(Run(parent, paceWait, front), last, paceWait) then [last.text] else []
  }

  // When the user was last marked away by a command that is paced.
  ghost function LastPaced(parent: seq<nat>, paceWait: int, events: seq<Event>): int
    requires IsTree(parent)
  {
    if events == [] then 0
    else
      var front, last := events[..|events| - 1], events[|events| - 1];
      if last.Command? && !last.oper && last.text != ""
         && |Taken(parent, paceWait, events)| > |Taken(parent, paceWait, front)|
      then last.now else LastPaced(parent, paceWait, front)
  }

  lemma {:induction false} LastAwayIs(parent: seq<nat>, paceWait: int, events: seq<Event>)
    requires IsTree(parent)
    ensures Run(parent, paceWait, events).lastAway == LastPaced(parent, paceWait, events)
    decreases |events|
  {
    if events != [] {
      LastAwayIs(parent, paceWait, events[..|events| - 1]);
      RunStep(parent, paceWait, events);
      hide Run;
    }
  }

  // A command is refused exactly when someone who is no oper wants to be away again too soon.
  lemma TakenExactly(parent: seq<nat>, paceWait: int, events: seq<Event>, e: Event)
    requires IsTree(parent) && e.Command?
    ensures Taken(parent, paceWait, events + [e])
            == Taken(parent, paceWait, events)
               + if e.oper || e.text == "" || e.now - LastPaced(parent, paceWait, events) >= paceWait
                 then [e.text] else []
  {
    assert (events + [e])[..|events|] == events;
    LastAwayIs(parent, paceWait, events);
    hide Run, LastPaced;
  }

  // What the last of the commands, and the first of the present absence, set.
  function LastText(texts: seq<string>): Option<string> {
    if texts == [] || texts[|texts| - 1] == "" then None else Some(Cut(texts[|texts| - 1], AWAYLEN))
  }

  function FirstText(texts: seq<string>): Option<string> {
    if texts == [] || texts[|texts| - 1] == "" then None
    else if FirstText(texts[..|texts| - 1]).Some? then FirstText(texts[..|texts| - 1])
    else Some(Cut(texts[|texts| - 1], AWAYLEN))
  }

  // The user's own server shows the last text, and has told the first one.
  lemma {:induction false} HomeTexts(parent: seq<nat>, paceWait: int, events: seq<Event>)
    requires IsTree(parent)
    ensures var st, texts := Run(parent, paceWait, events), Taken(parent, paceWait, events);
            st.away[0] == LastText(texts) && st.told == FirstText(texts)
    decreases |events|
  {
    if events != [] {
      var front, last := events[..|events| - 1], events[|events| - 1];
      HomeTexts(parent, paceWait, front);
      RunKeepsInv(parent, paceWait, front);
      RunStep(parent, paceWait, events);
      var st, texts := Run(parent, paceWait, front), Taken(parent, paceWait, front);
      hide Run, LinkAgrees;
      if last.Command? && !Refused(st, last, paceWait) {
        assert (texts + [last.text])[..|texts|] == texts;
      } else {
        assert texts + [] == texts;
        if last.Deliver? && CanDeliver(parent, st, last.src, last.dst) {
          assert IsChild(parent, last.src, last.dst);
        }
      }
    }
  }

  // When the network is quiet, all other servers show the first text of the present absence, so the
  // texts agree everywhere exactly when the last one is still the first.
  lemma TextsAgreeExactly(parent: seq<nat>, paceWait: int, events: seq<Event>)
    requires IsTree(parent) && |parent| > 1 && Quiet(parent, Run(parent, paceWait, events))
    ensures var st, texts := Run(parent, paceWait, events), Taken(parent, paceWait, events);
            && (forall s :: 0 < s < |parent| ==> st.away[s] == FirstText(texts))
            && ((forall s :: 0 <= s < |parent| ==> st.away[s] == st.away[0]) <==> LastText(texts) == FirstText(texts))
  {
    RunKeepsInv(parent, paceWait, events);
    HomeTexts(parent, paceWait, events);
    var st := Run(parent, paceWait, events);
    hide Run, Taken, LastText, FirstText;
    forall s | 0 < s < |parent|
      ensures st.away[s] == st.told
    {
      QuietServerWasTold(parent, st, s);
    }
    assert st.away[1] == st.told;
  }

  // -------- the network becomes quiet

  function Power(n: nat): nat { if n == 0 then 1 else 2 * Power(n - 1) }

  // The lines still to be read by the servers from k on, each counted with the most readings it can
  // lead to.
  ghost function Load(parent: seq<nat>, st: State, k: nat): nat
    requires IsTree(parent) && HasShape(parent, st) && 0 < k <= |parent|
    decreases |parent| - k
  {
    if k == |parent| then 0
    else |st.queue[parent[k]][k]| * Power(|parent| - k) + Load(parent, st, k + 1)
  }

  lemma LoadAfter(before: nat, after: nat, p: nat)
    requires after <= before + 1
    ensures after * p <= before * p + p
  {
    assert before * p + p == (before + 1) * p;
  }

  // Reading one line adds at most one line to each queue of a server further on.
  lemma {:induction false} LoadBeyond(parent: seq<nat>, paceWait: int, st: State, e: Event, k: nat)
    requires IsTree(parent) && HasShape(parent, st) && Inv(parent, st) && e.Deliver?
        && CanDeliver(parent, st, e.src, e.dst)
    requires e.dst < k <= |parent|
    ensures var st' := Step(parent, paceWait, st, e);
            HasShape(parent, st') && Load(parent, st', k) + 1 <= Load(parent, st, k) + Power(|parent| - k + 1)
    decreases |parent| - k
  {
    StepKeepsShape(parent, paceWait, st, e);
    var st' := Step(parent, paceWait, st, e);
    if k < |parent| {
      LoadBeyond(parent, paceWait, st, e, k + 1);
      var before, after := |st.queue[parent[k]][k]|, |st'.queue[parent[k]][k]|;
      assert after <= before + 1;
      LoadAfter(before, after, Power(|parent| - k));
    }
  }

  lemma OneLess(before: nat, after: nat, p: nat)
    requires before == after + 1
    ensures before * p == after * p + p
  {}

  // How many lines wait for server k when a server has read one.
  lemma QueueAfter(parent: seq<nat>, paceWait: int, st: State, e: Event, k: nat)
    requires IsTree(parent) && HasShape(parent, st) && Inv(parent, st) && e.Deliver?
        && CanDeliver(parent, st, e.src, e.dst)
    requires 0 < k <= e.dst
    ensures var st' := Step(parent, paceWait, st, e);
            && HasShape(parent, st') && e.dst < |parent|
            && |st'.queue[parent[k]][k]| == |st.queue[parent[k]][k]| - if k == e.dst then 1 else 0
  {
    StepKeepsShape(parent, paceWait, st, e);
    assert IsChild(parent, e.src, e.dst);
    hide LinkAgrees, Handle;
  }

  lemma {:induction false} LoadDecreases(parent: seq<nat>, paceWait: int, st: State, e: Event, k: nat)
    requires IsTree(parent) && HasShape(parent, st) && Inv(parent, st) && e.Deliver?
        && CanDeliver(parent, st, e.src, e.dst)
    requires 0 < k <= e.dst
    ensures var st' := Step(parent, paceWait, st, e);
            HasShape(parent, st') && Load(parent, st', k) < Load(parent, st, k)
    decreases e.dst - k
  {
    QueueAfter(parent, paceWait, st, e, k);
    var st' := Step(parent, paceWait, st, e);
    hide Step, Inv, Power;
    var before, after := |st.queue[parent[k]][k]|, |st'.queue[parent[k]][k]|;
    if k == e.dst {
      LoadBeyond(parent, paceWait, st, e, k + 1);
      OneLess(before, after, Power(|parent| - k));
    } else {
      LoadDecreases(parent, paceWait, st, e, k + 1);
    }
  }

  // Each line read, whatever it makes a server send, lowers the load: without new commands the
  // network becomes quiet after at most that many readings.
  lemma ReadingLowersTheLoad(parent: seq<nat>, paceWait: int, events: seq<Event>, e: Event)
    requires IsTree(parent) && e.Deliver? && CanDeliver(parent, Run(parent, paceWait, events), e.src, e.dst)
    ensures Load(parent, Run(parent, paceWait, events + [e]), 1) < Load(parent, Run(parent, paceWait, events), 1)
  {
    RunKeepsInv(parent, paceWait, events);
    var st := Run(parent, paceWait, events);
    assert IsChild(parent, e.src, e.dst);
    assert (events + [e])[..|events|] == events;
    RunStep(parent, paceWait, events + [e]);
    hide Inv, Run, Step;
    LoadDecreases(parent, paceWait, st, e, 1);
  }
}
