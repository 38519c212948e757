/**
 The accept lists of modules/m_accept.c and src/client.c: whom each client takes messages from, and
 the back pointers that let an exiting client be taken off every list.
 */
module AcceptLists {
  import opened Options
  import opened Sequences

  type Id = nat

  // Each client's allow_list and on_allow_list, newest first.
  datatype Lists = Lists(allow: map<Id, seq<Id>>, on: map<Id, seq<Id>>)

  // -------- lists of clients

  function Removed(s: seq<Id>, x: Id): (r: seq<Id>)
    ensures |r| <= |s| && forall y :: y in r <==> y in s && y != x
  {
    if s == [] then [] else (if s[0] == x then [] else [s[0]]) + Removed(s[1..], x)
  }

  lemma NoDuplicatesCons(x: Id, s: seq<Id>)
    requires NoDuplicates(s) && x !in s
    ensures NoDuplicates([x] + s)
  {}

  lemma NoDuplicatesTail(s: seq<Id>)
    requires NoDuplicates(s) && s != []
    ensures NoDuplicates(s[1..]) && s[0] !in s[1..]
  {}

  lemma {:induction false} RemovedHasNoDuplicates(s: seq<Id>, x: Id)
    requires NoDuplicates(s)
    ensures NoDuplicates(Removed(s, x))
  {
    if s != [] {
      NoDuplicatesTail(s);
      hide NoDuplicates;
      RemovedHasNoDuplicates(s[1..], x);
      var rest := Removed(s[1..], x);
      assert [] + rest == rest;
      if s[0] != x {
        NoDuplicatesCons(s[0], rest);
      }
    }
  }

  lemma {:induction false} RemovedAbsent(s: seq<Id>, x: Id)
    requires x !in s
    ensures Removed(s, x) == s
  {
    if s != [] {
      RemovedAbsent(s[1..], x);
    }
  }

  // -------- the operations, on the lists of all clients

  // A client without an entry has an empty list.
  function Of(m: map<Id, seq<Id>>, c: Id): seq<Id> { if c in m then m[c] else [] }

  // accept_message: the source is on the target's list, or the target's soft caller id lets it in.
  predicate Accepts(l: Lists, soft: (Id, Id) -> bool, source: Id, target: Id) {
    source in Of(l.allow, target) || soft(source, target)
  }

  function Add(l: Lists, source: Id, target: Id): Lists {
    Lists(l.allow[source := [target] + Of(l.allow, source)], l.on[target := [source] + Of(l.on, target)])
  }

  function Drop(l: Lists, source: Id, target: Id): Lists {
    if source in Of(l.allow, target)
    then Lists(l.allow[target := Removed(Of(l.allow, target), source)],
               l.on[source := Removed(Of(l.on, source), target)])
    else l
  }

  // -------- the invariant

  ghost predicate Distinct(l: Lists) { forall c :: NoDuplicates(Of(l.allow, c)) && NoDuplicates(Of(l.on, c)) }

  ghost predicate Symmetric(l: Lists) { forall a, b :: b in Of(l.allow, a) <==> a in Of(l.on, b) }

  ghost predicate Bounded(l: Lists, max: nat) { forall c :: |Of(l.allow, c)| <= max }

  // Both lists are free of duplicates and mirror each other.
  ghost predicate Sound(l: Lists) { Distinct(l) && Symmetric(l) }

  ghost predicate Inv(l: Lists, max: nat) { Sound(l) && Bounded(l, max) }

  lemma AddIsSymmetric(l: Lists, source: Id, target: Id)
    requires Symmetric(l)
    ensures Symmetric(Add(l, source, target))
  {
    var l' := Add(l, source, target);
    forall a, b
      ensures b in Of(l'.allow, a) <==> a in Of(l'.on, b)
    {
      assert b in Of(l.allow, a) <==> a in Of(l.on, b);
    }
  }

  lemma AddKeepsInv(l: Lists, source: Id, target: Id, max: nat)
    requires Inv(l, max) && target !in Of(l.allow, source) && |Of(l.allow, source)| < max
    ensures Inv(Add(l, source, target), max)
  {
    AddIsSymmetric(l, source, target);
    assert source !in Of(l.on, target);
    NoDuplicatesCons(target, Of(l.allow, source));
    NoDuplicatesCons(source, Of(l.on, target));
    hide NoDuplicates, Symmetric;
    ListsAfterAdd(l, source, target);
    hide Add, Of;
  }

  lemma ListsAfterAdd(l: Lists, source: Id, target: Id)
    ensures var l' := Add(l, source, target);
            && (forall c :: Of(l'.allow, c) == if c == source then [target] + Of(l.allow, c) else Of(l.allow, c))
            && (forall c :: Of(l'.on, c) == if c == target then [source] + Of(l.on, c) else Of(l.on, c))
  {}

  lemma ListsAfterDrop(l: Lists, source: Id, target: Id)
    requires source in Of(l.allow, target)
    ensures var l' := Drop(l, source, target);
            && (forall c :: Of(l'.allow, c) == if c == target then Removed(Of(l.allow, c), source) else Of(l.allow, c))
            && (forall c :: Of(l'.on, c) == if c == source then Removed(Of(l.on, c), target) else Of(l.on, c))
  {}

  lemma DropIsSymmetric(l: Lists, source: Id, target: Id)
    requires Symmetric(l)
    ensures Symmetric(Drop(l, source, target))
  {
    hide Removed;
    var l' := Drop(l, source, target);
    forall a, b
      ensures b in Of(l'.allow, a) <==> a in Of(l'.on, b)
    {
      assert b in Of(l.allow, a) <==> a in Of(l.on, b);
    }
  }

  lemma DropKeepsInv(l: Lists, source: Id, target: Id, max: nat)
    requires Inv(l, max)
    ensures Inv(Drop(l, source, target), max)
  {
    DropIsSound(l, source, target);
    hide Sound;
    if source in Of(l.allow, target) {
      ListsAfterDrop(l, source, target);
      hide Drop, Of;
    }
  }

  lemma DropIsSound(l: Lists, source: Id, target: Id)
    requires Sound(l)
    ensures Sound(Drop(l, source, target))
  {
    DropIsSymmetric(l, source, target);
    RemovedHasNoDuplicates(Of(l.allow, target), source);
    RemovedHasNoDuplicates(Of(l.on, source), target);
    hide NoDuplicates, Symmetric;
    if source in Of(l.allow, target) {
      ListsAfterDrop(l, source, target);
      hide Drop, Of;
    }
  }

  // -------- the ACCEPT command

  predicate IsRemoval(nick: string) { nick != "" && nick[0] == '-' }

  // build_nicklist: the clients the command adds, or those it removes. `find` is what find_client
  // answers for registered users.
  function Targets(nicks: seq<string>, find: string -> Option<Id>, removals: bool): seq<Id> {
    if nicks == [] then []
    else
      var name := if IsRemoval(nicks[0]) then nicks[0][1..] else nicks[0];
      (if IsRemoval(nicks[0]) == removals && find(name).Some? then [find(name).value] else [])
      + Targets(nicks[1..], find, removals)
  }

  method BuildNicklist(nicks: seq<string>, find: string -> Option<Id>) returns (added: seq<Id>, gone: seq<Id>)
    ensures added == Targets(nicks, find, false) && gone == Targets(nicks, find, true)
  {
    added, gone := [], [];
    for i := 0 to |nicks|
      invariant added + Targets(nicks[i..], find, false) == Targets(nicks, find, false)
      invariant gone + Targets(nicks[i..], find, true) == Targets(nicks, find, true)
    {
      assert nicks[i..][1..] == nicks[i + 1..];
      ghost var addLater, goneLater := Targets(nicks[i + 1..], find, false), Targets(nicks[i + 1..], find, true);
      var name := if IsRemoval(nicks[i]) then nicks[i][1..] else nicks[i];
      var target := find(name);
      assert [] + addLater == addLater && [] + goneLater == goneLater;
      if target.Some? {
        if IsRemoval(nicks[i]) {
          Regroup(gone, [target.value], goneLater);
          gone := gone + [target.value];
        } else {
          Regroup(added, [target.value], addLater);
          added := added + [target.value];
        }
      }
    }
    assert nicks[|nicks|..] == [];
  }

  function DropListed(l: Lists, source: Id, gone: seq<Id>): Lists
    decreases |gone|
  {
    if gone == [] then l else DropListed(Drop(l, gone[0], source), source, gone[1..])
  }

  // `num` counts the names passed as well as the entries there are.
  function AddListed(l: Lists, source: Id, added: seq<Id>, num: nat, max: nat, soft: (Id, Id) -> bool): Lists
    decreases |added|
  {
    if added == [] then l
    else if Accepts(l, soft, added[0], source) then AddListed(l, source, added[1..], num + 1, max, soft)
    else if num >= max then l
    else AddListed(Add(l, source, added[0]), source, added[1..], num + 1, max, soft)
  }

  function Accept(l: Lists, source: Id, gone: seq<Id>, added: seq<Id>, max: nat, soft: (Id, Id) -> bool): Lists {
    var l1 := DropListed(l, source, gone);
    AddListed(l1, source, added, |Of(l1.allow, source)|, max, soft)
  }

  lemma {:induction false} DropListedKeepsInv(l: Lists, source: Id, gone: seq<Id>, max: nat)
    requires Inv(l, max)
    ensures Inv(DropListed(l, source, gone), max)
    decreases |gone|
  {
    hide Inv, Drop;
    if gone != [] {
      DropKeepsInv(l, gone[0], source, max);
      DropListedKeepsInv(Drop(l, gone[0], source), source, gone[1..], max);
    }
  }

  lemma AddsOne(l: Lists, source: Id, target: Id)
    ensures |Of(Add(l, source, target).allow, source)| == |Of(l.allow, source)| + 1
  {}

  lemma {:induction false} AddListedKeepsInv(l: Lists, source: Id, added: seq<Id>, num: nat, max: nat,
                                             soft: (Id, Id) -> bool)
    requires Inv(l, max) && num >= |Of(l.allow, source)|
    ensures Inv(AddListed(l, source, added, num, max, soft), max)
    decreases |added|
  {
    hide Inv, Add;
    if added != [] {
      AddsOne(l, source, added[0]);
      if Accepts(l, soft, added[0], source) {
        AddListedKeepsInv(l, source, added[1..], num + 1, max, soft);
      } else if num < max {
        AddKeepsInv(l, source, added[0], max);
        AddListedKeepsInv(Add(l, source, added[0]), source, added[1..], num + 1, max, soft);
      }
    }
  }

  lemma AcceptKeepsInv(l: Lists, source: Id, gone: seq<Id>, added: seq<Id>, max: nat, soft: (Id, Id) -> bool)
    requires Inv(l, max)
    ensures Inv(Accept(l, source, gone, added, max, soft), max)
  {
    hide Inv;
    DropListedKeepsInv(l, source, gone, max);
    var l1 := DropListed(l, source, gone);
    AddListedKeepsInv(l1, source, added, |Of(l1.allow, source)|, max, soft);
  }

  // -------- clients that leave

  // c is gone from every allow list, and nobody is left among c's back pointers.
  ghost predicate TheirsForgotten(l: Lists, l': Lists, c: Id) {
    && (forall y :: Of(l'.allow, y) == Removed(Of(l.allow, y), c))
    && (forall y :: Of(l'.on, y) == if y == c then [] else Of(l.on, y))
  }

  // c is gone from every list, and c's own lists are empty.
  ghost predicate Forgotten(l: Lists, l': Lists, c: Id) {
    && (forall y :: Of(l'.allow, y) == if y == c then [] else Removed(Of(l.allow, y), c))
    && (forall y :: Of(l'.on, y) == if y == c then [] else Removed(Of(l.on, y), c))
  }

  class ClientLists {
    var lists: Lists

    constructor ()
      ensures lists == Lists(map[], map[])
    {
      lists := Lists(map[], map[]);
    }

    // add_accept
    method AddAccept(source: Id, target: Id)
      modifies this
      ensures lists == Add(old(lists), source, target)
    {
      var allow := lists.allow[source := [target] + Of(lists.allow, source)];
      lists := Lists(allow, lists.on[target := [source] + Of(lists.on, target)]);
    }

    // The inner walk of del_from_accept, with its next node saved, over the source's back pointers.
    method Unlink(source: Id, target: Id)
      modifies this
      ensures lists == Lists(old(lists).allow, old(lists).on[source := Removed(Of(old(lists).on, source), target)])
    {
      var on, k := Of(lists.on, source), 0;
      ghost var all := on;
      WalkStarts(all, target);
      hide *;
      while k < |on|
        invariant lists == old(lists) && k <= |on| && Passed(all, on, k, target)
      {
        WalkTurn(all, on, k, target);
        if on[k] == target {
          on := on[..k] + on[k + 1..];
        } else {
          k := k + 1;
        }
      }
      AllPassed(all, on, target);
      lists := Lists(lists.allow, lists.on[source := on]);
    }

    // del_from_accept: the target's list is walked, and at each entry for the source the source's.
    method DelFromAccept(source: Id, target: Id)
      modifies this
      ensures lists == Drop(old(lists), source, target)
    {
      ghost var l0 := lists;
      var allow, k := Of(lists.allow, target), 0;
      WalkStarts(allow, source);
      assert Walking(l0, lists, allow, source, target);
      hide *;
      while k < |allow|
        invariant k <= |allow| && Passed(Of(l0.allow, target), allow, k, source)
        invariant Walking(l0, lists, allow, source, target)
      {
        WalkTurn(Of(l0.allow, target), allow, k, source);
        if allow[k] == source {
          WalkingTurn(l0, lists, allow, k, source, target);
          Unlink(source, target);
          allow := allow[..k] + allow[k + 1..];
          lists := Lists(lists.allow[target := allow], lists.on);
        } else {
          k := k + 1;
        }
      }
      AllPassed(Of(l0.allow, target), allow, source);
      WalkEnds(l0, lists, allow, source, target);
    }

    // m_accept with nicknames
    method MAccept(source: Id, nicks: seq<string>, find: string -> Option<Id>, soft: (Id, Id) -> bool, max: nat)
      modifies this
      ensures lists == Accept(old(lists), source, Targets(nicks, find, true), Targets(nicks, find, false), max, soft)
    {
      var added, gone := BuildNicklist(nicks, find);
      hide Targets, Drop, Add;
      ghost var dropped := DropListed(lists, source, gone);
      for i := 0 to |gone|
        invariant dropped == DropListed(lists, source, gone[i..])
      {
        assert gone[i..][1..] == gone[i + 1..];
        DropsOrNot(lists, gone[i], source);
        if Accepts(lists, soft, gone[i], source) {
          DelFromAccept(gone[i], source);
        }
      }
      var acceptNum: nat := |Of(lists.allow, source)|;
      ghost var goal := AddListed(lists, source, added, acceptNum, max, soft);
      for i := 0 to |added|
        invariant goal == AddListed(lists, source, added[i..], acceptNum, max, soft)
      {
        assert added[i..][1..] == added[i + 1..];
        if !Accepts(lists, soft, added[i], source) {
          if acceptNum >= max {
            return;
          }
          AddAccept(source, added[i]);
        }
        acceptNum := acceptNum + 1;
      }
    }

    // del_all_their_accepts: a list walked with its next node saved, of which each turn removes
    // exactly the current node.
    method DelAllTheirAccepts(c: Id)
      requires Sound(lists)
      modifies this
      ensures Sound(lists) && TheirsForgotten(old(lists), lists, c)
    {
      ghost var l0 := lists;
      var all := Of(lists.on, c);
      hide Sound, Drop, Of, Removed;
      for i := 0 to |all|
        invariant Sound(lists) && TheirsHalfway(l0, lists, c, all, i)
      {
        TheirsTurn(l0, lists, c, all, i);
        DropIsSound(lists, c, all[i]);
        DelFromAccept(c, all[i]);
      }
      TheirsDone(l0, lists, c, all);
    }

    // del_all_accepts
    method DelAllAccepts(c: Id)
      requires Sound(lists)
      modifies this
      ensures Sound(lists) && Forgotten(old(lists), lists, c)
    {
      ghost var l0 := lists;
      var all := Of(lists.allow, c);
      hide Sound, Drop, Of, Removed;
      for i := 0 to |all|
        invariant Sound(lists) && OursHalfway(l0, lists, c, all, i)
      {
        OursTurn(l0, lists, c, all, i);
        DropIsSound(lists, all[i], c);
        DelFromAccept(all[i], c);
      }
      OursDone(l0, lists, c, all);
      DelAllTheirAccepts(c);
      RemovedFromNothing(c);
    }
  }

  // A walk that takes x off the list `all` has passed the first k elements of what is left of it.
  ghost predicate Passed(all: seq<Id>, s: seq<Id>, k: nat, x: Id)
    requires k <= |s|
  {
    x !in s[..k] && s[..k] + Removed(s[k..], x) == Removed(all, x)
  }

  lemma WalkStarts(s: seq<Id>, x: Id)
    ensures Passed(s, s, 0, x)
  {
    assert s[0..] == s && s[..0] == [];
  }

  lemma WalkTurn(all: seq<Id>, s: seq<Id>, k: nat, x: Id)
    requires k < |s| && Passed(all, s, k, x)
    ensures if s[k] == x then Passed(all, s[..k] + s[k + 1..], k, x) else Passed(all, s, k + 1, x)
  {
    var rest := s[k + 1..];
    assert s[k..] == [s[k]] + rest && s[k..][1..] == rest;
    assert [] + Removed(rest, x) == Removed(rest, x);
    if s[k] == x {
      var t := s[..k] + rest;
      assert t[..k] == s[..k] && t[k..] == rest;
    } else {
      Regroup(s[..k], [s[k]], Removed(rest, x));
      assert s[..k + 1] == s[..k] + [s[k]];
    }
  }

  lemma AllPassed(all: seq<Id>, s: seq<Id>, x: Id)
    requires Passed(all, s, |s|, x)
    ensures s == Removed(all, x) && x !in s
  {
    assert s[|s|..] == [] && s[..|s|] == s && s + [] == s;
  }

  // Until the source is met nothing has changed; from then on the back pointers are as they will be.
  ghost predicate Walking(l0: Lists, l: Lists, allow: seq<Id>, source: Id, target: Id) {
    if |allow| == |Of(l0.allow, target)| then l == l0 && allow == Of(l0.allow, target)
    else
      && source in Of(l0.allow, target) && |allow| < |Of(l0.allow, target)|
      && l == Lists(l0.allow[target := allow], l0.on[source := Removed(Of(l0.on, source), target)])
  }

  lemma WalkingTurn(l0: Lists, l: Lists, allow: seq<Id>, k: nat, source: Id, target: Id)
    requires Walking(l0, l, allow, source, target) && k < |allow| && allow[k] == source
    ensures var shorter := allow[..k] + allow[k + 1..];
            Walking(l0, Lists(l.allow[target := shorter], l.on[source := Removed(Of(l.on, source), target)]),
                    shorter, source, target)
  {
    RemovedAbsent(Removed(Of(l0.on, source), target), target);
    assert l.allow[target := allow[..k] + allow[k + 1..]] == l0.allow[target := allow[..k] + allow[k + 1..]];
  }

  lemma WalkEnds(l0: Lists, l: Lists, allow: seq<Id>, source: Id, target: Id)
    requires Walking(l0, l, allow, source, target) && allow == Removed(Of(l0.allow, target), source)
    requires source !in allow
    ensures l == Drop(l0, source, target)
  {}

  lemma RemovedFromNothing(c: Id)
    ensures Removed([], c) == []
  {}

  lemma RemovedHead(s: seq<Id>, i: nat)
    requires NoDuplicates(s) && i < |s|
    ensures Removed(s[i..], s[i]) == s[i + 1..] && s[i] !in s[..i]
  {
    var rest := s[i..];
    assert rest[1..] == s[i + 1..];
    RemovedAbsent(s[i + 1..], s[i]);
    assert [] + s[i + 1..] == s[i + 1..];
  }

  lemma OneMore(s: seq<Id>, i: nat)
    requires i < |s|
    ensures forall y :: y in s[..i + 1] <==> y in s[..i] || y == s[i]
  {}

  // The first i clients of c's back pointers have dropped c.
  ghost predicate TheirsHalfway(l0: Lists, l: Lists, c: Id, all: seq<Id>, i: nat) {
    && i <= |all| && all == Of(l0.on, c) && Sound(l0)
    && (forall y :: Of(l.allow, y) == if y in all[..i] then Removed(Of(l0.allow, y), c) else Of(l0.allow, y))
    && (forall y :: Of(l.on, y) == if y == c then all[i..] else Of(l0.on, y))
  }

  lemma TheirsTurn(l0: Lists, l: Lists, c: Id, all: seq<Id>, i: nat)
    requires TheirsHalfway(l0, l, c, all, i) && i < |all|
    ensures TheirsHalfway(l0, Drop(l, c, all[i]), c, all, i + 1)
  {
    var t := all[i];
    RemovedHead(all, i);
    assert t in Of(l0.on, c) && c in Of(l0.allow, t);
    hide Sound, Removed;
    OneMore(all, i);
    assert Of(l.allow, t) == Of(l0.allow, t);
    ListsAfterDrop(l, c, t);
    hide Drop, Of;
  }

  lemma TheirsDone(l0: Lists, l: Lists, c: Id, all: seq<Id>)
    requires TheirsHalfway(l0, l, c, all, |all|)
    ensures TheirsForgotten(l0, l, c)
  {
    assert all[..|all|] == all;
    hide NoDuplicates;
    forall y
      ensures Of(l.allow, y) == Removed(Of(l0.allow, y), c)
    {
      if y !in all {
        assert c !in Of(l0.allow, y);
        RemovedAbsent(Of(l0.allow, y), c);
      }
    }
  }

  // The first i clients of c's allow list are gone from it, and c from their back pointers.
  ghost predicate OursHalfway(l0: Lists, l: Lists, c: Id, all: seq<Id>, i: nat) {
    && i <= |all| && all == Of(l0.allow, c) && Sound(l0)
    && (forall y :: Of(l.on, y) == if y in all[..i] then Removed(Of(l0.on, y), c) else Of(l0.on, y))
    && (forall y :: Of(l.allow, y) == if y == c then all[i..] else Of(l0.allow, y))
  }

  lemma OursTurn(l0: Lists, l: Lists, c: Id, all: seq<Id>, i: nat)
    requires OursHalfway(l0, l, c, all, i) && i < |all|
    ensures OursHalfway(l0, Drop(l, all[i], c), c, all, i + 1)
  {
    var t := all[i];
    RemovedHead(all, i);
    assert t in all[i..];
    hide Sound, Removed;
    OneMore(all, i);
    ListsAfterDrop(l, t, c);
    hide Drop, Of;
  }

  lemma OursDone(l0: Lists, l: Lists, c: Id, all: seq<Id>)
    requires OursHalfway(l0, l, c, all, |all|)
    ensures forall y :: Of(l.allow, y) == if y == c then [] else Of(l0.allow, y)
    ensures forall y :: Of(l.on, y) == Removed(Of(l0.on, y), c)
  {
    assert all[..|all|] == all;
    hide NoDuplicates;
    forall y
      ensures Of(l.on, y) == Removed(Of(l0.on, y), c)
    {
      if y !in all {
        assert c !in Of(l0.on, y);
        RemovedAbsent(Of(l0.on, y), c);
      }
    }
  }

  lemma DropsOrNot(l: Lists, source: Id, target: Id)
    ensures source !in Of(l.allow, target) ==> Drop(l, source, target) == l
  {}

  // -------- whole runs

  // A client gives an ACCEPT command, takes its first nickname, or exits.
  datatype Event =
    | Command(source: Id, nicks: seq<string>, find: string -> Option<Id>, soft: (Id, Id) -> bool)
    | Registers(who: Id)
    | Exits(who: Id)

  ghost predicate Next(l: Lists, e: Event, l': Lists, max: nat) {
    match e
    case Command(source, nicks, find, soft) =>
      l' == Accept(l, source, Targets(nicks, find, true), Targets(nicks, find, false), max, soft)
    case Registers(who) => TheirsForgotten(l, l', who)
    case Exits(who) => Forgotten(l, l', who)
  }

  ghost predicate IsRun(events: seq<Event>, states: seq<Lists>, max: nat) {
    && |states| == |events| + 1 && states[0] == Lists(map[], map[])
    && forall i :: 0 <= i < |events| ==> Next(states[i], events[i], states[i + 1], max)
  }

  lemma ForgottenKeepsInv(l: Lists, l': Lists, c: Id, max: nat, all: bool)
    requires Inv(l, max) && if all then Forgotten(l, l', c) else TheirsForgotten(l, l', c)
    ensures Inv(l', max)
  {
    forall y
      ensures NoDuplicates(Of(l'.allow, y)) && NoDuplicates(Of(l'.on, y))
    {
      RemovedHasNoDuplicates(Of(l.allow, y), c);
      RemovedHasNoDuplicates(Of(l.on, y), c);
    }
    forall a, b
      ensures b in Of(l'.allow, a) <==> a in Of(l'.on, b)
    {
      assert b in Of(l.allow, a) <==> a in Of(l.on, b);
    }
  }

  lemma NextKeepsInv(l: Lists, e: Event, l': Lists, max: nat)
    requires Inv(l, max) && Next(l, e, l', max)
    ensures Inv(l', max)
  {
    hide Inv, Forgotten, TheirsForgotten, Accept;
    match e
    case Command(source, nicks, find, soft) =>
      AcceptKeepsInv(l, source, Targets(nicks, find, true), Targets(nicks, find, false), max, soft);
    case Registers(who) => ForgottenKeepsInv(l, l', who, max, false);
    case Exits(who) => ForgottenKeepsInv(l, l', who, max, true);
  }

  // In every run, at every moment: b is on a's accept list exactly when a is among b's back pointers,
  // no list holds anyone twice, and no accept list is longer than max_accept.
  lemma {:induction false} RunKeepsInv(events: seq<Event>, states: seq<Lists>, max: nat, i: nat)
    requires IsRun(events, states, max) && i < |states|
    ensures Inv(states[i], max)
  {
    hide Next;
    if i > 0 {
      RunKeepsInv(events, states, max, i - 1);
      hide Inv;
      assert Next(states[i - 1], events[i - 1], states[i - 1 + 1], max);
      NextKeepsInv(states[i - 1], events[i - 1], states[i], max);
    }
  }

  ghost predicate Absent(l: Lists, c: Id) {
    && (forall y :: c !in Of(l.allow, y) && c !in Of(l.on, y))
    && Of(l.allow, c) == Of(l.on, c) == []
  }

  // A command given by someone else that does not find c.
  ghost predicate LeavesOut(e: Event, c: Id) {
    e.Command? ==> e.source != c && forall n :: e.find(n) != Some(c)
  }

  lemma AddKeepsAbsent(l: Lists, source: Id, target: Id, c: Id)
    requires Absent(l, c) && source != c && target != c
    ensures Absent(Add(l, source, target), c)
  {
    ListsAfterAdd(l, source, target);
    hide Add, Of;
  }

  lemma DropKeepsAbsent(l: Lists, source: Id, target: Id, c: Id)
    requires Absent(l, c)
    ensures Absent(Drop(l, source, target), c)
  {
    RemovedFromNothing(source);
    RemovedFromNothing(target);
    if source in Of(l.allow, target) {
      ListsAfterDrop(l, source, target);
      hide Drop, Of;
    }
  }

  lemma {:induction false} DropListedKeepsAbsent(l: Lists, source: Id, gone: seq<Id>, c: Id)
    requires Absent(l, c)
    ensures Absent(DropListed(l, source, gone), c)
    decreases |gone|
  {
    hide Absent, Drop;
    if gone != [] {
      DropKeepsAbsent(l, gone[0], source, c);
      DropListedKeepsAbsent(Drop(l, gone[0], source), source, gone[1..], c);
    }
  }

  lemma {:induction false} AddListedKeepsAbsent(l: Lists, source: Id, added: seq<Id>, num: nat, max: nat,
                                                soft: (Id, Id) -> bool, c: Id)
    requires Absent(l, c) && source != c && c !in added
    ensures Absent(AddListed(l, source, added, num, max, soft), c)
    decreases |added|
  {
    hide Absent, Add, Accepts;
    if added != [] {
      AddKeepsAbsent(l, source, added[0], c);
      AddListedKeepsAbsent(l, source, added[1..], num + 1, max, soft, c);
      AddListedKeepsAbsent(Add(l, source, added[0]), source, added[1..], num + 1, max, soft, c);
    }
  }

  lemma {:induction false} TargetsLeaveOut(nicks: seq<string>, find: string -> Option<Id>, removals: bool, c: Id)
    requires forall n :: find(n) != Some(c)
    ensures c !in Targets(nicks, find, removals)
  {
    if nicks != [] {
      TargetsLeaveOut(nicks[1..], find, removals, c);
    }
  }

  lemma NextKeepsAbsent(l: Lists, e: Event, l': Lists, max: nat, c: Id)
    requires Next(l, e, l', max) && Absent(l, c) && LeavesOut(e, c)
    ensures Absent(l', c)
  {
    match e
    case Command(source, nicks, find, soft) =>
      hide Absent;
      DropListedKeepsAbsent(l, source, Targets(nicks, find, true), c);
      var l1 := DropListed(l, source, Targets(nicks, find, true));
      TargetsLeaveOut(nicks, find, false, c);
      AddListedKeepsAbsent(l1, source, Targets(nicks, find, false), |Of(l1.allow, source)|, max, soft, c);
    case Registers(who) =>
      RemovedFromNothing(who);
    case Exits(who) =>
      RemovedFromNothing(who);
  }

  // Once a client has exited, no list holds a pointer to it at any later moment, as long as no
  // command finds it again.
  lemma {:induction false} ExitedStaysAbsent(events: seq<Event>, states: seq<Lists>, max: nat, i: nat, j: nat)
    requires IsRun(events, states, max) && i < j < |states| == |events| + 1 && events[i].Exits?
    requires forall k :: i < k < j ==> LeavesOut(events[k], events[i].who)
    ensures Absent(states[j], events[i].who)
  {
    if j == i + 1 {
      hide *;
      JustExited(events, states, max, i);
    } else {
      assert LeavesOut(events[j - 1], events[i].who);
      hide *;
      ExitedStaysAbsent(events, states, max, i, j - 1);
      StillAbsent(events, states, max, j - 1, events[i].who);
    }
  }

  lemma JustExited(events: seq<Event>, states: seq<Lists>, max: nat, i: nat)
    requires IsRun(events, states, max) && i < |events| && |states| == |events| + 1 && events[i].Exits?
    ensures Absent(states[i + 1], events[i].who)
  {
    hide *;
    RunKeepsInv(events, states, max, i);
    RunNext(events, states, max, i);
    ExitedIsAbsent(states[i], events[i], states[i + 1], max);
  }

  lemma StillAbsent(events: seq<Event>, states: seq<Lists>, max: nat, i: nat, c: Id)
    requires IsRun(events, states, max) && i < |events| && |states| == |events| + 1
    requires Absent(states[i], c) && LeavesOut(events[i], c)
    ensures Absent(states[i + 1], c)
  {
    hide *;
    RunNext(events, states, max, i);
    NextKeepsAbsent(states[i], events[i], states[i + 1], max, c);
  }

  lemma RunNext(events: seq<Event>, states: seq<Lists>, max: nat, i: nat)
    requires IsRun(events, states, max) && i + 1 < |states|
    ensures |states| == |events| + 1 && Next(states[i], events[i], states[i + 1], max)
  {}

  lemma ExitedIsAbsent(l: Lists, e: Event, l': Lists, max: nat)
    requires Next(l, e, l', max) && e.Exits? && Inv(l, max)
    ensures Absent(l', e.who)
  {}

  // -------- single commands

  // Adding someone and taking them off again changes nothing.
  lemma AddThenDrop(l: Lists, source: Id, target: Id, max: nat, y: Id)
    requires Inv(l, max) && target !in Of(l.allow, source)
    ensures var l' := Drop(Add(l, source, target), target, source);
            Of(l'.allow, y) == Of(l.allow, y) && Of(l'.on, y) == Of(l.on, y)
  {
    var l1 := Add(l, source, target);
    assert source !in Of(l.on, target);
    ListsAfterAdd(l, source, target);
    RemovedAbsent(Of(l.allow, source), target);
    RemovedAbsent(Of(l.on, target), source);
    RemovedFirst(target, Of(l.allow, source));
    RemovedFirst(source, Of(l.on, target));
    hide Inv, Removed, Add;
    assert target in Of(l1.allow, source);
    ListsAfterDrop(l1, target, source);
    hide Drop, Of;
  }

  lemma RemovedFirst(x: Id, s: seq<Id>)
    ensures Removed([x] + s, x) == Removed(s, x)
  {
    assert ([x] + s)[1..] == s;
    assert [] + Removed(s, x) == Removed(s, x);
  }

  // A name that is passed because it is accepted already still counts against the limit: after k of
  // them, a new name is added exactly when the list's length plus k is below it.
  lemma {:induction false} SkippedNamesCount(l: Lists, source: Id, skipped: seq<Id>, last: Id, num: nat, max: nat,
                                             soft: (Id, Id) -> bool)
    requires forall x :: x in skipped ==> Accepts(l, soft, x, source)
    requires !Accepts(l, soft, last, source)
    ensures last in Of(AddListed(l, source, skipped + [last], num, max, soft).allow, source) <==> num + |skipped| < max
    decreases |skipped|
  {
    if skipped == [] {
      assert ([] + [last])[1..] == [];
      var l1 := Add(l, source, last);
      assert last in Of(l1.allow, source);
      assert AddListed(l1, source, [], num + 1, max, soft) == l1;
    } else {
      assert (skipped + [last])[1..] == skipped[1..] + [last] && (skipped + [last])[0] == skipped[0];
      assert skipped[0] in skipped;
      hide Accepts;
      SkippedNamesCount(l, source, skipped[1..], last, num + 1, max, soft);
    }
  }
}
