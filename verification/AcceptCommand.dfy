/**
 What one ACCEPT command of modules/m_accept.c does to the list of the client who gives it, said from
 the names of the command: who leaves, who stays, who is new and in which order.
 */
module AcceptCommand {
  import opened AcceptLists
  import opened Options
  import opened Sequences

  // -------- the names

  // The client is found behind a minus.
  ghost predicate Behind(nicks: seq<string>, find: string -> Option<Id>, c: Id) {
    exists i :: 0 <= i < |nicks| && nicks[i] != "" && nicks[i][0] == '-' && find(nicks[i][1..]) == Some(c)
  }

  // The i-th name has no minus and a client is found for it.
  predicate IsPlain(nicks: seq<string>, find: string -> Option<Id>, i: nat) {
    i < |nicks| && (nicks[i] == "" || nicks[i][0] != '-') && find(nicks[i]).Some?
  }

  predicate PlainAt(nicks: seq<string>, find: string -> Option<Id>, i: nat, c: Id) {
    IsPlain(nicks, find, i) && find(nicks[i]) == Some(c)
  }

  // How many of the first i names are plain.
  function PlainBefore(nicks: seq<string>, find: string -> Option<Id>, i: nat): nat
    requires i <= |nicks|
    decreases i
  {
    if i == 0 then 0 else (if IsPlain(nicks, find, 0) then 1 else 0) + PlainBefore(nicks[1..], find, i - 1)
  }

  ghost predicate FirstAt(nicks: seq<string>, find: string -> Option<Id>, i: nat, c: Id) {
    PlainAt(nicks, find, i, c) && forall j: nat :: j < i ==> !PlainAt(nicks, find, j, c)
  }

  // The plain name of the client comes before the limit is reached; all plain names before it count.
  ghost predicate InTime(nicks: seq<string>, find: string -> Option<Id>, c: Id, num: nat, max: nat) {
    exists i: nat :: PlainAt(nicks, find, i, c) && num + PlainBefore(nicks, find, i) < max
  }

  // -------- the delete list

  // Those of the list that are not found behind a minus, in order.
  ghost function Staying(s: seq<Id>, nicks: seq<string>, find: string -> Option<Id>): (r: seq<Id>)
    ensures forall c :: c in r <==> c in s && !Behind(nicks, find, c)
  {
    if s == [] then []
    else (if Behind(nicks, find, s[0]) then [] else [s[0]]) + Staying(s[1..], nicks, find)
  }

  function Without(s: seq<Id>, gone: seq<Id>): seq<Id> {
    if s == [] then [] else (if s[0] in gone then [] else [s[0]]) + Without(s[1..], gone)
  }

  lemma {:induction false} WithoutRemoved(s: seq<Id>, x: Id, gone: seq<Id>)
    ensures Without(Removed(s, x), gone) == Without(s, [x] + gone)
  {
    if s != [] {
      WithoutRemoved(s[1..], x, gone);
      WithoutHead(s[0], Removed(s[1..], x), gone);
      assert [] + Removed(s[1..], x) == Removed(s[1..], x);
      assert [] + Without(s[1..], [x] + gone) == Without(s[1..], [x] + gone);
    }
  }

  lemma WithoutHead(x: Id, s: seq<Id>, gone: seq<Id>)
    ensures Without([x] + s, gone) == (if x in gone then [] else [x]) + Without(s, gone)
  {
    assert ([x] + s)[1..] == s;
  }

  lemma {:induction false} WithoutNobody(s: seq<Id>)
    ensures Without(s, []) == s
  {
    if s != [] {
      WithoutNobody(s[1..]);
    }
  }

  lemma {:induction false} DropListedIs(l: Lists, source: Id, gone: seq<Id>, y: Id)
    requires Sound(l)
    ensures Of(DropListed(l, source, gone).allow, y)
            == if y == source then Without(Of(l.allow, source), gone) else Of(l.allow, y)
    decreases |gone|
  {
    if gone == [] {
      WithoutNobody(Of(l.allow, source));
    } else {
      var x, rest := gone[0], gone[1..];
      DropIsSound(l, x, source);
      DropTakesOff(l, x, source, y);
      WithoutRemoved(Of(l.allow, source), x, rest);
      assert [x] + rest == gone;
      hide Drop, Of, Sound, Removed, Without;
      DropListedIs(Drop(l, x, source), source, rest, y);
      DropTakesOff(l, x, source, source);
    }
  }

  lemma DropTakesOff(l: Lists, x: Id, source: Id, y: Id)
    ensures Of(Drop(l, x, source).allow, y) == if y == source then Removed(Of(l.allow, y), x) else Of(l.allow, y)
  {
    if x !in Of(l.allow, source) {
      RemovedAbsent(Of(l.allow, source), x);
    }
  }

  lemma {:induction false} GoneAreBehind(nicks: seq<string>, find: string -> Option<Id>, c: Id)
    ensures c in Targets(nicks, find, true) <==> Behind(nicks, find, c)
  {
    if nicks != [] {
      GoneAreBehind(nicks[1..], find, c);
      BehindFirst(nicks, find, c);
      hide Behind;
    }
  }

  lemma BehindFirst(nicks: seq<string>, find: string -> Option<Id>, c: Id)
    requires nicks != []
    ensures Behind(nicks, find, c)
            <==> (nicks[0] != "" && nicks[0][0] == '-' && find(nicks[0][1..]) == Some(c)) || Behind(nicks[1..], find, c)
  {
    assert forall i :: 0 <= i < |nicks[1..]| ==> nicks[1..][i] == nicks[i + 1];
    if i :| 0 <= i < |nicks[1..]| && nicks[1..][i] != "" && nicks[1..][i][0] == '-'
            && find(nicks[1..][i][1..]) == Some(c) {
      assert nicks[i + 1] == nicks[1..][i];
    }
  }

  lemma {:induction false} StayingIs(s: seq<Id>, nicks: seq<string>, find: string -> Option<Id>)
    ensures Without(s, Targets(nicks, find, true)) == Staying(s, nicks, find)
  {
    hide Behind, Targets;
    if s != [] {
      GoneAreBehind(nicks, find, s[0]);
      StayingIs(s[1..], nicks, find);
    }
  }

  // -------- the add list

  // Who is added in front of `have`; `num` counts from here on.
  function News(have: seq<Id>, nicks: seq<string>, find: string -> Option<Id>, source: Id, num: nat, max: nat,
                soft: (Id, Id) -> bool): seq<Id>
    decreases |nicks|
  {
    if nicks == [] then []
    else if !IsPlain(nicks, find, 0) then News(have, nicks[1..], find, source, num, max, soft)
    else
      var c := find(nicks[0]).value;
      if c in have || soft(c, source) then News(have, nicks[1..], find, source, num + 1, max, soft)
      else if num >= max then []
      else News([c] + have, nicks[1..], find, source, num + 1, max, soft) + [c]
  }

  lemma AddPutsInFront(l: Lists, source: Id, c: Id, y: Id)
    ensures Of(Add(l, source, c).allow, y) == if y == source then [c] + Of(l.allow, y) else Of(l.allow, y)
  {}

  lemma TargetsFirst(nicks: seq<string>, find: string -> Option<Id>)
    requires nicks != []
    ensures Targets(nicks, find, false)
            == (if IsPlain(nicks, find, 0) then [find(nicks[0]).value] else []) + Targets(nicks[1..], find, false)
  {}

  lemma AddListedStep(l: Lists, source: Id, c: Id, rest: seq<Id>, num: nat, max: nat, soft: (Id, Id) -> bool)
    ensures AddListed(l, source, [c] + rest, num, max, soft)
            == if c in Of(l.allow, source) || soft(c, source) then AddListed(l, source, rest, num + 1, max, soft)
               else if num >= max then l
               else AddListed(Add(l, source, c), source, rest, num + 1, max, soft)
  {
    assert ([c] + rest)[1..] == rest;
    hide Add;
  }

  lemma {:induction false} AddListedIs(l: Lists, source: Id, nicks: seq<string>, find: string -> Option<Id>, num: nat,
                                       max: nat, soft: (Id, Id) -> bool, y: Id)
    ensures Of(AddListed(l, source, Targets(nicks, find, false), num, max, soft).allow, y)
            == (if y == source then News(Of(l.allow, source), nicks, find, source, num, max, soft) else [])
               + Of(l.allow, y)
    decreases |nicks|
  {
    hide Of, IsPlain, Add;
    assert [] + Of(l.allow, y) == Of(l.allow, y);
    if nicks != [] {
      var rest := Targets(nicks[1..], find, false);
      TargetsFirst(nicks, find);
      hide Targets;
      if IsPlain(nicks, find, 0) {
        var c := FoundAt(nicks, find);
        AddListedStep(l, source, c, rest, num, max, soft);
        AddListedIs(l, source, nicks[1..], find, num + 1, max, soft, y);
        AddListedIs(Add(l, source, c), source, nicks[1..], find, num + 1, max, soft, y);
        AddPutsInFront(l, source, c, y);
        AddPutsInFront(l, source, c, source);
        var have := Of(l.allow, source);
        hide AddListed;
        Regroup(News([c] + have, nicks[1..], find, source, num + 1, max, soft), [c], have);
      } else {
        assert [] + rest == rest;
        AddListedIs(l, source, nicks[1..], find, num, max, soft, y);
      }
    }
  }

  function FoundAt(nicks: seq<string>, find: string -> Option<Id>): Id
    requires IsPlain(nicks, find, 0)
  {
    find(nicks[0]).value
  }

  // -------- who is new

  lemma PlainLater(nicks: seq<string>, find: string -> Option<Id>, i: nat)
    requires i < |nicks|
    ensures i > 0 ==> (IsPlain(nicks, find, i) <==> IsPlain(nicks[1..], find, i - 1))
    ensures i > 0 ==> forall c :: PlainAt(nicks, find, i, c) <==> PlainAt(nicks[1..], find, i - 1, c)
  {
    if i > 0 {
      assert nicks[1..][i - 1] == nicks[i];
    }
  }

  lemma InTimeFirst(nicks: seq<string>, find: string -> Option<Id>, c: Id, num: nat, max: nat)
    requires nicks != []
    ensures InTime(nicks, find, c, num, max)
            <==> (PlainAt(nicks, find, 0, c) && num < max)
                 || InTime(nicks[1..], find, c, num + if IsPlain(nicks, find, 0) then 1 else 0, max)
  {
    var rest, num' := nicks[1..], num + if IsPlain(nicks, find, 0) then 1 else 0;
    hide IsPlain, PlainAt;
    if i: nat :| PlainAt(nicks, find, i, c) && num + PlainBefore(nicks, find, i) < max {
      PlainAtIsIn(nicks, find, i, c);
      PlainLater(nicks, find, i);
      if i > 0 {
        assert PlainAt(rest, find, i - 1, c) && num' + PlainBefore(rest, find, i - 1) < max;
      }
    }
    if i: nat :| PlainAt(rest, find, i, c) && num' + PlainBefore(rest, find, i) < max {
      PlainAtIsIn(rest, find, i, c);
      PlainLater(nicks, find, i + 1);
      assert PlainAt(nicks, find, i + 1, c) && num + PlainBefore(nicks, find, i + 1) < max;
    }
    if PlainAt(nicks, find, 0, c) && num < max {
      assert num + PlainBefore(nicks, find, 0) < max;
    }
  }

  lemma PlainAtIsIn(nicks: seq<string>, find: string -> Option<Id>, i: nat, c: Id)
    requires PlainAt(nicks, find, i, c)
    ensures i < |nicks| && IsPlain(nicks, find, i)
  {}

  lemma {:induction false} NoTime(nicks: seq<string>, find: string -> Option<Id>, c: Id, num: nat, max: nat)
    requires num >= max
    ensures !InTime(nicks, find, c, num, max)
  {}

  lemma {:induction false} NewsAre(have: seq<Id>, nicks: seq<string>, find: string -> Option<Id>, source: Id, num: nat,
                                   max: nat, soft: (Id, Id) -> bool, c: Id)
    ensures c in News(have, nicks, find, source, num, max, soft)
            <==> c !in have && !soft(c, source) && InTime(nicks, find, c, num, max)
    decreases |nicks|
  {
    hide InTime;
    if nicks == [] {
      NothingInTime(find, c, num, max);
    } else {
      InTimeFirst(nicks, find, c, num, max);
      if !IsPlain(nicks, find, 0) {
        NewsAre(have, nicks[1..], find, source, num, max, soft, c);
      } else {
        var d := find(nicks[0]).value;
        NewsAre(have, nicks[1..], find, source, num + 1, max, soft, c);
        NewsAre([d] + have, nicks[1..], find, source, num + 1, max, soft, c);
        if num >= max {
          NoTime(nicks, find, c, num, max);
        }
      }
    }
  }

  lemma NothingInTime(find: string -> Option<Id>, c: Id, num: nat, max: nat)
    ensures !InTime([], find, c, num, max)
  {}

  lemma FirstLater(nicks: seq<string>, find: string -> Option<Id>, i: nat, c: Id)
    requires FirstAt(nicks, find, i, c) && !PlainAt(nicks, find, 0, c)
    ensures i > 0 && FirstAt(nicks[1..], find, i - 1, c)
  {
    PlainAtIsIn(nicks, find, i, c);
    PlainLater(nicks, find, i);
    forall j: nat | j < i - 1
      ensures !PlainAt(nicks[1..], find, j, c)
    {
      assert !PlainAt(nicks, find, j + 1, c);
      PlainLater(nicks, find, j + 1);
    }
  }

  // Newest in front: of two new clients, the one named first stands behind.
  lemma {:induction false} NewsOrder(have: seq<Id>, nicks: seq<string>, find: string -> Option<Id>, source: Id,
                                     num: nat, max: nat, soft: (Id, Id) -> bool, a: nat, b: nat, i: nat, j: nat)
    requires var news := News(have, nicks, find, source, num, max, soft);
             a < b < |news| && FirstAt(nicks, find, i, news[a]) && FirstAt(nicks, find, j, news[b])
    ensures j < i
    decreases |nicks|
  {
    var news := News(have, nicks, find, source, num, max, soft);
    var x, y := news[a], news[b];
    NewsAre(have, nicks, find, source, num, max, soft, x);
    NewsAre(have, nicks, find, source, num, max, soft, y);
    hide InTime, FirstAt;
    if !IsPlain(nicks, find, 0) {
      FirstLater(nicks, find, i, x);
      FirstLater(nicks, find, j, y);
      NewsOrder(have, nicks[1..], find, source, num, max, soft, a, b, i - 1, j - 1);
    } else {
      var c := find(nicks[0]).value;
      if c in have || soft(c, source) {
        FirstLater(nicks, find, i, x);
        FirstLater(nicks, find, j, y);
        NewsOrder(have, nicks[1..], find, source, num + 1, max, soft, a, b, i - 1, j - 1);
      } else {
        var later := News([c] + have, nicks[1..], find, source, num + 1, max, soft);
        assert x == later[a];
        NewsAre([c] + have, nicks[1..], find, source, num + 1, max, soft, x);
        assert x != c;
        FirstLater(nicks, find, i, x);
        if b < |later| {
          assert y == later[b];
          NewsAre([c] + have, nicks[1..], find, source, num + 1, max, soft, y);
          FirstLater(nicks, find, j, y);
          NewsOrder([c] + have, nicks[1..], find, source, num + 1, max, soft, a, b, i - 1, j - 1);
        } else {
          FirstIsZero(nicks, find, j, y);
        }
      }
    }
  }

  lemma FirstIsZero(nicks: seq<string>, find: string -> Option<Id>, j: nat, c: Id)
    requires FirstAt(nicks, find, j, c) && PlainAt(nicks, find, 0, c)
    ensures j == 0
  {}

  // -------- the command

  // The list afterwards: the new ones in front of those who stay.
  ghost predicate Listed(now: seq<Id>, before: seq<Id>, added: seq<Id>, source: Id, nicks: seq<string>,
                         find: string -> Option<Id>, max: nat, soft: (Id, Id) -> bool) {
    var kept := Staying(before, nicks, find);
    && now == added + kept
    && (forall c :: c in added <==> c !in kept && !soft(c, source) && InTime(nicks, find, c, |kept|, max))
    && NewestInFront(added, nicks, find)
  }

  ghost predicate NewestInFront(added: seq<Id>, nicks: seq<string>, find: string -> Option<Id>) {
    forall a, b, i: nat, j: nat :: 0 <= a < b < |added| ==>
      (FirstAt(nicks, find, i, added[a]) && FirstAt(nicks, find, j, added[b]) ==> j < i)
  }

  lemma NewsAreListed(before: seq<Id>, source: Id, nicks: seq<string>, find: string -> Option<Id>, max: nat,
                      soft: (Id, Id) -> bool)
    ensures var kept := Staying(before, nicks, find);
            var added := News(kept, nicks, find, source, |kept|, max, soft);
            Listed(added + kept, before, added, source, nicks, find, max, soft)
  {
    var kept := Staying(before, nicks, find);
    var added := News(kept, nicks, find, source, |kept|, max, soft);
    hide News, Staying, InTime, FirstAt;
    forall c
      ensures c in added <==> c !in kept && !soft(c, source) && InTime(nicks, find, c, |kept|, max)
    {
      NewsAre(kept, nicks, find, source, |kept|, max, soft, c);
    }
    forall a, b, i: nat, j: nat | 0 <= a < b < |added| && FirstAt(nicks, find, i, added[a])
                                  && FirstAt(nicks, find, j, added[b])
      ensures j < i
    {
      NewsOrder(kept, nicks, find, source, |kept|, max, soft, a, b, i, j);
    }
  }

  // One command, on any lists a run can reach. Those not found behind a minus stay, in order; in front of
  // them, newest first, come those found without one in time, unless a soft caller id lets them in
  // anyway. Nobody else's list changes, and the back pointers follow.
  lemma CommandDoes(l: Lists, source: Id, nicks: seq<string>, find: string -> Option<Id>, soft: (Id, Id) -> bool,
                    l': Lists, max: nat)
    requires Inv(l, max) && Next(l, Command(source, nicks, find, soft), l', max)
    ensures exists added :: Listed(Of(l'.allow, source), Of(l.allow, source), added, source, nicks, find, max, soft)
    ensures forall y :: y != source ==> Of(l'.allow, y) == Of(l.allow, y)
    ensures NoDuplicates(Of(l'.allow, source)) && forall a, b :: b in Of(l'.allow, a) <==> a in Of(l'.on, b)
  {
    var gone := Targets(nicks, find, true);
    var l1 := DropListed(l, source, gone);
    var before, kept := Of(l.allow, source), Staying(Of(l.allow, source), nicks, find);
    NextKeepsInv(l, Command(source, nicks, find, soft), l', max);
    assert l' == AddListed(l1, source, Targets(nicks, find, false), |Of(l1.allow, source)|, max, soft);
    hide Targets, DropListed, AddListed, Of, Next, NoDuplicates, InTime, FirstAt;
    DropListedIs(l, source, gone, source);
    StayingIs(before, nicks, find);
    var added := News(kept, nicks, find, source, |kept|, max, soft);
    AddListedIs(l1, source, nicks, find, |kept|, max, soft, source);
    forall y | y != source
      ensures Of(l'.allow, y) == Of(l.allow, y)
    {
      DropListedIs(l, source, gone, y);
      AddListedIs(l1, source, nicks, find, |kept|, max, soft, y);
      assert [] + Of(l1.allow, y) == Of(l1.allow, y);
    }
    hide Inv;
    NewsAreListed(before, source, nicks, find, max, soft);
  }

  // In particular: who is found behind a minus, and not named without one, is off the list and no longer
  // has the source among the back pointers.
  lemma RemovedIsOff(l: Lists, source: Id, nicks: seq<string>, find: string -> Option<Id>, soft: (Id, Id) -> bool,
                     l': Lists, max: nat, c: Id)
    requires Inv(l, max) && Next(l, Command(source, nicks, find, soft), l', max)
    requires Behind(nicks, find, c) && forall i: nat :: !PlainAt(nicks, find, i, c)
    ensures c !in Of(l'.allow, source) && source !in Of(l'.on, c)
  {
    CommandDoes(l, source, nicks, find, soft, l', max);
    hide Of, Next, NoDuplicates, Inv, FirstAt, Behind, PlainAt;
    var added :| Listed(Of(l'.allow, source), Of(l.allow, source), added, source, nicks, find, max, soft);
  }

  // And who is found without a minus before the limit is reached can send messages afterwards.
  lemma NamedGetsThrough(l: Lists, source: Id, nicks: seq<string>, find: string -> Option<Id>,
                         soft: (Id, Id) -> bool, l': Lists, max: nat, c: Id)
    requires Inv(l, max) && Next(l, Command(source, nicks, find, soft), l', max)
    requires InTime(nicks, find, c, |Staying(Of(l.allow, source), nicks, find)|, max)
    ensures c in Of(l'.allow, source) || soft(c, source)
  {
    CommandDoes(l, source, nicks, find, soft, l', max);
    hide Of, Next, NoDuplicates, Inv, FirstAt, InTime;
    var added :| Listed(Of(l'.allow, source), Of(l.allow, source), added, source, nicks, find, max, soft);
  }
}
