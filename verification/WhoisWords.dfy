/**
 What a reader of the operator WHOIS of contrib/m_operspy.c learns from the word for a channel. The
 percent sign stands both for a channel the reader could not see and for a half operator.
 */
module WhoisWords {
  import opened IrcString
  import opened ReplyPackers
  import opened Tokens

  predicate IsChannel(m: Membership) { IsMembership(m) && IsChanPrefix(m.chname[0]) }

  // The characters in front of the channel's name.
  function MarksBefore(word: string): string {
    if word == "" || IsChanPrefix(word[0]) then "" else [word[0]] + MarksBefore(word[1..])
  }

  function Percents(marks: string): nat {
    if marks == "" then 0 else (if marks[0] == '%' then 1 else 0) + Percents(marks[1..])
  }

  function One(b: bool): nat { if b then 1 else 0 }

  // Builds without halfops print no mark for them.
  predicate IsHalfop(m: Membership, halfops: bool) { halfops && m.halfop }

  lemma {:induction false} MarksBeforeName(marks: string, name: string)
    requires name != "" && IsChanPrefix(name[0]) && forall c :: c in marks ==> !IsChanPrefix(c)
    ensures MarksBefore(marks + name) == marks
  {
    if marks == "" {
      assert marks + name == name;
    } else {
      assert (marks + name)[1..] == marks[1..] + name;
      assert marks[0] in marks;
      MarksBeforeName(marks[1..], name);
      assert marks == [marks[0]] + marks[1..];
    }
  }

  lemma {:induction false} PercentsOfSum(a: string, b: string)
    ensures Percents(a + b) == Percents(a) + Percents(b)
  {
    if a == "" {
      assert a + b == b;
    } else {
      assert (a + b)[1..] == a[1..] + b;
      PercentsOfSum(a[1..], b);
    }
  }

  lemma PercentsOfOne(c: char)
    ensures Percents([c]) == One(c == '%') && Percents("") == 0
  {
    assert [c][1..] == "";
  }

  lemma MarksCount(m: Membership, halfops: bool)
    ensures Percents(Marks(m, halfops)) == One(!m.shown) + One(IsHalfop(m, halfops))
  {
    var a := if m.shown then "" else "%";
    var b := if m.chanop then "@" else "";
    var c := if halfops && m.halfop then "%" else "";
    var d := if m.voice then "+" else "";
    assert Marks(m, halfops) == a + (b + c + d);
    hide Percents, Marks, MemberStatus;
    PercentsOfOne('%');
    PercentsOfOne('@');
    PercentsOfOne('+');
    PercentsOfSum(a, b + c + d);
    PercentsOfSum(b + c, d);
    PercentsOfSum(b, c);
  }

  // The name of the channel, and whether the user is an operator or voiced there, can always be read. For
  // an operator's channel so can the rest; of others only how many of the two things a percent sign
  // stands for are true.
  lemma WhoisWordReads(m: Membership, halfops: bool)
    requires IsChannel(m)
    ensures var word := ChannelWord(m, halfops);
            var marks := MarksBefore(word);
            && word == marks + m.chname
            && ('@' in marks <==> m.chanop) && ('+' in marks <==> m.voice)
            && Percents(marks) == One(!m.shown) + One(IsHalfop(m, halfops))
            && (m.chanop ==> marks != "" && (marks[0] == '%' <==> !m.shown))
  {
    MarksAre(m, halfops);
    assert m.chname != "";
    hide Marks, MemberStatus, Percents, MarksBefore, IsMembership;
    MarksBeforeName(Marks(m, halfops), m.chname);
    MarksCount(m, halfops);
  }

  lemma MarksAre(m: Membership, halfops: bool)
    ensures var marks := Marks(m, halfops);
            && (forall c :: c in marks ==> !IsChanPrefix(c))
            && ('@' in marks <==> m.chanop) && ('+' in marks <==> m.voice)
            && (m.chanop ==> marks != "" && (marks[0] == '%' <==> !m.shown))
  {}

  // Two channels have the same word exactly when these agree. So a channel that was hidden, and one on
  // which the user is a half operator, cannot be told apart unless the user is an operator there.
  lemma WordsAgreeExactly(m: Membership, n: Membership, halfops: bool)
    requires IsChannel(m) && IsChannel(n)
    ensures ChannelWord(m, halfops) == ChannelWord(n, halfops)
            <==> && m.chname == n.chname && m.chanop == n.chanop && m.voice == n.voice
                 && One(!m.shown) + One(IsHalfop(m, halfops)) == One(!n.shown) + One(IsHalfop(n, halfops))
                 && (m.chanop ==> m.shown == n.shown)
  {
    WhoisWordReads(m, halfops);
    WhoisWordReads(n, halfops);
    if ChannelWord(m, halfops) == ChannelWord(n, halfops) {
      var marks := MarksBefore(ChannelWord(m, halfops));
      assert ChannelWord(m, halfops)[|marks|..] == m.chname && ChannelWord(n, halfops)[|marks|..] == n.chname;
    } else {
      hide MarksBefore, Percents, IsMembership;
    }
  }
}
