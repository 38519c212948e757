/**
 The greedy rule all reply packers of the server follow: append each piece to the open line, and
 send the line first when a test on its length and the next piece fails. Proved to lose nothing, to
 respect its limit and to use as few lines as any split that respects it.
 */
module GreedyPacking {
  import opened Sequences

  // A piece of text, and the room the packer asks for before it appends it.
  datatype Piece = Piece(text: string, need: nat)

  function Text(line: seq<Piece>): string {
    if line == [] then "" else Text(line[..|line| - 1]) + line[|line| - 1].text
  }

  // The lines sent from here on: the open line holds `open`, `rest` is still to come.
  function Pack(open: seq<Piece>, rest: seq<Piece>, limit: int): seq<seq<Piece>>
    decreases |rest|
  {
    if rest == [] then if open == [] then [] else [open]
    else if |Text(open)| + rest[0].need > limit then [open] + Pack([rest[0]], rest[1..], limit)
    else Pack(open + [rest[0]], rest[1..], limit)
  }

  // Every piece of the line had the room it asks for when it was appended.
  ghost predicate Fits(line: seq<Piece>, limit: int) {
    forall k :: 0 <= k < |line| ==> |Text(line[..k])| + line[k].need <= limit
  }

  ghost predicate AllFit(lines: seq<seq<Piece>>, limit: int) {
    forall l :: l in lines ==> Fits(l, limit)
  }

  // A piece fits an empty line.
  ghost predicate Packable(pieces: seq<Piece>, limit: int) {
    forall p :: p in pieces ==> p.need <= limit
  }

  lemma TextAppend(line: seq<Piece>, p: Piece)
    ensures Text(line + [p]) == Text(line) + p.text
  {
    assert (line + [p])[..|line|] == line;
  }

  lemma {:induction false} TextSum(a: seq<Piece>, b: seq<Piece>)
    ensures Text(a + b) == Text(a) + Text(b)
  {
    hide Text;
    if b == [] {
      assert a + b == a;
      TextOfNothing();
    } else {
      var c, p := b[..|b| - 1], b[|b| - 1];
      TextSum(a, c);
      TextAppend(a + c, p);
      TextAppend(c, p);
      Regroup(a, c, [p]);
      assert b == c + [p];
      Regroup(Text(a), Text(c), p.text);
    }
  }

  lemma TextOfNothing()
    ensures Text([]) == ""
  {}

  lemma FitsAppend(line: seq<Piece>, p: Piece, limit: int)
    requires Fits(line, limit) && |Text(line)| + p.need <= limit
    ensures Fits(line + [p], limit)
  {
    var longer := line + [p];
    forall k | 0 <= k < |longer|
      ensures |Text(longer[..k])| + longer[k].need <= limit
    {
      assert longer[..k] == line[..k];
      if k == |line| {
        assert line[..k] == line;
      }
    }
  }

  // Nothing is lost, reordered or made up.
  lemma {:induction false} PackLosesNothing(open: seq<Piece>, rest: seq<Piece>, limit: int)
    ensures Flat(Pack(open, rest, limit)) == open + rest
    decreases |rest|
  {
    if rest == [] {
      assert Flat([open]) == open + Flat<Piece>([]);
    } else {
      var p := rest[0];
      assert rest == [p] + rest[1..];
      if |Text(open)| + p.need > limit {
        PackLosesNothing([p], rest[1..], limit);
        var tail := Pack([p], rest[1..], limit);
        assert ([open] + tail)[1..] == tail;
      } else {
        PackLosesNothing(open + [p], rest[1..], limit);
      }
    }
  }

  // No line is empty, and all respect the limit.
  lemma {:induction false} PackFits(open: seq<Piece>, rest: seq<Piece>, limit: int)
    requires Fits(open, limit) && Packable(rest, limit)
    ensures var lines := Pack(open, rest, limit);
            AllFit(lines, limit) && forall l :: l in lines ==> l != []
    decreases |rest|
  {
    if rest != [] {
      var p := rest[0];
      assert p in rest;
      if |Text(open)| + p.need > limit {
        PackFits([p], rest[1..], limit);
      } else {
        FitsAppend(open, p, limit);
        PackFits(open + [p], rest[1..], limit);
      }
    }
  }

  // The line could not have taken the piece in, so no fitting line reaches past it.
  lemma TooLong(pre: seq<Piece>, open: seq<Piece>, p: Piece, line: seq<Piece>, limit: int)
    requires |Text(open)| + p.need > limit && Fits(line, limit)
    ensures !(pre + open + [p] <= line)
  {
    var before := pre + open;
    if before + [p] <= line {
      var k := |before|;
      assert line[..k] == before && line[k] == (before + [p])[k] == p;
      TextSum(pre, open);
    }
  }

  // A greedy packer never falls behind another split of the same pieces, even one that still has
  // `pre` in front of it.
  lemma {:induction false} NeverBehind(pre: seq<Piece>, open: seq<Piece>, rest: seq<Piece>, limit: int,
                                       other: seq<seq<Piece>>)
    requires open != [] && AllFit(other, limit) && Flat(other) == pre + open + rest
    ensures |Pack(open, rest, limit)| <= |other|
    decreases |rest|
  {
    assert other != [];
    if rest == [] {
    } else {
      var p := rest[0];
      assert rest == [p] + rest[1..];
      if |Text(open)| + p.need > limit {
        var first, later := other[0], other[1..];
        var before := pre + open;
        assert Flat(other) == before + [p] + rest[1..];
        if |first| > |before| {
          PrefixOfBoth(first, Flat(later), before + [p], rest[1..]);
          TooLong(pre, open, p, first, limit);
        }
        var pre' := before[|first|..];
        assert Flat(later) == pre' + [p] + rest[1..] by {
          DropCommonPart(first, Flat(later), before, [p] + rest[1..]);
          assert before + ([p] + rest[1..]) == before + [p] + rest[1..];
          assert pre' + ([p] + rest[1..]) == pre' + [p] + rest[1..];
        }
        assert AllFit(later, limit);
        NeverBehind(pre', [p], rest[1..], limit, later);
      } else {
        assert pre + open + rest == pre + (open + [p]) + rest[1..];
        NeverBehind(pre, open + [p], rest[1..], limit, other);
      }
    }
  }

  lemma PrefixOfBoth<T>(a: seq<T>, b: seq<T>, c: seq<T>, d: seq<T>)
    requires a + b == c + d && |a| >= |c|
    ensures c <= a
  {
    assert c == (c + d)[..|c|] == (a + b)[..|c|] == a[..|c|];
  }

  lemma DropCommonPart<T>(a: seq<T>, b: seq<T>, c: seq<T>, d: seq<T>)
    requires a + b == c + d && |a| <= |c|
    ensures b == c[|a|..] + d
  {
    assert b == (a + b)[|a|..] == (c + d)[|a|..] == c[|a|..] + d;
  }

  function Lines(pieces: seq<Piece>, limit: int): seq<seq<Piece>> { Pack([], pieces, limit) }

  // No split of the pieces that keeps their order and the limit uses fewer lines.
  lemma FewestLines(pieces: seq<Piece>, limit: int, other: seq<seq<Piece>>)
    requires Packable(pieces, limit) && AllFit(other, limit) && Flat(other) == pieces
    ensures |Lines(pieces, limit)| <= |other|
  {
    if pieces != [] {
      var p := pieces[0];
      assert p in pieces;
      assert [] + [p] == [p];
      assert pieces == [] + [p] + pieces[1..];
      NeverBehind([], [p], pieces[1..], limit, other);
    }
  }

  lemma NothingFits(limit: int)
    ensures Fits([], limit)
  {}

  lemma FitsSplit(front: seq<Piece>, last: Piece, limit: int)
    ensures Fits(front + [last], limit) <==> Fits(front, limit) && |Text(front)| + last.need <= limit
  {
    var line, n := front + [last], |front|;
    assert line[..n] == front && line[n] == last;
    assert forall k :: 0 <= k < n ==> line[..k] == front[..k] && line[k] == front[k];
    hide Text;
  }

  // When each piece asks for all its text but the last `cut` characters, the test is the length of
  // the line without them.
  lemma {:induction false} FitsIsLength(line: seq<Piece>, limit: int, cut: nat)
    requires line != [] && forall p :: p in line ==> p.need + cut == |p.text|
    ensures Fits(line, limit) <==> |Text(line)| <= limit + cut
  {
    hide Text, Fits;
    var n := |line| - 1;
    var front, last := line[..n], line[n];
    assert line == front + [last];
    assert last in line;
    FitsSplit(front, last, limit);
    TextAppend(front, last);
    if front == [] {
      TextOfNothing();
      NothingFits(limit);
    } else {
      assert forall p :: p in front ==> p in line;
      FitsIsLength(front, limit, cut);
    }
  }

  // What fits one line goes on one line.
  lemma {:induction false} OneLine(open: seq<Piece>, rest: seq<Piece>, limit: int)
    requires Fits(open + rest, limit) && open + rest != []
    ensures Pack(open, rest, limit) == [open + rest]
    decreases |rest|
  {
    if rest == [] {
      assert open + rest == open;
    } else {
      var all, k := open + rest, |open|;
      assert all[..k] == open && all[k] == rest[0];
      assert (open + [rest[0]]) + rest[1..] == all;
      OneLine(open + [rest[0]], rest[1..], limit);
    }
  }

  lemma {:induction false} CopiesFit(p: Piece, n: nat, limit: int)
    requires n > 0 ==> (n - 1) * |p.text| + p.need <= limit
    ensures var line := seq(n, _ => p);
            Fits(line, limit) && |Text(line)| == n * |p.text|
  {
    if n > 0 {
      var front := seq(n - 1, _ => p);
      assert seq(n, _ => p) == front + [p];
      CopiesFit(p, n - 1, limit);
      TextAppend(front, p);
      FitsAppend(front, p, limit);
    }
  }
}
