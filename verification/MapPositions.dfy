/**
 Where each server stands in the map of modules/m_map.c: a server is named by the indices of the
 children on the way to it from the root. Paths and lines correspond one to one, and the columns of a
 line say which of the servers on the way have later siblings.
 */
module MapPositions {
  import opened ServerMap

  // -------- paths

  predicate IsPath(s: Server, path: seq<nat>)
    decreases |path|
  {
    path == [] || (path[0] < |s.servers| && IsPath(s.servers[path[0]], path[1..]))
  }

  function ServerAt(s: Server, path: seq<nat>): Server
    requires IsPath(s, path)
    decreases |path|
  {
    if path == [] then s else ServerAt(s.servers[path[0]], path[1..])
  }

  lemma {:induction false} PathFront(s: Server, path: seq<nat>, k: nat)
    requires IsPath(s, path) && k < |path|
    ensures IsPath(s, path[..k]) && path[k] < |ServerAt(s, path[..k]).servers|
    decreases |path|
  {
    if k > 0 {
      PathFront(s.servers[path[0]], path[1..], k - 1);
      assert path[..k][1..] == path[1..][..k - 1];
    }
  }

  // Whether the server k + 1 steps down the path is not its parent's last child.
  predicate HasLaterSibling(root: Server, path: seq<nat>, k: nat)
    requires IsPath(root, path) && k < |path|
  {
    PathFront(root, path, k);
    path[k] + 1 < |ServerAt(root, path[..k]).servers|
  }

  // -------- lines

  // The number of servers in a tree.
  function Size(s: Server): nat
    decreases s, 1
  {
    1 + Sizes(s.servers)
  }

  function Sizes(servers: seq<Server>): nat
    decreases servers, 0
  {
    if servers == [] then 0 else Size(servers[0]) + Sizes(servers[1..])
  }

  // The line of the server at the path: behind its parent's and those of all earlier siblings' trees.
  function LineOf(s: Server, path: seq<nat>): nat
    requires IsPath(s, path)
    decreases |path|
  {
    if path == [] then 0
    else 1 + Sizes(s.servers[..path[0]]) + LineOf(s.servers[path[0]], path[1..])
  }

  lemma {:induction false} LineCount(bars: seq<bool>, s: Server, oper: bool)
    ensures |MapLines(bars, s, oper)| == Size(s)
    decreases s, 1
  {
    ChildLineCount(bars, s.servers, oper);
  }

  lemma {:induction false} ChildLineCount(bars: seq<bool>, servers: seq<Server>, oper: bool)
    ensures |ChildLines(bars, servers, oper)| == Sizes(servers)
    decreases servers, 0
  {
    if servers != [] {
      LineCount(bars + [|servers| > 1], servers[0], oper);
      ChildLineCount(bars, servers[1..], oper);
    }
  }

  lemma {:induction false} SizesSplit(servers: seq<Server>, k: nat)
    requires k < |servers|
    ensures Sizes(servers[..k]) + Size(servers[k]) <= Sizes(servers)
  {
    if k > 0 {
      SizesSplit(servers[1..], k - 1);
      assert servers[..k][1..] == servers[1..][..k - 1];
    }
  }

  // The other way round: the child whose tree holds the n-th line below a server, and the path of a line.
  function ChildAt(servers: seq<Server>, n: nat): (k: nat)
    requires n < Sizes(servers)
    ensures k < |servers| && Sizes(servers[..k]) <= n < Sizes(servers[..k]) + Size(servers[k])
  {
    if n < Size(servers[0]) then 0
    else
      var k := 1 + ChildAt(servers[1..], n - Size(servers[0]));
      assert servers[..k][1..] == servers[1..][..k - 1];
      k
  }

  function PathOf(s: Server, n: nat): seq<nat>
    requires n < Size(s)
    decreases s
  {
    if n == 0 then []
    else
      var k := ChildAt(s.servers, n - 1);
      [k] + PathOf(s.servers[k], n - 1 - Sizes(s.servers[..k]))
  }

  lemma {:induction false} ChildAtIs(servers: seq<Server>, k: nat, n: nat)
    requires k < |servers| && n < Size(servers[k])
    ensures Sizes(servers[..k]) + n < Sizes(servers) && ChildAt(servers, Sizes(servers[..k]) + n) == k
  {
    SizesSplit(servers, k);
    if k > 0 {
      ChildAtIs(servers[1..], k - 1, n);
      assert servers[..k][1..] == servers[1..][..k - 1];
    }
  }

  lemma PathBelow(s: Server, k: nat, n: nat)
    requires k < |s.servers| && n < Size(s.servers[k])
    ensures var line := 1 + Sizes(s.servers[..k]) + n;
            line < Size(s) && PathOf(s, line) == [k] + PathOf(s.servers[k], n)
  {
    ChildAtIs(s.servers, k, n);
    hide ChildAt, Sizes;
  }

  lemma {:induction false} PathOfLine(s: Server, path: seq<nat>)
    requires IsPath(s, path)
    ensures LineOf(s, path) < Size(s) && PathOf(s, LineOf(s, path)) == path
    decreases |path|
  {
    if path != [] {
      var k, rest := path[0], path[1..];
      PathOfLine(s.servers[k], rest);
      hide PathOf, Sizes, Size;
      PathBelow(s, k, LineOf(s.servers[k], rest));
      assert path == [k] + rest;
    }
  }

  lemma {:induction false} LineOfPath(s: Server, n: nat)
    requires n < Size(s)
    ensures IsPath(s, PathOf(s, n)) && LineOf(s, PathOf(s, n)) == n
    decreases s
  {
    if n > 0 {
      var k := ChildAt(s.servers, n - 1);
      LineOfPath(s.servers[k], n - 1 - Sizes(s.servers[..k]));
    }
  }

  // -------- what stands on a line

  function Bars(s: Server, path: seq<nat>): seq<bool>
    requires IsPath(s, path)
    decreases |path|
  {
    if path == [] then [] else [path[0] + 1 < |s.servers|] + Bars(s.servers[path[0]], path[1..])
  }

  lemma {:induction false} BarsAre(s: Server, path: seq<nat>, k: nat)
    requires IsPath(s, path) && k < |path|
    ensures |Bars(s, path)| == |path| && Bars(s, path)[k] == HasLaterSibling(s, path, k)
    decreases |path|
  {
    if |path| > 1 {
      BarsAre(s.servers[path[0]], path[1..], if k > 0 then k - 1 else 0);
      PathFront(s, path, k);
      if k > 0 {
        assert path[..k][1..] == path[1..][..k - 1];
      }
    } else {
      assert path[1..] == [] && path[..0] == [];
    }
  }

  // The part of a child in the lines below its parent.
  lemma {:induction false} ChildPart(bars: seq<bool>, servers: seq<Server>, oper: bool, k: nat, n: nat)
    requires k < |servers| && n < |MapLines(bars + [k + 1 < |servers|], servers[k], oper)|
    ensures var at := Sizes(servers[..k]) + n;
            && at < |ChildLines(bars, servers, oper)|
            && ChildLines(bars, servers, oper)[at] == MapLines(bars + [k + 1 < |servers|], servers[k], oper)[n]
    decreases k
  {
    hide MapLines, Size;
    if k > 0 {
      ChildPart(bars, servers[1..], oper, k - 1, n);
      LineCount(bars + [|servers| > 1], servers[0], oper);
      assert servers[..k][1..] == servers[1..][..k - 1];
    }
  }

  lemma {:induction false} RowAt(bars: seq<bool>, s: Server, path: seq<nat>, oper: bool)
    requires IsPath(s, path)
    ensures var at := ServerAt(s, path);
            && LineOf(s, path) < |MapLines(bars, s, oper)|
            && MapLines(bars, s, oper)[LineOf(s, path)] == Row(Prefix(bars + Bars(s, path)), Title(at, oper), at.stats)
    decreases |path|
  {
    hide Row, Prefix, Title;
    if path == [] {
      assert bars + Bars(s, path) == bars;
    } else {
      var k, rest := path[0], path[1..];
      var more := [k + 1 < |s.servers|];
      RowAt(bars + more, s.servers[k], rest, oper);
      ChildPart(bars, s.servers, oper, k, LineOf(s.servers[k], rest));
      assert (bars + more) + Bars(s.servers[k], rest) == bars + Bars(s, path);
    }
  }

  // The four characters that a server on the way shows on a line: its own line when `own`.
  function Column(later: bool, own: bool): string {
    if own then (if later then " |- " else " `- ") else if later then " |  " else "    "
  }

  lemma Slices(a: string, b: string, i: nat)
    requires |b| == 4
    ensures (a + b)[|a|..|a| + 4] == b
    ensures i + 4 <= |a| ==> (a + b)[i..i + 4] == a[i..i + 4]
  {}

  lemma ColumnsGrow(bars: seq<bool>)
    requires bars != []
    ensures var front, last := bars[..|bars| - 1], PassColumn(bars[|bars| - 1]);
            Columns(bars) == Columns(front) + last && |Columns(front)| == 4 * |front| && |last| == 4
            && last == Column(bars[|bars| - 1], false)
  {
    ColumnsLength(bars[..|bars| - 1]);
  }

  lemma {:induction false} PassColumns(bars: seq<bool>, k: nat)
    requires k < |bars|
    ensures |Columns(bars)| == 4 * |bars| && Columns(bars)[4 * k..4 * k + 4] == Column(bars[k], false)
  {
    var front, last := bars[..|bars| - 1], PassColumn(bars[|bars| - 1]);
    ColumnsGrow(bars);
    hide Columns, PassColumn, Column;
    Slices(Columns(front), last, 4 * k);
    if k < |front| {
      PassColumns(front, k);
      assert front[k] == bars[k];
    }
  }

  lemma PrefixColumns(bars: seq<bool>, k: nat)
    requires k < |bars|
    ensures |Prefix(bars)| == 4 * |bars|
    ensures Prefix(bars)[4 * k..4 * k + 4] == Column(bars[k], k + 1 == |bars|)
  {
    var front, last := bars[..|bars| - 1], OwnColumn(bars[|bars| - 1]);
    ColumnsLength(bars);
    ColumnsLength(front);
    Slices(Columns(front), last, 4 * k);
    assert Prefix(bars) == Columns(front) + last;
    hide Columns, Prefix;
    if k < |front| {
      PassColumns(front, k);
    }
  }

  lemma RowStart(prefix: string, title: string, stats: string)
    ensures var row := Row(prefix, title, stats);
            |prefix| + |title| <= |row| && row[..|prefix|] == prefix && row[|prefix|..|prefix| + |title|] == title
  {
    hide Dashes;
  }

  lemma SubPrefix(row: string, prefix: string, i: nat, j: nat)
    requires i <= j <= |prefix| <= |row| && row[..|prefix|] == prefix
    ensures row[i..j] == prefix[i..j]
  {
    forall k | i <= k < j
      ensures row[k] == prefix[k]
    {
      assert row[k] == row[..|prefix|][k];
    }
  }

  lemma ColumnIsBar(row: string, k: nat, later: bool, own: bool)
    requires 4 * k + 4 <= |row| && row[4 * k..4 * k + 4] == Column(later, own)
    ensures row[4 * k + 1] == '|' <==> later
  {
    assert row[4 * k + 1] == row[4 * k..4 * k + 4][1];
  }

  lemma ColumnOnRow(root: Server, path: seq<nat>, row: string, k: nat)
    requires IsPath(root, path) && k < |path|
    requires 4 * |path| <= |row| && row[..4 * |path|] == Prefix(Bars(root, path))
    ensures row[4 * k..4 * k + 4] == Column(HasLaterSibling(root, path, k), k + 1 == |path|)
    ensures row[4 * k + 1] == '|' <==> HasLaterSibling(root, path, k)
  {
    hide *;
    BarsAre(root, path, k);
    PrefixColumns(Bars(root, path), k);
    SubPrefix(row, Prefix(Bars(root, path)), 4 * k, 4 * k + 4);
    ColumnIsBar(row, k, HasLaterSibling(root, path, k), k + 1 == |path|);
  }

  lemma BarsLength(root: Server, path: seq<nat>)
    requires IsPath(root, path)
    ensures |Prefix(Bars(root, path))| == 4 * |Bars(root, path)| == 4 * |path|
  {
    hide *;
    ColumnsLength(Bars(root, path));
    if path != [] { BarsAre(root, path, 0); } else { NoBars(root); }
  }

  lemma NoBars(root: Server)
    ensures IsPath(root, []) && Bars(root, []) == []
  {}

  lemma TitleIs(s: Server, oper: bool)
    ensures Title(s, oper) == if oper && s.id != "" then s.name + "[" + s.id + "]" else s.name
  {
    assert s.name + "" == s.name;
  }

  // Every server has a line of its own. Its title stands behind four columns for each step down to it,
  // and the column of a server on the way shows a bar exactly when that server has a later sibling.
  lemma ServerStandsAt(root: Server, oper: bool, path: seq<nat>)
    requires IsPath(root, path)
    ensures var lines, n, at := MapLines([], root, oper), LineOf(root, path), 4 * |path|;
            var s := ServerAt(root, path);
            var title := if oper && s.id != "" then s.name + "[" + s.id + "]" else s.name;
            && n < Size(root) == |lines| && PathOf(root, n) == path
            && at + |title| <= |lines[n]| && lines[n][at..at + |title|] == title
            && forall k :: 0 <= k < |path| ==>
                 && lines[n][4 * k..4 * k + 4] == Column(HasLaterSibling(root, path, k), k + 1 == |path|)
                 && (lines[n][4 * k + 1] == '|' <==> HasLaterSibling(root, path, k))
  {
    hide *;
    var server, bars := ServerAt(root, path), Bars(root, path);
    LineCount([], root, oper);
    PathOfLine(root, path);
    RowAt([], root, path, oper);
    assert [] + bars == bars;
    BarsLength(root, path);
    var row := MapLines([], root, oper)[LineOf(root, path)];
    RowStart(Prefix(bars), Title(server, oper), server.stats);
    TitleIs(server, oper);
    forall k | 0 <= k < |path|
      ensures row[4 * k..4 * k + 4] == Column(HasLaterSibling(root, path, k), k + 1 == |path|)
      ensures row[4 * k + 1] == '|' <==> HasLaterSibling(root, path, k)
    {
      ColumnOnRow(root, path, row, k);
    }
  }

  // And every line is that of a server.
  lemma LineIsServers(root: Server, oper: bool, n: nat)
    requires n < |MapLines([], root, oper)|
    ensures n < Size(root) && IsPath(root, PathOf(root, n)) && LineOf(root, PathOf(root, n)) == n
  {
    LineCount([], root, oper);
    LineOfPath(root, n);
  }
}
