/**
 The server map of modules/m_map.c. The printer recurses over the tree of servers through one
 shared buffer whose connectors it patches backwards; it is proved to send exactly the lines of a
 printer that has no buffer.
 */
module ServerMap {
  import opened CBuffer

  // A server as the map shows it: `stats` is the text printed for its users.
  datatype Server = Server(name: string, id: string, stats: string, servers: seq<Server>)

  // -------- the lines of the map

  function Title(s: Server, oper: bool): string {
    s.name + if oper && s.id != "" then "[" + s.id + "]" else ""
  }

  function Dashes(n: int): string
    decreases if n > 0 then n else 0
  {
    if n <= 0 then "" else "-" + Dashes(n - 1)
  }

  // bars[k] says whether the server at depth k + 1 on the way to this one has a later sibling.
  function PassColumn(bar: bool): string { if bar then " |  " else "    " }

  function OwnColumn(bar: bool): string { if bar then " |- " else " `- " }

  function Columns(bars: seq<bool>): string {
    if bars == [] then "" else Columns(bars[..|bars| - 1]) + PassColumn(bars[|bars| - 1])
  }

  function Prefix(bars: seq<bool>): string {
    if bars == [] then "" else Columns(bars[..|bars| - 1]) + OwnColumn(bars[|bars| - 1])
  }

  function Row(prefix: string, title: string, stats: string): string {
    prefix + title + " " + Dashes(50 - (|prefix| + |title| + 1)) + " |" + stats
  }

  function MapLines(bars: seq<bool>, s: Server, oper: bool): seq<string>
    decreases s, 1
  {
    [Row(Prefix(bars), Title(s, oper), s.stats)] + ChildLines(bars, s.servers, oper)
  }

  function ChildLines(bars: seq<bool>, servers: seq<Server>, oper: bool): seq<string>
    decreases servers, 0
  {
    if servers == [] then []
    else MapLines(bars + [|servers| > 1], servers[0], oper) + ChildLines(bars, servers[1..], oper)
  }

  // -------- the dashes

  method PutDashes(buf: array<char>, at: nat, dashes: int) returns (pb: nat)
    requires at + (if dashes > 0 then dashes else 0) <= buf.Length
    modifies buf
    ensures pb == at + |Dashes(dashes)| <= buf.Length && buf[..pb] == old(buf[..at]) + Dashes(dashes)
  {
    pb := at;
    var i := 0;
    DashesLength(dashes);
    while i < dashes
      invariant 0 <= i && (i <= dashes || i == 0) && pb == at + i
      invariant buf[..pb] == old(buf[..at]) + Dashes(dashes)[..i]
    {
      assert Dashes(dashes)[..i + 1] == Dashes(dashes)[..i] + ['-'];
      pb := Put(buf, pb, '-');
      i := i + 1;
    }
    assert Dashes(dashes)[..i] == Dashes(dashes);
  }

  // Every line below this server fits the buffer, and no text holds a NUL.
  ghost predicate Fits(s: Server, depth: nat, oper: bool)
    decreases s
  {
    && IsText(s.name) && IsText(s.id) && IsText(s.stats)
    && |Row(seq(4 * depth, _ => ' '), Title(s, oper), s.stats)| < IRCD_BUFSIZE
    && forall c :: c in s.servers ==> Fits(c, depth + 1, oper)
  }

  lemma {:induction false} ColumnsLength(bars: seq<bool>)
    ensures |Columns(bars)| == 4 * |bars| && |Prefix(bars)| == 4 * |bars|
    ensures IsText(Columns(bars)) && IsText(Prefix(bars))
  {
    if bars != [] {
      ColumnsLength(bars[..|bars| - 1]);
    }
  }

  lemma {:induction false} DashesLength(n: int)
    ensures |Dashes(n)| == (if n > 0 then n else 0) && IsText(Dashes(n))
    ensures forall i :: 0 <= i < |Dashes(n)| ==> Dashes(n)[i] == '-'
    decreases if n > 0 then n else 0
  {
    if n > 0 {
      DashesLength(n - 1);
    }
  }

  lemma RowLength(prefix: string, title: string, stats: string)
    ensures |Row(prefix, title, stats)|
            == |prefix| + |title| + 3 + |stats|
               + (if 50 - (|prefix| + |title| + 1) > 0 then 50 - (|prefix| + |title| + 1) else 0)
  {
    DashesLength(50 - (|prefix| + |title| + 1));
  }

  // The name, and for an operator the server's id.
  method PrintTitle(buf: array<char>, oper: bool, root: Server, startLen: nat, pbuf: nat) returns (pb: nat, len: nat)
    requires startLen == pbuf && pbuf + |Title(root, oper)| < buf.Length
    modifies buf
    ensures pb == len == pbuf + |Title(root, oper)| && buf[..pb] == old(buf[..pbuf]) + Title(root, oper)
  {
    TitleParts(buf[..pbuf], root, oper);
    len := startLen;
    buf[pbuf] := '\0';
    assert buf[..pbuf] == old(buf[..pbuf]);
    pb := pbuf;
    var l := Write(buf, pb, root.name);
    pb, len := pb + l, len + l;
    if oper && root.id != "" {
      l := Write(buf, pb, "[" + root.id + "]");
      pb, len := pb + l, len + l;
    }
  }

  // The rest of the line: the dashes, the bar and the statistics.
  method PrintTail(buf: array<char>, stats: string, start: nat, startLen: nat) returns (end: nat)
    requires start + 3 + |Dashes(50 - (startLen + 1))| + |stats| < buf.Length
    modifies buf
    ensures end < buf.Length && buf[end] == '\0'
    ensures buf[..end] == ((((old(buf[..start]) + [' ']) + Dashes(50 - (startLen + 1))) + [' ']) + ['|']) + stats
  {
    DashesLength(50 - (startLen + 1));
    hide Dashes;
    var pb := Put(buf, start, ' ');
    var len: int := startLen + 1;
    var dashes := 50 - len;
    pb := PutDashes(buf, pb, dashes);
    pb := Put(buf, pb, ' ');
    pb := Put(buf, pb, '|');
    var l := Write(buf, pb, stats);
    end := pb + l;
  }

  // The first part of dump_map: one server's line, printed from buf + pbuf on.
  method PrintRow(buf: array<char>, oper: bool, root: Server, startLen: nat, pbuf: nat) returns (line: string)
    requires buf.Length == IRCD_BUFSIZE && startLen == pbuf <= buf.Length && IsText(buf[..pbuf])
    requires IsText(root.name) && IsText(root.id) && IsText(root.stats)
    requires |Row(buf[..pbuf], Title(root, oper), root.stats)| < IRCD_BUFSIZE
    modifies buf
    ensures line == old(Row(buf[..pbuf], Title(root, oper), root.stats))
    ensures buf[..pbuf] == old(buf[..pbuf])
  {
    ghost var prefix, title := buf[..pbuf], Title(root, oper);
    ghost var row := Row(prefix, title, root.stats);
    RowLength(prefix, title, root.stats);
    RowIsText(prefix, root, oper);
    DashesLength(50 - (|prefix| + |title| + 1));
    RowParts(prefix, title, root.stats);
    hide *;
    var pb, len := PrintTitle(buf, oper, root, startLen, pbuf);
    var end := PrintTail(buf, root.stats, pb, len);
    line := CString(buf[..]);
    LineRead(buf[..], row, end);
    assert buf[..pbuf] == buf[..end][..pbuf];
  }

  lemma LineRead(buf: seq<char>, row: string, end: nat)
    requires end < |buf| && buf[..end] == row && buf[end] == '\0' && IsText(row)
    ensures CString(buf) == row
  {
    CStringIs(buf, row);
  }

  lemma TitleParts(prefix: string, s: Server, oper: bool)
    ensures prefix + Title(s, oper)
            == if oper && s.id != "" then (prefix + s.name) + ("[" + s.id + "]") else prefix + s.name
  {
    assert s.name + "" == s.name;
  }

  lemma RowParts(prefix: string, title: string, stats: string)
    ensures Row(prefix, title, stats)
            == (((((prefix + title) + [' ']) + Dashes(50 - (|prefix| + |title| + 1))) + [' ']) + ['|']) + stats
    ensures Row(prefix, title, stats)[..|prefix|] == prefix
  {
    hide Dashes;
    var dashes := Dashes(50 - (|prefix| + |title| + 1));
    assert " |" == [' '] + ['|'];
    assert (prefix + title + " " + dashes) + " |" == ((prefix + title + " " + dashes) + [' ']) + ['|'];
  }

  lemma RowIsText(prefix: string, s: Server, oper: bool)
    requires IsText(prefix) && IsText(s.name) && IsText(s.id) && IsText(s.stats)
    ensures IsText(Row(prefix, Title(s, oper), s.stats))
  {
    DashesLength(50 - (|prefix| + |Title(s, oper)| + 1));
    hide Dashes;
  }

  // -------- the recursion

  lemma ChildFits(s: Server, depth: nat, oper: bool, k: nat)
    requires Fits(s, depth, oper) && k < |s.servers|
    ensures Fits(s.servers[k], depth + 1, oper) && 4 * (depth + 1) < IRCD_BUFSIZE
  {
    assert s.servers[k] in s.servers;
    RowLength(seq(4 * (depth + 1), _ => ' '), Title(s.servers[k], oper), s.servers[k].stats);
  }

  lemma RowOfPrefix(bars: seq<bool>, s: Server, oper: bool)
    requires Fits(s, |bars|, oper)
    ensures |Row(Prefix(bars), Title(s, oper), s.stats)| < IRCD_BUFSIZE
  {
    ColumnsLength(bars);
    RowLength(seq(4 * |bars|, _ => ' '), Title(s, oper), s.stats);
    RowLength(Prefix(bars), Title(s, oper), s.stats);
  }

  // The two forms of a server's prefix differ only in its own connector.
  lemma LastColumn(bars: seq<bool>)
    requires bars != []
    ensures var p, last := 4 * |bars|, bars[|bars| - 1];
            && |Prefix(bars)| == |Columns(bars)| == p
            && (forall i :: 0 <= i < p && i != p - 2 && i != p - 3 ==> Prefix(bars)[i] == Columns(bars)[i])
            && Prefix(bars)[p - 3] == (if last then '|' else '`') && Prefix(bars)[p - 2] == '-'
            && Columns(bars)[p - 3] == (if last then '|' else ' ') && Columns(bars)[p - 2] == ' '
  {
    ColumnsLength(bars);
    ColumnsLength(bars[..|bars| - 1]);
  }

  // Before the children are printed, the connector of their parent becomes a column that only
  // passes through.
  method PatchConnector(buf: array<char>, pbuf: nat, ghost bars: seq<bool>)
    requires pbuf == 4 * |bars| <= buf.Length && buf[..pbuf] == Prefix(bars)
    modifies buf
    ensures buf[..pbuf] == Columns(bars)
    ensures forall i :: 0 <= i < buf.Length && i < pbuf - 3 ==> buf[i] == old(buf[i])
  {
    if bars != [] {
      LastColumn(bars);
    }
    hide Prefix, Columns;
    NoColumns();
    assert forall i :: 0 <= i < pbuf ==> buf[i] == buf[..pbuf][i];
    if pbuf > 3 {
      buf[pbuf - 2] := ' ';
      if buf[pbuf - 3] == '`' {
        buf[pbuf - 3] := ' ';
      }
    }
  }

  lemma NoColumns()
    ensures Columns([]) == Prefix([]) == ""
  {}

  // The connector written in front of a child.
  lemma ChildPrefix(bars: seq<bool>, more: bool)
    ensures Prefix(bars + [more]) == Columns(bars) + [' ', if more then '|' else '`', '-', ' ']
  {
    assert (bars + [more])[..|bars|] == bars;
    assert OwnColumn(more) == [' ', if more then '|' else '`', '-', ' '];
  }

  method PutConnector(buf: array<char>, pbuf: nat, i: nat, cnt: nat, ghost bars: seq<bool>)
    requires pbuf + 4 <= buf.Length && buf[..pbuf] == Columns(bars)
    modifies buf
    ensures buf[..pbuf + 4] == Prefix(bars + [i < cnt])
    ensures forall j :: 0 <= j < pbuf ==> buf[j] == old(buf[j])
  {
    ChildPrefix(bars, i < cnt);
    hide Prefix, Columns;
    buf[pbuf] := ' ';
    if i < cnt {
      buf[pbuf + 1] := '|';
    } else {
      buf[pbuf + 1] := '`';
    }
    buf[pbuf + 2] := '-';
    buf[pbuf + 3] := ' ';
    assert buf[pbuf..pbuf + 4] == [' ', if i < cnt then '|' else '`', '-', ' '];
    assert buf[..pbuf] == old(buf[..pbuf]);
    assert buf[..pbuf + 4] == buf[..pbuf] + buf[pbuf..pbuf + 4];
  }

  // A server's own line, and the patch of its connector when it has children.
  method StartServer(buf: array<char>, oper: bool, root: Server, startLen: nat, pbuf: nat, ghost bars: seq<bool>)
    returns (line: string, cnt: nat)
    requires buf.Length == IRCD_BUFSIZE && startLen == pbuf == 4 * |bars| <= buf.Length
    requires Fits(root, |bars|, oper) && buf[..pbuf] == Prefix(bars)
    modifies buf
    ensures line == Row(Prefix(bars), Title(root, oper), root.stats) && cnt == |root.servers|
    ensures root.servers != [] ==> buf[..pbuf] == Columns(bars)
    ensures forall i :: 0 <= i < buf.Length && i < pbuf - 3 ==> buf[i] == old(buf[i])
  {
    ColumnsLength(bars);
    RowOfPrefix(bars, root, oper);
    hide Prefix, Columns, Title, Row, IsText;
    line := PrintRow(buf, oper, root, startLen, pbuf);
    assert forall i :: 0 <= i < pbuf ==> buf[i] == buf[..pbuf][i] && old(buf[i]) == old(buf[..pbuf])[i];
    cnt := 0;
    if root.servers != [] {
      cnt := cnt + |root.servers|;
      if cnt != 0 {
        PatchConnector(buf, pbuf, bars);
      }
    }
  }

  // One turn of the loop over the children: the connector, then the child's part of the map.
  method DumpChild(buf: array<char>, oper: bool, child: Server, i: nat, cnt: nat, startLen: nat, pbuf: nat,
                   ghost bars: seq<bool>) returns (lines: seq<string>)
    requires buf.Length == IRCD_BUFSIZE && startLen == pbuf == 4 * |bars| && pbuf + 4 <= buf.Length
    requires Fits(child, |bars| + 1, oper) && buf[..pbuf] == Columns(bars)
    modifies buf
    ensures lines == MapLines(bars + [i < cnt], child, oper)
    ensures buf[..pbuf] == Columns(bars) && forall j :: 0 <= j < pbuf ==> buf[j] == old(buf[j])
    decreases child, 1
  {
    hide *;
    PutConnector(buf, pbuf, i, cnt, bars);
    ghost var column := buf[..pbuf];
    assert forall j :: 0 <= j < pbuf ==> buf[j] == column[j] && old(buf[j]) == old(buf[..pbuf])[j];
    lines := DumpMap(buf, oper, child, startLen + 4, pbuf + 4, bars + [i < cnt]);
    assert buf[..pbuf] == column;
  }

  // dump_map
  method DumpMap(buf: array<char>, oper: bool, root: Server, startLen: nat, pbuf: nat, ghost bars: seq<bool>)
    returns (lines: seq<string>)
    requires buf.Length == IRCD_BUFSIZE && startLen == pbuf == 4 * |bars| <= buf.Length
    requires Fits(root, |bars|, oper) && buf[..pbuf] == Prefix(bars)
    modifies buf
    ensures lines == MapLines(bars, root, oper)
    ensures forall i :: 0 <= i < buf.Length && i < pbuf - 3 ==> buf[i] == old(buf[i])
    decreases root, 0
  {
    hide *;
    var line, cnt := StartServer(buf, oper, root, startLen, pbuf, bars);
    lines := [line];
    FirstChild(bars, root, oper);
    var i := 1;
    for k := 0 to |root.servers|
      invariant i == k + 1
      invariant root.servers != [] ==> buf[..pbuf] == Columns(bars)
      invariant lines + ChildLines(bars, root.servers[k..], oper) == MapLines(bars, root, oper)
      invariant forall i :: 0 <= i < buf.Length && i < pbuf - 3 ==> buf[i] == old(buf[i])
    {
      ChildFits(root, |bars|, oper, k);
      var below := DumpChild(buf, oper, root.servers[k], i, cnt, startLen, pbuf, bars);
      NextChild(bars, root.servers, oper, k, lines, below);
      lines := lines + below;
      i := i + 1;
    }
    LastChild(bars, root.servers, oper, lines);
  }

  lemma FirstChild(bars: seq<bool>, s: Server, oper: bool)
    ensures [Row(Prefix(bars), Title(s, oper), s.stats)]
        + ChildLines(bars, s.servers[0..], oper) == MapLines(bars, s, oper)
  {
    assert s.servers[0..] == s.servers;
  }

  lemma LastChild(bars: seq<bool>, servers: seq<Server>, oper: bool, lines: seq<string>)
    ensures lines + ChildLines(bars, servers[|servers|..], oper) == lines
  {
    assert servers[|servers|..] == [];
  }

  lemma NextChild(bars: seq<bool>, servers: seq<Server>, oper: bool, k: nat, lines: seq<string>, below: seq<string>)
    requires k < |servers| && below == MapLines(bars + [k + 1 < |servers|], servers[k], oper)
    ensures lines + ChildLines(bars, servers[k..], oper) == (lines + below) + ChildLines(bars, servers[k + 1..], oper)
  {
    hide MapLines;
    assert servers[k..][1..] == servers[k + 1..] && servers[k..][0] == servers[k];
  }

  // The bar of a line stands in one column, whenever prefix, title and one blank fit in front of it.
  lemma BarColumn(prefix: string, title: string, stats: string)
    requires |prefix| + |title| + 1 <= 50
    ensures |Row(prefix, title, stats)| >= 52 && Row(prefix, title, stats)[50..52] == " |"
  {
    DashesLength(50 - (|prefix| + |title| + 1));
    var front := prefix + title + " " + Dashes(50 - (|prefix| + |title| + 1));
    assert |front| == 50;
    assert Row(prefix, title, stats) == front + " |" + stats;
  }
}
