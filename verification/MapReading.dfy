/**
 A client that reads the map of modules/m_map.c back: it counts four-character columns and takes the
 title and the statistics of each line. The tree comes back exactly when no line is cut on sending.
 */
module MapReading {
  import opened CBuffer
  import opened ServerMap
  import opened MapPositions
  import opened Sequences

  // -------- the reader

  // What a line says: how deep the server is, its title and its statistics.
  datatype Item = Item(depth: nat, title: string, stats: string)

  datatype Tree = Tree(title: string, stats: string, children: seq<Tree>)

  function Shape(s: Server, oper: bool): Tree
    decreases s, 1
  {
    Tree(Title(s, oper), s.stats, Shapes(s.servers, oper))
  }

  function Shapes(servers: seq<Server>, oper: bool): seq<Tree>
    decreases servers, 0
  {
    if servers == [] then [] else [Shape(servers[0], oper)] + Shapes(servers[1..], oper)
  }

  // The number of four-character segments in front of the title.
  function Depth(line: string): nat {
    if |line| >= 4 && line[0] == ' ' then 1 + Depth(line[4..]) else 0
  }

  function UpToBlank(s: string): string {
    if s == "" || s[0] == ' ' then "" else [s[0]] + UpToBlank(s[1..])
  }

  function AfterDashes(s: string): string {
    if s != "" && s[0] == '-' then AfterDashes(s[1..]) else s
  }

  function ReadLine(line: string): Item {
    var depth := Depth(line);
    var body := if 4 * depth <= |line| then line[4 * depth..] else "";
    var title := UpToBlank(body);
    var tail := AfterDashes(if |title| < |body| then body[|title| + 1..] else "");
    Item(depth, title, if |tail| >= 2 then tail[2..] else "")
  }

  function ReadForest(items: seq<Item>, depth: nat): (r: (seq<Tree>, seq<Item>))
    ensures |r.1| <= |items|
    decreases |items|
  {
    if items == [] || items[0].depth != depth then ([], items) else
      var (children, rest) := ReadForest(items[1..], depth + 1);
      var (siblings, rest') := ReadForest(rest, depth);
      ([Tree(items[0].title, items[0].stats, children)] + siblings, rest')
  }

  function ReadLines(lines: seq<string>): seq<Item> {
    if lines == [] then [] else [ReadLine(lines[0])] + ReadLines(lines[1..])
  }

  // A map is the forest at depth 0 of its lines.
  function ReadMap(lines: seq<string>): seq<Tree> { ReadForest(ReadLines(lines), 0).0 }

  // -------- the reader finds what the printer put there

  // A title can be told from its surroundings: it is not empty and holds no blank.
  predicate IsTitle(s: string) { s != "" && ' ' !in s }

  ghost predicate Readable(s: Server, oper: bool)
    decreases s
  {
    IsTitle(Title(s, oper)) && forall c :: c in s.servers ==> Readable(c, oper)
  }

  lemma {:induction false} PrefixBlanks(bars: seq<bool>, k: nat)
    requires k < |bars|
    ensures |Prefix(bars)| == |Columns(bars)| == 4 * |bars|
    ensures Prefix(bars)[4 * k] == ' ' && Columns(bars)[4 * k] == ' '
  {
    ColumnsLength(bars);
    ColumnsLength(bars[..|bars| - 1]);
    if k < |bars| - 1 {
      PrefixBlanks(bars[..|bars| - 1], k);
    }
  }

  lemma {:induction false} DepthIs(prefix: string, rest: string, n: nat)
    requires |prefix| == 4 * n && forall k :: 0 <= k < n ==> prefix[4 * k] == ' '
    requires rest != "" && rest[0] != ' '
    ensures Depth(prefix + rest) == n
  {
    if n == 0 {
      assert prefix + rest == rest;
    } else {
      assert (prefix + rest)[0] == prefix[4 * 0];
      assert (prefix + rest)[4..] == prefix[4..] + rest;
      forall k | 0 <= k < n - 1
        ensures prefix[4..][4 * k] == ' '
      {
        assert prefix[4..][4 * k] == prefix[4 * (k + 1)];
      }
      DepthIs(prefix[4..], rest, n - 1);
    }
  }

  lemma {:induction false} UpToBlankIs(title: string, rest: string)
    requires ' ' !in title && rest != "" && rest[0] == ' '
    ensures UpToBlank(title + rest) == title
  {
    if title == "" {
      assert title + rest == rest;
    } else {
      assert (title + rest)[1..] == title[1..] + rest;
      UpToBlankIs(title[1..], rest);
      assert title == [title[0]] + title[1..];
    }
  }

  lemma {:induction false} AfterDashesIs(n: int, rest: string)
    requires rest != "" && rest[0] != '-'
    ensures AfterDashes(Dashes(n) + rest) == rest
    decreases if n > 0 then n else 0
  {
    if n <= 0 {
      assert Dashes(n) + rest == rest;
    } else {
      assert (Dashes(n) + rest)[1..] == Dashes(n - 1) + rest;
      AfterDashesIs(n - 1, rest);
    }
  }

  ghost predicate HasBlanks(prefix: string, depth: nat) {
    |prefix| == 4 * depth && forall k :: 0 <= k < depth ==> prefix[4 * k] == ' '
  }

  lemma PrefixHasBlanks(bars: seq<bool>)
    ensures HasBlanks(Prefix(bars), |bars|)
  {
    ColumnsLength(bars);
    forall k | 0 <= k < |bars| { PrefixBlanks(bars, k); }
  }

  lemma DepthOfTitled(prefix: string, title: string, rest: string, depth: nat)
    requires HasBlanks(prefix, depth) && IsTitle(title)
    ensures Depth(prefix + (title + rest)) == depth && |prefix| == 4 * depth
  {
    var body := title + rest;
    assert body[0] == title[0];
    hide Depth;
    DepthIs(prefix, body, depth);
  }

  lemma DashesEnd(n: int, stats: string)
    ensures var end := " |" + stats;
            |end| >= 2 && AfterDashes(Dashes(n) + end) == end && end[2..] == stats
  {
    AfterBar(stats);
    var end := " |" + stats;
    hide AfterDashes, Dashes;
    AfterDashesIs(n, end);
  }

  lemma ReadLineOfRow(bars: seq<bool>, title: string, stats: string)
    requires IsTitle(title)
    ensures ReadLine(Row(Prefix(bars), title, stats)) == Item(|bars|, title, stats)
  {
    hide *;
    var prefix := Prefix(bars);
    var n := 50 - (|prefix| + |title| + 1);
    var end := " |" + stats;
    var tail := Dashes(n) + end;
    PrefixHasBlanks(bars);
    RowShape(prefix, title, stats);
    DepthOfTitled(prefix, title, " " + tail, |bars|);
    DashesEnd(n, stats);
    ReadParts(prefix, title, tail, end, |bars|);
  }

  lemma AfterBar(stats: string)
    ensures (" |" + stats)[2..] == stats
  {}

  lemma ReadParts(prefix: string, title: string, tail: string, end: string, depth: nat)
    requires IsTitle(title) && |prefix| == 4 * depth && AfterDashes(tail) == end
    requires Depth(prefix + (title + (" " + tail))) == depth
    ensures ReadLine(prefix + (title + (" " + tail)))
            == Item(depth, title, if |end| >= 2 then end[2..] else "")
  {
    hide Depth, AfterDashes;
    var body := title + (" " + tail);
    assert (prefix + body)[|prefix|..] == body;
    UpToBlankIs(title, " " + tail);
    hide UpToBlank;
    assert body[|title| + 1..] == tail;
  }

  lemma RowShape(prefix: string, title: string, stats: string)
    ensures Row(prefix, title, stats)
            == prefix + (title + (" " + (Dashes(50 - (|prefix| + |title| + 1)) + (" |" + stats))))
  {
    hide Dashes;
  }

  function PreOrder(depth: nat, s: Server, oper: bool): seq<Item>
    decreases s, 1
  {
    [Item(depth, Title(s, oper), s.stats)] + PreOrders(depth + 1, s.servers, oper)
  }

  function PreOrders(depth: nat, servers: seq<Server>, oper: bool): seq<Item>
    decreases servers, 0
  {
    if servers == [] then [] else PreOrder(depth, servers[0], oper) + PreOrders(depth, servers[1..], oper)
  }

  lemma {:induction false} ReadLinesAppend(a: seq<string>, b: seq<string>)
    ensures ReadLines(a + b) == ReadLines(a) + ReadLines(b)
  {
    hide ReadLine;
    if a == [] {
      assert a + b == b;
    } else {
      assert (a + b)[1..] == a[1..] + b;
      ReadLinesAppend(a[1..], b);
    }
  }

  lemma {:induction false} ReadMapLines(bars: seq<bool>, s: Server, oper: bool)
    requires Readable(s, oper)
    ensures ReadLines(MapLines(bars, s, oper)) == PreOrder(|bars|, s, oper)
    decreases s, 1
  {
    var row := Row(Prefix(bars), Title(s, oper), s.stats);
    ReadLineOfRow(bars, Title(s, oper), s.stats);
    hide ReadLine, Row, Prefix, Title, IsTitle;
    ReadChildLines(bars, s.servers, oper);
    ReadLinesAppend([row], ChildLines(bars, s.servers, oper));
    assert ReadLines([row]) == [ReadLine(row)] + ReadLines([]);
  }

  lemma {:induction false} ReadChildLines(bars: seq<bool>, servers: seq<Server>, oper: bool)
    requires forall c :: c in servers ==> Readable(c, oper)
    ensures ReadLines(ChildLines(bars, servers, oper)) == PreOrders(|bars| + 1, servers, oper)
    decreases servers, 0
  {
    if servers != [] {
      hide Readable, MapLines, PreOrder;
      var longer := bars + [|servers| > 1];
      assert servers[0] in servers;
      ReadMapLines(longer, servers[0], oper);
      ReadChildLines(bars, servers[1..], oper);
      ReadLinesAppend(MapLines(longer, servers[0], oper), ChildLines(bars, servers[1..], oper));
    }
  }

  // A forest is read up to the first item that is not as deep.
  lemma {:induction false} ReadPreOrders(depth: nat, servers: seq<Server>, oper: bool, rest: seq<Item>)
    requires rest != [] ==> rest[0].depth < depth
    ensures ReadForest(PreOrders(depth, servers, oper) + rest, depth) == (Shapes(servers, oper), rest)
    decreases servers
  {
    if servers == [] {
      assert PreOrders(depth, servers, oper) + rest == rest;
    } else {
      var s := servers[0];
      var item := Item(depth, Title(s, oper), s.stats);
      var below, after := PreOrders(depth + 1, s.servers, oper), PreOrders(depth, servers[1..], oper) + rest;
      PreOrdersSplit(depth, servers, oper, rest);
      AfterStarts(depth, servers[1..], oper, rest);
      hide Title, PreOrders, ReadForest, Shape;
      ReadPreOrders(depth + 1, s.servers, oper, after);
      ReadPreOrders(depth, servers[1..], oper, rest);
      ReadStep(item, below + after, depth, Shapes(s.servers, oper), after, Shapes(servers[1..], oper), rest);
      ShapeIs(s, oper);
    }
  }

  lemma ShapeIs(s: Server, oper: bool)
    ensures Shape(s, oper) == Tree(Title(s, oper), s.stats, Shapes(s.servers, oper))
  {}

  lemma PreOrdersSplit(depth: nat, servers: seq<Server>, oper: bool, rest: seq<Item>)
    requires servers != []
    ensures var s := servers[0];
            PreOrders(depth, servers, oper) + rest
            == [Item(depth, Title(s, oper), s.stats)]
               + (PreOrders(depth + 1, s.servers, oper) + (PreOrders(depth, servers[1..], oper) + rest))
  {
    hide Title;
  }

  lemma ReadStep(item: Item, items: seq<Item>, depth: nat, children: seq<Tree>, after: seq<Item>,
                 siblings: seq<Tree>, rest: seq<Item>)
    requires item.depth == depth && ReadForest(items, depth + 1) == (children, after)
    requires ReadForest(after, depth) == (siblings, rest)
    ensures ReadForest([item] + items, depth) == ([Tree(item.title, item.stats, children)] + siblings, rest)
  {
    assert ([item] + items)[1..] == items;
  }

  lemma AfterStarts(depth: nat, servers: seq<Server>, oper: bool, rest: seq<Item>)
    requires rest != [] ==> rest[0].depth < depth
    ensures var after := PreOrders(depth, servers, oper) + rest;
            after != [] ==> after[0].depth < depth + 1
  {}

  // The printed map is unambiguous: the reader rebuilds the tree from its lines.
  lemma MapIsReadable(root: Server, oper: bool)
    requires Readable(root, oper)
    ensures ReadMap(MapLines([], root, oper)) == [Shape(root, oper)]
  {
    ReadMapLines([], root, oper);
    hide MapLines;
    ReadPreOrders(0, [root], oper, []);
    ShapesOfOne(root, oper);
    assert PreOrders(0, [root], oper) + [] == PreOrders(0, [root], oper);
  }

  // -------- the map as it arrives

  // The lines of the map as they are sent, and what is found behind their headers.
  function SentMap(header: string, lines: seq<string>): seq<string> {
    seq(|lines|, i requires 0 <= i < |lines| => Sent(header + lines[i]))
  }

  function Bodies(header: string, sent: seq<string>): seq<string> {
    seq(|sent|, i requires 0 <= i < |sent| => Body(header, sent[i]))
  }

  ghost predicate AllArriveWhole(header: string, lines: seq<string>) {
    forall l :: l in lines ==> |header| + |l| <= IRCD_BUFSIZE - 2
  }

  // The map always prints statistics.
  ghost predicate HasStats(s: Server)
    decreases s
  {
    s.stats != "" && forall c :: c in s.servers ==> HasStats(c)
  }

  lemma BodiesAre(header: string, lines: seq<string>, i: nat)
    requires i < |lines|
    ensures Bodies(header, SentMap(header, lines))[i] == Cut(lines[i], Room(header))
  {
    hide Body, Sent, Cut;
    BodyIsCut(header, lines[i]);
  }

  // The reader loses no item: those of its trees, printed again, and those left over are all there were.
  function ItemsOf(depth: nat, trees: seq<Tree>): seq<Item>
    decreases trees
  {
    if trees == [] then []
    else
      var t := trees[0];
      [Item(depth, t.title, t.stats)] + (ItemsOf(depth + 1, t.children) + ItemsOf(depth, trees[1..]))
  }

  lemma ItemsOfMore(depth: nat, t: Tree, trees: seq<Tree>)
    ensures ItemsOf(depth, [t] + trees)
            == [Item(depth, t.title, t.stats)] + (ItemsOf(depth + 1, t.children) + ItemsOf(depth, trees))
  {
    assert ([t] + trees)[1..] == trees;
  }

  lemma KeepStep(item: Item, below: seq<Item>, children: seq<Tree>, rest: seq<Item>, siblings: seq<Tree>,
                 rest': seq<Item>)
    requires ItemsOf(item.depth + 1, children) + rest == below && ItemsOf(item.depth, siblings) + rest' == rest
    ensures ItemsOf(item.depth, [Tree(item.title, item.stats, children)] + siblings) + rest' == [item] + below
  {
    hide ItemsOf;
    ItemsOfMore(item.depth, Tree(item.title, item.stats, children), siblings);
    var inner, after := ItemsOf(item.depth + 1, children), ItemsOf(item.depth, siblings);
    Regroup([item], inner + after, rest');
    Regroup(inner, after, rest');
  }

  lemma {:induction false} ReadForestKeeps(items: seq<Item>, depth: nat)
    ensures var (trees, rest) := ReadForest(items, depth); ItemsOf(depth, trees) + rest == items
    decreases |items|
  {
    if items == [] || items[0].depth != depth {
      assert ItemsOf(depth, []) + items == items;
    } else {
      var (children, rest) := ReadForest(items[1..], depth + 1);
      var (siblings, rest') := ReadForest(rest, depth);
      hide ItemsOf;
      ReadForestKeeps(items[1..], depth + 1);
      ReadForestKeeps(rest, depth);
      KeepStep(items[0], items[1..], children, rest, siblings, rest');
    }
  }

  lemma {:induction false} ItemsOfShapes(depth: nat, servers: seq<Server>, oper: bool)
    ensures ItemsOf(depth, Shapes(servers, oper)) == PreOrders(depth, servers, oper)
    decreases servers
  {
    if servers != [] {
      var s := servers[0];
      ItemsOfShapes(depth + 1, s.servers, oper);
      ItemsOfShapes(depth, servers[1..], oper);
      PreOrdersSplit(depth, servers, oper, []);
      ShapeIs(s, oper);
      hide Title, Shape, PreOrders, ItemsOf;
      ItemsOfMore(depth, Shape(s, oper), Shapes(servers[1..], oper));
    }
  }

  lemma {:induction false} ReadLinesAt(lines: seq<string>)
    ensures |ReadLines(lines)| == |lines|
    ensures forall i :: 0 <= i < |lines| ==> ReadLines(lines)[i] == ReadLine(lines[i])
  {
    hide ReadLine;
    if lines != [] {
      ReadLinesAt(lines[1..]);
    }
  }

  // -------- a line that is cut is misread

  lemma {:induction false} DepthBound(line: string)
    ensures 4 * Depth(line) <= |line|
  {
    if |line| >= 4 && line[0] == ' ' {
      DepthBound(line[4..]);
    }
  }

  // Cut within its columns, a line has no title.
  lemma CutColumns(line: string)
    requires forall k :: 0 <= 4 * k < |line| ==> line[4 * k] == ' '
    ensures ReadLine(line).title == ""
  {
    DepthBound(line);
    hide Depth, AfterDashes;
    var depth := Depth(line);
    if 4 * depth < |line| {
      assert line[4 * depth..][0] == line[4 * depth];
    }
  }

  lemma {:induction false} UpToNoBlank(s: string)
    requires ' ' !in s
    ensures UpToBlank(s) == s
  {
    if s != "" {
      UpToNoBlank(s[1..]);
      assert s == [s[0]] + s[1..];
    }
  }

  // Cut within its title, it has no statistics.
  lemma CutTitle(prefix: string, title: string, depth: nat)
    requires HasBlanks(prefix, depth) && IsTitle(title)
    ensures ReadLine(prefix + title).stats == ""
  {
    DepthOfTitled(prefix, title, "", depth);
    assert title + "" == title;
    hide Depth;
    assert (prefix + title)[|prefix|..] == title;
    UpToNoBlank(title);
    hide UpToBlank;
  }

  lemma {:induction false} OnlyDashes(s: string)
    requires forall i :: 0 <= i < |s| ==> s[i] == '-'
    ensures AfterDashes(s) == ""
  {
    if s != "" {
      OnlyDashes(s[1..]);
    }
  }

  // Cut behind its title, its statistics are shorter.
  lemma CutTail(n: int, stats: string, m: nat)
    requires stats != "" && m < |Dashes(n) + (" |" + stats)|
    ensures var end := AfterDashes((Dashes(n) + (" |" + stats))[..m]);
            |if |end| >= 2 then end[2..] else ""| < |stats|
  {
    DashesLength(n);
    var dashes, bar := Dashes(n), " |" + stats;
    hide Dashes, AfterDashes;
    if m <= |dashes| {
      assert (dashes + bar)[..m] == dashes[..m];
      OnlyDashes(dashes[..m]);
    } else {
      var end := bar[..m - |dashes|];
      assert (dashes + bar)[..m] == dashes + end;
      assert end[0] == bar[0];
      AfterDashesIs(n, end);
    }
  }

  lemma CutRest(prefix: string, title: string, n: int, stats: string, depth: nat, m: nat)
    requires HasBlanks(prefix, depth) && IsTitle(title) && stats != ""
    requires m < |Dashes(n) + (" |" + stats)|
    ensures ReadLine(prefix + (title + (" " + (Dashes(n) + (" |" + stats))[..m]))).stats != stats
  {
    hide *;
    var tail := (Dashes(n) + (" |" + stats))[..m];
    DepthOfTitled(prefix, title, " " + tail, depth);
    CutTail(n, stats, m);
    ReadParts(prefix, title, tail, AfterDashes(tail), depth);
  }

  lemma CutFront(a: string, b: string, n: nat)
    requires n <= |a + b|
    ensures (a + b)[..n] == if n <= |a| then a[..n] else a + b[..n - |a|]
  {}

  lemma CutOfSum(prefix: string, title: string, tail: string, n: nat)
    requires n < |prefix + (title + (" " + tail))|
    ensures var line, last := (prefix + (title + (" " + tail)))[..n], n - |prefix| - |title|;
            line == if n <= |prefix| then prefix[..n]
                    else if last <= 0 then prefix + title[..n - |prefix|]
                    else prefix + (title + (" " + tail[..last - 1]))
  {
    CutFront(prefix, title + (" " + tail), n);
    if n > |prefix| {
      var m := n - |prefix|;
      CutFront(title, " " + tail, m);
      if m > |title| {
        CutFront(" ", tail, m - |title|);
      }
    }
  }

  lemma CutRowIsMisread(bars: seq<bool>, title: string, stats: string, n: nat)
    requires IsTitle(title) && stats != "" && n < |Row(Prefix(bars), title, stats)|
    ensures ReadLine(Row(Prefix(bars), title, stats)[..n]) != Item(|bars|, title, stats)
  {
    var prefix := Prefix(bars);
    var dashes := 50 - (|prefix| + |title| + 1);
    var tail := Dashes(dashes) + (" |" + stats);
    PrefixHasBlanks(bars);
    hide Prefix, Dashes, Row, ReadLine;
    RowShape(prefix, title, stats);
    CutOfSum(prefix, title, tail, n);
    if n <= |prefix| {
      CutColumns(prefix[..n]);
    } else if n <= |prefix| + |title| {
      var front := title[..n - |prefix|];
      CutTitle(prefix, front, |bars|);
    } else {
      CutRest(prefix, title, dashes, stats, |bars|, n - |prefix| - |title| - 1);
    }
  }

  lemma {:induction false} ReadableAt(s: Server, path: seq<nat>, oper: bool)
    requires IsPath(s, path) && Readable(s, oper) && HasStats(s)
    ensures IsTitle(Title(ServerAt(s, path), oper)) && ServerAt(s, path).stats != ""
    decreases |path|
  {
    hide Title;
    if path != [] {
      assert s.servers[path[0]] in s.servers;
      ReadableAt(s.servers[path[0]], path[1..], oper);
    }
  }

  lemma CutLineIsMisread(root: Server, oper: bool, i: nat, n: nat)
    requires Readable(root, oper) && HasStats(root)
    requires i < |MapLines([], root, oper)| && n < |MapLines([], root, oper)[i]|
    ensures ReadLine(MapLines([], root, oper)[i][..n]) != ReadLine(MapLines([], root, oper)[i])
  {
    hide *;
    LineIsServers(root, oper, i);
    var path := PathOf(root, i);
    var bars, at := [] + Bars(root, path), ServerAt(root, path);
    RowAt([], root, path, oper);
    ReadableAt(root, path, oper);
    ReadLineOfRow(bars, Title(at, oper), at.stats);
    CutRowIsMisread(bars, Title(at, oper), at.stats, n);
  }

  lemma ShapesOfOne(root: Server, oper: bool)
    ensures Shapes([root], oper) == [Shape(root, oper)]
    ensures PreOrders(0, [root], oper) == PreOrder(0, root, oper)
  {
    assert Shapes([root], oper) == [Shape(root, oper)] + Shapes([root][1..], oper);
    assert PreOrders(0, [root], oper) == PreOrder(0, root, oper) + PreOrders(0, [root][1..], oper);
  }

  // As many lines that read as the tree read as its own lines.
  lemma SameItems(root: Server, oper: bool, lines: seq<string>)
    requires Readable(root, oper) && |lines| == |MapLines([], root, oper)|
    requires ReadMap(lines) == [Shape(root, oper)]
    ensures ReadLines(lines) == ReadLines(MapLines([], root, oper))
  {
    ReadForestKeeps(ReadLines(lines), 0);
    hide ReadForest, MapLines, Shape, Shapes, ItemsOf, PreOrder, PreOrders, ReadLines, Readable;
    ReadMapLines([], root, oper);
    ReadLinesAt(lines);
    ReadLinesAt(MapLines([], root, oper));
    ItemsOfShapes(0, [root], oper);
    ShapesOfOne(root, oper);
  }

  // The map as it arrives reads as the tree exactly when no line was cut.
  lemma MapArrivesExactly(root: Server, oper: bool, header: string)
    requires Readable(root, oper) && HasStats(root)
    ensures var lines := MapLines([], root, oper);
            ReadMap(Bodies(header, SentMap(header, lines))) == [Shape(root, oper)] <==> AllArriveWhole(header, lines)
  {
    hide MapLines, Readable, HasStats, ReadMap, Shape;
    var lines := MapLines([], root, oper);
    var bodies := Bodies(header, SentMap(header, lines));
    forall i | 0 <= i < |lines| ensures bodies[i] == Cut(lines[i], Room(header)) { BodiesAre(header, lines, i); }
    if AllArriveWhole(header, lines) {
      assert bodies == lines;
      MapIsReadable(root, oper);
    } else {
      var i :| 0 <= i < |lines| && |header| + |lines[i]| > IRCD_BUFSIZE - 2;
      assert lines[i] != "" by { TextOnLine(root, oper, i); }
      CutLineIsMisread(root, oper, i, Room(header));
      if ReadMap(bodies) == [Shape(root, oper)] {
        SameItems(root, oper, bodies);
        ReadLinesAt(bodies);
        ReadLinesAt(lines);
        assert false;
      }
    }
  }

  lemma TextOnLine(root: Server, oper: bool, i: nat)
    requires i < |MapLines([], root, oper)|
    ensures MapLines([], root, oper)[i] != ""
  {
    hide *;
    LineIsServers(root, oper, i);
    var path := PathOf(root, i);
    var bars, at := [] + Bars(root, path), ServerAt(root, path);
    RowAt([], root, path, oper);
    RowLength(Prefix(bars), Title(at, oper), at.stats);
  }
}
