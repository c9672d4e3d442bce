/** Mounting the server in a workstation config: a line-level merge whose result is read back as tables. */
module CodexConfig {
  import opened Common

  /** What TOML values the merge tells apart. */
  datatype Value = Text(text: string) | List(items: seq<string>) | OtherValue

  /** A table path; the root table is `[]`. */
  type Table = seq<string>

  /** How a header line is written: exactly as the merge writes it, in another way that ends in a bracket, or with something
      after its bracket, such as a comment. */
  datatype Spelling = Exact | Closed | Trailed

  datatype Line = Blank | Comment(text: string) | Header(table: Table, spelling: Spelling) | Entry(key: string, value: Value)

  datatype Status = Missing | InvalidToml | MissingServer | Conflict | Mounted | LegacyRootBound

  datatype Command = Command(program: string, args: seq<string>)

  datatype Row = Row(table: Table, key: string, value: Value)

  const SERVERS := "mcp_servers"
  const NAME := "mylittleharness"
  const SERVER: Table := [SERVERS, NAME]
  const SERVER_HEADER := Header(SERVER, Exact)
  const BLOCK_START := Comment("# BEGIN MyLittleHarness mcp-read-projection")
  const BLOCK_END := Comment("# END MyLittleHarness mcp-read-projection")
  const COMMAND := "command"
  const ARGS := "args"

  // The table view of a text

  function CurrentTable(lines: seq<Line>, at: Table): Table {
    if lines == [] then at
    else if lines[0].Header? then CurrentTable(lines[1..], lines[0].table)
    else CurrentTable(lines[1..], at)
  }

  /** The entries with their tables, when reading starts in table `at`. */
  function Rows(lines: seq<Line>, at: Table): multiset<Row> {
    if lines == [] then multiset{}
    else
      match lines[0]
      case Header(table, _) => Rows(lines[1..], table)
      case Entry(key, value) => multiset{Row(at, key, value)} + Rows(lines[1..], at)
      case _ => Rows(lines[1..], at)
  }

  function Tables(lines: seq<Line>): multiset<Table> {
    if lines == [] then multiset{}
    else (if lines[0].Header? then multiset{lines[0].table} else multiset{}) + Tables(lines[1..])
  }

  /** No table and no key is defined twice, and no key is also a table. */
  predicate Valid(rows: multiset<Row>, tables: multiset<Table>) {
    && (forall t :: t in tables ==> tables[t] == 1)
    && (forall r, s :: r in rows && s in rows && r.table == s.table && r.key == s.key ==> r == s && rows[r] == 1)
    && (forall r, t :: r in rows && t in tables ==> !(r.table + [r.key] <= t))
  }

  lemma {:induction false} RowsJoin(a: seq<Line>, b: seq<Line>, at: Table)
    ensures Rows(a + b, at) == Rows(a, at) + Rows(b, CurrentTable(a, at))
    ensures Tables(a + b) == Tables(a) + Tables(b)
    ensures CurrentTable(a + b, at) == CurrentTable(b, CurrentTable(a, at))
  {
    if a == [] {
      assert a + b == b;
    } else {
      assert (a + b)[1..] == a[1..] + b;
      RowsJoin(a[1..], b, if a[0].Header? then a[0].table else at);
    }
  }

  /** A row is in the table where reading started or in one that the text opens. */
  lemma {:induction false} RowsAreInTables(lines: seq<Line>, at: Table, r: Row)
    requires r in Rows(lines, at)
    ensures r.table == at || r.table in Tables(lines)
  {
    if r !in (if lines[0].Entry? then multiset{Row(at, lines[0].key, lines[0].value)} else multiset{}) {
      RowsAreInTables(lines[1..], if lines[0].Header? then lines[0].table else at, r);
    }
  }

  // Status

  function LegacySuffix(): seq<string> {
    ["adapter", "--serve", "--target", "mcp-read-projection", "--transport", "stdio"]
  }

  predicate IsLegacyArgs(v: Value) {
    v.List? && |v.items| == |LegacySuffix()| + 2 && v.items[0] == "--root" && v.items[2..] == LegacySuffix()
  }

  predicate IsLegacyRow(r: Row) {
    r.table == SERVER && r.key == ARGS && IsLegacyArgs(r.value)
  }

  predicate BelowServer(t: Table) {
    |SERVER| < |t| && SERVER <= t
  }

  predicate HasServer(tables: multiset<Table>) {
    SERVER in tables || exists t :: t in tables && BelowServer(t)
  }

  predicate HasExtraKeys(rows: multiset<Row>, tables: multiset<Table>) {
    || (exists r :: r in rows && r.table == SERVER && r.key != COMMAND && r.key != ARGS)
    || (exists t :: t in tables && BelowServer(t))
  }

  predicate ServerIsNoTable(rows: multiset<Row>) {
    exists r :: r in rows && r.table == [SERVERS] && r.key == NAME
  }

  function CommandRow(c: Command): Row { Row(SERVER, COMMAND, Text(c.program)) }

  function ArgsRow(c: Command): Row { Row(SERVER, ARGS, List(c.args)) }

  function TableStatus(rows: multiset<Row>, tables: multiset<Table>, expected: Command): Status {
    if !Valid(rows, tables) then InvalidToml
    else if ServerIsNoTable(rows) then Conflict
    else if !HasServer(tables) then MissingServer
    else if CommandRow(expected) in rows && ArgsRow(expected) in rows then Mounted
    else if Row(SERVER, COMMAND, Text(NAME)) in rows && (exists r :: r in rows && IsLegacyRow(r)) && !HasExtraKeys(rows, tables)
    then LegacyRootBound
    else Conflict
  }

  function ConfigStatus(config: Option<seq<Line>>, expected: Command): Status {
    match config
    case None => Missing
    case Some(lines) => TableStatus(Rows(lines, []), Tables(lines), expected)
  }

  // Merging

  /** `r` is `lines` without its blank lines at the end. */
  ghost predicate IsStripped(r: seq<Line>, lines: seq<Line>) {
    && |r| <= |lines| && r == lines[..|r|] && (r != [] ==> r[|r| - 1] != Blank)
    && forall i :: |r| <= i < |lines| ==> lines[i] == Blank
  }

  lemma {:induction false} RStripStrips(lines: seq<Line>)
    ensures IsStripped(RStrip(lines), lines)
  {
    if lines != [] && lines[|lines| - 1] == Blank {
      var front := lines[..|lines| - 1];
      RStripStrips(front);
      forall i | |RStrip(front)| <= i < |lines| ensures lines[i] == Blank {
        if i < |front| { assert front[i] == lines[i]; }
      }
    }
  }

  function RStrip(lines: seq<Line>): seq<Line> {
    if lines != [] && lines[|lines| - 1] == Blank then RStrip(lines[..|lines| - 1]) else lines
  }

  lemma {:induction false} RStripKeepsRows(lines: seq<Line>, at: Table)
    ensures Rows(RStrip(lines), at) == Rows(lines, at) && Tables(RStrip(lines)) == Tables(lines)
    ensures CurrentTable(RStrip(lines), at) == CurrentTable(lines, at)
  {
    if lines != [] && lines[|lines| - 1] == Blank {
      var front := lines[..|lines| - 1];
      RStripKeepsRows(front, at);
      assert lines == front + [Blank];
      RowsJoin(front, [Blank], at);
    }
  }

  function ServerTable(c: Command): seq<Line> {
    [SERVER_HEADER, Entry(COMMAND, Text(c.program)), Entry(ARGS, List(c.args))]
  }

  function AppendBlock(before: seq<Line>, c: Command): seq<Line> {
    var prefix := RStrip(before);
    if prefix == [] then Block(c) else prefix + [Blank] + Block(c)
  }

  lemma OneLine(l: Line, at: Table)
    ensures Rows([l], at) == if l.Entry? then multiset{Row(at, l.key, l.value)} else multiset{}
    ensures Tables([l]) == if l.Header? then multiset{l.table} else multiset{}
    ensures CurrentTable([l], at) == if l.Header? then l.table else at
  {
    assert [l][1..] == [];
  }

  lemma ServerTableRows(c: Command, at: Table)
    ensures Rows(ServerTable(c), at) == multiset{CommandRow(c), ArgsRow(c)}
    ensures Tables(ServerTable(c)) == multiset{SERVER}
    ensures CurrentTable(ServerTable(c), at) == SERVER
  {
    var header, command, args := SERVER_HEADER, Entry(COMMAND, Text(c.program)), Entry(ARGS, List(c.args));
    OneLine(header, at);
    OneLine(command, SERVER);
    OneLine(args, SERVER);
    RowsJoin([header], [command], at);
    RowsJoin([header] + [command], [args], at);
    assert ServerTable(c) == [header] + [command] + [args];
  }

  function Block(c: Command): seq<Line> {
    [BLOCK_START] + ServerTable(c) + [BLOCK_END]
  }

  lemma BlockRows(c: Command, at: Table)
    ensures Rows(Block(c), at) == multiset{CommandRow(c), ArgsRow(c)} && Tables(Block(c)) == multiset{SERVER}
  {
    var table := ServerTable(c);
    ServerTableRows(c, at);
    OneLine(BLOCK_START, at);
    OneLine(BLOCK_END, SERVER);
    RowsJoin([BLOCK_START], table, at);
    RowsJoin([BLOCK_START] + table, [BLOCK_END], at);
  }

  lemma AppendedRows(before: seq<Line>, c: Command)
    ensures Rows(AppendBlock(before, c), []) == Rows(before, []) + multiset{CommandRow(c), ArgsRow(c)}
    ensures Tables(AppendBlock(before, c)) == Tables(before) + multiset{SERVER}
  {
    var prefix := RStrip(before);
    var at := CurrentTable(prefix, []);
    RStripKeepsRows(before, []);
    BlockRows(c, at);
    OneLine(Blank, at);
    RowsJoin(prefix, [Blank], []);
    RowsJoin(prefix + [Blank], Block(c), []);
  }

  // Finding the server's block

  predicate EndsBlock(l: Line) {
    l.Header? && l.spelling != Trailed
  }

  /** The first exact header of the server from `i` on. */
  function ServerStart(lines: seq<Line>, i: nat): (r: nat)
    requires i <= |lines|
    ensures i <= r <= |lines|
    ensures forall j :: i <= j < r ==> lines[j] != SERVER_HEADER
    ensures r < |lines| ==> lines[r] == SERVER_HEADER
    decreases |lines| - i
  {
    if i == |lines| || lines[i] == SERVER_HEADER then i else ServerStart(lines, i + 1)
  }

  /** The next line from `i` on that ends a block. */
  function BlockEnd(lines: seq<Line>, i: nat): (r: nat)
    requires i <= |lines|
    ensures i <= r <= |lines|
    ensures forall j :: i <= j < r ==> !EndsBlock(lines[j])
    ensures r < |lines| ==> EndsBlock(lines[r])
    decreases |lines| - i
  {
    if i == |lines| || EndsBlock(lines[i]) then i else BlockEnd(lines, i + 1)
  }

  method FindServerBlock(lines: seq<Line>) returns (found: bool, start: nat, end: nat)
    ensures start == ServerStart(lines, 0) && found == (start < |lines|)
    ensures end == if found then BlockEnd(lines, start + 1) else |lines|
  {
    start, end := 0, |lines|;
    while start < |lines| && lines[start] != SERVER_HEADER
      invariant start <= |lines| && ServerStart(lines, 0) == ServerStart(lines, start)
    {
      start := start + 1;
    }
    found := start < |lines|;
    if found {
      end := start + 1;
      while end < |lines| && !EndsBlock(lines[end])
        invariant start < end <= |lines| && BlockEnd(lines, start + 1) == BlockEnd(lines, end)
      {
        end := end + 1;
      }
    }
  }

  predicate HasExactHeader(lines: seq<Line>) {
    ServerStart(lines, 0) < |lines|
  }

  function Replaced(lines: seq<Line>, c: Command): seq<Line>
    requires HasExactHeader(lines)
  {
    var start := ServerStart(lines, 0);
    RStrip(lines[..start] + ServerTable(c) + lines[BlockEnd(lines, start + 1)..])
  }

  // What replacing the block does to the tables

  lemma {:induction false} HeaderSetsTable(lines: seq<Line>, at: Table)
    ensures (exists i :: 0 <= i < |lines| && lines[i].Header?) ==> CurrentTable(lines, at) in Tables(lines)
    ensures (exists i :: 0 <= i < |lines| && lines[i].Header?) <==> Tables(lines) != multiset{}
  {
    if lines != [] {
      var rest := lines[1..];
      HeaderSetsTable(rest, if lines[0].Header? then lines[0].table else at);
      if i :| 0 <= i < |lines| && lines[i].Header? {
        assert i > 0 ==> rest[i - 1].Header?;
      }
      if i :| 0 <= i < |rest| && rest[i].Header? {
        assert lines[i + 1].Header?;
      } else {
        NoHeaderKeepsTable(rest, if lines[0].Header? then lines[0].table else at);
      }
    }
  }

  lemma {:induction false} NoHeaderKeepsTable(lines: seq<Line>, at: Table)
    requires forall i :: 0 <= i < |lines| ==> !lines[i].Header?
    ensures CurrentTable(lines, at) == at
  {
    if lines != [] {
      NoHeaderKeepsTable(lines[1..], at);
    }
  }

  lemma {:induction false} NoEntriesNoRows(lines: seq<Line>, at: Table)
    requires forall i :: 0 <= i < |lines| ==> !lines[i].Entry?
    ensures Rows(lines, at) == multiset{}
  {
    if lines != [] {
      NoEntriesNoRows(lines[1..], if lines[0].Header? then lines[0].table else at);
    }
  }

  ghost predicate EntryBelowHeader(lines: seq<Line>, h: nat, k: nat) {
    h < k < |lines| && lines[h].Header? && lines[k].Entry?
  }

  ghost predicate HasEntryBelowHeader(lines: seq<Line>) {
    exists h: nat, k: nat :: EntryBelowHeader(lines, h, k)
  }

  lemma EntryBelowHeaderIsForeign(lines: seq<Line>, at: Table, h: nat, k: nat)
    requires at !in Tables(lines) && EntryBelowHeader(lines, h, k)
    ensures exists r :: r in Rows(lines, at) && r.table != at
  {
    var before, after := lines[..k], lines[k + 1..];
    assert lines == before + [lines[k]] + after;
    RowsJoin(before, [lines[k]], at);
    RowsJoin(before + [lines[k]], after, at);
    assert before[h].Header?;
    HeaderSetsTable(before, at);
    OneLine(lines[k], CurrentTable(before, at));
    assert Row(CurrentTable(before, at), lines[k].key, lines[k].value) in Rows(lines, at);
  }

  lemma {:induction false} OtherwiseAllRowsStay(lines: seq<Line>, at: Table)
    requires !HasEntryBelowHeader(lines)
    ensures forall r :: r in Rows(lines, at) ==> r.table == at
  {
    if lines != [] {
      var rest := lines[1..];
      if lines[0].Header? {
        forall i | 0 <= i < |rest| ensures !rest[i].Entry? {
          assert !EntryBelowHeader(lines, 0, i + 1);
        }
        NoEntriesNoRows(rest, lines[0].table);
      } else {
        forall h: nat, k: nat ensures !EntryBelowHeader(rest, h, k) {
          assert !EntryBelowHeader(lines, h + 1, k + 1);
        }
        OtherwiseAllRowsStay(rest, at);
      }
    }
  }

  /** A block cut out of a text: `a`, the server's header, `b` up to the next line that ends a block, `d` from there on. */
  lemma CutRows(a: seq<Line>, b: seq<Line>, d: seq<Line>)
    requires d != [] ==> d[0].Header?
    ensures var lines := a + [SERVER_HEADER] + b + d;
            && Tables(lines) == Tables(a) + multiset{SERVER} + Tables(b) + Tables(d)
            && Rows(lines, []) == Rows(a, []) + Rows(b, SERVER) + Rows(d, SERVER)
  {
    OneLine(SERVER_HEADER, CurrentTable(a, []));
    RowsJoin(a, [SERVER_HEADER], []);
    RowsJoin(a + [SERVER_HEADER], b, []);
    RowsJoin(a + [SERVER_HEADER] + b, d, []);
  }

  lemma ReplacedRows(a: seq<Line>, d: seq<Line>, c: Command)
    ensures Rows(RStrip(a + ServerTable(c) + d), []) == Rows(a, []) + multiset{CommandRow(c), ArgsRow(c)} + Rows(d, SERVER)
    ensures Tables(RStrip(a + ServerTable(c) + d)) == Tables(a) + multiset{SERVER} + Tables(d)
  {
    var table := ServerTable(c);
    RowsJoin(a, table, []);
    RowsJoin(a + table, d, []);
    ServerTableRows(c, CurrentTable(a, []));
    RStripKeepsRows(a + table + d, []);
  }

  /** An entry that mounts the server: its program, or its arguments. */
  ghost predicate IsServerEntry(r: Row, c: Command) {
    r.table == SERVER && ((r.key == "command" && r.value == Text(c.program)) || (r.key == "args" && r.value == List(c.args)))
  }

  /** Only the server's table differs. */
  ghost predicate OnlyServerSet(before: multiset<Row>, after: multiset<Row>, c: Command) {
    forall r :: after[r] == if r.table == SERVER then (if IsServerEntry(r, c) then 1 else 0) else before[r]
  }

  /** The server's table is set; other tables may have lost entries but gained none. */
  ghost predicate ServerSetOthersShrunk(before: multiset<Row>, after: multiset<Row>, c: Command) {
    forall r: Row :: if r.table == SERVER then after[r] == (if IsServerEntry(r, c) then 1 else 0) else after[r] <= before[r]
  }

  lemma SwapRows(x: multiset<Row>, y: multiset<Row>, z: multiset<Row>, c: Command)
    requires forall r :: r in x || r in z ==> r.table != SERVER
    ensures ServerSetOthersShrunk(x + y + z, x + multiset{CommandRow(c), ArgsRow(c)} + z, c)
    ensures OnlyServerSet(x + y + z, x + multiset{CommandRow(c), ArgsRow(c)} + z, c) <==> forall r :: r in y ==> r.table == SERVER
  {
    var before, after := x + y + z, x + multiset{CommandRow(c), ArgsRow(c)} + z;
    if r :| r in y && r.table != SERVER {
      assert after[r] != before[r];
    }
  }

  lemma OutsideRowsAreForeign(a: seq<Line>, d: seq<Line>)
    requires SERVER !in Tables(a) && SERVER !in Tables(d) && (d != [] ==> d[0].Header?)
    ensures forall r :: r in Rows(a, []) || r in Rows(d, SERVER) ==> r.table != SERVER
  {
    forall r | r in Rows(a, []) ensures r.table != SERVER {
      RowsAreInTables(a, [], r);
    }
    forall r | r in Rows(d, SERVER) ensures r.table != SERVER {
      RowsAreInTables(d[1..], d[0].table, r);
    }
  }

  // Where the source cuts too much

  /** Between the server's exact header and the next line that ends a block there is a header, with something after its bracket. */
  ghost predicate CutsHeader(lines: seq<Line>) {
    exists s: nat, h: nat :: s < h < |lines| && lines[s] == SERVER_HEADER && HeaderInBlock(lines, s, h)
  }

  ghost predicate HeaderInBlock(lines: seq<Line>, s: nat, h: nat)
    requires h < |lines|
  {
    lines[h].Header? && forall j :: s < j <= h ==> !EndsBlock(lines[j])
  }

  /** There is such a header, and before that line an entry of its table. */
  ghost predicate CutsEntry(lines: seq<Line>) {
    exists s: nat, h: nat, k: nat :: s < h < k < |lines| && lines[s] == SERVER_HEADER && EntryInBlock(lines, s, h, k)
  }

  ghost predicate EntryInBlock(lines: seq<Line>, s: nat, h: nat, k: nat)
    requires h < k < |lines|
  {
    lines[h].Header? && lines[k].Entry? && forall j :: s < j <= k ==> !EndsBlock(lines[j])
  }

  lemma TwoServerHeaders(lines: seq<Line>, m: nat, n: nat)
    requires m < n < |lines| && lines[m] == lines[n] == SERVER_HEADER
    ensures Tables(lines)[SERVER] >= 2
  {
    var a, b := lines[..n], lines[n..];
    assert lines == a + b && a[m].Header?;
    RowsJoin(a, b, []);
    HeaderIsCounted(a, m);
    HeaderIsCounted(b, 0);
  }

  lemma OnlyOneServerHeader(lines: seq<Line>, i: nat, j: nat)
    requires i < |lines| && j < |lines| && lines[i] == lines[j] == SERVER_HEADER && Tables(lines)[SERVER] == 1
    ensures i == j
  {
    if i < j {
      TwoServerHeaders(lines, i, j);
    } else if j < i {
      TwoServerHeaders(lines, j, i);
    }
  }

  lemma {:induction false} HeaderIsCounted(lines: seq<Line>, i: nat)
    requires i < |lines| && lines[i].Header?
    ensures Tables(lines)[lines[i].table] >= 1
  {
    if i > 0 {
      HeaderIsCounted(lines[1..], i - 1);
    }
  }

  /** What is cut out, in terms of the text. */
  lemma CutsAreInBlock(lines: seq<Line>, start: nat, end: nat, b: seq<Line>)
    requires HasExactHeader(lines) && Tables(lines)[SERVER] == 1
    requires start == ServerStart(lines, 0) && end == BlockEnd(lines, start + 1) && b == lines[start + 1..end]
    ensures CutsEntry(lines) <==> HasEntryBelowHeader(b)
    ensures CutsHeader(lines) <==> exists i :: 0 <= i < |b| && b[i].Header?
  {
    if h: nat, k: nat :| EntryBelowHeader(b, h, k) {
      assert EntryInBlock(lines, start, start + 1 + h, start + 1 + k);
    }
    if s: nat, h: nat, k: nat :| s < h < k < |lines| && lines[s] == SERVER_HEADER && EntryInBlock(lines, s, h, k) {
      OnlyOneServerHeader(lines, s, start);
      assert EntryBelowHeader(b, h - start - 1, k - start - 1);
    }
    if i :| 0 <= i < |b| && b[i].Header? {
      assert HeaderInBlock(lines, start, start + 1 + i);
    }
    if s: nat, h: nat :| s < h < |lines| && lines[s] == SERVER_HEADER && HeaderInBlock(lines, s, h) {
      OnlyOneServerHeader(lines, s, start);
      assert b[h - start - 1].Header?;
    }
  }

  /** The rows kept are those outside the block, which is a loss exactly when an entry stands below a header inside it. */
  lemma RowsAreCutExactly(a: seq<Line>, b: seq<Line>, d: seq<Line>, c: Command)
    requires SERVER !in Tables(a) && SERVER !in Tables(b) && SERVER !in Tables(d) && (d != [] ==> d[0].Header?)
    ensures var rows, rows' := Rows(a + [SERVER_HEADER] + b + d, []), Rows(RStrip(a + ServerTable(c) + d), []);
            && ServerSetOthersShrunk(rows, rows', c)
            && (OnlyServerSet(rows, rows', c) <==> !HasEntryBelowHeader(b))
  {
    CutRows(a, b, d);
    ReplacedRows(a, d, c);
    OutsideRowsAreForeign(a, d);
    SwapRows(Rows(a, []), Rows(b, SERVER), Rows(d, SERVER), c);
    ForeignRowsExactly(b, SERVER);
  }

  lemma ForeignRowsExactly(b: seq<Line>, at: Table)
    requires at !in Tables(b)
    ensures (forall r :: r in Rows(b, at) ==> r.table == at) <==> !HasEntryBelowHeader(b)
  {
    if h: nat, k: nat :| EntryBelowHeader(b, h, k) {
      EntryBelowHeaderIsForeign(b, at, h, k);
    } else {
      OtherwiseAllRowsStay(b, at);
    }
  }

  lemma TablesAreCutExactly(a: seq<Line>, b: seq<Line>, d: seq<Line>, c: Command)
    requires d != [] ==> d[0].Header?
    ensures var tables, tables' := Tables(a + [SERVER_HEADER] + b + d), Tables(RStrip(a + ServerTable(c) + d));
            && tables' <= tables && SERVER in tables'
            && (tables' == tables <==> !exists i :: 0 <= i < |b| && b[i].Header?)
  {
    CutRows(a, b, d);
    ReplacedRows(a, d, c);
    HeaderSetsTable(b, SERVER);
    SumWithout(Tables(a) + multiset{SERVER}, Tables(b), Tables(d));
  }

  /** Replacing sets the server's table, and keeps the entries and the headers of the others exactly when none is cut. */
  lemma ReplaceCutsExactly(lines: seq<Line>, c: Command)
    requires HasExactHeader(lines) && Tables(lines)[SERVER] == 1
    ensures ServerSetOthersShrunk(Rows(lines, []), Rows(Replaced(lines, c), []), c)
    ensures OnlyServerSet(Rows(lines, []), Rows(Replaced(lines, c), []), c) <==> !CutsEntry(lines)
    ensures Tables(Replaced(lines, c)) <= Tables(lines) && SERVER in Tables(Replaced(lines, c))
    ensures Tables(Replaced(lines, c)) == Tables(lines) <==> !CutsHeader(lines)
  {
    var start := ServerStart(lines, 0);
    var end := BlockEnd(lines, start + 1);
    var a, b, d := lines[..start], lines[start + 1..end], lines[end..];
    assert lines == a + [SERVER_HEADER] + b + d;
    CutsAreInBlock(lines, start, end, b);
    ServerIsInNoOther(a, b, d);
    RowsAreCutExactly(a, b, d, c);
    TablesAreCutExactly(a, b, d, c);
  }

  lemma ServerIsInNoOther(a: seq<Line>, b: seq<Line>, d: seq<Line>)
    requires Tables(a + [SERVER_HEADER] + b + d)[SERVER] == 1 && (d != [] ==> d[0].Header?)
    ensures SERVER !in Tables(a) && SERVER !in Tables(b) && SERVER !in Tables(d)
  {
    CutRows(a, b, d);
  }

  lemma SumWithout<T>(x: multiset<T>, y: multiset<T>, z: multiset<T>)
    ensures x + z <= x + y + z && (x + z == x + y + z <==> y == multiset{})
  {
    if y != multiset{} {
      var t :| t in y;
      assert (x + z)[t] != (x + y + z)[t];
    }
  }

  // What merging does to the status

  lemma AppendIsValidWhen(rows: multiset<Row>, tables: multiset<Table>, c: Command)
    requires Valid(rows, tables) && !ServerIsNoTable(rows) && !HasServer(tables)
    requires forall r :: r in rows ==> r.table != SERVER
    ensures Valid(rows + multiset{CommandRow(c), ArgsRow(c)}, tables + multiset{SERVER}) <==> !ServersIsAKey(rows)
  {
    var rows', tables' := rows + multiset{CommandRow(c), ArgsRow(c)}, tables + multiset{SERVER};
    if ServersIsAKey(rows) {
      var r :| r in rows && r.table == [] && r.key == SERVERS;
      assert r in rows' && SERVER in tables' && r.table + [r.key] <= SERVER;
    } else {
      forall r, t | r in rows' && t in tables' ensures !(r.table + [r.key] <= t) {
        NoClash(rows, tables, c, r, t);
      }
      KeysStayDistinct(rows, tables, c);
    }
  }

  lemma KeysStayDistinct(rows: multiset<Row>, tables: multiset<Table>, c: Command)
    requires Valid(rows, tables) && forall r :: r in rows ==> r.table != SERVER
    ensures var rows' := rows + multiset{CommandRow(c), ArgsRow(c)};
            forall r, s :: r in rows' && s in rows' && r.table == s.table && r.key == s.key ==> r == s && rows'[r] == 1
  {
    assert COMMAND[0] != ARGS[0];
  }

  /** Appending mounts the server unless `mcp_servers` is itself a key, when the text is no longer TOML. */
  lemma AppendMounts(rows: multiset<Row>, tables: multiset<Table>, c: Command)
    requires Valid(rows, tables) && !ServerIsNoTable(rows) && !HasServer(tables)
    requires forall r :: r in rows ==> r.table == [] || r.table in tables
    ensures var rows', tables' := rows + multiset{CommandRow(c), ArgsRow(c)}, tables + multiset{SERVER};
            && OnlyServerSet(rows, rows', c)
            && TableStatus(rows', tables', c) == if ServersIsAKey(rows) then InvalidToml else Mounted
  {
    var rows', tables' := rows + multiset{CommandRow(c), ArgsRow(c)}, tables + multiset{SERVER};
    AppendIsValidWhen(rows, tables, c);
    assert CommandRow(c) in rows' && ArgsRow(c) in rows' && SERVER in tables';
    assert ServerIsNoTable(rows') ==> ServerIsNoTable(rows);
  }

  /** A root key where the server tables have to go. */
  predicate ServersIsAKey(rows: multiset<Row>) {
    exists r :: r in rows && r.table == [] && r.key == SERVERS
  }

  lemma NoClash(rows: multiset<Row>, tables: multiset<Table>, c: Command, r: Row, t: Table)
    requires Valid(rows, tables) && !ServerIsNoTable(rows) && !ServersIsAKey(rows)
    requires forall t :: t in tables ==> !BelowServer(t)
    requires r in rows || r == CommandRow(c) || r == ArgsRow(c)
    requires t in tables || t == SERVER
    ensures !(r.table + [r.key] <= t)
  {
    if t == SERVER {
      NoKeyOnTheWayToServer(rows, r);
    } else if r !in rows {
      ServerKeyIsNoOtherTable(r.key, t);
    }
  }

  /** Neither a root key `mcp_servers` nor an entry of that table stands where the server's table goes. */
  lemma NoKeyOnTheWayToServer(rows: multiset<Row>, r: Row)
    requires !ServerIsNoTable(rows) && !ServersIsAKey(rows)
    requires r in rows || r.table == SERVER
    ensures !(r.table + [r.key] <= SERVER)
  {
    var p := r.table + [r.key];
    if |r.table| == 0 {
      assert r in rows && r.table == [];
      assert p[0] == r.key != SERVER[0];
    } else if |r.table| == 1 {
      assert r in rows;
      if r.table == [SERVERS] {
        assert p[1] == r.key != SERVER[1];
      } else {
        assert p[0] == r.table[0] != SERVER[0];
      }
    } else {
      assert |p| > |SERVER|;
    }
  }

  lemma ServerKeyIsNoOtherTable(key: string, t: Table)
    requires !BelowServer(t)
    ensures !(SERVER + [key] <= t)
  {
    var p := SERVER + [key];
    assert p[0] == SERVER[0] && p[1] == SERVER[1] && |p| == 3;
    assert |t| > 2 ==> t[0] != SERVER[0] || t[1] != SERVER[1];
  }

  /** Replacing the block of a server without other keys mounts it, whatever else is cut. */
  lemma ReplaceMounts(rows: multiset<Row>, rows': multiset<Row>, tables: multiset<Table>, tables': multiset<Table>, c: Command)
    requires Valid(rows, tables) && !ServerIsNoTable(rows) && !HasExtraKeys(rows, tables)
    requires ServerSetOthersShrunk(rows, rows', c) && tables' <= tables && SERVER in tables'
    ensures TableStatus(rows', tables', c) == Mounted
  {
    assert CommandRow(c) in rows' && ArgsRow(c) in rows';
    forall r | r in rows' ensures rows'[r] == 1 && (r in rows || r == CommandRow(c) || r == ArgsRow(c)) {
      assert r.table != SERVER ==> 1 <= rows'[r] <= rows[r] == 1;
    }
    forall t | t in tables' ensures t in tables && tables'[t] == 1 {
      assert 1 <= tables'[t] <= tables[t] == 1;
    }
    forall r, t | r in rows' && t in tables' ensures !(r.table + [r.key] <= t) {
      if r !in rows {
        assert SERVER <= r.table + [r.key];
        assert r.table + [r.key] <= t ==> BelowServer(t);
      }
    }
  }

  /** A second server table makes the text invalid. */
  lemma SecondTableIsInvalid(rows: multiset<Row>, tables: multiset<Table>, c: Command)
    requires SERVER in tables
    ensures TableStatus(rows, tables + multiset{SERVER}, c) == InvalidToml
  {
    assert (tables + multiset{SERVER})[SERVER] >= 2;
  }

  lemma {:induction false} EveryRowHasATable(lines: seq<Line>)
    ensures forall r :: r in Rows(lines, []) ==> r.table == [] || r.table in Tables(lines)
  {
    forall r | r in Rows(lines, []) ensures r.table == [] || r.table in Tables(lines) {
      RowsAreInTables(lines, [], r);
    }
  }

  // Applying

  function Merged(before: seq<Line>, c: Command, replaceExisting: bool): seq<Line> {
    if replaceExisting && HasExactHeader(before) then Replaced(before, c) else AppendBlock(before, c)
  }

  method MergedConfigText(before: seq<Line>, c: Command, replaceExisting: bool) returns (merged: seq<Line>)
    ensures merged == Merged(before, c, replaceExisting)
  {
    if replaceExisting {
      var found, start, end := FindServerBlock(before);
      if found {
        return RStrip(before[..start] + ServerTable(c) + before[end..]);
      }
    }
    merged := AppendBlock(before, c);
  }

  datatype Applied = Unchanged | Refused | Written(after: Status)

  function TextOf(config: Option<seq<Line>>): seq<Line> {
    if config.Some? then config.value else []
  }

  /** The config after an apply, and what the apply reports. */
  function ApplyResult(config: Option<seq<Line>>, c: Command): (Option<seq<Line>>, Applied) {
    var status := ConfigStatus(config, c);
    if status == Mounted then (config, Unchanged)
    else if status !in {Missing, MissingServer, LegacyRootBound} then (config, Refused)
    else
      var after := Some(Merged(TextOf(config), c, status == LegacyRootBound));
      (after, Written(ConfigStatus(after, c)))
  }

  method ApplyConfig(config: Option<seq<Line>>, c: Command) returns (after: Option<seq<Line>>, applied: Applied)
    ensures (after, applied) == ApplyResult(config, c)
  {
    var status := ConfigStatus(config, c);
    if status == Mounted { return config, Unchanged; }
    if status !in {Missing, MissingServer, LegacyRootBound} { return config, Refused; }
    var before := if config.Some? then config.value else [];
    var merged := MergedConfigText(before, c, status == LegacyRootBound);
    after := Some(merged);
    applied := Written(ConfigStatus(after, c));
  }

  /** Whether the merge can succeed: what it needs of the text beyond the status. */
  ghost predicate CanMount(before: seq<Line>, legacy: bool) {
    if legacy then exists i :: 0 <= i < |before| && before[i] == SERVER_HEADER
    else forall r :: r in Rows(before, []) ==> !(r.table == [] && r.key == "mcp_servers")
  }

  /** What a write has made of the tables, when the server is mounted by it. */
  ghost predicate TablesAfter(before: seq<Line>, after: seq<Line>, legacy: bool, c: Command) {
    var rows, rows' := Rows(before, []), Rows(after, []);
    && ServerSetOthersShrunk(rows, rows', c)
    && (OnlyServerSet(rows, rows', c) <==> !(legacy && CutsEntry(before)))
    && (Tables(before) <= Tables(after) <==> !(legacy && CutsHeader(before)))
  }

  /** When an apply writes, the server is mounted exactly when the merge could succeed, and the text is otherwise no longer
      TOML. Mounted, the server's table is set; the entries of all other tables are kept exactly when the merge did not cut
      one out with a legacy block, and their headers exactly when it did not cut one of those. */
  lemma ApplyIsExact(config: Option<seq<Line>>, c: Command)
    ensures var legacy, (after, applied) := ConfigStatus(config, c) == LegacyRootBound, ApplyResult(config, c);
            && (applied.Written? ==> applied.after == if CanMount(TextOf(config), legacy) then Mounted else InvalidToml)
            && (applied == Written(Mounted) ==> TablesAfter(TextOf(config), TextOf(after), legacy, c))
  {
    if ConfigStatus(config, c) in {Missing, MissingServer, LegacyRootBound} {
      WrittenFrom(config, c);
      MergeOutcome(TextOf(config), ConfigStatus(config, c) == LegacyRootBound, c);
    }
  }

  /** A missing config is written as an empty one. */
  lemma WrittenFrom(config: Option<seq<Line>>, c: Command)
    requires ConfigStatus(config, c) in {Missing, MissingServer, LegacyRootBound}
    ensures ConfigStatus(Some(TextOf(config)), c) == if ConfigStatus(config, c) == LegacyRootBound then LegacyRootBound else MissingServer
    ensures ApplyResult(config, c).0 == Some(Merged(TextOf(config), c, ConfigStatus(config, c) == LegacyRootBound))
    ensures ApplyResult(config, c).1 == Written(ConfigStatus(ApplyResult(config, c).0, c))
  {
    if config.None? {
      EmptyLacksServer(c);
    }
  }

  lemma MergeOutcome(before: seq<Line>, legacy: bool, c: Command)
    requires ConfigStatus(Some(before), c) == if legacy then LegacyRootBound else MissingServer
    ensures var merged := Merged(before, c, legacy);
            && ConfigStatus(Some(merged), c) == (if CanMount(before, legacy) then Mounted else InvalidToml)
            && (CanMount(before, legacy) ==> TablesAfter(before, merged, legacy, c))
  {
    if legacy {
      LegacyOutcome(before, c);
    } else {
      AppendOutcome(before, c);
    }
  }

  lemma LegacyOutcome(before: seq<Line>, c: Command)
    requires TableStatus(Rows(before, []), Tables(before), c) == LegacyRootBound
    ensures var merged := Merged(before, c, true);
            && ConfigStatus(Some(merged), c) == (if HasExactHeader(before) then Mounted else InvalidToml)
            && (HasExactHeader(before) ==> TablesAfter(before, merged, true, c))
  {
    var rows, tables := Rows(before, []), Tables(before);
    EveryRowHasATable(before);
    LegacyHasItsTable(rows, tables, c);
    if HasExactHeader(before) {
      var merged := Replaced(before, c);
      ReplaceCutsExactly(before, c);
      ReplaceMounts(rows, Rows(merged, []), tables, Tables(merged), c);
      assert Tables(before) <= Tables(merged) ==> Tables(merged) == tables;
    } else {
      AppendedRows(before, c);
      SecondTableIsInvalid(rows + multiset{CommandRow(c), ArgsRow(c)}, tables, c);
    }
  }

  lemma LegacyHasItsTable(rows: multiset<Row>, tables: multiset<Table>, c: Command)
    requires TableStatus(rows, tables, c) == LegacyRootBound
    requires forall r :: r in rows ==> r.table == [] || r.table in tables
    ensures SERVER in tables && tables[SERVER] == 1 && Valid(rows, tables) && !ServerIsNoTable(rows) && !HasExtraKeys(rows, tables)
  {
  }

  lemma EmptyLacksServer(c: Command)
    ensures TableStatus(Rows([], []), Tables([]), c) == MissingServer && !ServersIsAKey(Rows([], []))
  {
  }

  lemma AppendOutcome(before: seq<Line>, c: Command)
    requires TableStatus(Rows(before, []), Tables(before), c) == MissingServer
    ensures var merged := AppendBlock(before, c);
            && ConfigStatus(Some(merged), c) == (if ServersIsAKey(Rows(before, [])) then InvalidToml else Mounted)
            && TablesAfter(before, merged, false, c)
  {
    var rows, tables := Rows(before, []), Tables(before);
    EveryRowHasATable(before);
    AppendedRows(before, c);
    MissingServerMeans(rows, tables, c);
    AppendMounts(rows, tables, c);
  }

  lemma MissingServerMeans(rows: multiset<Row>, tables: multiset<Table>, c: Command)
    requires TableStatus(rows, tables, c) == MissingServer
    ensures Valid(rows, tables) && !ServerIsNoTable(rows) && !HasServer(tables)
  {
  }

  /** A second apply changes nothing: the first has mounted the server, or nothing can be done. */
  lemma ApplyIsIdempotent(config: Option<seq<Line>>, c: Command)
    ensures var after := ApplyResult(config, c).0; ApplyResult(after, c).0 == after
  {
    ApplyIsExact(config, c);
  }

  // Which texts are written

  ghost predicate IsServerTable(t: Table) {
    |t| == 2 && t[0] == "mcp_servers" && t[1] == "mylittleharness"
  }

  ghost predicate IsBelowServer(t: Table) {
    |t| > 2 && t[0] == "mcp_servers" && t[1] == "mylittleharness"
  }

  /** Every table is opened once, every key is set once in its table, and no key is also a table or above one. */
  ghost predicate WellFormedToml(rows: multiset<Row>, tables: multiset<Table>) {
    && (forall t :: t in tables ==> tables[t] == 1)
    && (forall r :: r in rows ==> rows[r] == 1)
    && (forall r, s :: r in rows && s in rows && r.table == s.table && r.key == s.key ==> r == s)
    && (forall r, t :: r in rows && t in tables ==> !IsPrefix(r.table + [r.key], t))
  }

  ghost predicate IsPrefix(p: Table, t: Table) {
    |p| <= |t| && forall i :: 0 <= i < |p| ==> p[i] == t[i]
  }

  /** The server has a table, or there is one below it. */
  ghost predicate ServerIsThere(tables: multiset<Table>) {
    exists t :: t in tables && (IsServerTable(t) || IsBelowServer(t))
  }

  /** The server is a plain value of `mcp_servers`. */
  ghost predicate ServerIsAValue(rows: multiset<Row>) {
    exists r :: r in rows && r.table == ["mcp_servers"] && r.key == "mylittleharness"
  }

  ghost predicate HasServerEntry(rows: multiset<Row>, key: string, value: Value) {
    exists r :: r in rows && IsServerTable(r.table) && r.key == key && r.value == value
  }

  /** The expected program and arguments are set. */
  ghost predicate ExpectedPair(rows: multiset<Row>, c: Command) {
    HasServerEntry(rows, "command", Text(c.program)) && HasServerEntry(rows, "args", List(c.args))
  }

  ghost function LegacyArguments(root: string): seq<string> {
    ["--root", root, "adapter", "--serve", "--target", "mcp-read-projection", "--transport", "stdio"]
  }

  /** The server's table holds the legacy program and the legacy arguments for some root, and nothing else, and nothing is below it. */
  ghost predicate ExactlyLegacy(rows: multiset<Row>, tables: multiset<Table>, root: string) {
    && HasServerEntry(rows, "command", Text("mylittleharness")) && HasServerEntry(rows, "args", List(LegacyArguments(root)))
    && (forall r :: r in rows && IsServerTable(r.table) ==>
          || (r.key == "command" && r.value == Text("mylittleharness"))
          || (r.key == "args" && r.value == List(LegacyArguments(root))))
    && (forall t :: t in tables ==> !IsBelowServer(t))
  }

  ghost predicate IsLegacy(rows: multiset<Row>, tables: multiset<Table>) {
    exists root :: ExactlyLegacy(rows, tables, root)
  }

  /** Exactly which texts are left alone because the server is mounted, which are written, and which are refused: written is what
      has no server yet, or the exact legacy entry and no other; whatever else the user has put there is never touched. */
  lemma ApplyDecides(lines: seq<Line>, c: Command)
    ensures var rows, tables, (after, applied) := Rows(lines, []), Tables(lines), ApplyResult(Some(lines), c);
            var open := WellFormedToml(rows, tables) && !ServerIsAValue(rows);
            && (applied.Unchanged? <==> open && ServerIsThere(tables) && ExpectedPair(rows, c))
            && (applied.Written? <==> open && (!ServerIsThere(tables) || (IsLegacy(rows, tables) && !ExpectedPair(rows, c))))
            && (!applied.Written? ==> after == Some(lines))
  {
    EveryRowHasATable(lines);
    StatusDecides(Rows(lines, []), Tables(lines), c);
  }

  lemma StatusDecides(rows: multiset<Row>, tables: multiset<Table>, c: Command)
    requires forall r :: r in rows ==> r.table == [] || r.table in tables
    ensures var open, status := WellFormedToml(rows, tables) && !ServerIsAValue(rows), TableStatus(rows, tables, c);
            && (status == Mounted <==> open && ServerIsThere(tables) && ExpectedPair(rows, c))
            && (status == MissingServer <==> open && !ServerIsThere(tables))
            && (status == LegacyRootBound <==> open && IsLegacy(rows, tables) && !ExpectedPair(rows, c))
  {
    ValidMeans(rows, tables);
    ServerTablesAre(tables);
    EntriesAre(rows, "command", Text(c.program));
    EntriesAre(rows, "args", List(c.args));
    if Valid(rows, tables) {
      LegacyMeans(rows, tables);
    }
    LegacyIsThere(rows, tables);
  }

  lemma PrefixIs(p: Table, t: Table)
    ensures p <= t <==> IsPrefix(p, t)
  {
    if IsPrefix(p, t) {
      assert p == t[..|p|];
    }
  }

  lemma ValidMeans(rows: multiset<Row>, tables: multiset<Table>)
    ensures Valid(rows, tables) <==> WellFormedToml(rows, tables)
  {
    forall r: Row, t: Table ensures r.table + [r.key] <= t <==> IsPrefix(r.table + [r.key], t) {
      PrefixIs(r.table + [r.key], t);
    }
  }

  lemma ServerTablesAre(tables: multiset<Table>)
    ensures forall t :: IsServerTable(t) <==> t == SERVER
    ensures forall t :: IsBelowServer(t) <==> BelowServer(t)
    ensures ServerIsThere(tables) <==> HasServer(tables)
  {
    forall t ensures IsBelowServer(t) <==> BelowServer(t) {
      PrefixIs(SERVER, t);
    }
  }

  lemma EntriesAre(rows: multiset<Row>, key: string, value: Value)
    ensures HasServerEntry(rows, key, value) <==> Row(SERVER, key, value) in rows
  {
    forall t ensures IsServerTable(t) <==> t == SERVER {}
    if Row(SERVER, key, value) in rows {
      assert IsServerTable(Row(SERVER, key, value).table);
    }
  }

  lemma LegacyArgsMean(v: Value)
    ensures IsLegacyArgs(v) <==> exists root :: v == List(LegacyArguments(root))
  {
    if IsLegacyArgs(v) {
      assert v.items == ["--root", v.items[1]] + v.items[2..];
      assert v.items == LegacyArguments(v.items[1]);
    }
    if root :| v == List(LegacyArguments(root)) {
      assert v.items[2..] == LegacySuffix();
    }
  }

  lemma LegacyIsThere(rows: multiset<Row>, tables: multiset<Table>)
    requires forall r :: r in rows ==> r.table == [] || r.table in tables
    ensures IsLegacy(rows, tables) ==> ServerIsThere(tables)
  {
    if root :| ExactlyLegacy(rows, tables, root) {
      var r :| r in rows && IsServerTable(r.table) && r.key == "command" && r.value == Text("mylittleharness");
      assert r.table in tables;
    }
  }

  lemma LegacyMeans(rows: multiset<Row>, tables: multiset<Table>)
    requires Valid(rows, tables)
    ensures IsLegacy(rows, tables)
            <==> Row(SERVER, COMMAND, Text(NAME)) in rows && (exists r :: r in rows && IsLegacyRow(r)) && !HasExtraKeys(rows, tables)
  {
    EntriesAre(rows, "command", Text("mylittleharness"));
    ServerTablesAre(tables);
    if root :| ExactlyLegacy(rows, tables, root) {
      LegacyHasNoMore(rows, tables, root);
    }
    if Row(SERVER, COMMAND, Text(NAME)) in rows && (exists r :: r in rows && IsLegacyRow(r)) && !HasExtraKeys(rows, tables) {
      var r :| r in rows && IsLegacyRow(r);
      NoMoreIsLegacy(rows, tables, r);
    }
  }

  lemma LegacyHasNoMore(rows: multiset<Row>, tables: multiset<Table>, root: string)
    requires ExactlyLegacy(rows, tables, root)
    ensures (exists r :: r in rows && IsLegacyRow(r)) && !HasExtraKeys(rows, tables)
  {
    ServerTablesAre(tables);
    EntriesAre(rows, "args", List(LegacyArguments(root)));
    LegacyArgsMean(List(LegacyArguments(root)));
    assert IsLegacyRow(Row(SERVER, ARGS, List(LegacyArguments(root))));
    assert forall r :: r in rows && r.table == SERVER ==> IsServerTable(r.table);
  }

  lemma NoMoreIsLegacy(rows: multiset<Row>, tables: multiset<Table>, r: Row)
    requires Valid(rows, tables) && Row(SERVER, COMMAND, Text(NAME)) in rows && r in rows && IsLegacyRow(r) && !HasExtraKeys(rows, tables)
    ensures IsLegacy(rows, tables)
  {
    LegacyArgsMean(r.value);
    var root :| r.value == List(LegacyArguments(root));
    ServerTablesAre(tables);
    EntriesAre(rows, "command", Text("mylittleharness"));
    EntriesAre(rows, "args", List(LegacyArguments(root)));
    forall s | s in rows && IsServerTable(s.table)
      ensures || (s.key == "command" && s.value == Text("mylittleharness"))
              || (s.key == "args" && s.value == List(LegacyArguments(root)))
    {
      assert s.table == SERVER;
      assert s.key == COMMAND ==> s == Row(SERVER, COMMAND, Text(NAME));
      assert s.key == ARGS ==> s == r;
    }
    assert ExactlyLegacy(rows, tables, root);
  }

  // Three texts on which the merge does harm

  const EXPECTED := Command(NAME, LegacySuffix())
  const LEGACY_COMMAND := Entry(COMMAND, Text(NAME))
  const LEGACY_ARGS := Entry(ARGS, List(["--root", "/work"] + LegacySuffix()))

  /** A legacy server table below the given header. */
  function LegacyText(header: Line): seq<Line> {
    [header] + [LEGACY_COMMAND] + [LEGACY_ARGS]
  }

  lemma LegacyTextRows(header: Line)
    requires header.Header? && header.table == SERVER
    ensures Rows(LegacyText(header), []) == LegacyRows()
    ensures Tables(LegacyText(header)) == multiset{SERVER} && CurrentTable(LegacyText(header), []) == SERVER
  {
    OneLine(header, []);
    OneLine(LEGACY_COMMAND, SERVER);
    OneLine(LEGACY_ARGS, SERVER);
    RowsJoin([header], [LEGACY_COMMAND], []);
    RowsJoin([header] + [LEGACY_COMMAND], [LEGACY_ARGS], []);
  }

  /** A legacy server table among other tables of the same depth. */
  lemma LegacyStatus(extra: multiset<Row>, others: multiset<Table>)
    requires forall t :: t in others ==> |t| == 2 && t != SERVER && others[t] == 1
    requires forall r :: r in extra ==> r.table in others
    requires forall r, s :: r in extra && s in extra && r.table == s.table && r.key == s.key ==> r == s && extra[r] == 1
    ensures TableStatus(LegacyRows() + extra, multiset{SERVER} + others, EXPECTED) == LegacyRootBound
  {
    LegacyArgsAreLegacy();
    LegacyTablesAreValid(extra, others);
    LegacyKeysAreKnown(extra, others);
  }

  lemma LegacyTablesAreValid(extra: multiset<Row>, others: multiset<Table>)
    requires forall t :: t in others ==> |t| == 2 && t != SERVER && others[t] == 1
    requires forall r :: r in extra ==> r.table in others
    requires forall r, s :: r in extra && s in extra && r.table == s.table && r.key == s.key ==> r == s && extra[r] == 1
    ensures Valid(LegacyRows() + extra, multiset{SERVER} + others)
  {
    var rows, tables := LegacyRows() + extra, multiset{SERVER} + others;
    forall t | t in tables ensures |t| == 2 && tables[t] == 1 {}
    forall r, t | r in rows && t in tables ensures !(r.table + [r.key] <= t) {
      assert |r.table + [r.key]| == 3;
    }
    LegacyRowsAreValid(extra, others);
  }

  lemma LegacyKeysAreKnown(extra: multiset<Row>, others: multiset<Table>)
    requires forall t :: t in others ==> |t| == 2 && t != SERVER
    requires forall r :: r in extra ==> r.table in others
    ensures var rows, tables := LegacyRows() + extra, multiset{SERVER} + others;
            && !ServerIsNoTable(rows) && HasServer(tables) && !HasExtraKeys(rows, tables)
            && Row(SERVER, COMMAND, Text(NAME)) in rows && (exists r :: r in rows && IsLegacyRow(r)) && ArgsRow(EXPECTED) !in rows
  {
    var rows, tables := LegacyRows() + extra, multiset{SERVER} + others;
    LegacyArgsAreLegacy();
    forall t | t in tables ensures |t| == 2 {}
    forall r | r in extra ensures |r.table| == 2 && r.table != SERVER {}
    assert Row(SERVER, ARGS, LEGACY_ARGS.value) in rows && SERVER in tables;
  }

  function LegacyRows(): multiset<Row> {
    multiset{Row(SERVER, COMMAND, Text(NAME)), Row(SERVER, ARGS, LEGACY_ARGS.value)}
  }

  lemma LegacyRowsAreValid(extra: multiset<Row>, others: multiset<Table>)
    requires forall t :: t in others ==> t != SERVER
    requires forall r :: r in extra ==> r.table in others
    requires forall r, s :: r in extra && s in extra && r.table == s.table && r.key == s.key ==> r == s && extra[r] == 1
    ensures var rows := LegacyRows() + extra;
            forall r, s :: r in rows && s in rows && r.table == s.table && r.key == s.key ==> r == s && rows[r] == 1
  {
    assert COMMAND[0] != ARGS[0];
    forall r | r in extra ensures r.table != SERVER {}
  }

  lemma LegacyArgsAreLegacy()
    ensures IsLegacyRow(Row(SERVER, ARGS, LEGACY_ARGS.value)) && LEGACY_ARGS.value != List(EXPECTED.args)
  {
    var items := ["--root", "/work"] + LegacySuffix();
    assert items[2..] == LegacySuffix();
    assert |items| != |EXPECTED.args|;
  }

  const OTHER: Table := [SERVERS, "other"]
  const OTHER_HEADER := Header(OTHER, Trailed)
  const OTHER_ENTRY := Entry(COMMAND, Text("foo"))

  function TextWithOther(): seq<Line> {
    LegacyText(SERVER_HEADER) + [OTHER_HEADER] + [OTHER_ENTRY]
  }

  lemma TextWithOtherRows()
    ensures Rows(TextWithOther(), []) == LegacyRows() + multiset{Row(OTHER, COMMAND, Text("foo"))}
    ensures Tables(TextWithOther()) == multiset{SERVER} + multiset{OTHER}
  {
    LegacyTextRows(SERVER_HEADER);
    OneLine(OTHER_HEADER, SERVER);
    OneLine(OTHER_ENTRY, OTHER);
    RowsJoin(LegacyText(SERVER_HEADER), [OTHER_HEADER], []);
    RowsJoin(LegacyText(SERVER_HEADER) + [OTHER_HEADER], [OTHER_ENTRY], []);
  }

  lemma TextWithOtherStatus()
    ensures ConfigStatus(Some(TextWithOther()), EXPECTED) == LegacyRootBound
  {
    LegacyTextRows(SERVER_HEADER);
    TextWithOtherRows();
    assert OTHER != SERVER;
    LegacyStatus(multiset{Row(OTHER, COMMAND, Text("foo"))}, multiset{OTHER});
  }

  lemma TextWithOtherCut()
    ensures HasExactHeader(TextWithOther()) && Replaced(TextWithOther(), EXPECTED) == ServerTable(EXPECTED)
  {
    var text := TextWithOther();
    assert text == [SERVER_HEADER, LEGACY_COMMAND, LEGACY_ARGS, OTHER_HEADER, OTHER_ENTRY];
    assert ServerStart(text, 0) == 0;
    assert !EndsBlock(text[1]) && !EndsBlock(text[2]) && !EndsBlock(text[3]) && !EndsBlock(text[4]);
    var end := BlockEnd(text, 1);
    assert end == 5;
    assert text[..0] + ServerTable(EXPECTED) + text[5..] == ServerTable(EXPECTED);
  }

  /** A legacy table followed by another server whose header carries a comment: the apply reports success, and the other
      server is gone. */
  lemma CommentedHeaderIsCut()
    ensures ConfigStatus(Some(TextWithOther()), EXPECTED) == LegacyRootBound
    ensures ApplyResult(Some(TextWithOther()), EXPECTED) == (Some(ServerTable(EXPECTED)), Written(Mounted))
    ensures Row(OTHER, COMMAND, Text("foo")) in Rows(TextWithOther(), []) && Row(OTHER, COMMAND, Text("foo")) !in Rows(ServerTable(EXPECTED), [])
  {
    TextWithOtherStatus();
    TextWithOtherCut();
    TextWithOtherRows();
    ServerTableRows(EXPECTED, []);
    ApplyIsExact(Some(TextWithOther()), EXPECTED);
  }

  lemma LegacyTextStatus(header: Line)
    requires header.Header? && header.table == SERVER
    ensures ConfigStatus(Some(LegacyText(header)), EXPECTED) == LegacyRootBound
  {
    LegacyTextRows(header);
    LegacyStatus(multiset{}, multiset{});
    assert LegacyRows() + multiset{} == LegacyRows() && multiset{SERVER} + multiset{} == multiset{SERVER};
  }

  /** A legacy table under a header in another spelling: the apply adds a second one, which is no TOML. */
  lemma OtherSpellingBecomesInvalid()
    ensures var config := Some(LegacyText(Header(SERVER, Closed)));
            ConfigStatus(config, EXPECTED) == LegacyRootBound && ApplyResult(config, EXPECTED).1 == Written(InvalidToml)
  {
    var text := LegacyText(Header(SERVER, Closed));
    LegacyTextStatus(Header(SERVER, Closed));
    assert forall i :: 0 <= i < |text| ==> text[i] != SERVER_HEADER;
    assert !HasExactHeader(text);
    ApplyIsExact(Some(text), EXPECTED);
  }

  /** A root key where the server tables have to go: the apply adds a table of the same name, which is no TOML. */
  lemma RootKeyBecomesInvalid()
    ensures var config := Some([Entry(SERVERS, OtherValue)]);
            ConfigStatus(config, EXPECTED) == MissingServer && ApplyResult(config, EXPECTED).1 == Written(InvalidToml)
  {
    var text := [Entry(SERVERS, OtherValue)];
    OneLine(text[0], []);
    assert Row([], SERVERS, OtherValue) in Rows(text, []);
    ApplyIsExact(Some(text), EXPECTED);
  }
}
