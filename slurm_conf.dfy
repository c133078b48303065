/** The node-description generator: the text of the hardware queries
    (`lscpu --parse=cpu,core,socket`, `/proc/meminfo`, `hostname` and
    `ip -o -4 addr show dev <interface>`) goes in as strings, and one Slurm
    `NodeName=...` line comes out. */
module SlurmConf {
  import opened PyStr

  datatype Option<T> = None | Some(value: T)

  /** Python 2 `a / b` on ints: the quotient rounded towards negative infinity. */
  function FloorDiv(a: int, b: int): (q: int)
    requires b != 0
    ensures b > 0 ==> b * q <= a < b * q + b
    ensures b < 0 ==> b * q >= a > b * q + b
  {
    if b > 0 then a / b else (-a) / (-b)
  }

  // ---------------------------------------------------------------------------
  // CPU topology: max_in_col and get_cpu_info
  // ---------------------------------------------------------------------------

  /** Hardware threads, physical cores and sockets of the node. */
  datatype CpuInfo = CpuInfo(cpus: int, cores: int, sockets: int)

  /** A line of `lscpu` output that starts with "#" is a comment. */
  predicate IsComment(line: string) {
    StartsWith(line, "#")
  }

  /** The comma-separated fields of every line that is not a comment. */
  function Rows(lines: seq<string>): (rows: seq<seq<string>>)
    ensures |rows| <= |lines|
  {
    if lines == [] then []
    else (if IsComment(lines[0]) then [] else [Split(lines[0], ',')]) + Rows(lines[1..])
  }

  /** The rows of `lscpu` text. */
  function CpuRows(text: string): seq<seq<string>> {
    Rows(SplitLines(text))
  }

  /** Every row has a column `col` that `int()` accepts. */
  predicate ColumnIsInt(rows: seq<seq<string>>, col: nat) {
    forall r :: 0 <= r < |rows| ==> col < |rows[r]| && IsIntLiteral(rows[r][col])
  }

  /** `int(row[col]) for row in rows` */
  function Column(rows: seq<seq<string>>, col: nat): (c: seq<int>)
    requires ColumnIsInt(rows, col)
    ensures |c| == |rows|
    ensures forall r :: 0 <= r < |rows| ==> c[r] == ParseInt(rows[r][col])
  {
    seq(|rows|, r requires 0 <= r < |rows| && ColumnIsInt(rows, col) => ParseInt(rows[r][col]))
  }

  /** `m` is the largest element of `xs`. */
  predicate IsMax(xs: seq<int>, m: int) {
    (forall k :: 0 <= k < |xs| ==> xs[k] <= m) && (exists k :: 0 <= k < |xs| && xs[k] == m)
  }

  /** `max(xs)`; `max` of nothing fails. */
  function Max(xs: seq<int>): (m: int)
    requires |xs| > 0
    ensures IsMax(xs, m)
  {
    if |xs| == 1 then xs[0]
    else
      var rest := Max(xs[1..]);
      MaxStep(xs, rest);
      if xs[0] >= rest then xs[0] else rest
  }

  /** The maximum of a tail bounds every later element and is one of them. */
  lemma MaxStep(xs: seq<int>, rest: int)
    requires |xs| > 1 && IsMax(xs[1..], rest)
    ensures forall k :: 1 <= k < |xs| ==> xs[k] <= rest
    ensures exists k :: 1 <= k < |xs| && xs[k] == rest
  {
    var k :| 0 <= k < |xs[1..]| && xs[1..][k] == rest;
    assert xs[k + 1] == rest;
    forall j | 1 <= j < |xs|
      ensures xs[j] <= rest
    {
      assert xs[j] == xs[1..][j - 1];
    }
  }

  /** `max_in_col`: the largest integer in column `col` of the rows. */
  function MaxInCol(rows: seq<seq<string>>, col: nat): (m: int)
    requires |rows| > 0 && ColumnIsInt(rows, col)
    ensures forall r :: 0 <= r < |rows| ==> ParseInt(rows[r][col]) <= m
    ensures exists r :: 0 <= r < |rows| && ParseInt(rows[r][col]) == m
  {
    var c := Column(rows, col);
    var m := Max(c);
    assert exists r :: 0 <= r < |rows| && c[r] == m;
    m
  }

  /** What `get_cpu_info` needs of the `lscpu` text: at least one row, and
      three integer columns in every row. */
  predicate CpuTextWellFormed(text: string) {
    var rows := CpuRows(text);
    |rows| > 0 && ColumnIsInt(rows, 0) && ColumnIsInt(rows, 1) && ColumnIsInt(rows, 2)
  }

  /** The ids of one column are all at least zero. */
  predicate NonNegative(xs: seq<int>) {
    forall k :: 0 <= k < |xs| ==> xs[k] >= 0
  }

  /** The CPU, core and socket ids `lscpu` reports are all non-negative. */
  predicate NonNegativeIds(text: string)
    requires CpuTextWellFormed(text)
  {
    var rows := CpuRows(text);
    NonNegative(Column(rows, 0)) && NonNegative(Column(rows, 1)) && NonNegative(Column(rows, 2))
  }

  /** `get_cpu_info`: each count is the largest id in its column plus one. */
  function GetCpuInfo(text: string): (info: CpuInfo)
    requires CpuTextWellFormed(text)
    ensures IsMax(Column(CpuRows(text), 0), info.cpus - 1)
    ensures IsMax(Column(CpuRows(text), 1), info.cores - 1)
    ensures IsMax(Column(CpuRows(text), 2), info.sockets - 1)
    ensures NonNegativeIds(text) ==> info.cpus >= 1 && info.cores >= 1 && info.sockets >= 1
  {
    var rows := CpuRows(text);
    CpuInfo(MaxInCol(rows, 0) + 1, MaxInCol(rows, 1) + 1, MaxInCol(rows, 2) + 1)
  }

  /** Dropping comments commutes with concatenating line lists. */
  lemma {:induction false} RowsAppend(xs: seq<string>, ys: seq<string>)
    ensures Rows(xs + ys) == Rows(xs) + Rows(ys)
    decreases |xs|
  {
    if xs == [] {
      assert xs + ys == ys;
    } else {
      assert (xs + ys)[0] == xs[0];
      assert (xs + ys)[1..] == xs[1..] + ys;
      RowsAppend(xs[1..], ys);
      var head := if IsComment(xs[0]) then [] else [Split(xs[0], ',')];
      AppendAssoc(head, Rows(xs[1..]), Rows(ys));
    }
  }

  /** The lines of text with a comment line inserted. */
  lemma LinesWithComment(before: string, comment: string, after: string)
    requires before == [] || before[|before| - 1] == '\n'
    requires NoLineBreak(comment)
    ensures SplitLines(before + comment + "\n" + after) ==
      SplitLines(before) + ([comment] + SplitLines(after))
    ensures SplitLines(before + after) == SplitLines(before) + SplitLines(after)
  {
    var line := comment + "\n";
    assert before + comment + "\n" + after == before + (line + after);
    SingleLine(comment);
    SplitLinesAppend(line, after);
    SplitLinesAppend(before, line + after);
    SplitLinesAppend(before, after);
  }

  /** Inserting a comment line anywhere between lines changes no row. */
  lemma CommentLineIgnored(before: string, comment: string, after: string)
    requires before == [] || before[|before| - 1] == '\n'
    requires IsComment(comment) && NoLineBreak(comment)
    ensures CpuRows(before + comment + "\n" + after) == CpuRows(before + after)
  {
    var a, b := SplitLines(before), SplitLines(after);
    LinesWithComment(before, comment, after);
    RowsAppend(a, [comment] + b);
    RowsAppend([comment], b);
    RowsAppend(a, b);
    assert Rows([comment]) == [];
    assert [] + Rows(b) == Rows(b);
  }

  /** Inserting a non-comment line anywhere between lines adds exactly one
      row there: its comma-separated fields. */
  lemma NonCommentLineKept(before: string, line: string, after: string)
    requires before == [] || before[|before| - 1] == '\n'
    requires !IsComment(line) && NoLineBreak(line)
    ensures CpuRows(before + line + "\n" + after) ==
      CpuRows(before) + ([Split(line, ',')] + CpuRows(after))
  {
    var a, b := SplitLines(before), SplitLines(after);
    LinesWithComment(before, line, after);
    RowsAppend(a, [line] + b);
    RowsAppend([line], b);
    assert Rows([line]) == [Split(line, ',')];
  }

  /** Without comments every line is one row, in order. */
  lemma {:induction false} RowsOfNonComments(lines: seq<string>)
    requires forall k :: 0 <= k < |lines| ==> !IsComment(lines[k])
    ensures |Rows(lines)| == |lines|
    ensures forall k :: 0 <= k < |lines| ==> Rows(lines)[k] == Split(lines[k], ',')
    decreases |lines|
  {
    if lines != [] {
      RowsOfNonComments(lines[1..]);
      assert Rows(lines) == [Split(lines[0], ',')] + Rows(lines[1..]);
    }
  }

  /** `lscpu` text written one comment-free "\n"-terminated line at a time
      has one row per line, row k being the comma-separated fields of line k. */
  lemma CpuRowsTerminated(lines: seq<string>)
    requires forall k :: 0 <= k < |lines| ==> NoLineBreak(lines[k]) && !IsComment(lines[k])
    ensures |CpuRows(Terminated(lines))| == |lines|
    ensures forall k :: 0 <= k < |lines| ==> CpuRows(Terminated(lines))[k] == Split(lines[k], ',')
  {
    SplitLinesTerminated(lines);
    RowsOfNonComments(lines);
  }

  /** So a comment line changes neither whether the text is accepted nor
      the counts. */
  lemma CommentLineKeepsCounts(before: string, comment: string, after: string)
    requires before == [] || before[|before| - 1] == '\n'
    requires IsComment(comment) && NoLineBreak(comment)
    ensures CpuTextWellFormed(before + comment + "\n" + after) <==> CpuTextWellFormed(before + after)
    ensures CpuTextWellFormed(before + after) ==>
      GetCpuInfo(before + comment + "\n" + after) == GetCpuInfo(before + after)
  {
    var t, u := before + comment + "\n" + after, before + after;
    CommentLineIgnored(before, comment, after);
    if CpuTextWellFormed(u) {
      SameRowsSameCounts(t, u);
    }
  }

  /** The counts depend on the text only through its rows. */
  lemma SameRowsSameCounts(t: string, u: string)
    requires CpuRows(t) == CpuRows(u) && CpuTextWellFormed(u)
    ensures CpuTextWellFormed(t) && GetCpuInfo(t) == GetCpuInfo(u)
  {
  }

  // ---------------------------------------------------------------------------
  // Memory: get_mem_info
  // ---------------------------------------------------------------------------

  /** The parts of text matched by `MemTotal:\s+(\d+) kB` at its start:
      the whitespace run, the captured digits and whatever follows " kB". */
  datatype MemMatch = MemMatch(space: string, digits: string, rest: string)

  predicate IsMemMatch(m: MemMatch) {
    m.space != [] && AllSpace(m.space) && m.digits != [] && AllDigits(m.digits)
  }

  /** The text a match was found in. */
  function MemText(m: MemMatch): string {
    "MemTotal:" + (m.space + (m.digits + (" kB" + m.rest)))
  }

  /** `re.match("MemTotal:\s+(\d+) kB", text)`, anchored at the start. */
  function MatchMemTotal(text: string): Option<MemMatch> {
    if !StartsWith(text, "MemTotal:") then None
    else
      var after := text[9..];
      var w := SpanSpace(after);
      var tail := after[w..];
      var d := SpanDigits(tail);
      var rest := tail[d..];
      if w == 0 || d == 0 || !StartsWith(rest, " kB") then None
      else Some(MemMatch(after[..w], tail[..d], rest[3..]))
  }

  /** A match is of the pattern's shape and made of the text it was found in. */
  lemma MatchMemTotalSound(text: string)
    ensures var m := MatchMemTotal(text);
      m.Some? ==> IsMemMatch(m.value) && MemText(m.value) == text
  {
    if StartsWith(text, "MemTotal:") {
      var after := text[9..];
      var w := SpanSpace(after);
      var tail := after[w..];
      var d := SpanDigits(tail);
      var rest := tail[d..];
      if w != 0 && d != 0 && StartsWith(rest, " kB") {
        TakeDrop(text, 9);
        TakeDrop(after, w);
        TakeDrop(tail, d);
        TakeDrop(rest, 3);
      }
    }
  }

  /** Every text of the matched shape is matched, and split into exactly the
      parts it was built from. */
  lemma MatchMemTotalComplete(m: MemMatch)
    requires IsMemMatch(m)
    ensures MatchMemTotal(MemText(m)) == Some(m)
  {
    var x3 := " kB" + m.rest;
    var x2 := m.digits + x3;
    var x1 := m.space + x2;
    TakeConcat("MemTotal:", x1);
    DropConcat("MemTotal:", x1);
    assert x2[0] == m.digits[0];
    SpanSpaceConcat(m.space, x2);
    TakeConcat(m.space, x2);
    DropConcat(m.space, x2);
    assert x3[0] == ' ';
    SpanDigitsConcat(m.digits, x3);
    TakeConcat(m.digits, x3);
    DropConcat(m.digits, x3);
    TakeConcat(" kB", m.rest);
    DropConcat(" kB", m.rest);
  }

  /** `int()` of a run of digits is the number they denote. */
  lemma DigitsLiteral(s: string)
    requires s != [] && AllDigits(s)
    ensures IsIntLiteral(s) && ParseInt(s) == DecimalValue(s)
  {
    StripTrimmed(s);
  }

  /** `get_mem_info`: MemTotal in MiB (kB divided by 1024, rounded down),
      or 0 when the text does not start with a MemTotal entry. */
  function GetMemInfo(text: string): (mib: int)
    ensures mib >= 0
    ensures mib != 0 ==> StartsWith(text, "MemTotal:")
  {
    match MatchMemTotal(text)
    case None => 0
    case Some(m) =>
      MatchMemTotalSound(text);
      DigitsLiteral(m.digits);
      FloorDiv(ParseInt(m.digits), 1024)
  }

  /** On a MemTotal entry of N kB the result is N div 1024, between 0 and N. */
  lemma MemInfoOfEntry(space: string, digits: string, rest: string)
    requires space != [] && AllSpace(space) && digits != [] && AllDigits(digits)
    ensures GetMemInfo("MemTotal:" + (space + (digits + (" kB" + rest)))) == DecimalValue(digits) / 1024
    ensures 0 <= GetMemInfo("MemTotal:" + (space + (digits + (" kB" + rest)))) <= DecimalValue(digits)
  {
    MatchMemTotalComplete(MemMatch(space, digits, rest));
    DigitsLiteral(digits);
  }

  /** On text that is no MemTotal entry the result is 0. */
  lemma MemInfoWithoutEntry(text: string)
    requires forall m :: IsMemMatch(m) ==> MemText(m) != text
    ensures GetMemInfo(text) == 0
  {
    match MatchMemTotal(text)
    case None =>
    case Some(m) =>
      MatchMemTotalSound(text);
      assert false;
  }

  // ---------------------------------------------------------------------------
  // Identity: get_hostname and get_ipaddr
  // ---------------------------------------------------------------------------

  /** `get_hostname`: the first line of the `hostname` output up to its first
      ".". `splitlines()[0]` fails on empty output. */
  function GetHostname(text: string): (name: string)
    requires text != []
    ensures |name| <= |text| && name == text[..|name|]
    ensures '.' !in name && NoLineBreak(name)
    ensures |name| < |text| ==> text[|name|] == '.' || IsLineBreak(text[|name|])
  {
    var first := SplitLines(text)[0];
    var name := PrefixBefore(first, '.');
    assert name == text[..|name|];
    assert NoLineBreak(name) by {
      assert forall j :: 0 <= j < |name| ==> name[j] == first[j];
    }
    name
  }

  /** The interfaces whose addresses are tried, in order. */
  const Interfaces: seq<string> := ["eno1", "eno2"]

  /** Position of the first non-empty output, or `|outputs|`. */
  function FirstNonEmpty(outputs: seq<string>): (i: nat)
    ensures i <= |outputs|
    ensures forall j :: 0 <= j < i ==> outputs[j] == []
    ensures i < |outputs| ==> outputs[i] != []
  {
    if outputs == [] then 0
    else if outputs[0] != [] then 0
    else 1 + FirstNonEmpty(outputs[1..])
  }

  /** What `get_ipaddr` needs: the first non-empty output has a 4th word. */
  predicate AddrOutputsWellFormed(outputs: seq<string>) {
    var i := FirstNonEmpty(outputs);
    i < |outputs| ==> |Words(outputs[i])| >= 4
  }

  /** `get_ipaddr`, given `outputs[k]`, the text of `ip -o -4 addr show dev`
      for the k-th interface: the 4th word of the first non-empty output up
      to its "/", or "0.0.0.0" when every output is empty. */
  function GetIpAddr(outputs: seq<string>): (addr: string)
    requires AddrOutputsWellFormed(outputs)
    ensures FirstNonEmpty(outputs) == |outputs| ==> addr == "0.0.0.0"
    ensures FirstNonEmpty(outputs) < |outputs| ==>
      var token := Words(outputs[FirstNonEmpty(outputs)])[3];
      |addr| <= |token| && addr == token[..|addr|] && '/' !in addr &&
      (|addr| < |token| ==> token[|addr|] == '/')
    ensures ' ' !in addr
  {
    if outputs == [] then "0.0.0.0"
    else if outputs[0] == [] then
      assert FirstNonEmpty(outputs) == 1 + FirstNonEmpty(outputs[1..]);
      GetIpAddr(outputs[1..])
    else
      var token := Words(outputs[0])[3];
      var addr := PrefixBefore(token, '/');
      assert IsWord(token);
      assert forall j :: 0 <= j < |addr| ==> addr[j] == token[j];
      addr
  }

  // ---------------------------------------------------------------------------
  // Rendering: get_slurm_conf
  // ---------------------------------------------------------------------------

  /** The values `get_slurm_conf` fills into its template. */
  datatype NodeData = NodeData(
    hostname: string,
    ipaddr: string,
    cpus: int,
    threadsPerCore: int,
    coresPerSocket: int,
    numSockets: int,
    memory: int)

  /** The template's keys, each with its "=", in the order the template
      writes them. */
  const FieldPrefixes: seq<string> :=
    ["NodeName=", "NodeAddr=", "CPUs=", "ThreadsPerCore=", "CoresPerSocket=", "Sockets=", "RealMemory=", "State="]

  /** The filled-in template. */
  function RenderNodeLine(d: NodeData): string {
    "NodeName=" + d.hostname +
    " NodeAddr=" + d.ipaddr +
    " CPUs=" + IntToString(d.cpus) +
    " ThreadsPerCore=" + IntToString(d.threadsPerCore) +
    " CoresPerSocket=" + IntToString(d.coresPerSocket) +
    " Sockets=" + IntToString(d.numSockets) +
    " RealMemory=" + IntToString(d.memory) +
    " State=UNKNOWN"
  }

  /** The `key=value` fields of the line, in template order. The eight keys
      are written out again in `FieldPrefixes`, `TemplateIsJoin` and
      `FieldListHasNoBlank` rather than derived from one list, so that each
      proof works on a literal and unfolds no definition. */
  function Fields(d: NodeData): (f: seq<string>)
    ensures |f| == |FieldPrefixes|
  {
    ["NodeName=" + d.hostname, "NodeAddr=" + d.ipaddr,
     "CPUs=" + IntToString(d.cpus), "ThreadsPerCore=" + IntToString(d.threadsPerCore),
     "CoresPerSocket=" + IntToString(d.coresPerSocket), "Sockets=" + IntToString(d.numSockets),
     "RealMemory=" + IntToString(d.memory), "State=UNKNOWN"]
  }

  /** One more field of the template is one more joined field. */
  lemma JoinStep(f: seq<string>, k: nat, p: string, lit: string, key: string, v: string)
    requires 1 <= k < |f| && p == Join(f[..k], ' ')
    requires lit == [' '] + key && f[k] == key + v
    ensures p + lit + v == Join(f[..k + 1], ' ')
  {
    JoinSnoc(f[..k + 1], ' ');
    assert f[..k + 1][..k] == f[..k];
  }

  /** The template's last literal is the last joined field. */
  lemma JoinLast(f: seq<string>, p: string, lit: string)
    requires |f| >= 2 && p == Join(f[..|f| - 1], ' ')
    requires lit == [' '] + f[|f| - 1]
    ensures p + lit == Join(f, ' ')
  {
    JoinSnoc(f, ' ');
  }

  /** The template with any seven values filled in is the eight fields
      joined by single spaces. */
  lemma TemplateIsJoin(h: string, a: string, c: string, t: string, cs: string, so: string, m: string)
    ensures "NodeName=" + h + " NodeAddr=" + a + " CPUs=" + c + " ThreadsPerCore=" + t +
      " CoresPerSocket=" + cs + " Sockets=" + so + " RealMemory=" + m + " State=UNKNOWN" ==
      Join(["NodeName=" + h, "NodeAddr=" + a, "CPUs=" + c, "ThreadsPerCore=" + t,
            "CoresPerSocket=" + cs, "Sockets=" + so, "RealMemory=" + m, "State=UNKNOWN"], ' ')
  {
    var f := ["NodeName=" + h, "NodeAddr=" + a, "CPUs=" + c, "ThreadsPerCore=" + t,
              "CoresPerSocket=" + cs, "Sockets=" + so, "RealMemory=" + m, "State=UNKNOWN"];
    var p0 := "NodeName=" + h;
    assert f[..1] == [p0];
    var p1 := p0 + " NodeAddr=" + a;
    JoinStep(f, 1, p0, " NodeAddr=", "NodeAddr=", a);
    var p2 := p1 + " CPUs=" + c;
    JoinStep(f, 2, p1, " CPUs=", "CPUs=", c);
    var p3 := p2 + " ThreadsPerCore=" + t;
    JoinStep(f, 3, p2, " ThreadsPerCore=", "ThreadsPerCore=", t);
    var p4 := p3 + " CoresPerSocket=" + cs;
    JoinStep(f, 4, p3, " CoresPerSocket=", "CoresPerSocket=", cs);
    var p5 := p4 + " Sockets=" + so;
    JoinStep(f, 5, p4, " Sockets=", "Sockets=", so);
    var p6 := p5 + " RealMemory=" + m;
    JoinStep(f, 6, p5, " RealMemory=", "RealMemory=", m);
    JoinLast(f, p6, " State=UNKNOWN");
  }

  /** The line is its fields, in template order, joined by single spaces. */
  lemma RenderIsJoin(d: NodeData)
    ensures RenderNodeLine(d) == Join(Fields(d), ' ')
  {
    TemplateIsJoin(d.hostname, d.ipaddr, IntToString(d.cpus), IntToString(d.threadsPerCore),
      IntToString(d.coresPerSocket), IntToString(d.numSockets), IntToString(d.memory));
  }

  /** The line starts with the NodeName field and ends with the literal
      " State=UNKNOWN". */
  lemma RenderEnds(d: NodeData)
    ensures StartsWith(RenderNodeLine(d), "NodeName=" + d.hostname + " ")
    ensures EndsWith(RenderNodeLine(d), " State=UNKNOWN")
  {
    RenderIsJoin(d);
    JoinEnds(Fields(d), ' ');
    assert [' '] + "State=UNKNOWN" == " State=UNKNOWN";
  }

  /** The value of a field that starts with `key` (a key and its "="). */
  function ValueOf(field: string, key: string): Option<string> {
    if StartsWith(field, key) then Some(field[|key|..]) else None
  }

  /** The integer value of a field that starts with `key`. */
  function IntValueOf(field: string, key: string): Option<int> {
    match ValueOf(field, key)
    case Some(v) => if IsIntLiteral(v) then Some(ParseInt(v)) else None
    case None => None
  }

  /** Reads the fields of a node line back: the template's keys in the
      template's order, the last field "State=UNKNOWN". */
  function ParseFields(f: seq<string>): Option<NodeData> {
    if |f| != |FieldPrefixes| || f[7] != "State=UNKNOWN" then None
    else
      match (ValueOf(f[0], "NodeName="), ValueOf(f[1], "NodeAddr="), IntValueOf(f[2], "CPUs="),
             IntValueOf(f[3], "ThreadsPerCore="), IntValueOf(f[4], "CoresPerSocket="),
             IntValueOf(f[5], "Sockets="), IntValueOf(f[6], "RealMemory="))
      case (Some(h), Some(a), Some(c), Some(t), Some(cs), Some(s), Some(m)) =>
        Some(NodeData(h, a, c, t, cs, s, m))
      case _ => None
  }

  /** Reads a node line back from its space-separated fields. */
  function ParseNodeLine(line: string): Option<NodeData> {
    ParseFields(Split(line, ' '))
  }

  lemma ValueOfField(key: string, v: string)
    ensures ValueOf(key + v, key) == Some(v)
  {
    var field := key + v;
    assert field[..|key|] == key;
    assert field[|key|..] == v;
  }

  lemma IntValueOfField(key: string, n: int)
    ensures IntValueOf(key + IntToString(n), key) == Some(n)
  {
    ValueOfField(key, IntToString(n));
    ParseIntToString(n);
  }

  /** Every field gives back the value that was filled into it. */
  lemma ParseFieldsOfFields(d: NodeData)
    ensures ParseFields(Fields(d)) == Some(d)
  {
    ValueOfField("NodeName=", d.hostname);
    ValueOfField("NodeAddr=", d.ipaddr);
    IntValueOfField("CPUs=", d.cpus);
    IntValueOfField("ThreadsPerCore=", d.threadsPerCore);
    IntValueOfField("CoresPerSocket=", d.coresPerSocket);
    IntValueOfField("Sockets=", d.numSockets);
    IntValueOfField("RealMemory=", d.memory);
  }

  /** No field holds a blank when neither the host name nor the address does:
      no key does, and no number's spelling does. */
  lemma FieldsHaveNoBlank(d: NodeData)
    requires ' ' !in d.hostname && ' ' !in d.ipaddr
    ensures forall k :: 0 <= k < |FieldPrefixes| ==> ' ' !in Fields(d)[k]
  {
    FieldListHasNoBlank(d.hostname, d.ipaddr, IntToString(d.cpus), IntToString(d.threadsPerCore),
      IntToString(d.coresPerSocket), IntToString(d.numSockets), IntToString(d.memory));
  }

  /** The field list of any seven values without blanks holds no blank. */
  lemma FieldListHasNoBlank(h: string, a: string, c: string, t: string, cs: string, so: string, m: string)
    requires ' ' !in h && ' ' !in a && ' ' !in c && ' ' !in t
    requires ' ' !in cs && ' ' !in so && ' ' !in m
    ensures var f := ["NodeName=" + h, "NodeAddr=" + a, "CPUs=" + c, "ThreadsPerCore=" + t,
                      "CoresPerSocket=" + cs, "Sockets=" + so, "RealMemory=" + m, "State=UNKNOWN"];
      forall k :: 0 <= k < |f| ==> ' ' !in f[k]
  {
  }

  /** When neither the host name nor the address holds a blank, the line
      splits at its blanks into exactly its fields, and reading it back gives
      every value that was filled in. */
  lemma ParseRenderNodeLine(d: NodeData)
    requires ' ' !in d.hostname && ' ' !in d.ipaddr
    ensures Split(RenderNodeLine(d), ' ') == Fields(d)
    ensures ParseNodeLine(RenderNodeLine(d)) == Some(d)
  {
    RenderIsJoin(d);
    FieldsHaveNoBlank(d);
    SplitJoin(Fields(d), ' ');
    ParseFieldsOfFields(d);
  }

  /** The text of every query `get_slurm_conf` makes; `addrShow[k]` is the
      output for `Interfaces[k]`. */
  datatype Probes = Probes(lscpu: string, meminfo: string, hostname: string, addrShow: seq<string>)

  /** What `get_slurm_conf` needs of the query outputs not to raise. */
  predicate ProbesWellFormed(p: Probes) {
    CpuTextWellFormed(p.lscpu) &&
    GetCpuInfo(p.lscpu).cores != 0 && GetCpuInfo(p.lscpu).sockets != 0 &&
    p.hostname != [] &&
    |p.addrShow| == |Interfaces| && AddrOutputsWellFormed(p.addrShow)
  }

  /** The `data` dictionary of `get_slurm_conf`. */
  function NodeDataOf(p: Probes): NodeData
    requires ProbesWellFormed(p)
  {
    var info := GetCpuInfo(p.lscpu);
    NodeData(
      GetHostname(p.hostname),
      GetIpAddr(p.addrShow),
      info.cpus,
      FloorDiv(info.cpus, info.cores),
      FloorDiv(info.cores, info.sockets),
      info.sockets,
      GetMemInfo(p.meminfo))
  }

  /** `get_slurm_conf`: the node line for the given query outputs. */
  function GetSlurmConf(p: Probes): (line: string)
    requires ProbesWellFormed(p)
    ensures StartsWith(line, "NodeName=" + GetHostname(p.hostname) + " ")
    ensures EndsWith(line, " State=UNKNOWN")
  {
    var d := NodeDataOf(p);
    RenderEnds(d);
    RenderNodeLine(d)
  }

  /** Reading the line back: CPUs is the thread count, ThreadsPerCore is
      threads div cores, CoresPerSocket is cores div sockets, Sockets is the
      socket count, and the other values are those of the extractors. */
  lemma SlurmConfValues(p: Probes)
    requires ProbesWellFormed(p) && ' ' !in GetHostname(p.hostname)
    ensures var info := GetCpuInfo(p.lscpu);
      ParseNodeLine(GetSlurmConf(p)) == Some(NodeData(
        GetHostname(p.hostname), GetIpAddr(p.addrShow),
        info.cpus, FloorDiv(info.cpus, info.cores), FloorDiv(info.cores, info.sockets),
        info.sockets, GetMemInfo(p.meminfo)))
  {
    ParseRenderNodeLine(NodeDataOf(p));
  }

  /** With non-negative ids every count is at least one, so the two
      divisions are defined and are ordinary non-negative quotients. */
  lemma DivisionsDefined(text: string)
    requires CpuTextWellFormed(text) && NonNegativeIds(text)
    ensures var info := GetCpuInfo(text);
      info.cores != 0 && info.sockets != 0 &&
      FloorDiv(info.cpus, info.cores) == info.cpus / info.cores &&
      FloorDiv(info.cores, info.sockets) == info.cores / info.sockets &&
      info.cpus / info.cores >= 0 && info.cores / info.sockets >= 0
  {
    var info := GetCpuInfo(text);
    QuotientNonNegative(info.cpus, info.cores);
    QuotientNonNegative(info.cores, info.sockets);
  }

  lemma QuotientNonNegative(a: int, b: int)
    requires a >= 0 && b > 0
    ensures a / b >= 0
  {
  }
}
