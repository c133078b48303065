# slurm_scripts node-line generator, modelled in Dafny

`get_slurm_conf.py` runs four hardware queries and turns their text into one
Slurm node-description line:

    NodeName=<host> NodeAddr=<ip> CPUs=<n> ThreadsPerCore=<n> CoresPerSocket=<n> Sockets=<n> RealMemory=<MiB> State=UNKNOWN

This project models everything the script does with that text once a query
has returned. Each query's output is a parameter:

- the `lscpu --parse=cpu,core,socket` text;
- the `/proc/meminfo` text;
- the `hostname` text;
- one `ip -o -4 addr show dev <if>` text per interface in `["eno1", "eno2"]`.

It has two modules:

- `PyStr` (`pystr.dfy`) models the Python 2 byte-string builtins the script
  relies on. These are `splitlines()`, `split(sep)`, `split()`, `strip()`,
  `startswith`, `int()` and `str()` on integers. `splitlines()`, `split(sep)`,
  `split()` and `str()` each come with a lemma that ties them to an inverse or
  an independent description: one lemma per kind of line ending (`"\n"`,
  `"\r"`, `"\r\n"`, none), `sep.join`, a whitespace run followed by a word,
  and `int(str(n)) == n`. `strip()` is stated directly by its contract.
  `startswith` has no contract: it is a one-line definition.
- `SlurmConf` (`slurm_conf.dfy`) models the six functions of the script as pure
  functions of the query text:
  - `max_in_col` becomes `MaxInCol` over `Max`.
  - `get_cpu_info` becomes `GetCpuInfo`.
  - `get_mem_info` becomes `GetMemInfo`, with the anchored matcher
    `MatchMemTotal` written out for its one regular expression.
  - `get_hostname` becomes `GetHostname`.
  - `get_ipaddr` becomes `GetIpAddr`. Its `for ... else` first-match search
    becomes recursion over the outputs.
  - `get_slurm_conf` becomes `GetSlurmConf`, on top of `RenderNodeLine`.

  `ParseNodeLine` is an independent reader for the line. It gives the
  rendering its inverse.

The model follows the script as written:

- `RealMemory` is `MemTotal` in kB divided by 1024, rounded down, with no
  reservation subtracted.
- `CPUs` is the hardware-thread count (the largest CPU id plus one), not the
  core count.
- There is no `Feature` or `Gres` field.
- Apart from `get_mem_info`'s 0 when the MemTotal pattern does not match and
  `get_ipaddr`'s "0.0.0.0" when every output is empty, there are no fallback
  values; every other unparseable output makes the script raise. The model states the shape each function needs
  as a precondition: `CpuTextWellFormed`, `text != []`,
  `AddrOutputsWellFormed` and `ProbesWellFormed`.

Python 2 `/` on integers rounds towards negative infinity. `FloorDiv` writes
that out. It uses Dafny's `/` only with a positive divisor, where Euclidean and
floor division agree, and negates both operands for a negative divisor.

## Model

| member | source | states |
|---|---|---|
| SlurmConf.Rows | get_slurm_conf.py:10 | at most one row per line; what it keeps and drops is stated by RowsOfNonComments, RowsAppend, NonCommentLineKept and CommentLineIgnored |
| SlurmConf.IsComment | get_slurm_conf.py:10 | no contract: `line.startswith("#")`, stated by its definition |
| SlurmConf.CpuRows | get_slurm_conf.py:10 | no contract of its own: it is `Rows` of `splitlines()`; NonCommentLineKept and CpuRowsTerminated state the rows it keeps, CommentLineIgnored the lines it drops |
| SlurmConf.Column | get_slurm_conf.py:6 | no contract beyond its definition: it spells out pointwise the generator `int(row[col]) for row in rows`, the form MaxInCol's proof uses; MaxInCol states the maximum directly in terms of `int(row[col])` |
| SlurmConf.RowsOfNonComments | get_slurm_conf.py:10 | a list of lines none of which starts with "#" gives exactly one row per line, row k being `lines[k].split(",")` |
| SlurmConf.NonCommentLineKept | get_slurm_conf.py:10 | inserting a line that does not start with "#" anywhere between lines of the `lscpu` text adds exactly one row at that place, its `split(",")` |
| SlurmConf.CpuRowsTerminated | get_slurm_conf.py:10 | `lscpu` text written as comment-free "\n"-terminated lines has exactly one row per line, row k being `lines[k].split(",")` |
| SlurmConf.Max | get_slurm_conf.py:6 | `max` of a non-empty list is at least every element and equal to one of them |
| SlurmConf.MaxInCol | get_slurm_conf.py:5-6 | for a non-empty row list whose column parses, the result is at least `int(row[col])` for every row and equals it for some row |
| SlurmConf.GetCpuInfo | get_slurm_conf.py:8-15 | each of cpus, cores and sockets is one more than the maximum of its column over the rows; with non-negative ids each count is at least 1 |
| SlurmConf.RowsAppend | get_slurm_conf.py:10 | the comment filter and comma split distribute over concatenated line lists |
| SlurmConf.CommentLineIgnored | get_slurm_conf.py:10 | inserting a line that starts with "#" anywhere between lines of the `lscpu` text leaves the rows unchanged |
| SlurmConf.CommentLineKeepsCounts | get_slurm_conf.py:10-14 | such a comment line changes neither whether the text is accepted nor any of the three counts (in both directions: adding or removing it) |
| SlurmConf.DivisionsDefined | get_slurm_conf.py:45-46 | with non-negative ids the divisors cores and sockets are non-zero, and both quotients are ordinary non-negative integer quotients |
| SlurmConf.FloorDiv | get_slurm_conf.py:45-46 | Python 2 integer `/`: the quotient q with `b*q <= a < b*q + b` for positive b, and the mirrored bounds for negative b |
| SlurmConf.MatchMemTotal | get_slurm_conf.py:19 | no contract of its own: `re.match` of the one pattern; MatchMemTotalSound and MatchMemTotalComplete state exactly which texts it matches and which groups it returns |
| SlurmConf.MatchMemTotalSound | get_slurm_conf.py:19 | when `re.match("MemTotal:\s+(\d+) kB", text)` succeeds, the match is non-empty whitespace and non-empty digits at the start of text, and text is exactly "MemTotal:", those parts, " kB" and the rest |
| SlurmConf.MatchMemTotalComplete | get_slurm_conf.py:19 | every text of that shape is matched, with exactly the parts it was built from as the groups |
| SlurmConf.DigitsLiteral | get_slurm_conf.py:23 | `int()` accepts the captured digit group and yields the number the digits denote |
| SlurmConf.GetMemInfo | get_slurm_conf.py:17-23 | the result is never negative, and is non-zero only when the text starts with "MemTotal:" |
| SlurmConf.MemInfoOfEntry | get_slurm_conf.py:19-23 | on "MemTotal:" + whitespace + N + " kB" + anything the result is N div 1024, between 0 and N |
| SlurmConf.MemInfoWithoutEntry | get_slurm_conf.py:19-21 | on text of no such shape the result is 0 |
| SlurmConf.GetHostname | get_slurm_conf.py:25-26 | the name is a prefix of the output that contains no "." and no line break, and it stops at a "." or at the end of the first line |
| SlurmConf.Interfaces | get_slurm_conf.py:29 | no contract: the interface list `["eno1", "eno2"]`, stated by its definition |
| SlurmConf.FirstNonEmpty | get_slurm_conf.py:30-33 | the position of the first non-empty output: every earlier output is empty |
| SlurmConf.GetIpAddr | get_slurm_conf.py:28-37 | the first non-empty interface output gives the address: a prefix of its 4th whitespace-separated word, free of "/" and stopping at the first "/"; when every output is empty it is exactly "0.0.0.0"; never contains a blank |
| SlurmConf.RenderNodeLine | get_slurm_conf.py:50-51 | no contract of its own: `template.format(**data)`; TemplateIsJoin, RenderIsJoin, RenderEnds and ParseRenderNodeLine state its shape and that it can be read back |
| SlurmConf.TemplateIsJoin | get_slurm_conf.py:50 | the template, with any seven values filled in, is its eight `key=value` fields joined by single blanks, in the order NodeName, NodeAddr, CPUs, ThreadsPerCore, CoresPerSocket, Sockets, RealMemory, State=UNKNOWN |
| SlurmConf.RenderIsJoin | get_slurm_conf.py:50-51 | the formatted line is its fields joined by single blanks |
| SlurmConf.RenderEnds | get_slurm_conf.py:50-51 | the line starts with "NodeName=" + host + " " and ends with " State=UNKNOWN" |
| SlurmConf.ParseFieldsOfFields | get_slurm_conf.py:50-51 | reading the fields back yields every value that was filled in, numbers through `int(str(n)) == n` |
| SlurmConf.ParseRenderNodeLine | get_slurm_conf.py:50-51 | when host and address hold no blank, splitting the line at blanks yields exactly its eight fields and reading it back yields the data |
| SlurmConf.NodeDataOf | get_slurm_conf.py:41-49 | no contract of its own: the `data` dictionary; SlurmConfValues states each of its entries as it appears in the line |
| SlurmConf.GetSlurmConf | get_slurm_conf.py:39-51 | the line starts with the extracted host name as NodeName and ends with " State=UNKNOWN" |
| SlurmConf.SlurmConfValues | get_slurm_conf.py:41-51 | reading the line back gives NodeName = host, NodeAddr = address, CPUs = cpus (threads, not cores), ThreadsPerCore = cpus div cores, CoresPerSocket = cores div sockets, Sockets = sockets and RealMemory = the memory extractor's value |
| PyStr.SplitLines | get_slurm_conf.py:10 | `splitlines()` gives no lines exactly for empty text; no line holds a line break; the first line is the text up to its first "\n" or "\r"; together with SplitLinesNoBreak, SplitLinesLF, SplitLinesCR and SplitLinesCRLF this fixes `splitlines()` on every text, since every non-empty text is a break-free line alone or followed by one of the three terminators |
| PyStr.SplitLinesNoBreak | get_slurm_conf.py:10 | a non-empty text without line breaks is one line, even without a terminator |
| PyStr.SplitLinesLF | get_slurm_conf.py:10 | a break-free line ended by "\n" is the first line, followed by the lines of the rest |
| PyStr.SplitLinesCR | get_slurm_conf.py:10 | a break-free line ended by a "\r" that is not followed by "\n" is the first line, followed by the lines of the rest |
| PyStr.SplitLinesCRLF | get_slurm_conf.py:10 | a break-free line ended by "\r\n" is the first line, the pair counting as one break, followed by the lines of the rest |
| PyStr.SplitLinesAppend | get_slurm_conf.py:10 | `splitlines()` of text ending in "\n" followed by more text is the lines of each part, concatenated |
| PyStr.SplitLinesTerminated | get_slurm_conf.py:10 | `splitlines()` gives back exactly the lines of a file written one "\n"-terminated line at a time |
| PyStr.StartsWith | get_slurm_conf.py:10 | no contract: `s.startswith(p)` is stated by its one-line definition, that p is a prefix of s |
| PyStr.Split | get_slurm_conf.py:10 | `split(sep)` yields at least one piece and no piece holds the separator |
| PyStr.JoinSplit | get_slurm_conf.py:10 | `sep.join(s.split(sep)) == s` |
| PyStr.SplitJoin | get_slurm_conf.py:10 | splitting a join of separator-free pieces gives the pieces back |
| PyStr.JoinEnds | get_slurm_conf.py:50 | a join of two or more pieces starts with the first piece and the separator, and ends with the separator and the last piece |
| PyStr.PrefixBefore | get_slurm_conf.py:26 | `s.split(c)[0]` is the prefix of s before its first c |
| PyStr.Words | get_slurm_conf.py:35 | `split()` yields non-empty whitespace-free words, and none exactly when the text is all whitespace |
| PyStr.WordsStep | get_slurm_conf.py:35 | `split()` of a whitespace run, a word and text that is empty or starts with whitespace is that word followed by the words of the remaining text; with `Words(s) == []` for all-whitespace s this fixes `split()` on any text, such as an `ip -o` line with runs of blanks and a line break |
| PyStr.WordsUnwords | get_slurm_conf.py:35 | `split()` recovers the words of a single-spaced line |
| PyStr.Strip | get_slurm_conf.py:6 | `strip()` (which `int()` applies) is the slice between the leading and trailing whitespace runs; it is empty exactly when the text is all whitespace |
| PyStr.StripTrimmed | get_slurm_conf.py:6 | text that neither starts nor ends with whitespace is its own strip |
| PyStr.ParseInt | get_slurm_conf.py:6 | no contract of its own: `int()` on a decimal literal, as in `max_in_col` and on the memory group at line 23; ParseIntToString and DigitsLiteral state the values it gives |
| PyStr.NatToDecimal | get_slurm_conf.py:51 | the decimal spelling of n is non-empty digits with no leading zero that denote n |
| PyStr.IntToString | get_slurm_conf.py:50-51 | `str(n)` is the canonical spelling: a "-" exactly when n is negative, then non-empty digits with no leading zero that denote the absolute value of n; it holds no blank |
| PyStr.ParseIntToString | get_slurm_conf.py:51 | `int(str(n)) == n` for every integer n |

## Left out

- The queries themselves are not modelled. These are the `subprocess.check_output` calls at lines 9, 18, 26 and 31. Their text is a parameter.
- Exceptions are not modelled, because the script has no handlers. `int()` on a malformed column, `max` of no rows, a missing column, `splitlines()[0]` of empty output, `split()[3]` of a short address line and division by a zero count would each stop the script. The model makes each of them the precondition of the function involved.
- `check_output` raising on a non-zero exit status (for example, an interface that does not exist) is not modelled. The `ip` outputs are given as one text per interface, so the model does not capture that `eno2` is queried only when `eno1`'s output is empty.
- The general regular-expression engine is not modelled. Only the one anchored `MemTotal:\s+(\d+) kB` pattern is written out. Because `\s` and `\d` are disjoint, and so are `\d` and the blank before `kB`, its greedy matching needs no backtracking.
- `str.format` is modelled only for this template, as plain concatenation. Format-specification parsing is not part of this model.
- `print` and the `__main__` entry point (lines 53-54) are not part of this model.
- PyStr.IsIntLiteral: accepts optional surrounding whitespace, one optional sign and one or more decimal digits. Any other spelling Python 2's `int()` might accept is not modelled. This only narrows the preconditions `CpuTextWellFormed` and `ColumnIsInt`.
- SlurmConf.SlurmConfValues: stated only for host names without a blank. A blank in a host name would make the line split into more than eight fields, so the reader could not recover it. The rendering itself (`RenderIsJoin`, `RenderEnds`, `GetSlurmConf`) has no such restriction.
- SlurmConf.ParseRenderNodeLine: also requires the address to hold no blank. `GetIpAddr` always guarantees this.
- PyStr.SplitLines: models Python 2 byte strings, which break lines only at "\n", "\r" and "\r\n". Unicode line separators are not involved.
