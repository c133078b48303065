/** The few Python 2 `str` operations that the node-line generator relies on,
    modelled on `string` (a sequence of characters): `splitlines()`,
    `split(sep)` with a one-character separator, `split()` without arguments,
    `strip()`, `startswith`, `int()` on a decimal literal and `str()` on an int. */
module PyStr {

  // ---------------------------------------------------------------------------
  // Character classes
  // ---------------------------------------------------------------------------

  /** Whitespace as Python 2's byte-string methods understand it:
      space, tab, line feed, carriage return, vertical tab and form feed. */
  predicate IsSpace(c: char) {
    c == ' ' || c == '\t' || c == '\n' || c == '\r' || c as int == 11 || c as int == 12
  }

  /** The two characters at which `splitlines()` of a byte string breaks a line. */
  predicate IsLineBreak(c: char) {
    c == '\n' || c == '\r'
  }

  predicate IsDigit(c: char) {
    '0' <= c <= '9'
  }

  predicate AllDigits(s: string) {
    forall j :: 0 <= j < |s| ==> IsDigit(s[j])
  }

  predicate AllSpace(s: string) {
    forall j :: 0 <= j < |s| ==> IsSpace(s[j])
  }

  /** No line-break character anywhere in `s`. */
  predicate NoLineBreak(s: string) {
    forall j :: 0 <= j < |s| ==> !IsLineBreak(s[j])
  }

  /** `s.startswith(p)` */
  predicate StartsWith(s: string, p: string) {
    |p| <= |s| && s[..|p|] == p
  }

  /** `s.endswith(p)` */
  predicate EndsWith(s: string, p: string) {
    |p| <= |s| && s[|s| - |p|..] == p
  }

  // ---------------------------------------------------------------------------
  // Searching
  // ---------------------------------------------------------------------------

  /** Position of the first `c` in `s`, or `|s|` when there is none. */
  function IndexOf(s: string, c: char): (i: nat)
    ensures i <= |s|
    ensures forall j :: 0 <= j < i ==> s[j] != c
    ensures i < |s| ==> s[i] == c
    ensures i == |s| <==> c !in s
  {
    if s == [] then 0
    else if s[0] == c then 0
    else 1 + IndexOf(s[1..], c)
  }

  /** Position of the first line break in `s`, or `|s|` when there is none. */
  function LineEnd(s: string): (i: nat)
    ensures i <= |s|
    ensures NoLineBreak(s[..i])
    ensures i < |s| ==> IsLineBreak(s[i])
  {
    if s == [] then 0
    else if IsLineBreak(s[0]) then 0
    else 1 + LineEnd(s[1..])
  }

  /** Length of the run of whitespace that starts `s`. */
  function SpanSpace(s: string): (i: nat)
    ensures i <= |s|
    ensures AllSpace(s[..i])
    ensures i < |s| ==> !IsSpace(s[i])
  {
    if s == [] then 0
    else if !IsSpace(s[0]) then 0
    else 1 + SpanSpace(s[1..])
  }

  /** Length of the run of non-whitespace that starts `s`. */
  function SpanWord(s: string): (i: nat)
    ensures i <= |s|
    ensures forall j :: 0 <= j < i ==> !IsSpace(s[j])
    ensures i < |s| ==> IsSpace(s[i])
  {
    if s == [] then 0
    else if IsSpace(s[0]) then 0
    else 1 + SpanWord(s[1..])
  }

  /** Length of the run of decimal digits that starts `s`. */
  function SpanDigits(s: string): (i: nat)
    ensures i <= |s|
    ensures AllDigits(s[..i])
    ensures i < |s| ==> !IsDigit(s[i])
  {
    if s == [] then 0
    else if !IsDigit(s[0]) then 0
    else 1 + SpanDigits(s[1..])
  }

  /** Length of the run of whitespace that ends `s`. */
  function TrailingSpace(s: string): (n: nat)
    ensures n <= |s|
    ensures forall j :: |s| - n <= j < |s| ==> IsSpace(s[j])
    ensures n < |s| ==> !IsSpace(s[|s| - 1 - n])
  {
    if s == [] then 0
    else if !IsSpace(s[|s| - 1]) then 0
    else 1 + TrailingSpace(s[..|s| - 1])
  }

  // ---------------------------------------------------------------------------
  // s.split(sep) with a one-character separator, and its inverse sep.join
  // ---------------------------------------------------------------------------

  /** `s.split(sep)`: the pieces between separators, empty pieces kept. */
  function Split(s: string, sep: char): (parts: seq<string>)
    ensures |parts| >= 1
    ensures forall k :: 0 <= k < |parts| ==> sep !in parts[k]
    decreases |s|
  {
    var i := IndexOf(s, sep);
    if i == |s| then [s] else [s[..i]] + Split(s[i + 1..], sep)
  }

  /** `sep.join(parts)` */
  function Join(parts: seq<string>, sep: char): string
    requires |parts| >= 1
  {
    if |parts| == 1 then parts[0] else parts[0] + [sep] + Join(parts[1..], sep)
  }

  /** Joining the pieces of a split gives the text back. */
  lemma {:induction false} JoinSplit(s: string, sep: char)
    ensures Join(Split(s, sep), sep) == s
    decreases |s|
  {
    var i := IndexOf(s, sep);
    if i < |s| {
      var t := s[i + 1..];
      var ps := Split(t, sep);
      assert Split(s, sep) == [s[..i]] + ps;
      assert ([s[..i]] + ps)[1..] == ps;
      assert Join(Split(s, sep), sep) == s[..i] + [sep] + Join(ps, sep);
      JoinSplit(t, sep);
      assert s == s[..i] + [sep] + t;
    }
  }

  /** Splitting a join of separator-free pieces gives the pieces back. */
  lemma {:induction false} SplitJoin(parts: seq<string>, sep: char)
    requires |parts| >= 1
    requires forall k :: 0 <= k < |parts| ==> sep !in parts[k]
    ensures Split(Join(parts, sep), sep) == parts
    decreases |parts|
  {
    if |parts| > 1 {
      var tail := parts[1..];
      SplitAt(parts[0], sep, Join(tail, sep));
      SplitJoin(tail, sep);
      HeadTail(parts);
    }
  }

  /** A separator-free piece followed by the separator is the first piece. */
  lemma SplitAt(p: string, sep: char, r: string)
    requires sep !in p
    ensures Split(p + [sep] + r, sep) == [p] + Split(r, sep)
  {
    var s := p + [sep] + r;
    assert s[|p|] == sep;
    assert forall j :: 0 <= j < |p| ==> s[j] == p[j];
    assert IndexOf(s, sep) == |p|;
    assert s[..|p|] == p;
    assert s[|p| + 1..] == r;
  }

  /** A join of two or more pieces ends with the separator and the last piece. */
  lemma {:induction false} JoinSnoc(parts: seq<string>, sep: char)
    requires |parts| >= 2
    ensures Join(parts, sep) == Join(parts[..|parts| - 1], sep) + [sep] + parts[|parts| - 1]
    decreases |parts|
  {
    var n := |parts|;
    if n == 2 {
      assert parts[..1] == [parts[0]];
      assert parts[1..] == [parts[1]];
    } else {
      var tail := parts[1..];
      JoinSnoc(tail, sep);
      assert parts[..n - 1][1..] == tail[..|tail| - 1];
      assert |parts[..n - 1]| > 1;
      var x := Join(tail[..|tail| - 1], sep);
      assert Join(parts[..n - 1], sep) == parts[0] + [sep] + x;
      assert Join(parts, sep) == parts[0] + [sep] + (x + [sep] + parts[n - 1]);
    }
  }

  /** A join of two or more pieces starts with the first piece and a
      separator and ends with a separator and the last piece. */
  lemma JoinEnds(parts: seq<string>, sep: char)
    requires |parts| >= 2
    ensures StartsWith(Join(parts, sep), parts[0] + [sep])
    ensures EndsWith(Join(parts, sep), [sep] + parts[|parts| - 1])
  {
    JoinHead(parts, sep);
    JoinLastPiece(parts, sep);
  }

  lemma JoinHead(parts: seq<string>, sep: char)
    requires |parts| >= 2
    ensures StartsWith(Join(parts, sep), parts[0] + [sep])
  {
    TakeConcat(parts[0] + [sep], Join(parts[1..], sep));
  }

  lemma JoinLastPiece(parts: seq<string>, sep: char)
    requires |parts| >= 2
    ensures EndsWith(Join(parts, sep), [sep] + parts[|parts| - 1])
  {
    var init, t := Join(parts[..|parts| - 1], sep), [sep] + parts[|parts| - 1];
    JoinSnoc(parts, sep);
    AppendAssoc(init, [sep], parts[|parts| - 1]);
    DropConcat(init, t);
  }

  lemma TakeConcat<T>(a: seq<T>, b: seq<T>)
    ensures (a + b)[..|a|] == a
  {
  }

  lemma DropConcat<T>(a: seq<T>, b: seq<T>)
    ensures (a + b)[|a|..] == b
  {
  }

  lemma TakeDrop<T>(s: seq<T>, n: nat)
    requires n <= |s|
    ensures s[..n] + s[n..] == s
  {
  }

  /** A blank run followed by a non-blank is the leading blank run. */
  lemma SpanSpaceConcat(a: string, b: string)
    requires AllSpace(a) && b != [] && !IsSpace(b[0])
    ensures SpanSpace(a + b) == |a|
  {
    var s := a + b;
    assert s[|a|] == b[0];
    assert forall j :: 0 <= j < |a| ==> IsSpace(s[j]);
    assert forall j :: 0 <= j < SpanSpace(s) ==> IsSpace(s[j]);
  }

  /** A digit run followed by a non-digit is the leading digit run. */
  lemma SpanDigitsConcat(a: string, b: string)
    requires AllDigits(a) && b != [] && !IsDigit(b[0])
    ensures SpanDigits(a + b) == |a|
  {
    var s := a + b;
    assert s[|a|] == b[0];
    assert forall j :: 0 <= j < |a| ==> IsDigit(s[j]);
    assert forall j :: 0 <= j < SpanDigits(s) ==> IsDigit(s[j]);
  }

  /** `s.split(c)[0]`: everything before the first `c`. */
  function PrefixBefore(s: string, c: char): (r: string)
    ensures |r| <= |s| && r == s[..|r|]
    ensures c !in r
    ensures |r| < |s| ==> s[|r|] == c
  {
    Split(s, c)[0]
  }

  // ---------------------------------------------------------------------------
  // s.splitlines()
  // ---------------------------------------------------------------------------

  /** `s.splitlines()` of a Python 2 byte string: lines end at "\n", "\r" or
      "\r\n"; the terminators are dropped and a final terminator does not
      open an empty last line. */
  function SplitLines(s: string): (lines: seq<string>)
    ensures lines == [] <==> s == []
    ensures forall k :: 0 <= k < |lines| ==> NoLineBreak(lines[k])
    ensures s != [] ==> lines[0] == s[..LineEnd(s)]
    decreases |s|
  {
    if s == [] then []
    else
      var i := LineEnd(s);
      [s[..i]] + SplitLines(s[NextLine(s, i)..])
  }

  /** Where the line after the one ending at `i` starts. */
  function NextLine(s: string, i: nat): (n: nat)
    requires i <= |s|
    ensures i < n <= |s| || n == i == |s|
  {
    if i == |s| then i
    else if s[i] == '\r' && i + 1 < |s| && s[i + 1] == '\n' then i + 2
    else i + 1
  }

  /** Each line followed by "\n", as a file of lines is written. */
  function Terminated(lines: seq<string>): string {
    if lines == [] then [] else lines[0] + "\n" + Terminated(lines[1..])
  }

  /** `splitlines()` of text that ends with "\n" distributes over appending. */
  lemma {:induction false} SplitLinesAppend(a: string, b: string)
    requires a == [] || a[|a| - 1] == '\n'
    ensures SplitLines(a + b) == SplitLines(a) + SplitLines(b)
    decreases |a|
  {
    if a != [] {
      var i := LineEnd(a);
      LineEndPrefix(a, b);
      var n := NextLineAppend(a, b, i);
      ConcatSlices(a, b, i, n);
      var a' := a[n..];
      assert a' == [] || a'[|a'| - 1] == '\n';
      SplitLinesAppend(a', b);
      AppendAssoc([a[..i]], SplitLines(a'), SplitLines(b));
    } else {
      assert a + b == b;
    }
  }

  /** Cutting `a + b` inside `a`. */
  lemma ConcatSlices(a: string, b: string, i: nat, n: nat)
    requires i <= n <= |a|
    ensures (a + b)[..i] == a[..i] && (a + b)[n..] == a[n..] + b
  {
  }

  lemma AppendAssoc<T>(a: seq<T>, b: seq<T>, c: seq<T>)
    ensures a + (b + c) == a + b + c
  {
  }

  /** The line ending inside `a` is followed by the same next line in `a + b`. */
  lemma NextLineAppend(a: string, b: string, i: nat) returns (n: nat)
    requires a != [] && a[|a| - 1] == '\n'
    requires i < |a| && IsLineBreak(a[i])
    ensures n == NextLine(a, i) == NextLine(a + b, i)
    ensures n <= |a|
  {
    n := NextLine(a, i);
    assert (a + b)[i] == a[i];
    if i + 1 < |a| {
      assert (a + b)[i + 1] == a[i + 1];
    }
  }

  /** A line break inside `a` ends the first line of `a + b` where it ends
      the first line of `a`. */
  lemma {:induction false} LineEndPrefix(a: string, b: string)
    requires LineEnd(a) < |a|
    ensures LineEnd(a + b) == LineEnd(a)
    decreases |a|
  {
    if !IsLineBreak(a[0]) {
      assert (a + b)[1..] == a[1..] + b;
      LineEndPrefix(a[1..], b);
    }
  }

  /** `splitlines()` recovers lines written one per "\n"-terminated row. */
  lemma {:induction false} SplitLinesTerminated(lines: seq<string>)
    requires forall k :: 0 <= k < |lines| ==> NoLineBreak(lines[k])
    ensures SplitLines(Terminated(lines)) == lines
    decreases |lines|
  {
    if lines != [] {
      var l := lines[0];
      SingleLine(l);
      assert Terminated(lines) == (l + "\n") + Terminated(lines[1..]);
      SplitLinesAppend(l + "\n", Terminated(lines[1..]));
      SplitLinesTerminated(lines[1..]);
    }
  }

  /** A break-free line followed by "\n" is exactly one line. */
  lemma SingleLine(l: string)
    requires NoLineBreak(l)
    ensures SplitLines(l + "\n") == [l]
  {
    var s := l + "\n";
    LineEndOfLine(l);
    assert s[..|l|] == l;
    assert NextLine(s, |l|) == |s|;
    assert s[|s|..] == [];
  }

  lemma {:induction false} LineEndOfLine(l: string)
    requires NoLineBreak(l)
    ensures LineEnd(l + "\n") == |l|
    decreases |l|
  {
    if l != [] {
      assert (l + "\n")[1..] == l[1..] + "\n";
      LineEndOfLine(l[1..]);
    }
  }

  /** A text without line breaks is its own single line, even without a
      terminator. */
  lemma SplitLinesNoBreak(l: string)
    requires l != [] && NoLineBreak(l)
    ensures SplitLines(l) == [l]
  {
    assert LineEnd(l) == |l|;
    assert l[..|l|] == l;
    assert l[|l|..] == [];
  }

  /** A line ended by "\n" is the first line, and the rest follows. */
  lemma SplitLinesLF(l: string, rest: string)
    requires NoLineBreak(l)
    ensures SplitLines(l + ("\n" + rest)) == [l] + SplitLines(rest)
  {
    SplitLinesAfter(l, "\n", rest);
  }

  /** A line ended by a lone "\r" is the first line, and the rest follows. */
  lemma SplitLinesCR(l: string, rest: string)
    requires NoLineBreak(l)
    requires rest == [] || rest[0] != '\n'
    ensures SplitLines(l + ("\r" + rest)) == [l] + SplitLines(rest)
  {
    SplitLinesAfter(l, "\r", rest);
  }

  /** A line ended by "\r\n" is the first line: the pair is one break. */
  lemma SplitLinesCRLF(l: string, rest: string)
    requires NoLineBreak(l)
    ensures SplitLines(l + ("\r\n" + rest)) == [l] + SplitLines(rest)
  {
    SplitLinesAfter(l, "\r\n", rest);
  }

  /** One of the three line terminators, followed by `rest`. */
  predicate IsTerminator(b: string, rest: string) {
    b == "\n" || b == "\r\n" || (b == "\r" && (rest == [] || rest[0] != '\n'))
  }

  /** A break-free line and its terminator are the first line. */
  lemma SplitLinesAfter(l: string, b: string, rest: string)
    requires NoLineBreak(l) && IsTerminator(b, rest)
    ensures SplitLines(l + (b + rest)) == [l] + SplitLines(rest)
  {
    var s := l + (b + rest);
    LineEndAtTerminator(l, b, rest);
    NextLineAfter(l, b, rest);
    TakeConcat(l, b + rest);
    DropAfter(l, b, rest);
    FirstLineIs(s, l, |l| + |b|, rest);
  }

  /** `splitlines()` of text whose first line is `l` and whose next line
      starts at `m`. */
  lemma FirstLineIs(s: string, l: string, m: nat, rest: string)
    requires s != [] && LineEnd(s) == |l| && m <= |s| && m == NextLine(s, |l|)
    requires s[..|l|] == l && s[m..] == rest
    ensures SplitLines(s) == [l] + SplitLines(rest)
  {
  }

  lemma LineEndAtTerminator(l: string, b: string, rest: string)
    requires NoLineBreak(l) && IsTerminator(b, rest)
    ensures LineEnd(l + (b + rest)) == |l|
  {
    assert b + rest == [b[0]] + (b[1..] + rest);
    LineEndAtBreak(l, b[0], b[1..] + rest);
  }

  /** The next line starts right after the terminator. */
  lemma NextLineAfter(l: string, b: string, rest: string)
    requires IsTerminator(b, rest)
    ensures NextLine(l + (b + rest), |l|) == |l| + |b|
  {
    var s := l + (b + rest);
    assert s[|l|] == b[0];
    if |b| == 2 {
      assert s[|l| + 1] == b[1];
    } else if |l| + 1 < |s| {
      assert s[|l| + 1] == rest[0];
    }
  }

  lemma DropAfter(l: string, b: string, rest: string)
    ensures (l + (b + rest))[|l| + |b|..] == rest
  {
    AppendAssoc(l, b, rest);
    DropConcat(l + b, rest);
  }

  /** The first line break of `l + [c] + rest`, for break-free `l`, is `c`. */
  lemma {:induction false} LineEndAtBreak(l: string, c: char, rest: string)
    requires NoLineBreak(l) && IsLineBreak(c)
    ensures LineEnd(l + ([c] + rest)) == |l|
    decreases |l|
  {
    if l != [] {
      assert (l + ([c] + rest))[1..] == l[1..] + ([c] + rest);
      LineEndAtBreak(l[1..], c, rest);
    }
  }

  // ---------------------------------------------------------------------------
  // s.split() without arguments
  // ---------------------------------------------------------------------------

  /** A non-empty run of non-whitespace characters. */
  predicate IsWord(t: string) {
    t != [] && forall j :: 0 <= j < |t| ==> !IsSpace(t[j])
  }

  /** `s.split()`: the maximal runs of non-whitespace, in order. */
  function Words(s: string): (ws: seq<string>)
    ensures forall k :: 0 <= k < |ws| ==> IsWord(ws[k])
    ensures ws == [] <==> AllSpace(s)
    decreases |s|
  {
    var w := SpanSpace(s);
    if w == |s| then
      assert s[..w] == s;
      []
    else
      var rest := s[w..];
      var n := SpanWord(rest);
      [rest[..n]] + Words(rest[n..])
  }

  /** Words separated by single spaces. */
  function Unwords(ws: seq<string>): string {
    if ws == [] then [] else if |ws| == 1 then ws[0] else ws[0] + (" " + Unwords(ws[1..]))
  }

  /** `split()` recovers the words of a single-spaced line. */
  lemma {:induction false} WordsUnwords(ws: seq<string>)
    requires forall k :: 0 <= k < |ws| ==> IsWord(ws[k])
    ensures Words(Unwords(ws)) == ws
    decreases |ws|
  {
    if |ws| == 1 {
      WordsCons(ws[0], []);
      assert ws[0] + [] == ws[0];
    } else if |ws| > 1 {
      var tail := ws[1..];
      var r := Unwords(tail);
      UnwordsStart(tail);
      WordsCons(ws[0], " " + r);
      SkipSpace(r);
      WordsUnwords(tail);
      HeadTail(ws);
    }
  }

  lemma HeadTail<T>(xs: seq<T>)
    requires xs != []
    ensures xs == [xs[0]] + xs[1..]
  {
  }

  /** A single-spaced line of words starts with its first word. */
  lemma UnwordsStart(ws: seq<string>)
    requires |ws| >= 1 && IsWord(ws[0])
    ensures Unwords(ws) != [] && Unwords(ws)[0] == ws[0][0]
  {
  }

  /** A word followed by a blank (or by nothing) is the first word. */
  lemma WordsCons(t: string, rest: string)
    requires IsWord(t)
    requires rest == [] || IsSpace(rest[0])
    ensures Words(t + rest) == [t] + Words(rest)
  {
    var s := t + rest;
    assert !IsSpace(s[0]);
    assert SpanSpace(s) == 0;
    assert s[0..] == s;
    WordFront(t, rest);
    assert s[..|t|] == t;
    assert s[|t|..] == rest;
  }

  /** A word followed by a blank or nothing is a full run of non-whitespace. */
  lemma {:induction false} WordFront(t: string, rest: string)
    requires IsWord(t)
    requires rest == [] || IsSpace(rest[0])
    ensures SpanWord(t + rest) == |t|
    decreases |t|
  {
    if |t| > 1 {
      assert (t + rest)[1..] == t[1..] + rest;
      WordFront(t[1..], rest);
    }
  }

  /** `split()` skips a whitespace run, takes the word after it as the first
      word and goes on after that word: together with `Words(sp) == []` for
      all-whitespace `sp`, this fixes `split()` on every text. */
  lemma WordsStep(sp: string, w: string, rest: string)
    requires AllSpace(sp) && IsWord(w)
    requires rest == [] || IsSpace(rest[0])
    ensures Words(sp + (w + rest)) == [w] + Words(rest)
  {
    var s := sp + (w + rest);
    SpanSpaceConcat(sp, w + rest);
    DropConcat(sp, w + rest);
    WordFront(w, rest);
    TakeConcat(w, rest);
    DropConcat(w, rest);
  }

  /** A single leading blank before a word does not change `split()`. */
  lemma SkipSpace(r: string)
    requires r != [] && !IsSpace(r[0])
    ensures Words(" " + r) == Words(r)
  {
    var s := " " + r;
    assert SpanSpace(s) == 1;
    assert s[1..] == r;
    assert SpanSpace(r) == 0;
    assert r[0..] == r;
  }

  // ---------------------------------------------------------------------------
  // s.strip()
  // ---------------------------------------------------------------------------

  /** `s.strip()`: `s` without its leading and trailing whitespace. */
  function Strip(s: string): (t: string)
    ensures SpanSpace(s) + |t| <= |s|
    ensures t == s[SpanSpace(s)..SpanSpace(s) + |t|]
    ensures AllSpace(s[SpanSpace(s) + |t|..])
    ensures t == [] <==> AllSpace(s)
    ensures t != [] ==> !IsSpace(t[0]) && !IsSpace(t[|t| - 1])
  {
    var lead := SpanSpace(s);
    if lead == |s| then
      assert s[..lead] == s;
      []
    else
      var trail := TrailingSpace(s);
      assert lead < |s| - trail;
      var t := s[lead..|s| - trail];
      assert s[lead + |t|..] == s[|s| - trail..];
      assert !AllSpace(s) by { assert !IsSpace(s[lead]); }
      t
  }

  /** Text that neither starts nor ends with whitespace is its own strip. */
  lemma StripTrimmed(s: string)
    requires s != [] && !IsSpace(s[0]) && !IsSpace(s[|s| - 1])
    ensures Strip(s) == s
  {
    assert SpanSpace(s) == 0;
    assert TrailingSpace(s) == 0;
  }

  // ---------------------------------------------------------------------------
  // int() and str() for integers
  // ---------------------------------------------------------------------------

  function DigitValue(c: char): (d: nat)
    requires IsDigit(c)
    ensures d < 10
  {
    (c as int) - ('0' as int)
  }

  function DigitChar(d: nat): (c: char)
    requires d < 10
    ensures IsDigit(c) && DigitValue(c) == d
  {
    (('0' as int) + d) as char
  }

  /** The number a string of decimal digits denotes (most significant first). */
  function DecimalValue(s: string): nat
    requires AllDigits(s)
    decreases |s|
  {
    if s == [] then 0 else 10 * DecimalValue(s[..|s| - 1]) + DigitValue(s[|s| - 1])
  }

  /** The shortest decimal spelling of `n`; `DecimalValue` reads it back. */
  function NatToDecimal(n: nat): (s: string)
    ensures s != [] && AllDigits(s)
    ensures DecimalValue(s) == n
    ensures |s| > 1 ==> s[0] != '0'
  {
    if n < 10 then [DigitChar(n)]
    else
      var s := NatToDecimal(n / 10) + [DigitChar(n % 10)];
      assert s[..|s| - 1] == NatToDecimal(n / 10);
      s
  }

  /** What Python's `int()` accepts here: optional surrounding whitespace,
      at most one sign, then one or more decimal digits. */
  predicate IsIntLiteral(s: string) {
    var t := Strip(s);
    t != [] &&
    if t[0] == '-' || t[0] == '+' then |t| >= 2 && AllDigits(t[1..]) else AllDigits(t)
  }

  /** `int(s)` on a decimal literal. */
  function ParseInt(s: string): int
    requires IsIntLiteral(s)
  {
    var t := Strip(s);
    if t[0] == '-' then -(DecimalValue(t[1..]) as int)
    else if t[0] == '+' then DecimalValue(t[1..])
    else DecimalValue(t)
  }

  /** `str(n)`: the canonical decimal spelling, with a leading "-" exactly
      for negative numbers, no "+" and no leading zero. */
  function IntToString(n: int): (s: string)
    ensures s != [] && ' ' !in s
    ensures var ds := if n < 0 then s[1..] else s;
      (n < 0 <==> s[0] == '-') && ds != [] && AllDigits(ds) &&
      DecimalValue(ds) == (if n < 0 then -n else n) && (|ds| > 1 ==> ds[0] != '0')
  {
    assert !IsDigit(' ') && !IsDigit('-');
    if n < 0 then
      var s := "-" + NatToDecimal(-n);
      assert s[1..] == NatToDecimal(-n);
      s
    else NatToDecimal(n)
  }

  /** `int(str(n)) == n` */
  lemma ParseIntToString(n: int)
    ensures IsIntLiteral(IntToString(n)) && ParseInt(IntToString(n)) == n
  {
    var s := IntToString(n);
    assert forall j :: 0 <= j < |s| ==> s[j] == '-' || IsDigit(s[j]);
    StripTrimmed(s);
    assert n < 0 ==> s[1..] == NatToDecimal(-n);
  }
}
