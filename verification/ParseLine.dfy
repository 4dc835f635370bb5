/** parseline of tsh.c: splitting a command line into arguments, in place. */
module ParseLine {
  const NUL := '\0'

  // ---- what it computes ----

  /** How many spaces s starts with. */
  function Blanks(s: string): (n: nat)
    ensures n <= |s| && (n < |s| ==> s[n] != ' ') && forall j :: 0 <= j < n ==> s[j] == ' '
  {
    if s == "" || s[0] != ' ' then 0 else 1 + Blanks(s[1..])
  }

  function SkipSpaces(s: string): string {
    s[Blanks(s)..]
  }

  /** strchr: the first position of c, |s| for NULL. */
  function Find(s: string, c: char): (d: nat)
    ensures d <= |s| && (d < |s| ==> s[d] == c) && c !in s[..d]
  {
    if s == "" || s[0] == c then 0 else 1 + Find(s[1..], c)
  }

  datatype Split = Nothing | Token(text: string, rest: string)

  /** The argument at the front: up to the closing quote, or up to the next space. */
  function FirstToken(u: string): (r: Split)
    ensures r.Token? ==> |r.rest| < |u|
  {
    if u != "" && u[0] == '\'' then
      var v := u[1..];
      var d := Find(v, '\'');
      if d == |v| then Nothing else Token(v[..d], v[d + 1..])
    else
      var d := Find(u, ' ');
      if d == |u| then Nothing else Token(u[..d], u[d + 1..])
  }

  function NextToken(s: string): (r: Split)
    ensures r.Token? ==> |r.rest| < |s|
  {
    FirstToken(SkipSpaces(s))
  }

  /** The arguments of a buffer whose newline has been replaced by a space. */
  function Tokens(s: string): seq<string>
    decreases |s|
  {
    match NextToken(s)
    case Nothing => []
    case Token(text, rest) => [text] + Tokens(rest)
  }

  predicate IsBackground(args: seq<string>) {
    args != [] && args[|args| - 1] != "" && args[|args| - 1][0] == '&'
  }

  datatype Parsed = Parsed(args: seq<string>, bg: bool)

  /** A blank line is reported as background; a last argument that starts with '&' is dropped. */
  function Parse(cmdline: string): Parsed
    requires cmdline != ""
  {
    var args := Tokens(cmdline[..|cmdline| - 1] + " ");
    if args == [] then Parsed([], true)
    else if IsBackground(args) then Parsed(args[..|args| - 1], true)
    else Parsed(args, false)
  }

  // ---- the round trip ----

  /** An argument as the user may type it: bare, or between single quotes. */
  datatype Typed = Typed(text: string, quoted: bool)

  predicate Typable(a: Typed) {
    if a.quoted then '\'' !in a.text
    else a.text != "" && ' ' !in a.text && a.text[0] != '\''
  }

  function Form(a: Typed): string {
    if a.quoted then "'" + a.text + "'" else a.text
  }

  /** The arguments separated by single spaces, ended by a newline. */
  function Print(args: seq<Typed>): (line: string)
    ensures line != ""
  {
    Join(args) + "\n"
  }

  function Join(args: seq<Typed>): string {
    if args == [] then "" else if |args| == 1 then Form(args[0]) else Form(args[0]) + " " + Join(args[1..])
  }

  function Texts(args: seq<Typed>): seq<string> {
    if args == [] then [] else [args[0].text] + Texts(args[1..])
  }

  lemma {:induction false} FindIn(p: string, c: char, q: string)
    requires c !in p
    ensures Find(p + [c] + q, c) == |p|
  {
    if p != "" {
      assert (p + [c] + q)[1..] == p[1..] + [c] + q;
      FindIn(p[1..], c, q);
    }
  }

  lemma NextQuoted(text: string, rest: string)
    requires '\'' !in text
    ensures NextToken("'" + text + "'" + rest) == Token(text, rest)
  {
    var s := "'" + text + "'" + rest;
    var v := s[1..];
    assert SkipSpaces(s) == s;
    assert v == text + ['\''] + rest;
    FindIn(text, '\'', rest);
  }

  lemma NextBare(text: string, rest: string)
    requires text != "" && ' ' !in text && text[0] != '\''
    ensures NextToken(text + " " + rest) == Token(text, rest)
  {
    var s := text + " " + rest;
    assert text[0] in text;
    assert SkipSpaces(s) == s;
    assert s == text + [' '] + rest;
    FindIn(text, ' ', rest);
  }

  /** A space in front of the rest of the line makes no difference. */
  lemma SpaceBefore(rest: string)
    ensures Tokens(" " + rest) == Tokens(rest)
  {
    assert (" " + rest)[1..] == rest;
    assert Blanks(" " + rest) == 1 + Blanks(rest);
    assert SkipSpaces(" " + rest) == SkipSpaces(rest);
    assert NextToken(" " + rest) == NextToken(rest);
  }

  lemma OneToken(a: Typed, rest: string)
    requires Typable(a)
    ensures Tokens(Form(a) + " " + rest) == [a.text] + Tokens(rest)
  {
    if a.quoted {
      assert Form(a) + " " + rest == "'" + a.text + "'" + (" " + rest);
      NextQuoted(a.text, " " + rest);
      SpaceBefore(rest);
    } else {
      NextBare(a.text, rest);
    }
  }

  /** The buffer parseline works on: every argument is followed by a space. */
  function Buffer(args: seq<Typed>): string {
    if args == [] then "" else Form(args[0]) + " " + Buffer(args[1..])
  }

  lemma {:induction false} BufferOfJoin(args: seq<Typed>)
    requires args != []
    ensures Join(args) + " " == Buffer(args)
  {
    if |args| == 1 {
      assert Buffer(args[1..]) == "";
    } else {
      BufferOfJoin(args[1..]);
      assert Join(args) + " " == Form(args[0]) + " " + (Join(args[1..]) + " ");
    }
  }

  lemma {:induction false} TokensOfBuffer(args: seq<Typed>)
    requires forall i :: 0 <= i < |args| ==> Typable(args[i])
    ensures Tokens(Buffer(args)) == Texts(args)
  {
    if args != [] {
      OneToken(args[0], Buffer(args[1..]));
      TokensOfBuffer(args[1..]);
    }
  }

  lemma TokensOfJoin(args: seq<Typed>)
    requires forall i :: 0 <= i < |args| ==> Typable(args[i])
    ensures Tokens(Join(args) + " ") == Texts(args)
  {
    TokensOfBuffer(args);
    if args == [] {
      SpaceBefore("");
      assert Join(args) + " " == " " + "";
    } else {
      BufferOfJoin(args);
    }
  }

  lemma {:induction false} TextsAt(args: seq<Typed>)
    ensures |Texts(args)| == |args| && forall i :: 0 <= i < |args| ==> Texts(args)[i] == args[i].text
  {
    if args != [] {
      TextsAt(args[1..]);
    }
  }

  lemma {:induction false} TextsAppend(args: seq<Typed>, a: Typed)
    ensures Texts(args + [a]) == Texts(args) + [a.text]
  {
    if args != [] {
      TextsAppend(args[1..], a);
      assert (args + [a])[1..] == args[1..] + [a];
    }
  }

  /** What parsing comes to, by the arguments in the buffer. */
  lemma ParseTokens(line: string, args: seq<string>)
    requires line != "" && Tokens(line[..|line| - 1] + " ") == args
    ensures args == [] ==> Parse(line) == Parsed([], true)
    ensures args != [] && args[|args| - 1] != "" && args[|args| - 1][0] == '&' ==>
              Parse(line) == Parsed(args[..|args| - 1], true)
    ensures args != [] && (args[|args| - 1] == "" || args[|args| - 1][0] != '&') ==> Parse(line) == Parsed(args, false)
  {
  }

  lemma TokensOfPrint(args: seq<Typed>)
    requires forall i :: 0 <= i < |args| ==> Typable(args[i])
    ensures Tokens(Print(args)[..|Print(args)| - 1] + " ") == Texts(args)
  {
    TokensOfJoin(args);
    assert Print(args)[..|Print(args)| - 1] == Join(args);
  }

  /** Printing and parsing give the arguments back. */
  lemma RoundTrip(args: seq<Typed>)
    requires forall i :: 0 <= i < |args| ==> Typable(args[i])
    requires args != [] && (args[|args| - 1].text == "" || args[|args| - 1].text[0] != '&')
    ensures Parse(Print(args)) == Parsed(Texts(args), false)
  {
    TokensOfPrint(args);
    TextsAt(args);
    ParseTokens(Print(args), Texts(args));
  }

  /** A last argument that starts with '&', quoted or not, is dropped and asks for background. */
  lemma RoundTripBackground(args: seq<Typed>, t: string, quoted: bool)
    requires forall i :: 0 <= i < |args| ==> Typable(args[i])
    requires Typable(Typed("&" + t, quoted))
    ensures Parse(Print(args + [Typed("&" + t, quoted)])) == Parsed(Texts(args), true)
  {
    var a := Typed("&" + t, quoted);
    TokensOfOneMore(args, a);
    ParseBackground(Print(args + [a]), Texts(args), a.text);
  }

  lemma TokensOfOneMore(args: seq<Typed>, a: Typed)
    requires Typable(a) && forall i :: 0 <= i < |args| ==> Typable(args[i])
    ensures var line := Print(args + [a]);
            Tokens(line[..|line| - 1] + " ") == Texts(args) + [a.text]
  {
    TokensOfPrint(args + [a]);
    TextsAppend(args, a);
  }

  lemma ParseBackground(line: string, args: seq<string>, last: string)
    requires last != "" && last[0] == '&'
    requires line != "" && Tokens(line[..|line| - 1] + " ") == args + [last]
    ensures Parse(line) == Parsed(args, true)
  {
    var all := args + [last];
    ParseTokens(line, all);
    assert all[|all| - 1] == last && all[..|all| - 1] == args;
  }

  // ---- any spacing ----

  function Spaces(n: nat): string {
    seq(n, _ => ' ')
  }

  lemma {:induction false} SpacesBefore(n: nat, rest: string)
    ensures Tokens(Spaces(n) + rest) == Tokens(rest)
  {
    if n == 0 {
      assert Spaces(0) + rest == rest;
    } else {
      assert Spaces(n) + rest == " " + (Spaces(n - 1) + rest);
      SpaceBefore(Spaces(n - 1) + rest);
      SpacesBefore(n - 1, rest);
    }
  }

  /** The buffer for arguments with gaps[i] more spaces than needed in front of argument i. */
  function Padded(args: seq<Typed>, gaps: seq<nat>): string
    requires |gaps| == |args|
  {
    if args == [] then "" else Spaces(gaps[0]) + (Form(args[0]) + " " + Padded(args[1..], gaps[1..]))
  }

  lemma Regroup(a: string, b: string, c: string, d: string)
    ensures a + (b + c) + d == a + (b + (c + d))
  {
  }

  lemma OnePadded(a: Typed, gap: nat, tail: string, rest: string)
    requires Typable(a)
    ensures Tokens(Spaces(gap) + (Form(a) + " " + tail) + rest) == [a.text] + Tokens(tail + rest)
  {
    Regroup(Spaces(gap), Form(a) + " ", tail, rest);
    SpacesBefore(gap, Form(a) + " " + (tail + rest));
    OneToken(a, tail + rest);
  }

  lemma {:induction false} TokensOfPadded(args: seq<Typed>, gaps: seq<nat>, rest: string)
    requires |gaps| == |args| && forall i :: 0 <= i < |args| ==> Typable(args[i])
    ensures Tokens(Padded(args, gaps) + rest) == Texts(args) + Tokens(rest)
  {
    if args == [] {
      assert Padded(args, gaps) + rest == rest;
    } else {
      OnePadded(args[0], gaps[0], Padded(args[1..], gaps[1..]), rest);
      TokensOfPadded(args[1..], gaps[1..], rest);
      ConsAppend(args[0].text, Texts(args[1..]), Tokens(rest));
    }
  }

  lemma ConsAppend(x: string, s: seq<string>, t: seq<string>)
    ensures [x] + (s + t) == ([x] + s) + t
  {
  }

  /** A line with any number of spaces before, between and after its arguments; its last space is the newline. */
  function Line(args: seq<Typed>, gaps: seq<nat>, after: nat): (line: string)
    requires |gaps| == |args|
    ensures line != ""
  {
    var b := Padded(args, gaps) + Spaces(after);
    if b == "" then "\n" else b[..|b| - 1] + "\n"
  }

  lemma {:induction false} PaddedEnds(args: seq<Typed>, gaps: seq<nat>)
    requires |gaps| == |args|
    ensures args != [] ==> Padded(args, gaps) != "" && Padded(args, gaps)[|Padded(args, gaps)| - 1] == ' '
  {
    if |args| > 1 {
      PaddedEnds(args[1..], gaps[1..]);
    }
  }

  lemma LineBuffer(args: seq<Typed>, gaps: seq<nat>, after: nat)
    requires |gaps| == |args| && Padded(args, gaps) + Spaces(after) != ""
    ensures var line := Line(args, gaps, after);
            line[..|line| - 1] + " " == Padded(args, gaps) + Spaces(after)
  {
    var b := Padded(args, gaps) + Spaces(after);
    PaddedEnds(args, gaps);
    assert b[|b| - 1] == ' ';
    assert b == b[..|b| - 1] + " ";
    assert (b[..|b| - 1] + "\n")[..|b| - 1] == b[..|b| - 1];
  }

  lemma TokensOfSpaces(n: nat)
    ensures Tokens(Spaces(n)) == []
  {
    SpacesBefore(n, "");
    assert Spaces(n) + "" == Spaces(n);
  }

  lemma TokensOfLine(args: seq<Typed>, gaps: seq<nat>, after: nat)
    requires |gaps| == |args| && forall i :: 0 <= i < |args| ==> Typable(args[i])
    ensures var line := Line(args, gaps, after);
            Tokens(line[..|line| - 1] + " ") == Texts(args)
  {
    TokensOfPadded(args, gaps, Spaces(after));
    TokensOfSpaces(after);
    if Padded(args, gaps) + Spaces(after) != "" {
      LineBuffer(args, gaps, after);
    } else {
      PaddedEnds(args, gaps);
      TokensOfSpaces(1);
      assert "" + " " == Spaces(1);
    }
  }

  /**
   Spaces in front of, between and behind the arguments make no difference; a blank line is reported as a
   background job without arguments.
   */
  lemma AnySpacing(args: seq<Typed>, gaps: seq<nat>, after: nat)
    requires |gaps| == |args| && forall i :: 0 <= i < |args| ==> Typable(args[i])
    ensures |Texts(args)| == |args|
    ensures Parse(Line(args, gaps, after)) ==
            if args == [] then Parsed([], true)
            else if args[|args| - 1].text != "" && args[|args| - 1].text[0] == '&' then
              Parsed(Texts(args)[..|args| - 1], true)
            else Parsed(Texts(args), false)
  {
    TokensOfLine(args, gaps, after);
    TextsAt(args);
    ParseTokens(Line(args, gaps, after), Texts(args));
  }

  /** What follows a quote that is not closed is no argument. */
  lemma UnclosedQuote(args: seq<Typed>, gaps: seq<nat>, t: string)
    requires |gaps| == |args| && (forall i :: 0 <= i < |args| ==> Typable(args[i])) && '\'' !in t
    ensures Tokens(Padded(args, gaps) + ("'" + t)) == Texts(args)
  {
    var s := "'" + t;
    TokensOfPadded(args, gaps, s);
    assert SkipSpaces(s) == s;
    assert s[1..] == t;
    NotFound(t, '\'');
  }

  lemma {:induction false} NotFound(t: string, c: char)
    requires c !in t
    ensures Find(t, c) == |t|
  {
    if t != "" {
      NotFound(t[1..], c);
    }
  }

  // ---- the C function ----

  /** The C string at address i of a buffer. */
  function CString(b: seq<char>, i: nat): string
    decreases |b| - i
  {
    if i >= |b| || b[i] == NUL then "" else [b[i]] + CString(b, i + 1)
  }

  /** The buffer holds t at i, with its terminator. */
  ghost predicate HoldsString(b: seq<char>, i: int, t: string) {
    && 0 <= i && i + |t| < |b| && b[i + |t|] == NUL
    && forall j :: i <= j < i + |t| ==> b[j] == t[j - i] && b[j] != NUL
  }

  lemma {:induction false} CStringHeld(b: seq<char>, i: nat, t: string)
    requires HoldsString(b, i, t)
    ensures CString(b, i) == t
    decreases |t|
  {
    if t != "" {
      CStringHeld(b, i + 1, t[1..]);
    }
  }

  /** From pos on, the buffer still is the line s, terminated. */
  ghost predicate Pristine(b: seq<char>, s: string, pos: nat) {
    && pos <= |s| < |b| && b[|s|] == NUL
    && forall j :: pos <= j < |s| ==> b[j] == s[j] && b[j] != NUL
  }

  /** Moves on over the spaces at pos; the terminator ends it as well. */
  method SkipBlanks(buf: array<char>, pos: nat, ghost s: string) returns (r: nat)
    requires Pristine(buf[..], s, pos)
    ensures r == pos + Blanks(s[pos..])
  {
    r := pos;
    while buf[r] != NUL && buf[r] == ' '
      invariant pos <= r <= |s| && r + Blanks(s[r..]) == pos + Blanks(s[pos..])
      decreases |s| - r
    {
      assert s[r..][1..] == s[r + 1..];
      r := r + 1;
    }
  }

  /** strchr(buf + from, c), with -1 for NULL */
  method StrChr(buf: array<char>, from: nat, c: char, ghost s: string, ghost pos: nat) returns (r: int)
    requires Pristine(buf[..], s, pos) && pos <= from <= |s| && c != NUL
    ensures var d := Find(s[from..], c); r == if from + d == |s| then -1 else from + d
  {
    r := from;
    while buf[r] != NUL && buf[r] != c
      invariant from <= r <= |s| && from + Find(s[from..], c) == r + Find(s[r..], c)
      decreases |s| - r
    {
      assert s[r..][1..] == s[r + 1..];
      r := r + 1;
    }
    if buf[r] == NUL {
      r := -1;
    }
  }

  lemma SplitAt(s: string, r: nat, start: nat, delim: int)
    requires r <= |s| && start == if r < |s| && s[r] == '\'' then r + 1 else r
    requires var d := Find(s[start..], if start == r then ' ' else '\'');
             delim == if start + d == |s| then -1 else start + d
    ensures match FirstToken(s[r..])
            case Nothing => delim == -1
            case Token(text, rest) => start <= delim < |s| && text == s[start..delim] && rest == s[delim + 1..]
  {
    var u := s[r..];
    assert start == r + 1 ==> u[1..] == s[start..];
  }

  /** start and delim enclose the next argument of s from pos on; delim is -1 when there is none. */
  ghost predicate Delimits(s: string, pos: nat, start: nat, delim: int) {
    && pos <= |s|
    && match NextToken(s[pos..])
       case Nothing => delim == -1
       case Token(text, rest) => pos <= start <= delim < |s| && text == s[start..delim] && rest == s[delim + 1..]
  }

  /** Skip blanks, step over an opening quote, and look for the delimiter. */
  method NextDelim(buf: array<char>, pos: nat, ghost s: string) returns (start: nat, delim: int)
    requires Pristine(buf[..], s, pos)
    ensures Delimits(s, pos, start, delim)
  {
    start := SkipBlanks(buf, pos, s);
    ghost var r := start;
    assert s[r..] == SkipSpaces(s[pos..]);
    if buf[start] == '\'' {
      start := start + 1;
      delim := StrChr(buf, start, '\'', s, pos);
    } else {
      delim := StrChr(buf, start, ' ', s, pos);
    }
    SplitAt(s, r, start, delim);
  }

  /** strcpy, and the newline at the end becomes a space. */
  method CopyLine(cmdline: string, buf: array<char>)
    requires 1 <= |cmdline| < buf.Length && NUL !in cmdline
    modifies buf
    ensures Pristine(buf[..], cmdline[..|cmdline| - 1] + " ", 0)
  {
    for i := 0 to |cmdline|
      invariant forall j :: 0 <= j < i ==> buf[j] == cmdline[j]
    {
      buf[i] := cmdline[i];
    }
    buf[|cmdline|] := NUL;
    buf[|cmdline| - 1] := ' ';
    forall j | 0 <= j < |cmdline| - 1
      ensures buf[j] == cmdline[j] != NUL
    {
      assert cmdline[j] in cmdline;
    }
  }

  /** The arguments stored so far. */
  ghost predicate Stored(b: seq<char>, argv: seq<int>, args: seq<string>, pos: nat) {
    && |args| <= |argv|
    && forall k {:trigger args[k]} :: 0 <= k < |args| ==> HoldsString(b, argv[k], args[k]) && argv[k] + |args[k]| < pos
  }

  lemma StoreNext(b: seq<char>, b': seq<char>, argv: seq<int>, argv': seq<int>, args: seq<string>,
                  s: string, pos: nat, start: nat, delim: nat)
    requires Pristine(b, s, pos) && Stored(b, argv, args, pos) && pos <= start <= delim < |s|
    requires |args| < |argv| && argv' == argv[|args| := start] && b' == b[delim := NUL]
    ensures Pristine(b', s, delim + 1) && Stored(b', argv', args + [s[start..delim]], delim + 1)
  {
  }

  // ---- where the scan for each argument begins ----

  /** From pos on, the next argument is text, and the scan after it begins at next. */
  ghost predicate StepTo(s: string, pos: nat, text: string, next: nat) {
    pos <= |s| && next <= |s| && NextToken(s[pos..]) == Token(text, s[next..])
  }

  ghost predicate NoMore(s: string, pos: nat) {
    pos <= |s| && NextToken(s[pos..]) == Nothing
  }

  /** From at[k] on, the next argument is all[k], and the scan after it begins at at[k + 1]. */
  ghost predicate ScanAt(s: string, all: seq<string>, at: seq<nat>, k: nat)
    requires |at| == |all| + 1 && k <= |all|
  {
    if k == |all| then NoMore(s, at[k]) else StepTo(s, at[k], all[k], at[k + 1])
  }

  ghost predicate Scans(s: string, all: seq<string>, at: seq<nat>) {
    && |at| == |all| + 1
    && forall k: nat {:trigger ScanAt(s, all, at, k)} :: k <= |all| ==> ScanAt(s, all, at, k)
  }

  lemma {:induction false} ScansTokens(s: string, pos: nat) returns (at: seq<nat>)
    requires pos <= |s|
    ensures Scans(s, Tokens(s[pos..]), at) && at[0] == pos
    decreases |s| - pos
  {
    match NextToken(s[pos..])
    case Nothing => at := [pos];
    case Token(text, rest) =>
      var next := |s| - |rest|;
      RestIs(s, pos, rest);
      assert StepTo(s, pos, text, next);
      at := ScansTokens(s, next);
      ScansCons(s, pos, text, next, Tokens(s[next..]), at);
      at := [pos] + at;
  }

  lemma ScansCons(s: string, pos: nat, text: string, next: nat, all: seq<string>, at: seq<nat>)
    requires Scans(s, all, at) && at[0] == next && StepTo(s, pos, text, next)
    ensures Scans(s, [text] + all, [pos] + at)
  {
    forall k: nat | k <= |all| + 1
      ensures ScanAt(s, [text] + all, [pos] + at, k)
    {
      ScanShift(s, pos, text, all, at, k);
    }
  }

  lemma ScanShift(s: string, pos: nat, text: string, all: seq<string>, at: seq<nat>, k: nat)
    requires Scans(s, all, at) && StepTo(s, pos, text, at[0]) && k <= |all| + 1
    ensures ScanAt(s, [text] + all, [pos] + at, k)
  {
    var all', at' := [text] + all, [pos] + at;
    if k > 0 {
      var j: nat := k - 1;
      assert ScanAt(s, all, at, j);
      assert at'[k] == at[j];
      assert k <= |all| ==> all'[k] == all[j] && at'[k + 1] == at[j + 1];
    }
  }

  /** What an argument leaves over is the end of the line. */
  lemma RestIs(s: string, pos: nat, rest: string)
    requires pos <= |s| && NextToken(s[pos..]).Token? && NextToken(s[pos..]).rest == rest
    ensures pos < |s| - |rest| && rest == s[|s| - |rest|..]
  {
    var k := Blanks(s[pos..]);
    var v := s[pos + k..];
    DropDrop(s, pos, k);
    FirstRest(v);
    DropDrop(s, pos + k, |v| - |rest|);
  }

  lemma DropDrop(s: string, i: nat, j: nat)
    requires i + j <= |s|
    ensures s[i..][j..] == s[i + j..]
  {
  }

  lemma FirstRest(u: string)
    requires FirstToken(u).Token?
    ensures var rest := FirstToken(u).rest; rest == u[|u| - |rest|..]
  {
  }

  // ---- the loop that builds argv ----

  /** The line from pos on is intact, and the first k arguments are stored. */
  ghost predicate Splitting(b: seq<char>, argv: seq<int>, s: string, all: seq<string>, k: nat, pos: nat) {
    k <= |all| && Pristine(b, s, pos) && Stored(b, argv, all[..k], pos)
  }

  method SplitLine(buf: array<char>, argv: array<int>, ghost s: string, ghost all: seq<string>, ghost at: seq<nat>)
    returns (argc: nat)
    requires Pristine(buf[..], s, 0) && Scans(s, all, at) && at[0] == 0 && |all| < argv.Length
    modifies buf, argv
    ensures argc == |all| && Stored(buf[..], argv[..], all, buf.Length) && argv[argc] == -1
  {
    argc := 0;
    var pos := 0;
    var start, delim := NextArg(buf, pos, s, all, at, argc);
    while delim != -1
      invariant argc <= |all| && pos == at[argc] && Splitting(buf[..], argv[..], s, all, argc, pos)
      invariant if argc == |all| then delim == -1 else pos <= start <= delim < |s|
      invariant argc < |all| ==> s[start..delim] == all[argc] && delim + 1 == at[argc + 1]
      decreases |all| - argc
    {
      StoreArg(buf, argv, argc, start, delim, s, all, pos);
      pos, argc := delim + 1, argc + 1;
      start, delim := NextArg(buf, pos, s, all, at, argc);
    }
    assert all[..argc] == all;
    EndArgs(buf, argv, argc, all, pos);
  }

  /** Finds the next argument, if there is one. */
  method NextArg(buf: array<char>, pos: nat, ghost s: string, ghost all: seq<string>, ghost at: seq<nat>, ghost k: nat)
    returns (start: nat, delim: int)
    requires Pristine(buf[..], s, pos) && Scans(s, all, at) && k <= |all| && pos == at[k]
    ensures if k == |all| then delim == -1 else pos <= start <= delim < |s|
    ensures k < |all| ==> s[start..delim] == all[k] && delim + 1 == at[k + 1]
  {
    start, delim := NextDelim(buf, pos, s);
    Found(s, pos, start, delim, all, at, k);
  }

  lemma Found(s: string, pos: nat, start: nat, delim: int, all: seq<string>, at: seq<nat>, k: nat)
    requires Delimits(s, pos, start, delim) && Scans(s, all, at) && k <= |all| && pos == at[k]
    ensures if k == |all| then delim == -1 else pos <= start <= delim < |s|
    ensures k < |all| ==> s[start..delim] == all[k] && delim + 1 == at[k + 1]
  {
    assert ScanAt(s, all, at, k);
  }

  method StoreArg(buf: array<char>, argv: array<int>, argc: nat, start: nat, delim: nat,
                  ghost s: string, ghost all: seq<string>, ghost pos: nat)
    requires Splitting(buf[..], argv[..], s, all, argc, pos) && argc < |all| < argv.Length
    requires pos <= start <= delim < |s| && s[start..delim] == all[argc]
    modifies buf, argv
    ensures Splitting(buf[..], argv[..], s, all, argc + 1, delim + 1)
  {
    ghost var b, av := buf[..], argv[..];
    argv[argc] := start;
    buf[delim] := NUL;
    StoreNext(b, buf[..], av, argv[..], all[..argc], s, pos, start, delim);
    assert all[..argc + 1] == all[..argc] + [all[argc]];
  }

  method EndArgs(buf: array<char>, argv: array<int>, argc: nat, ghost args: seq<string>, ghost pos: nat)
    requires Stored(buf[..], argv[..], args, pos) && argc == |args| < argv.Length && pos <= buf.Length
    modifies argv
    ensures Stored(buf[..], argv[..], args, buf.Length) && argv[argc] == -1
  {
    ghost var b, av := buf[..], argv[..];
    argv[argc] := -1;
    forall k | 0 <= k < |args|
      ensures HoldsString(buf[..], argv[k], args[k]) && argv[k] + |args[k]| < pos
    {
      assert HoldsString(b, av[k], args[k]);
    }
  }

  /** argv holds the addresses of these C strings, in order, ended by NULL. */
  ghost predicate Delivered(b: seq<char>, argv: seq<int>, args: seq<string>) {
    && |args| < |argv| && argv[|args|] == -1
    && forall k {:trigger argv[k]} :: 0 <= k < |args| ==> 0 <= argv[k] < |b| && CString(b, argv[k]) == args[k]
  }

  /**
   parseline. The caller guarantees room: fewer arguments than argv has slots (128 in eval), and a
   line that fits the buffer (1024 bytes there).
   Afterwards argv holds the addresses of the arguments, ended by NULL (here -1).
   */
  method ParseLine(cmdline: string, buf: array<char>, argv: array<int>) returns (bg: bool)
    requires 1 <= |cmdline| < buf.Length && NUL !in cmdline
    requires |Tokens(cmdline[..|cmdline| - 1] + " ")| < argv.Length
    modifies buf, argv
    ensures var args := Tokens(cmdline[..|cmdline| - 1] + " ");
            bg <==> args == [] || (args[|args| - 1] != "" && args[|args| - 1][0] == '&')
    ensures bg == Parse(cmdline).bg && Delivered(buf[..], argv[..], Parse(cmdline).args)
  {
    ghost var s := cmdline[..|cmdline| - 1] + " ";
    CopyLine(cmdline, buf);
    assert s[0..] == s;
    ghost var at := ScansTokens(s, 0);
    var argc := SplitLine(buf, argv, s, Tokens(s), at);
    ParseTokens(cmdline, Tokens(s));
    if argc == 0 {
      return true;
    }
    bg := TakeBackground(buf, argv, argc, Tokens(s));
  }

  /** The end of parseline, when there are arguments. */
  method TakeBackground(buf: array<char>, argv: array<int>, argc: nat, ghost args: seq<string>) returns (bg: bool)
    requires Stored(buf[..], argv[..], args, buf.Length) && 0 < argc == |args| < argv.Length && argv[argc] == -1
    modifies argv
    ensures bg <==> args[argc - 1] != "" && args[argc - 1][0] == '&'
    ensures Delivered(buf[..], argv[..], if bg then args[..argc - 1] else args)
  {
    AllHeld(buf[..], argv[..], args);
    bg := buf[argv[argc - 1]] == '&';
    if bg {
      argv[argc - 1] := -1;
    }
  }

  lemma AllHeld(b: seq<char>, argv: seq<int>, args: seq<string>)
    requires Stored(b, argv, args, |b|)
    ensures forall k {:trigger argv[k]} {:trigger args[k]} :: 0 <= k < |args| ==>
              && 0 <= argv[k] < |b| && CString(b, argv[k]) == args[k]
              && (b[argv[k]] == '&' <==> args[k] != "" && args[k][0] == '&')
  {
    forall k | 0 <= k < |args|
      ensures 0 <= argv[k] < |b| && CString(b, argv[k]) == args[k]
      ensures b[argv[k]] == '&' <==> args[k] != "" && args[k][0] == '&'
    {
      assert HoldsString(b, argv[k], args[k]);
      CStringHeld(b, argv[k], args[k]);
    }
  }
}
