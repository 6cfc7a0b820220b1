// parseline of shell lab/tsh.c: an in-place tokenizer with quotes, redirections
// and a trailing &.
module CommandLine {
  import opened Basics

  const MAXLINE := 1024
  const MAXARGS := 128

  datatype Builtin = NotBuiltin | Quit | Jobs | Bg | Fg

  // Which token is expected: '<' and '>' set one flag each (tsh.c:43-45).
  datatype Expect = Expect(inFile: bool, outFile: bool)
  const NORMAL := Expect(false, false)

  datatype Words<T> = Words(args: seq<T>, inFile: Option<T>, outFile: Option<T>)

  datatype Outcome = Malformed | Parsed(words: Words<string>, background: bool)

  // ---------- what a command line means ----------

  predicate IsSpace(c: char) {
    c == ' ' || c == '\t' || c == '\r' || c == '\n'
  }

  // How many white-space characters r begins with
  function SpaceLen(r: string): (n: nat)
    ensures n <= |r|
  {
    if r == [] || !IsSpace(r[0]) then 0 else 1 + SpaceLen(r[1..])
  }

  lemma {:induction false} SpaceLenEnds(r: string)
    ensures (forall i | 0 <= i < SpaceLen(r) :: IsSpace(r[i])) && (SpaceLen(r) < |r| ==> !IsSpace(r[SpaceLen(r)]))
  {
    if r == [] || !IsSpace(r[0]) {
    } else {
      SpaceLenEnds(r[1..]);
      assert forall i | 1 <= i < |r| :: r[i] == r[1..][i - 1];
    }
  }

  // How many other characters r begins with
  function WordLen(r: string): (n: nat)
    ensures n <= |r|
  {
    if r == [] || IsSpace(r[0]) then 0 else 1 + WordLen(r[1..])
  }

  lemma {:induction false} WordLenEnds(r: string)
    ensures (forall i | 0 <= i < WordLen(r) :: !IsSpace(r[i])) && (WordLen(r) < |r| ==> IsSpace(r[WordLen(r)]))
  {
    if r == [] || IsSpace(r[0]) {
    } else {
      WordLenEnds(r[1..]);
      assert forall i | 1 <= i < |r| :: r[i] == r[1..][i - 1];
    }
  }

  // The position of the first q, or |r|
  function Find(r: string, q: char): (n: nat)
    ensures n <= |r|
  {
    if r == [] || r[0] == q then 0 else 1 + Find(r[1..], q)
  }

  lemma {:induction false} FindIsFirst(r: string, q: char)
    ensures (forall i | 0 <= i < Find(r, q) :: r[i] != q) && (Find(r, q) < |r| ==> r[Find(r, q)] == q)
  {
    if r == [] || r[0] == q {
    } else {
      FindIsFirst(r[1..], q);
      assert forall i | 1 <= i < |r| :: r[i] == r[1..][i - 1];
    }
  }

  // A token and what follows it. A quoted token ends before the matching quote, and there may be none.
  datatype Piece = NoPiece | Piece(text: string, rest: string)

  function NextPiece(u: string): (p: Piece)
    requires u != []
    ensures p.Piece? ==> |p.rest| < |u|
  {
    if u[0] == '\'' || u[0] == '"' then
      var n := Find(u[1..], u[0]);
      if n == |u[1..]| then NoPiece else Piece(u[1..][..n], u[1..][n + 1..])
    else
      var n := WordLen(u);
      Piece(u[..n], if n < |u| then u[n + 1..] else [])
  }

  // The token goes where the flags say; both flags at once are an error.
  function Record<T>(w: Words<T>, e: Expect, token: T): Option<Words<T>> {
    if e == NORMAL then Some(w.(args := w.args + [token]))
    else if e == Expect(true, false) then Some(w.(inFile := Some(token)))
    else if e == Expect(false, true) then Some(w.(outFile := Some(token)))
    else None
  }

  function StartsBackground(args: seq<string>): bool {
    args != [] && args[|args| - 1] != [] && args[|args| - 1][0] == '&'
  }

  // After the loop (tsh.c:341-369); an empty line counts as a background job
  function Finish(w: Words<string>, e: Expect): Outcome {
    if e != NORMAL then Malformed
    else if w.args == [] then Parsed(w, true)
    else if StartsBackground(w.args) then Parsed(w.(args := w.args[..|w.args| - 1]), true)
    else Parsed(w, false)
  }

  // The meaning of what is left of the line
  function Scan(r: string, e: Expect, w: Words<string>): Outcome
    decreases |r|
  {
    var u := r[SpaceLen(r)..];
    if u == [] then Finish(w, e)
    else if u[0] == '<' then if w.inFile.Some? then Malformed else Scan(u[1..], e.(inFile := true), w)
    else if u[0] == '>' then if w.outFile.Some? then Malformed else Scan(u[1..], e.(outFile := true), w)
    else
      match NextPiece(u)
      case NoPiece => Malformed
      case Piece(text, rest) =>
        match Record(w, e, text)
        case None => Malformed
        case Some(w') => if |w'.args| >= MAXARGS - 1 then Finish(w', NORMAL) else Scan(rest, NORMAL, w')
  }

  function Parse(line: string): Outcome {
    Scan(line, NORMAL, Words([], None, None))
  }

  // ---------- parsing undoes rendering ----------

  function Quoted(a: string): string {
    "'" + a + "' "
  }

  function RenderArgs(args: seq<string>): string {
    if args == [] then "" else Quoted(args[0]) + RenderArgs(args[1..])
  }

  function RenderFile(mark: string, f: Option<string>): string {
    if f.Some? then mark + Quoted(f.value) else ""
  }

  function Render(w: Words<string>, background: bool): string {
    RenderArgs(w.args) + (RenderFile("<", w.inFile) + (RenderFile(">", w.outFile) + if background then "&" else ""))
  }

  predicate QuoteFree(a: string) {
    '\'' !in a
  }

  lemma {:induction false} FindBefore(a: string, q: char, rest: string)
    requires q !in a
    ensures Find(a + [q] + rest, q) == |a|
  {
    if a == [] {
      assert a + [q] + rest == [q] + rest;
    } else {
      FindBefore(a[1..], q, rest);
      assert (a + [q] + rest)[1..] == a[1..] + [q] + rest;
    }
  }

  lemma ScanSpace(r: string, e: Expect, w: Words<string>)
    ensures Scan(" " + r, e, w) == Scan(r, e, w)
  {
    assert (" " + r)[1..] == r;
    assert (" " + r)[1 + SpaceLen(r)..] == r[SpaceLen(r)..];
  }

  lemma QuotedPiece(a: string, rest: string)
    requires QuoteFree(a)
    ensures NextPiece(Quoted(a) + rest) == Piece(a, " " + rest)
  {
    var u := Quoted(a) + rest;
    assert u[1..] == a + "'" + (" " + rest);
    FindBefore(a, '\'', " " + rest);
    assert u[1..][..|a|] == a && u[1..][|a| + 1..] == " " + rest;
  }

  // Where the scan goes after a token
  function AfterToken(text: string, rest: string, e: Expect, w: Words<string>): Outcome {
    match Record(w, e, text)
    case None => Malformed
    case Some(w') => if |w'.args| >= MAXARGS - 1 then Finish(w', NORMAL) else Scan(rest, NORMAL, w')
  }

  lemma ScanToken(r: string, e: Expect, w: Words<string>, p: Piece)
    requires r != [] && !IsSpace(r[0]) && r[0] != '<' && r[0] != '>' && NextPiece(r) == p && p.Piece?
    ensures Scan(r, e, w) == AfterToken(p.text, p.rest, e, w)
  {
    assert SpaceLen(r) == 0 && r[0..] == r;
  }

  lemma ScanQuoted(a: string, rest: string, e: Expect, w: Words<string>)
    requires QuoteFree(a)
    ensures Scan(Quoted(a) + rest, e, w) == AfterToken(a, rest, e, w)
  {
    var r := Quoted(a) + rest;
    assert r[0] == '\'';
    QuotedPiece(a, rest);
    ScanToken(r, e, w, Piece(a, " " + rest));
    if Record(w, e, a).Some? { ScanSpace(rest, NORMAL, Record(w, e, a).value); }
  }

  lemma ScanArg(a: string, rest: string, w: Words<string>)
    requires QuoteFree(a) && |w.args| + 1 < MAXARGS - 1
    ensures Scan(Quoted(a) + rest, NORMAL, w) == Scan(rest, NORMAL, w.(args := w.args + [a]))
  {
    ScanQuoted(a, rest, NORMAL, w);
  }

  lemma RenderCons(args: seq<string>, rest: string)
    requires args != []
    ensures RenderArgs(args) + rest == Quoted(args[0]) + (RenderArgs(args[1..]) + rest)
  {
  }

  lemma AddArgs(w: Words<string>, args: seq<string>)
    requires args != []
    ensures w.(args := w.args + [args[0]]).(args := w.args + [args[0]] + args[1..]) == w.(args := w.args + args)
  {
    assert w.args + [args[0]] + args[1..] == w.args + args;
  }

  lemma {:induction false} ScanArgs(args: seq<string>, rest: string, w: Words<string>, r: string, w': Words<string>)
    requires (forall i | 0 <= i < |args| :: QuoteFree(args[i])) && |w.args| + |args| < MAXARGS - 1
    requires r == RenderArgs(args) + rest && w' == w.(args := w.args + args)
    ensures Scan(r, NORMAL, w) == Scan(rest, NORMAL, w')
    decreases |args|
  {
    if args == [] {
      assert r == rest && w' == w;
    } else {
      var tail := RenderArgs(args[1..]) + rest;
      RenderCons(args, rest);
      AddArgs(w, args);
      ScanArg(args[0], tail, w);
      ScanArgs(args[1..], rest, w.(args := w.args + [args[0]]), tail, w');
    }
  }

  lemma ScanFile(mark: char, f: Option<string>, rest: string, w: Words<string>)
    requires mark == '<' || mark == '>'
    requires (mark == '<' ==> w.inFile == None) && (mark == '>' ==> w.outFile == None) && |w.args| < MAXARGS - 1
    requires f.Some? ==> QuoteFree(f.value)
    ensures Scan(RenderFile([mark], f) + rest, NORMAL, w) ==
      Scan(rest, NORMAL, if mark == '<' then w.(inFile := f) else w.(outFile := f))
  {
    var r := RenderFile([mark], f) + rest;
    if f.Some? {
      assert r == [mark] + (Quoted(f.value) + rest);
      assert r[SpaceLen(r)..] == r && r[1..] == Quoted(f.value) + rest;
      ScanQuoted(f.value, rest, Expect(mark == '<', mark == '>'), w);
    } else {
      assert r == rest;
    }
  }

  lemma ScanEnd(background: bool, w: Words<string>)
    ensures Scan(if background then "&" else "", NORMAL, w) ==
      if background then Parsed(w, true) else Finish(w, NORMAL)
  {
    if background {
      assert "&"[SpaceLen("&")..] == "&";
      assert WordLen("&") == 1 by { assert "&"[1..] == []; }
      assert NextPiece("&") == Piece("&", []);
      var w' := w.(args := w.args + ["&"]);
      assert Finish(w', NORMAL) == Parsed(w, true) by { assert w'.args[..|w'.args| - 1] == w.args; }
    }
  }

  predicate Renderable(w: Words<string>) {
    && (forall i | 0 <= i < |w.args| :: QuoteFree(w.args[i]))
    && (w.inFile.Some? ==> QuoteFree(w.inFile.value)) && (w.outFile.Some? ==> QuoteFree(w.outFile.value))
  }

  // What a rendering means. argv is full after 127 arguments, and nothing behind them is read.
  function Rendered(w: Words<string>, background: bool): Outcome {
    if |w.args| >= MAXARGS - 1 then Finish(Words(w.args[..MAXARGS - 1], None, None), NORMAL)
    else if background then Parsed(w, true)
    else Finish(w, NORMAL)
  }

  lemma RenderShort(w: Words<string>, background: bool)
    requires Renderable(w) && |w.args| < MAXARGS - 1
    ensures Parse(Render(w, background)) == Rendered(w, background)
  {
    var w0: Words<string> := Words([], None, None);
    var w1, w2 := w0.(args := w.args), w0.(args := w.args, inFile := w.inFile);
    var end := if background then "&" else "";
    assert w0.args + w.args == w.args;
    ScanArgs(w.args, RenderFile("<", w.inFile) + (RenderFile(">", w.outFile) + end), w0, Render(w, background), w1);
    ScanFile('<', w.inFile, RenderFile(">", w.outFile) + end, w1);
    ScanFile('>', w.outFile, end, w2);
    ScanEnd(background, w);
    assert w2.(outFile := w.outFile) == w;
  }

  lemma Regroup(x: string, y: string, z: string)
    ensures x + (y + z) == (x + y) + z
  {
  }

  // The rendering around argument n
  lemma {:induction false} RenderAround(args: seq<string>, n: nat)
    requires n < |args|
    ensures RenderArgs(args) == RenderArgs(args[..n]) + (Quoted(args[n]) + RenderArgs(args[n + 1..]))
  {
    if n == 0 {
      assert RenderArgs(args[..0]) == "";
    } else {
      var rest := args[1..];
      RenderAround(rest, n - 1);
      assert args[..n][1..] == rest[..n - 1] && rest[n..] == args[n + 1..];
      Regroup(Quoted(args[0]), RenderArgs(rest[..n - 1]), Quoted(args[n]) + RenderArgs(args[n + 1..]));
    }
  }

  // A full argv ends the scan.
  lemma ScanFull(args: seq<string>, tail: string, r: string)
    requires |args| == MAXARGS - 1 && forall i | 0 <= i < |args| :: QuoteFree(args[i])
    requires r == RenderArgs(args[..MAXARGS - 2]) + (Quoted(args[MAXARGS - 2]) + tail)
    ensures Parse(r) == Finish(Words(args, None, None), NORMAL)
  {
    var n := MAXARGS - 2;
    var w0: Words<string> := Words([], None, None);
    assert w0.args + args[..n] == args[..n];
    ScanArgs(args[..n], Quoted(args[n]) + tail, w0, r, w0.(args := args[..n]));
    ScanQuoted(args[n], tail, NORMAL, w0.(args := args[..n]));
    assert args[..n] + [args[n]] == args;
  }

  lemma RenderFull(w: Words<string>, background: bool)
    requires Renderable(w) && |w.args| >= MAXARGS - 1
    ensures Parse(Render(w, background)) == Rendered(w, background)
  {
    var n, args := MAXARGS - 2, w.args[..MAXARGS - 1];
    var rest := RenderArgs(w.args[n + 1..]);
    var files := RenderFile("<", w.inFile) + (RenderFile(">", w.outFile) + if background then "&" else "");
    RenderAround(w.args, n);
    Regroup(Quoted(w.args[n]), rest, files);
    Regroup(RenderArgs(w.args[..n]), Quoted(w.args[n]) + rest, files);
    assert args[..n] == w.args[..n];
    ScanFull(args, rest + files, Render(w, background));
  }

  // What the rendering of arguments and files without single quotes means
  lemma RenderMeans(w: Words<string>, background: bool)
    requires Renderable(w)
    ensures Parse(Render(w, background)) == Rendered(w, background)
  {
    if |w.args| < MAXARGS - 1 { RenderShort(w, background); } else { RenderFull(w, background); }
  }

  // When they come back: nothing at all counts as a background job; a last argument that begins with & is
  // taken for the flag unless the flag follows; and a full argv leaves room for nothing else.
  predicate ComesBack(w: Words<string>, background: bool) {
    if w.args == [] then background
    else if |w.args| < 127 then background || !StartsBackground(w.args)
    else |w.args| == 127 && w.inFile.None? && w.outFile.None? && !background && !StartsBackground(w.args)
  }

  // Arguments, files and background flag come back from the rendering exactly then.
  lemma RenderParse(w: Words<string>, background: bool)
    requires Renderable(w)
    ensures Parse(Render(w, background)) == Parsed(w, background) <==> ComesBack(w, background)
  {
    RenderMeans(w, background);
    if |w.args| >= MAXARGS - 1 {
      assert |w.args| == MAXARGS - 1 ==> w.args[..MAXARGS - 1] == w.args;
    }
  }

  // ---------- the program ----------

  // From buf on, the buffer still holds the line; after the line there are only NULs.
  ghost predicate Untouched(a: seq<char>, s: string, buf: int) {
    && |a| == MAXLINE && |s| < MAXLINE && NUL !in s && 0 <= buf
    && (forall k | buf <= k < |s| :: a[k] == s[k])
    && (forall k | |s| <= k < MAXLINE :: a[k] == NUL)
  }

  // A C string at p, ending before limit
  ghost predicate IsString(a: seq<char>, p: int, text: string, limit: int) {
    0 <= p && p + |text| < |a| && p + |text| < limit && a[p..p + |text|] == text && a[p + |text|] == NUL && NUL !in text
  }

  ghost predicate FileAt(a: seq<char>, p: Option<int>, f: Option<string>, limit: int) {
    match f
    case None => p.None?
    case Some(text) => p.Some? && IsString(a, p.value, text, limit)
  }

  // The pointers in tok are C strings with the texts of w, all before limit.
  ghost predicate Points(a: seq<char>, tok: Words<int>, w: Words<string>, limit: int) {
    && |tok.args| == |w.args|
    && (forall i | 0 <= i < |w.args| :: IsString(a, tok.args[i], w.args[i], limit))
    && FileAt(a, tok.inFile, w.inFile, limit) && FileAt(a, tok.outFile, w.outFile, limit)
  }

  lemma IsStringKept(a: seq<char>, a': seq<char>, p: int, text: string, limit: int, limit': int)
    requires IsString(a, p, text, limit) && limit <= limit' && |a'| == |a|
    requires forall k | 0 <= k < limit && k < |a| :: a'[k] == a[k]
    ensures IsString(a', p, text, limit')
  {
    assert a'[p..p + |text|] == a[p..p + |text|];
  }

  // Writing at or after limit leaves the earlier tokens alone.
  lemma PointsKept(a: seq<char>, a': seq<char>, tok: Words<int>, w: Words<string>, limit: int, limit': int)
    requires Points(a, tok, w, limit) && limit <= limit' && |a'| == |a|
    requires forall k | 0 <= k < limit && k < |a| :: a'[k] == a[k]
    ensures Points(a', tok, w, limit')
  {
    forall i | 0 <= i < |w.args| ensures IsString(a', tok.args[i], w.args[i], limit') {
      IsStringKept(a, a', tok.args[i], w.args[i], limit, limit');
    }
    if tok.inFile.Some? { IsStringKept(a, a', tok.inFile.value, w.inFile.value, limit, limit'); }
    if tok.outFile.Some? { IsStringKept(a, a', tok.outFile.value, w.outFile.value, limit, limit'); }
  }

  // strspn(buf, delims)
  method StrSpn(a: array<char>, ghost s: string, buf: int) returns (n: int)
    requires Untouched(a[..], s, buf) && buf <= |s|
    ensures n == SpaceLen(s[buf..])
  {
    n := 0;
    while IsSpace(a[buf + n])
      invariant 0 <= n <= |s| - buf && SpaceLen(s[buf..]) == n + SpaceLen(s[buf + n..])
      decreases |s| - buf - n
    {
      assert s[buf + n..][1..] == s[buf + n + 1..];
      n := n + 1;
    }
  }

  // strcspn(buf, delims)
  method StrCspn(a: array<char>, ghost s: string, buf: int) returns (n: int)
    requires Untouched(a[..], s, buf) && buf <= |s|
    ensures n == WordLen(s[buf..])
  {
    n := 0;
    while a[buf + n] != NUL && !IsSpace(a[buf + n])
      invariant 0 <= n <= |s| - buf && WordLen(s[buf..]) == n + WordLen(s[buf + n..])
      decreases |s| - buf - n
    {
      assert s[buf + n..][1..] == s[buf + n + 1..];
      n := n + 1;
    }
  }

  // strchr(buf, q): the distance to the first q, or -1
  method StrChr(a: array<char>, ghost s: string, buf: int, q: char) returns (n: int)
    requires Untouched(a[..], s, buf) && buf <= |s| && q != NUL
    ensures n == if Find(s[buf..], q) == |s| - buf then -1 else Find(s[buf..], q)
  {
    n := 0;
    while a[buf + n] != q
      invariant 0 <= n <= |s| - buf && Find(s[buf..], q) == n + Find(s[buf + n..], q)
      decreases |s| - buf - n
    {
      if a[buf + n] == NUL {
        return -1;
      }
      assert s[buf + n..][1..] == s[buf + n + 1..];
      n := n + 1;
    }
  }

  // The text from p on; nothing beyond the line
  function After(s: string, p: int): string {
    if 0 <= p <= |s| then s[p..] else []
  }

  // What follows the n characters of a token at buf and its delimiter
  lemma RestAfter(s: string, buf: int, n: int, u: string)
    requires 0 <= buf <= |s| && u == s[buf..] && 0 <= n <= |u|
    ensures u[..n] == s[buf..buf + n] && After(s, buf + n + 1) == if n < |u| then u[n + 1..] else []
  {
  }

  lemma PieceQuoted(s: string, buf: int)
    requires 0 <= buf < |s| && (s[buf] == '\'' || s[buf] == '"')
    ensures var n := Find(s[buf + 1..], s[buf]);
      NextPiece(s[buf..]) ==
      if n == |s| - buf - 1 then NoPiece else Piece(s[buf + 1..buf + 1 + n], After(s, buf + n + 2))
  {
    assert s[buf..][1..] == s[buf + 1..];
    RestAfter(s, buf + 1, Find(s[buf + 1..], s[buf]), s[buf + 1..]);
  }

  lemma WordPiece(u: string)
    requires u != [] && !IsSpace(u[0]) && u[0] != '\'' && u[0] != '"'
    ensures var n := WordLen(u); NextPiece(u) == Piece(u[..n], if n < |u| then u[n + 1..] else [])
  {
  }

  lemma PieceWord(s: string, buf: int, u: string, n: int)
    requires 0 <= buf < |s| && !IsSpace(s[buf]) && s[buf] != '\'' && s[buf] != '"'
    requires u == s[buf..] && n == WordLen(u)
    ensures NextPiece(u) == Piece(s[buf..buf + n], After(s, buf + n + 1))
  {
    WordPiece(u);
    RestAfter(s, buf, n, u);
  }

  // Start and end of the token at buf (tsh.c:299-313); an unmatched quote gives next == -1
  method Delimit(a: array<char>, ghost s: string, buf: int) returns (start: int, next: int)
    requires Untouched(a[..], s, buf) && buf < |s| && !IsSpace(s[buf])
    ensures next == -1 ==> NextPiece(s[buf..]) == NoPiece
    ensures next != -1 ==>
      buf <= start <= next <= |s| && NextPiece(s[buf..]) == Piece(s[start..next], After(s, next + 1))
  {
    assert a[buf] == s[buf];
    if a[buf] == '\'' || a[buf] == '"' {
      PieceQuoted(s, buf);
      start := buf + 1;
      var n := StrChr(a, s, start, a[buf]);
      next := if n == -1 then -1 else start + n;
    } else {
      start := buf;
      var n := StrCspn(a, s, buf);
      PieceWord(s, buf, s[buf..], n);
      next := start + n;
    }
  }

  // The token at start has been cut out; the tokens recorded so far and the rest of the line are as they should be.
  ghost predicate Cut(a: seq<char>, s: string, start: int, next: int, tok: Words<int>, w: Words<string>)
    requires 0 <= start <= next <= |s|
  {
    Untouched(a, s, next + 1) && Points(a, tok, w, next + 1) && IsString(a, start, s[start..next], next + 1)
  }

  lemma CutHere(a: seq<char>, a': seq<char>, s: string, buf: int, start: int, next: int,
                tok: Words<int>, w: Words<string>)
    requires Untouched(a, s, buf) && buf <= start <= next <= |s| && Points(a, tok, w, buf) && a' == a[next := NUL]
    ensures Cut(a', s, start, next, tok, w)
  {
    PointsKept(a, a', tok, w, buf, next + 1);
    assert forall k | start <= k < next :: a'[k] == s[k];
    assert a'[start..next] == s[start..next];
    assert start + |s[start..next]| == next;
    assert IsString(a', start, s[start..next], next + 1);
  }

  // *next = '\0': the token at start is now a C string, and earlier tokens and the rest of the line are as before.
  method Terminate(a: array<char>, ghost s: string, buf: int, start: int, next: int,
                   ghost tok: Words<int>, ghost w: Words<string>)
    requires Untouched(a[..], s, buf) && buf <= start <= next <= |s| && Points(a[..], tok, w, buf)
    modifies a
    ensures Cut(a[..], s, start, next, tok, w)
  {
    ghost var before := a[..];
    a[next] := NUL;
    CutHere(before, a[..], s, buf, start, next, tok, w);
  }

  lemma RecordPoints(a: seq<char>, tok: Words<int>, w: Words<string>, e: Expect, start: int, text: string, limit: int)
    requires Points(a, tok, w, limit) && IsString(a, start, text, limit)
    ensures var t, u := Record(tok, e, start), Record(w, e, text);
      t.Some? == u.Some? && (t.Some? ==> Points(a, t.value, u.value, limit))
  {
  }

  // What the scan makes of a line that starts with a token
  lemma TokenRound(r: string, text: string, rest: string, e: Expect, w: Words<string>)
    requires r != [] && !IsSpace(r[0]) && r[0] != '<' && r[0] != '>' && NextPiece(r) == Piece(text, rest)
    ensures var u := Record(w, e, text);
      && (u.None? ==> Scan(r, e, w) == Malformed)
      && (u.Some? && |u.value.args| >= MAXARGS - 1 ==> Scan(r, e, w) == Finish(u.value, NORMAL))
      && (u.Some? && |u.value.args| < MAXARGS - 1 ==> Scan(r, e, w) == Scan(rest, NORMAL, u.value))
  {
    ScanToken(r, e, w, Piece(text, rest));
  }

  lemma NoToken(r: string, e: Expect, w: Words<string>)
    requires r != [] && !IsSpace(r[0]) && r[0] != '<' && r[0] != '>' && NextPiece(r) == NoPiece
    ensures Scan(r, e, w) == Malformed
  {
    assert SpaceLen(r) == 0 && r[0..] == r;
  }

  // The token at buf, cut out in place
  method CutToken(a: array<char>, ghost s: string, buf: int, ghost tok: Words<int>, ghost w: Words<string>)
    returns (start: int, next: int)
    requires Untouched(a[..], s, buf) && buf < |s| && !IsSpace(s[buf]) && Points(a[..], tok, w, buf)
    modifies a
    ensures next == -1 ==> NextPiece(s[buf..]) == NoPiece
    ensures next != -1 ==>
      buf <= start <= next <= |s| && NextPiece(s[buf..]) == Piece(s[start..next], After(s, next + 1))
    ensures next == -1 || Cut(a[..], s, start, next, tok, w)
  {
    start, next := Delimit(a, s, buf);
    if next != -1 {
      Terminate(a, s, buf, start, next, tok, w);
    }
  }

  // The loop's state: the line is intact from buf on, and the tokens so far are in place before buf.
  ghost predicate Loop(a: seq<char>, s: string, buf: int, tok: Words<int>, w: Words<string>) {
    Untouched(a, s, buf) && Points(a, tok, w, buf)
  }

  lemma Recorded(a: seq<char>, s: string, start: int, next: int, tok: Words<int>, w: Words<string>, e: Expect)
    requires 0 <= start <= next <= |s| && Cut(a, s, start, next, tok, w)
    ensures var t, u := Record(tok, e, start), Record(w, e, s[start..next]);
      t.Some? == u.Some? && (t.Some? ==> Loop(a, s, next + 1, t.value, u.value))
  {
    RecordPoints(a, tok, w, e, start, s[start..next], next + 1);
  }

  lemma LoopMoves(a: seq<char>, s: string, buf: int, buf': int, tok: Words<int>, w: Words<string>)
    requires Loop(a, s, buf, tok, w) && buf <= buf'
    ensures Loop(a, s, buf', tok, w)
  {
    PointsKept(a, a, tok, w, buf, buf');
  }

  // How one round of the loop ends
  datatype Round = Fail | Stop | Continue

  // The loop has come to buf, and the line means what is left of it means.
  ghost predicate Reached(round: Round, goal: Outcome, a: seq<char>, s: string, buf: int, e: Expect,
                          tok: Words<int>, w: Words<string>)
  {
    && buf <= |s| + 1 && Loop(a, s, buf, tok, w)
    && goal == if round == Stop then Finish(w, e) else Scan(After(s, buf), e, w)
  }

  // The round that a recorded token makes (tsh.c:333-336)
  function RoundAfter<T>(w: Words<T>): Round {
    if |w.args| >= MAXARGS - 1 then Stop else Continue
  }

  lemma TokenReached(goal: Outcome, a: seq<char>, s: string, buf: int, e: Expect, tok: Words<int>, w: Words<string>,
                     start: int, next: int)
    requires 0 <= buf < |s| && !IsSpace(s[buf]) && s[buf] != '<' && s[buf] != '>' && goal == Scan(s[buf..], e, w)
    requires 0 <= start <= next <= |s| && Cut(a, s, start, next, tok, w)
    requires NextPiece(s[buf..]) == Piece(s[start..next], After(s, next + 1))
    ensures var t, u := Record(tok, e, start), Record(w, e, s[start..next]);
      if u.None? then t.None? && goal == Malformed
      else t.Some? && Reached(RoundAfter(t.value), goal, a, s, next + 1, NORMAL, t.value, u.value)
  {
    Recorded(a, s, start, next, tok, w, e);
    TokenRound(s[buf..], s[start..next], After(s, next + 1), e, w);
  }

  // One token (tsh.c:299-338)
  method TakeToken(a: array<char>, ghost s: string, buf: int, e: Expect, tok: Words<int>, ghost w: Words<string>,
                   ghost goal: Outcome)
    returns (round: Round, buf': int, e': Expect, tok': Words<int>, ghost w': Words<string>)
    requires Reached(Continue, goal, a[..], s, buf, e, tok, w)
    requires buf < |s| && !IsSpace(s[buf]) && s[buf] != '<' && s[buf] != '>'
    modifies a
    ensures round == Fail ==> goal == Malformed
    ensures round == Fail || buf < buf'
    ensures round == Fail || Reached(round, goal, a[..], s, buf', e', tok', w')
  {
    var start, next;
    round, tok', w' := Fail, tok, w;
    start, next := CutToken(a, s, buf, tok, w);
    buf', e' := next + 1, NORMAL;
    if next == -1 {
      NoToken(s[buf..], e, w);
    } else {
      TokenReached(goal, a[..], s, buf, e, tok, w, start, next);
      var recorded := Record(tok, e, start);
      if recorded.Some? {
        round, tok' := RoundAfter(recorded.value), recorded.value;
        w' := Record(w, e, s[start..next]).value;
      }
    }
  }

  lemma ScanTrim(r: string, e: Expect, w: Words<string>)
    ensures var u := r[SpaceLen(r)..]; Scan(r, e, w) == if u == [] then Finish(w, e) else Scan(u, e, w)
  {
    var u := r[SpaceLen(r)..];
    SpaceLenEnds(r);
    assert u != [] ==> SpaceLen(u) == 0 && u[0..] == u;
  }

  lemma ScanTrimAt(s: string, buf: int, n: int, e: Expect, w: Words<string>)
    requires 0 <= buf < |s| && n == SpaceLen(s[buf..])
    ensures Scan(After(s, buf), e, w) == if buf + n == |s| then Finish(w, e) else Scan(After(s, buf + n), e, w)
    ensures buf + n < |s| ==> !IsSpace(s[buf + n])
  {
    ScanTrim(s[buf..], e, w);
    SpaceLenEnds(s[buf..]);
    assert s[buf..][n..] == s[buf + n..];
  }

  // Skipping the n white-space characters at buf keeps the loop's state.
  lemma SpaceSkipped(goal: Outcome, a: seq<char>, s: string, buf: int, n: int, e: Expect,
                     tok: Words<int>, w: Words<string>)
    requires Reached(Continue, goal, a, s, buf, e, tok, w) && buf < |s| && n == SpaceLen(s[buf..])
    ensures Reached(if buf + n == |s| then Stop else Continue, goal, a, s, buf + n, e, tok, w)
    ensures buf + n < |s| ==> !IsSpace(s[buf + n])
  {
    ScanTrimAt(s, buf, n, e, w);
    LoopMoves(a, s, buf, buf + n, tok, w);
  }

  // Consuming '<' or '>'
  lemma ScanMark(s: string, buf: int, e: Expect, w: Words<string>)
    requires 0 <= buf < |s| && (s[buf] == '<' || s[buf] == '>')
    ensures Scan(s[buf..], e, w) ==
      if s[buf] == '<' then if w.inFile.Some? then Malformed else Scan(s[buf + 1..], e.(inFile := true), w)
      else if w.outFile.Some? then Malformed else Scan(s[buf + 1..], e.(outFile := true), w)
  {
    var r := s[buf..];
    assert SpaceLen(r) == 0 && r[0..] == r && r[1..] == s[buf + 1..];
  }

  // The file flag that a mark sets, and whether the file has been given already
  function Marked(c: char, e: Expect): Expect {
    if c == '<' then e.(inFile := true) else e.(outFile := true)
  }

  predicate Ambiguous<T>(c: char, w: Words<T>) {
    if c == '<' then w.inFile.Some? else w.outFile.Some?
  }

  lemma MarkReached(goal: Outcome, a: seq<char>, s: string, buf: int, e: Expect, tok: Words<int>, w: Words<string>)
    requires Reached(Continue, goal, a, s, buf, e, tok, w) && buf < |s| && (s[buf] == '<' || s[buf] == '>')
    ensures Ambiguous(s[buf], tok) == Ambiguous(s[buf], w)
    ensures if Ambiguous(s[buf], w) then goal == Malformed else goal == Scan(s[buf + 1..], Marked(s[buf], e), w)
  {
    ScanMark(s, buf, e, w);
  }

  // A redirection mark (tsh.c:279-297); a second one for the same file is an error
  method TakeMark(a: array<char>, ghost s: string, buf: int, e: Expect, tok: Words<int>, ghost w: Words<string>,
                  ghost goal: Outcome)
    returns (round: Round, buf': int, e': Expect)
    requires Reached(Continue, goal, a[..], s, buf, e, tok, w)
    requires buf < |s| && (s[buf] == '<' || s[buf] == '>')
    ensures round == Fail ==> goal == Malformed
    ensures round == Fail || buf < buf'
    ensures round == Fail || Reached(round, goal, a[..], s, buf', e', tok, w)
  {
    MarkReached(goal, a[..], s, buf, e, tok, w);
    LoopMoves(a[..], s, buf, buf + 1, tok, w);
    assert a[..][buf] == s[buf];
    round := if Ambiguous(a[..][buf], tok) then Fail else Continue;
    buf', e' := buf + 1, Marked(a[..][buf], e);
  }

  // One round of the loop after the white space
  method TakeRound(a: array<char>, ghost s: string, buf: int, e: Expect, tok: Words<int>, ghost w: Words<string>,
                   ghost goal: Outcome)
    returns (round: Round, buf': int, e': Expect, tok': Words<int>, ghost w': Words<string>)
    requires Reached(Continue, goal, a[..], s, buf, e, tok, w) && buf < |s| && !IsSpace(s[buf])
    modifies a
    ensures round == Fail ==> goal == Malformed
    ensures round == Fail || buf < buf'
    ensures round == Fail || Reached(round, goal, a[..], s, buf', e', tok', w')
  {
    if a[..][buf] == '<' || a[..][buf] == '>' {
      tok', w' := tok, w;
      round, buf', e' := TakeMark(a, s, buf, e, tok, w, goal);
    } else {
      round, buf', e', tok', w' := TakeToken(a, s, buf, e, tok, w, goal);
    }
  }

  lemma LoopStarts(a: seq<char>, s: string)
    requires Untouched(a, s, 0)
    ensures Reached(Continue, Parse(s), a, s, 0, NORMAL, Words([], None, None), Words([], None, None))
  {
    assert s[0..] == s;
  }

  lemma LoopEnds(round: Round, goal: Outcome, a: seq<char>, s: string, buf: int, e: Expect,
                 tok: Words<int>, w: Words<string>)
    requires Reached(round, goal, a, s, buf, e, tok, w) && (round != Stop ==> |s| <= buf)
    ensures goal == Finish(w, e) && Points(a, tok, w, MAXLINE)
  {
    LoopMoves(a, s, buf, MAXLINE, tok, w);
    if round != Stop {
      assert After(s, buf) == [];
      assert SpaceLen([]) == 0;
    }
  }

  // The loop of parseline (tsh.c:274-339)
  method ParseTokens(a: array<char>, ghost s: string)
    returns (ok: bool, tok: Words<int>, e: Expect, ghost w: Words<string>)
    requires Untouched(a[..], s, 0)
    modifies a
    ensures Parse(s) == if ok then Finish(w, e) else Malformed
    ensures !ok || Points(a[..], tok, w, MAXLINE)
  {
    var endbuf := StrLen(a, s);
    var buf, round := 0, Continue;
    tok, e, w := Words([], None, None), NORMAL, Words([], None, None);
    ghost var goal := Parse(s);
    LoopStarts(a[..], s);
    while round == Continue && buf < endbuf
      invariant round == Fail ==> goal == Malformed
      invariant round == Fail || Reached(round, goal, a[..], s, buf, e, tok, w)
      decreases round == Continue, endbuf - buf
    {
      var n := StrSpn(a, s, buf);
      SpaceSkipped(goal, a[..], s, buf, n, e, tok, w);
      buf := buf + n;
      if buf >= endbuf {
        round := Stop;
      } else {
        round, buf, e, tok, w := TakeRound(a, s, buf, e, tok, w, goal);
      }
    }
    ok := round != Fail;
    if ok { LoopEnds(round, goal, a[..], s, buf, e, tok, w); }
  }

  // strlen
  method StrLen(a: array<char>, ghost s: string) returns (n: int)
    requires Untouched(a[..], s, 0)
    ensures n == |s|
  {
    n := 0;
    while a[n] != NUL
      invariant 0 <= n <= |s|
      decreases |s| - n
    {
      n := n + 1;
    }
  }

  // !strcmp(p, name)
  method StrEq(a: array<char>, p: int, name: string, ghost text: string, ghost limit: int) returns (eq: bool)
    requires IsString(a[..], p, text, limit) && NUL !in name
    ensures eq <==> text == name
  {
    assert forall i | 0 <= i < |text| :: text[i] == a[p + i];
    var i := 0;
    while i < |name| && a[p + i] == name[i]
      invariant 0 <= i <= |name| && i <= |text| && text[..i] == name[..i]
    {
      i := i + 1;
    }
    eq := i == |name| && a[p + i] == NUL;
  }

  // The built-in command of each name (tsh.c:353-363)
  ghost predicate Names(name: string, b: Builtin) {
    && (b == Quit <==> name == "quit") && (b == Jobs <==> name == "jobs")
    && (b == Bg <==> name == "bg") && (b == Fg <==> name == "fg")
  }

  method FindBuiltin(a: array<char>, p: int, ghost text: string, ghost limit: int) returns (b: Builtin)
    requires IsString(a[..], p, text, limit)
    ensures Names(text, b)
  {
    var quit := StrEq(a, p, "quit", text, limit);
    var jobs := StrEq(a, p, "jobs", text, limit);
    var bg := StrEq(a, p, "bg", text, limit);
    var fg := StrEq(a, p, "fg", text, limit);
    b := if quit then Quit else if jobs then Jobs else if bg then Bg else if fg then Fg else NotBuiltin;
  }

  // strncpy(buf, cmdline, MAXLINE): the line, then NULs
  method CopyLine(a: array<char>, line: string)
    requires a.Length == MAXLINE && |line| < MAXLINE && NUL !in line
    modifies a
    ensures Untouched(a[..], line, 0)
  {
    for i := 0 to MAXLINE
      invariant forall k | 0 <= k < i :: a[k] == if k < |line| then line[k] else NUL
    {
      a[i] := if i < |line| then line[i] else NUL;
    }
  }

  // *argv[argc - 1] == '&', and the last argument is dropped then (tsh.c:366-367)
  method TakeBackground(a: array<char>, tok: Words<int>, ghost w: Words<string>)
    returns (bg: bool, tok': Words<int>, ghost w': Words<string>)
    requires w.args != [] && Points(a[..], tok, w, MAXLINE)
    ensures Finish(w, NORMAL) == Parsed(w', bg) && Points(a[..], tok', w', MAXLINE)
    ensures w'.args != [] ==> w'.args[0] == w.args[0]
  {
    var last := |tok.args| - 1;
    assert IsString(a[..], tok.args[last], w.args[last], MAXLINE);
    ghost var text := w.args[last];
    assert text != [] ==> a[tok.args[last]] == a[..][tok.args[last]..tok.args[last] + |text|][0];
    bg := a[tok.args[last]] == '&';
    tok' := if bg then tok.(args := tok.args[..last]) else tok;
    w' := if bg then w.(args := w.args[..last]) else w;
  }

  // parseline. Each pointer in tok is, when it returns, a C string with the text of its token: later
  // terminators do not touch earlier tokens.
  method ParseLine(cmdline: Option<string>, a: array<char>) returns (ret: int, tok: Words<int>, builtin: Builtin)
    requires a.Length == MAXLINE
    requires cmdline.Some? ==> |cmdline.value| < MAXLINE && NUL !in cmdline.value
    modifies a
    ensures ret == -1 <==> cmdline.None? || Parse(cmdline.value).Malformed?
    ensures ret != -1 ==> ret == if Parse(cmdline.value).background then 1 else 0
    ensures ret != -1 ==> Points(a[..], tok, Parse(cmdline.value).words, MAXLINE)
    ensures ret != -1 && tok.args != [] ==> Names(Parse(cmdline.value).words.args[0], builtin)
    ensures ret != -1 && tok.args == [] ==> builtin == NotBuiltin
  {
    builtin, tok := NotBuiltin, Words([], None, None);
    if cmdline.None? {
      return -1, tok, builtin;
    }
    CopyLine(a, cmdline.value);
    var ok, e;
    ghost var w;
    ok, tok, e, w := ParseTokens(a, cmdline.value);
    if !ok || e != NORMAL {
      return -1, tok, builtin;
    }
    if |tok.args| == 0 {
      return 1, tok, builtin;
    }
    builtin := FindBuiltin(a, tok.args[0], w.args[0], MAXLINE);
    var bg;
    bg, tok, w := TakeBackground(a, tok, w);
    ret := if bg then 1 else 0;
  }

  // parseline on a rendered line: the pointers it leaves in its buffer are those of the rendering's meaning,
  // and thus the arguments and files that were rendered if these come back.
  method ParseRendered(w: Words<string>, background: bool, a: array<char>)
    returns (ret: int, tok: Words<int>, builtin: Builtin)
    requires Renderable(w)
    requires a.Length == MAXLINE && |Render(w, background)| < MAXLINE && NUL !in Render(w, background)
    modifies a
    ensures var o := Rendered(w, background);
      ret == (if o.background then 1 else 0) && Points(a[..], tok, o.words, MAXLINE)
    ensures ComesBack(w, background) ==>
      ret == (if background then 1 else 0) && Points(a[..], tok, w, MAXLINE)
    ensures ComesBack(w, background) && w.args != [] ==> Names(w.args[0], builtin)
  {
    RenderMeans(w, background);
    RenderParse(w, background);
    ret, tok, builtin := ParseLine(Some(Render(w, background)), a);
  }
}
