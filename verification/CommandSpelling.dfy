// Which lines parseline accepts, and what they mean: tokens in quotes of either kind or bare, any white space
// between them, and redirections anywhere. Words are spelled here; CommandLine.Scan has to read them.
module CommandSpelling {
  import opened Basics
  import opened CommandLine

  datatype Form = Bare | In(quote: char)
  datatype Token = Token(text: string, form: Form, gap: string)
  datatype Item = Arg(t: Token) | From(before: string, t: Token) | Into(before: string, t: Token)

  predicate IsWhite(c: char) {
    c == ' ' || c == '\t' || c == '\r' || c == '\n'
  }

  predicate White(s: string) {
    forall i | 0 <= i < |s| :: IsWhite(s[i])
  }

  // A bare token has no white space and does not begin like a quoted one or a redirection. A quoted token
  // has anything but its quote.
  predicate Spelled(t: Token) {
    && White(t.gap)
    && match t.form
       case Bare =>
         && t.text != [] && t.text[0] != '\'' && t.text[0] != '"' && t.text[0] != '<' && t.text[0] != '>'
         && forall i | 0 <= i < |t.text| :: !IsWhite(t.text[i])
       case In(q) => (q == '\'' || q == '"') && q !in t.text
  }

  function Spell(t: Token): string {
    match t.form
    case Bare => t.text + t.gap
    case In(q) => [q] + t.text + [q] + t.gap
  }

  function SpellItem(i: Item): string {
    match i
    case Arg(t) => Spell(t)
    case From(before, t) => "<" + before + Spell(t)
    case Into(before, t) => ">" + before + Spell(t)
  }

  function SpellAll(items: seq<Item>): string {
    if items == [] then "" else SpellItem(items[0]) + SpellAll(items[1..])
  }

  // Each item is well spelled, and a bare token is not glued to what follows it.
  predicate AllSpelled(items: seq<Item>, tail: string) {
    items != [] ==>
      && Spelled(items[0].t) && (!items[0].Arg? ==> White(items[0].before))
      && (items[0].t.form.Bare? ==> items[0].t.gap != [] || SpellAll(items[1..]) + tail == [])
      && AllSpelled(items[1..], tail)
  }

  // ---------- what the items mean ----------

  datatype Progress = Going(words: Words<string>) | Full(words: Words<string>) | Clash

  // 127 arguments are all there is room for, and each file may be given once.
  function Put(w: Words<string>, i: Item): Progress {
    match i
    case Arg(t) =>
      var w' := w.(args := w.args + [t.text]);
      if |w'.args| >= 127 then Full(w') else Going(w')
    case From(_, t) => if w.inFile.Some? then Clash else Going(w.(inFile := Some(t.text)))
    case Into(_, t) => if w.outFile.Some? then Clash else Going(w.(outFile := Some(t.text)))
  }

  function PutAll(w: Words<string>, items: seq<Item>): Progress
    decreases |items|
  {
    if items == [] then Going(w) else
      match Put(w, items[0])
      case Going(w') => PutAll(w', items[1..])
      case Full(w') => Full(w')
      case Clash => Clash
  }

  // ---------- reading one token ----------

  lemma SkipOneWhite(c: char, r: string)
    requires IsWhite(c)
    ensures ([c] + r)[SpaceLen([c] + r)..] == r[SpaceLen(r)..]
  {
    var s := [c] + r;
    assert s[1..] == r && SpaceLen(s) == 1 + SpaceLen(r);
    assert s[1 + SpaceLen(r)..] == s[1..][SpaceLen(r)..];
  }

  lemma ScanOneWhite(c: char, r: string, e: Expect, w: Words<string>)
    requires IsWhite(c)
    ensures Scan([c] + r, e, w) == Scan(r, e, w)
  {
    SkipOneWhite(c, r);
    ScanTrim([c] + r, e, w);
    ScanTrim(r, e, w);
  }

  lemma ConsAppend(s: string, r: string)
    requires s != []
    ensures s + r == [s[0]] + (s[1..] + r)
  {
  }

  lemma {:induction false} ScanWhite(s: string, r: string, e: Expect, w: Words<string>)
    requires White(s)
    ensures Scan(s + r, e, w) == Scan(r, e, w)
  {
    if s == [] {
      assert s + r == r;
    } else {
      ScanWhite(s[1..], r, e, w);
      ScanOneWhite(s[0], s[1..] + r, e, w);
      ConsAppend(s, r);
    }
  }

  lemma {:induction false} BareLen(a: string, rest: string)
    requires (forall i | 0 <= i < |a| :: !IsWhite(a[i])) && (rest == [] || IsWhite(rest[0]))
    ensures WordLen(a + rest) == |a|
  {
    if a == [] {
      assert a + rest == rest;
    } else {
      BareLen(a[1..], rest);
      assert (a + rest)[1..] == a[1..] + rest;
    }
  }

  // What is left for the next token after the delimiter of this one
  function Behind(t: Token, rest: string): string {
    if t.form.Bare? && t.gap + rest != [] then (t.gap + rest)[1..] else t.gap + rest
  }

  lemma BarePiece(t: Token, rest: string)
    requires Spelled(t) && t.form.Bare? && (t.gap != [] || rest == [])
    ensures NextPiece(Spell(t) + rest) == Piece(t.text, Behind(t, rest))
  {
    var u, tail := Spell(t) + rest, t.gap + rest;
    assert u == t.text + tail;
    BareLen(t.text, tail);
    assert u[0] == t.text[0] && u[..|t.text|] == t.text;
    if tail != [] { assert u[|t.text| + 1..] == tail[1..]; }
  }

  lemma QuotedTokenPiece(t: Token, rest: string)
    requires Spelled(t) && t.form.In?
    ensures NextPiece(Spell(t) + rest) == Piece(t.text, Behind(t, rest))
  {
    var q, u, tail := t.form.quote, Spell(t) + rest, t.gap + rest;
    assert u[0] == q && u[1..] == t.text + [q] + tail;
    FindBefore(t.text, q, tail);
    assert u[1..][..|t.text|] == t.text && u[1..][|t.text| + 1..] == tail;
  }

  lemma ScanBehind(t: Token, rest: string, w: Words<string>)
    requires Spelled(t) && (t.form.Bare? ==> t.gap != [] || rest == [])
    ensures Scan(Behind(t, rest), NORMAL, w) == Scan(rest, NORMAL, w)
  {
    if t.form.Bare? && t.gap != [] {
      assert Behind(t, rest) == t.gap[1..] + rest;
      ScanWhite(t.gap[1..], rest, NORMAL, w);
    } else {
      ScanWhite(t.gap, rest, NORMAL, w);
    }
  }

  // A token goes where the flags say, and the scan goes on behind its gap.
  lemma ScanSpelled(t: Token, rest: string, e: Expect, w: Words<string>)
    requires Spelled(t) && (t.form.Bare? ==> t.gap != [] || rest == [])
    ensures Scan(Spell(t) + rest, e, w) == AfterToken(t.text, rest, e, w)
  {
    var r := Spell(t) + rest;
    if t.form.Bare? { BarePiece(t, rest); } else { QuotedTokenPiece(t, rest); }
    assert r[0] == if t.form.Bare? then t.text[0] else t.form.quote;
    ScanToken(r, e, w, Piece(t.text, Behind(t, rest)));
    if Record(w, e, t.text).Some? { ScanBehind(t, rest, Record(w, e, t.text).value); }
  }

  // ---------- reading all items ----------

  // Where the items lead: to the rest of the line, to the end, or to an error.
  function Resume(p: Progress, rest: string): Outcome {
    match p
    case Going(w) => Scan(rest, NORMAL, w)
    case Full(w) => Finish(w, NORMAL)
    case Clash => Malformed
  }

  lemma ScanFileMark(mark: char, r: string, e: Expect, w: Words<string>)
    requires mark == '<' || mark == '>'
    ensures Scan([mark] + r, e, w) ==
      if (if mark == '<' then w.inFile else w.outFile).Some? then Malformed
      else Scan(r, if mark == '<' then e.(inFile := true) else e.(outFile := true), w)
  {
    assert ([mark] + r)[0..] == [mark] + r && ([mark] + r)[1..] == r;
    ScanMark([mark] + r, 0, e, w);
  }

  // A mark, white space and the token that names the file
  lemma ScanFileItem(mark: char, before: string, t: Token, rest: string, w: Words<string>)
    requires (mark == '<' || mark == '>') && White(before) && Spelled(t) && |w.args| < 127
    requires t.form.Bare? ==> t.gap != [] || rest == []
    ensures Scan([mark] + (before + (Spell(t) + rest)), NORMAL, w) ==
      Resume(Put(w, if mark == '<' then From(before, t) else Into(before, t)), rest)
  {
    var e := Expect(mark == '<', mark == '>');
    ScanFileMark(mark, before + (Spell(t) + rest), NORMAL, w);
    ScanWhite(before, Spell(t) + rest, e, w);
    ScanSpelled(t, rest, e, w);
  }

  lemma ScanItem(i: Item, rest: string, w: Words<string>)
    requires Spelled(i.t) && (!i.Arg? ==> White(i.before)) && |w.args| < 127
    requires i.t.form.Bare? ==> i.t.gap != [] || rest == []
    ensures Scan(SpellItem(i) + rest, NORMAL, w) == Resume(Put(w, i), rest)
  {
    if i.Arg? {
      ScanSpelled(i.t, rest, NORMAL, w);
    } else {
      var mark := if i.From? then '<' else '>';
      Regroup([mark], i.before, Spell(i.t));
      Regroup([mark], i.before + Spell(i.t), rest);
      Regroup(i.before, Spell(i.t), rest);
      assert SpellItem(i) + rest == [mark] + (i.before + (Spell(i.t) + rest));
      ScanFileItem(mark, i.before, i.t, rest, w);
    }
  }

  lemma {:induction false} ScanItems(items: seq<Item>, tail: string, w: Words<string>)
    requires AllSpelled(items, tail) && |w.args| < 127
    ensures Scan(SpellAll(items) + tail, NORMAL, w) == Resume(PutAll(w, items), tail)
    decreases |items|
  {
    if items == [] {
      assert SpellAll(items) + tail == tail;
    } else {
      var rest := SpellAll(items[1..]) + tail;
      assert SpellAll(items) + tail == SpellItem(items[0]) + rest;
      ScanItem(items[0], rest, w);
      if Put(w, items[0]).Going? { ScanItems(items[1..], tail, Put(w, items[0]).words); }
    }
  }

  // ---------- whole lines ----------

  const NOTHING: Words<string> := Words([], None, None)

  // The words of a line that is well formed: no argument counts as a background job, and a last argument
  // that begins with & is the background flag.
  function Meaning(w: Words<string>): Outcome {
    var n := |w.args| - 1;
    if n < 0 then Parsed(w, true)
    else if w.args[n] != [] && w.args[n][0] == '&' then Parsed(w.(args := w.args[..n]), true)
    else Parsed(w, false)
  }

  // Every line spelled from tokens and redirections, in any quotes and with any white space, means the words
  // spelled; it is malformed exactly if a file is given twice before argv is full.
  lemma SpelledLine(lead: string, items: seq<Item>)
    requires White(lead) && AllSpelled(items, "")
    ensures var p := PutAll(NOTHING, items);
      Parse(lead + SpellAll(items)) == if p.Clash? then Malformed else Meaning(p.words)
  {
    ScanWhite(lead, SpellAll(items), NORMAL, NOTHING);
    ScanItems(items, "", NOTHING);
    assert SpellAll(items) + "" == SpellAll(items);
    var p := PutAll(NOTHING, items);
    if !p.Clash? {
      assert Finish(p.words, NORMAL) == Meaning(p.words);
      if p.Going? { ScanTrim("", NORMAL, p.words); }
    }
  }

  // ---------- the errors ----------

  // Both flags at once stay set until a token or the end of the line makes the line malformed.
  lemma {:induction false} BothFlags(r: string, w: Words<string>)
    ensures Scan(r, Expect(true, true), w) == Malformed
    decreases |r|
  {
    var u := r[SpaceLen(r)..];
    ScanTrim(r, Expect(true, true), w);
    SpaceLenEnds(r);
    if u == [] {
    } else if u[0] == '<' || u[0] == '>' {
      assert [u[0]] + u[1..] == u;
      ScanFileMark(u[0], u[1..], Expect(true, true), w);
      BothFlags(u[1..], w);
    } else {
      match NextPiece(u)
      case NoPiece => NoToken(u, Expect(true, true), w);
      case Piece(text, rest) => TokenRound(u, text, rest, Expect(true, true), w);
    }
  }

  // What may not follow well spelled items while there is room for arguments: a redirection without a name,
  // one redirection after another, and a quote that is not closed.
  datatype Mistake =
    | NoName(mark: char, gap: string)
    | TwoMarks(mark: char, gap: string, other: char, rest: string)
    | Unclosed(quote: char, text: string)

  predicate IsMistake(m: Mistake) {
    match m
    case NoName(mark, gap) => (mark == '<' || mark == '>') && White(gap)
    case TwoMarks(mark, gap, other, _) => ((mark == '<' && other == '>') || (mark == '>' && other == '<')) && White(gap)
    case Unclosed(quote, text) => (quote == '\'' || quote == '"') && quote !in text
  }

  function SpellMistake(m: Mistake): string {
    match m
    case NoName(mark, gap) => [mark] + gap
    case TwoMarks(mark, gap, other, rest) => [mark] + (gap + ([other] + rest))
    case Unclosed(quote, text) => [quote] + text
  }

  lemma {:induction false} FindNone(a: string, q: char)
    requires q !in a
    ensures Find(a, q) == |a|
  {
    if a == [] {
    } else {
      FindNone(a[1..], q);
    }
  }

  lemma ScanMistake(m: Mistake, w: Words<string>)
    requires IsMistake(m)
    ensures Scan(SpellMistake(m), NORMAL, w) == Malformed
  {
    match m
    case NoName(mark, gap) =>
      var e := Expect(mark == '<', mark == '>');
      ScanFileMark(mark, gap, NORMAL, w);
      ScanWhite(gap, "", e, w);
      assert gap + "" == gap;
      ScanTrim("", e, w);
    case TwoMarks(mark, gap, other, rest) =>
      var e := Expect(mark == '<', mark == '>');
      ScanFileMark(mark, gap + ([other] + rest), NORMAL, w);
      ScanWhite(gap, [other] + rest, e, w);
      ScanFileMark(other, rest, e, w);
      BothFlags(rest, w);
    case Unclosed(quote, text) =>
      var u := [quote] + text;
      assert u[1..] == text;
      FindNone(text, quote);
      NoToken(u, NORMAL, w);
  }

  lemma MistakenLine(lead: string, items: seq<Item>, m: Mistake)
    requires White(lead) && AllSpelled(items, SpellMistake(m)) && IsMistake(m) && !PutAll(NOTHING, items).Full?
    ensures Parse(lead + (SpellAll(items) + SpellMistake(m))) == Malformed
  {
    ScanWhite(lead, SpellAll(items) + SpellMistake(m), NORMAL, NOTHING);
    ScanItems(items, SpellMistake(m), NOTHING);
    var p := PutAll(NOTHING, items);
    if p.Going? { ScanMistake(m, p.words); }
  }
}
