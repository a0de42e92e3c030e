module ShellGrammar {

  /* The language of sh.c: what its lines are made of, and which command each of them
     stands for.  A text is a line exactly when the parser accepts it. */

  import opened Shell

  // ----- Tokens ---------------------------------------------------------------

  /** kind is what gettoken returns for the token. */
  datatype Tok = Tok(kind: char, text: string)

  predicate GoodTok(t: Tok) {
    if t.kind == 'a' then GoodWord(t.text)
    else if t.kind == '+' then t.text == ">>"
    else Symbol(t.kind) && t.text == [t.kind]
  }

  predicate Blank(b: string) {
    forall i :: 0 <= i < |b| ==> White(b[i])
  }

  /** A token and the blanks in front of it. */
  datatype Piece = Piece(blanks: string, tok: Tok)

  /** Without a blank between them, two words would be one, and so would two '>'. */
  predicate Apart(t: Tok, next: Piece) {
    next.blanks == "" ==> !(t.kind == 'a' && next.tok.kind == 'a') && !(t.kind == '>' && next.tok.kind in {'>', '+'})
  }

  predicate GoodPieces(ps: seq<Piece>) {
    && (forall i :: 0 <= i < |ps| ==> Blank(ps[i].blanks) && GoodTok(ps[i].tok))
    && (forall i :: 0 <= i < |ps| - 1 ==> Apart(ps[i].tok, ps[i + 1]))
  }

  /** The text that the pieces make, with blanks at the end. */
  function Spell(ps: seq<Piece>, tail: string): string {
    if ps == [] then tail else ps[0].blanks + (ps[0].tok.text + Spell(ps[1..], tail))
  }

  function TokensOf(ps: seq<Piece>): (r: seq<Tok>)
    ensures |r| == |ps| && forall i :: 0 <= i < |r| ==> r[i] == ps[i].tok
  {
    seq(|ps|, i requires 0 <= i < |ps| => ps[i].tok)
  }

  /** What gettoken returns, called again and again. */
  function Lex(s: string): seq<Tok>
    decreases |s|
  {
    var t := GetToken(s);
    if t.kind == NUL then [] else [Tok(t.kind, t.word.text)] + Lex(t.rest)
  }

  lemma {:induction false} SkipBlanksOff(b: string, s: string)
    requires Blank(b)
    ensures Skip(b + s) == Skip(s)
  {
    if b == "" {
      assert b + s == s;
    } else {
      assert (b + s)[1..] == b[1..] + s;
      SkipBlanksOff(b[1..], s);
    }
  }

  lemma LexSkip(s: string)
    ensures Lex(Skip(s)) == Lex(s)
  {
    SkipTwice(s);
  }

  /** The next character ends a word. */
  predicate AtSeparator(s: string) {
    s == "" || Separator(s[0])
  }

  lemma {:induction false} WordLengthOf(w: string, rest: string)
    requires GoodWord(w) && AtSeparator(rest)
    ensures WordLength(w + rest) == |w|
  {
    if |w| == 1 {
      assert (w + rest)[1..] == rest;
    } else {
      assert (w + rest)[1..] == w[1..] + rest;
      WordLengthOf(w[1..], rest);
    }
  }

  /** gettoken reads the first token of what is spelled. */
  lemma FirstToken(t: Tok, rest: string)
    requires GoodTok(t) && (t.kind == 'a' ==> AtSeparator(rest)) && (t.kind == '>' ==> rest == "" || rest[0] != '>')
    ensures var b := t.text + rest;
            b != "" && !White(b[0]) && TokenAt(b) == Token(t.kind, Word(t.text, |b|), Skip(rest))
  {
    var b := t.text + rest;
    assert b[0] == t.text[0];
    if t.kind == 'a' {
      assert WordChar(t.text[0]);
      WordLengthOf(t.text, rest);
      assert b[..|t.text|] == t.text && b[|t.text|..] == rest;
    } else if t.kind == '+' {
      assert b[2..] == rest;
    } else {
      assert b[..1] == t.text && b[1..] == rest;
      assert |b| > 1 ==> b[1] == rest[0];
    }
  }

  lemma SpellStarts(t: Tok, ps: seq<Piece>, tail: string)
    requires GoodTok(t) && GoodPieces(ps) && Blank(tail) && (ps != [] ==> Apart(t, ps[0]))
    ensures var rest := Spell(ps, tail);
            (t.kind == 'a' ==> AtSeparator(rest)) && (t.kind == '>' ==> rest == "" || rest[0] != '>')
  {
    if ps != [] {
      var p := ps[0];
      assert p.blanks != "" ==> Spell(ps, tail)[0] == p.blanks[0] && White(p.blanks[0]);
      assert p.blanks == "" ==> Spell(ps, tail)[0] == p.tok.text[0];
      if p.tok.kind == 'a' {
        assert WordChar(p.tok.text[0]);
      }
    }
  }

  lemma LexOne(p: Piece, rest: string)
    requires Blank(p.blanks) && GoodTok(p.tok)
    requires (p.tok.kind == 'a' ==> AtSeparator(rest)) && (p.tok.kind == '>' ==> rest == "" || rest[0] != '>')
    ensures Lex(p.blanks + (p.tok.text + rest)) == [p.tok] + Lex(rest)
  {
    var b := p.tok.text + rest;
    FirstToken(p.tok, rest);
    SkipBlanksOff(p.blanks, b);
    assert Skip(b) == b;
    LexSkip(rest);
  }

  lemma RestIsGood(ps: seq<Piece>)
    requires ps != [] && GoodPieces(ps)
    ensures Blank(ps[0].blanks) && GoodTok(ps[0].tok) && GoodPieces(ps[1..]) && (|ps| > 1 ==> Apart(ps[0].tok, ps[1..][0]))
    ensures TokensOf(ps) == [ps[0].tok] + TokensOf(ps[1..])
  {
    var r := ps[1..];
    forall i | 0 <= i < |r| - 1
      ensures Apart(r[i].tok, r[i + 1])
    {
      assert Apart(ps[i + 1].tok, ps[i + 1 + 1]);
    }
  }

  /** However a sequence of tokens is spelled, gettoken reads it back. */
  lemma {:induction false} LexSpelled(ps: seq<Piece>, tail: string)
    requires GoodPieces(ps) && Blank(tail)
    ensures Lex(Spell(ps, tail)) == TokensOf(ps)
  {
    if ps == [] {
      assert tail + "" == tail;
      SkipBlanksOff(tail, "");
    } else {
      RestIsGood(ps);
      SpellStarts(ps[0].tok, ps[1..], tail);
      LexOne(ps[0], Spell(ps[1..], tail));
      LexSpelled(ps[1..], tail);
    }
  }

  /** Where the blanks in front end. */
  lemma {:induction false} SkipIs(s: string) returns (b: string)
    ensures Blank(b) && s == b + Skip(s)
  {
    if s != "" && White(s[0]) {
      var more := SkipIs(s[1..]);
      b := [s[0]] + more;
      assert s == [s[0]] + s[1..];
    } else {
      b := "";
    }
  }

  lemma NoNul(b: string, s: string, n: nat)
    requires NUL !in s && Suffix(b, s) && n <= |b|
    ensures NUL !in b && NUL !in b[n..]
  {
    assert forall c :: c in b ==> c in s;
    assert forall c :: c in b[n..] ==> c in b;
  }

  lemma OneMorePiece(p: Piece, more: seq<Piece>, tail: string)
    requires Blank(p.blanks) && GoodTok(p.tok) && GoodPieces(more) && (more != [] ==> Apart(p.tok, more[0]))
    ensures GoodPieces([p] + more) && Spell([p] + more, tail) == p.blanks + (p.tok.text + Spell(more, tail))
  {
    var ps := [p] + more;
    assert ps[1..] == more;
    forall i | 0 <= i < |ps| - 1
      ensures Apart(ps[i].tok, ps[i + 1])
    {
      assert i > 0 ==> ps[i] == more[i - 1] && ps[i + 1] == more[i];
    }
  }

  lemma InFront(s: string, blanks: string, b: string, n: nat, more: seq<Piece>, tail: string) returns (ps: seq<Piece>)
    requires Blank(blanks) && s == blanks + b && n <= |b| && Spell(more, tail) == b[n..]
    requires GoodTok(Tok(Kind(b), b[..n])) && GoodPieces(more) && (more != [] ==> Apart(Tok(Kind(b), b[..n]), more[0]))
    ensures GoodPieces(ps) && Spell(ps, tail) == s
  {
    var p := Piece(blanks, Tok(Kind(b), b[..n]));
    OneMorePiece(p, more, tail);
    ps := [p] + more;
    assert b == b[..n] + b[n..];
  }

  /** And every text without NUL is spelled by pieces. */
  lemma {:induction false} EveryTextIsSpelled(s: string) returns (ps: seq<Piece>, tail: string)
    requires NUL !in s
    ensures GoodPieces(ps) && Blank(tail) && Spell(ps, tail) == s
    decreases |s|
  {
    var blanks := SkipIs(s);
    var b := Skip(s);
    if b == "" {
      ps, tail := [], blanks;
    } else {
      var n := Consumed(b);
      SkipSuffix(s);
      NoNul(b, s, n);
      TextOfToken(b);
      var more;
      more, tail := EveryTextIsSpelled(b[n..]);
      if more != [] {
        NextIsApart(b, more, tail);
      }
      ps := InFront(s, blanks, b, n, more, tail);
    }
  }

  lemma TextOfToken(b: string)
    requires b != "" && !White(b[0]) && NUL !in b
    ensures GoodTok(Tok(Kind(b), b[..Consumed(b)])) && Consumed(b) > 0
  {
    if Kind(b) == 'a' && !Symbol(b[0]) {
      assert forall i :: 0 <= i < WordLength(b) ==> b[i] != NUL;
    }
  }

  lemma NextIsApart(b: string, more: seq<Piece>, tail: string)
    requires b != "" && !White(b[0]) && NUL !in b && more != [] && GoodPieces(more) && Spell(more, tail) == b[Consumed(b)..]
    ensures Apart(Tok(Kind(b), b[..Consumed(b)]), more[0])
  {
    var n, p := Consumed(b), more[0];
    if p.blanks == "" {
      assert p.tok.text != "" && b[n..][0] == p.tok.text[0];
      assert n < |b| && b[n] == p.tok.text[0];
      if p.tok.kind == 'a' {
        assert WordChar(p.tok.text[0]);
      }
    }
  }

  // ----- Lines and what they stand for ----------------------------------------

  /** A word, or a redirection: '<', '>' or '+' and the file. */
  datatype Item = W(word: string) | R(op: char, file: string)

  /** A line as it is written.  Simple is a command without parentheses, whose words and
      redirections come in any order. */
  datatype Line =
    | Simple(items: seq<Item>)
    | Block(line: Line, redirs: seq<Item>)
    | PipeOf(left: Line, right: Line)
    | BackOf(line: Line)
    | ListOf(left: Line, right: Line)

  function Sym(c: char): Tok {
    Tok(c, if c == '+' then ">>" else [c])
  }

  function ItemTokens(i: Item): seq<Tok> {
    match i
    case W(w) => [Tok('a', w)]
    case R(op, f) => [Sym(op), Tok('a', f)]
  }

  function ItemsTokens(items: seq<Item>): seq<Tok> {
    if items == [] then [] else ItemTokens(items[0]) + ItemsTokens(items[1..])
  }

  function Tokens(l: Line): seq<Tok> {
    match l
    case Simple(items) => ItemsTokens(items)
    case Block(m, rs) => [Sym('(')] + (Tokens(m) + ([Sym(')')] + ItemsTokens(rs)))
    case PipeOf(a, b) => Tokens(a) + ([Sym('|')] + Tokens(b))
    case BackOf(a) => Tokens(a) + [Sym('&')]
    case ListOf(a, b) => Tokens(a) + ([Sym(';')] + Tokens(b))
  }

  function Words(items: seq<Item>): seq<string> {
    if items == [] then [] else (if items[0].W? then [items[0].word] else []) + Words(items[1..])
  }

  function Redirections(items: seq<Item>): seq<Redirection<string>> {
    if items == [] then []
    else
      (if items[0].R? then [Redirection(items[0].file, if items[0].op == '<' then Input else Output)] else [])
      + Redirections(items[1..])
  }

  predicate GoodItem(i: Item) {
    i.R? ==> i.op in {'<', '>', '+'}
  }

  predicate OnlyRedirs(items: seq<Item>) {
    forall i :: 0 <= i < |items| ==> items[i].R? && GoodItem(items[i])
  }

  predicate IsExec(l: Line)
    decreases l, 0
  {
    match l
    case Simple(items) => (forall i :: 0 <= i < |items| ==> GoodItem(items[i])) && |Words(items)| < MAXARGS
    case Block(m, rs) => IsLine(m) && OnlyRedirs(rs)
    case _ => false
  }

  predicate IsPipe(l: Line)
    decreases l, 1
  {
    if l.PipeOf? then IsExec(l.left) && IsPipe(l.right) else IsExec(l)
  }

  predicate IsBack(l: Line)
    decreases l, 2
  {
    if l.BackOf? then IsBack(l.line) else IsPipe(l)
  }

  predicate IsLine(l: Line)
    decreases l, 3
  {
    if l.ListOf? then IsBack(l.left) && IsLine(l.right) else IsBack(l)
  }

  /** The arguments are the words in order, and the redirections in order go around. */
  function Meaning(l: Line): Tree {
    match l
    case Simple(items) => Wrap(Exec(Words(items)), Redirections(items))
    case Block(m, rs) => Wrap(Meaning(m), Redirections(rs))
    case PipeOf(a, b) => Pipe(Meaning(a), Meaning(b))
    case BackOf(a) => Back(Meaning(a))
    case ListOf(a, b) => List(Meaning(a), Meaning(b))
  }

  // ----- The parser and the tokens --------------------------------------------

  /** What peek sees of the first token. */
  predicate Peeks(ts: seq<Tok>, c: char) {
    if ts == [] then c == NUL
    else if ts[0].kind == '+' then c == '>'
    else if ts[0].kind == 'a' then c != NUL && !Symbol(c)
    else c == ts[0].kind
  }

  /** The token at the front of a text, from its first character on. */
  lemma TokenThere(b: string)
    requires b != "" && !White(b[0]) && NUL !in b
    ensures var t := TokenAt(b);
            t.kind != NUL && GoodTok(Tok(t.kind, t.word.text)) && NUL !in t.rest && Peeks([Tok(t.kind, t.word.text)], b[0])
  {
    TextOfToken(b);
    TokenIs(b);
    var n := Consumed(b);
    NoNul(b, b, n);
    SkipHasNoNul(b[n..]);
  }

  lemma Head(s: string)
    requires NUL !in s
    ensures var tok := GetToken(s);
            && (tok.kind == NUL <==> Lex(s) == []) && (Lex(s) == [] <==> Skip(s) == "")
            && (Lex(s) != [] ==> Lex(s)[0] == Tok(tok.kind, tok.word.text) && Lex(tok.rest) == Lex(s)[1..] && GoodTok(Lex(s)[0]))
            && NUL !in tok.rest && Peeks(Lex(s), Peeked(s))
  {
    SkipHasNoNul(s);
    if Skip(s) != "" {
      TokenThere(Skip(s));
    }
  }

  lemma SkipHasNoNul(s: string)
    requires NUL !in s
    ensures NUL !in Skip(s)
  {
    SkipSuffix(s);
    NoNul(Skip(s), s, 0);
  }

  predicate RedirsEnd(ts: seq<Tok>) {
    ts == [] || ts[0].kind !in {'<', '>', '+'}
  }

  predicate ExecEnds(ts: seq<Tok>) {
    ts == [] || EndsExec(ts[0].kind)
  }

  predicate PipeEnds(ts: seq<Tok>) {
    ts == [] || ts[0].kind in {')', '&', ';'}
  }

  predicate LineEnds(ts: seq<Tok>) {
    ts == [] || ts[0].kind == ')'
  }

  // ----- Sequences of items ---------------------------------------------------

  lemma OneMoreItem(item: Item, more: seq<Item>)
    ensures ItemsTokens([item] + more) == ItemTokens(item) + ItemsTokens(more)
    ensures Words([item] + more) == (if item.W? then [item.word] else []) + Words(more)
    ensures Redirections([item] + more) ==
            (if item.R? then [Redirection(item.file, if item.op == '<' then Input else Output)] else []) + Redirections(more)
  {
    assert ([item] + more)[1..] == more;
  }

  lemma Assoc<T>(a: seq<T>, b: seq<T>, c: seq<T>)
    ensures a + b + c == a + (b + c)
  {
  }

  lemma {:induction false} TokensConcat(a: seq<Item>, b: seq<Item>)
    ensures ItemsTokens(a + b) == ItemsTokens(a) + ItemsTokens(b)
  {
    if a == [] {
      assert a + b == b;
    } else {
      TokensConcat(a[1..], b);
      assert (a + b)[1..] == a[1..] + b;
      Assoc(ItemTokens(a[0]), ItemsTokens(a[1..]), ItemsTokens(b));
    }
  }

  lemma {:induction false} WordsConcat(a: seq<Item>, b: seq<Item>)
    ensures Words(a + b) == Words(a) + Words(b)
  {
    if a == [] {
      assert a + b == b;
    } else {
      WordsConcat(a[1..], b);
      assert (a + b)[1..] == a[1..] + b;
      Assoc(if a[0].W? then [a[0].word] else [], Words(a[1..]), Words(b));
    }
  }

  lemma {:induction false} RedirectionsConcat(a: seq<Item>, b: seq<Item>)
    ensures Redirections(a + b) == Redirections(a) + Redirections(b)
  {
    if a == [] {
      assert a + b == b;
    } else {
      RedirectionsConcat(a[1..], b);
      assert (a + b)[1..] == a[1..] + b;
      var first := if a[0].R? then [Redirection(a[0].file, if a[0].op == '<' then Input else Output)] else [];
      Assoc(first, Redirections(a[1..]), Redirections(b));
    }
  }

  lemma EraseOneMore(r: Redirection<Word>, rs: seq<Redirection<Word>>)
    ensures EraseRedirs([r] + rs) == [Redirection(r.file.text, r.mode)] + EraseRedirs(rs)
  {
  }

  lemma {:induction false} NoWords(items: seq<Item>)
    requires OnlyRedirs(items)
    ensures Words(items) == []
  {
    if items != [] {
      NoWords(items[1..]);
    }
  }

  // ----- What the parser accepts is a line ------------------------------------

  /** A redirection is two tokens. */
  lemma TwoTokens(s: string)
    requires NUL !in s && (Peeked(s) == '<' || Peeked(s) == '>') && GetToken(GetToken(s).rest).kind == 'a'
    ensures var tok, file := GetToken(s), GetToken(GetToken(s).rest);
            && GoodItem(R(tok.kind, file.word.text)) && NUL !in file.rest
            && Lex(s) == ItemTokens(R(tok.kind, file.word.text)) + Lex(file.rest)
  {
    Head(s);
    Head(GetToken(s).rest);
  }

  /** The redirections that parseredirs reads. */
  ghost predicate RedirsRead(s: string, items: seq<Item>, rs: seq<Redirection<Word>>, rest: string) {
    && OnlyRedirs(items) && Redirections(items) == EraseRedirs(rs)
    && Lex(s) == ItemsTokens(items) + Lex(rest) && NUL !in rest
  }

  lemma {:induction false} RedirsAreRead(s: string) returns (items: seq<Item>)
    requires NUL !in s && ParseRedirs(s).Some?
    ensures RedirsRead(s, items, ParseRedirs(s).value.0, ParseRedirs(s).value.1)
    decreases |s|
  {
    if Peeked(s) == '<' || Peeked(s) == '>' {
      TwoTokens(s);
      var tok, file := GetToken(s), GetToken(GetToken(s).rest);
      var more := RedirsAreRead(file.rest);
      var item := R(tok.kind, file.word.text);
      items := [item] + more;
      OneMoreItem(item, more);
      var (ws, rest) := ParseRedirs(file.rest).value;
      EraseOneMore(Redirection(file.word, if tok.kind == '<' then Input else Output), ws);
      Assoc(ItemTokens(item), ItemsTokens(more), Lex(rest));
    } else {
      items := [];
      LexSkip(s);
      SkipHasNoNul(s);
    }
  }

  /** The words and redirections that the loop of parseexec reads, behind those it has. */
  ghost predicate ArgsRead(argv: seq<Word>, rs: seq<Redirection<Word>>, s: string, items: seq<Item>, c: Cmd<Word>, rest: string) {
    && (forall i :: 0 <= i < |items| ==> GoodItem(items[i])) && |argv| + |Words(items)| < MAXARGS
    && Erase(c) == Wrap(Exec(Texts(argv) + Words(items)), EraseRedirs(rs) + Redirections(items))
    && Lex(s) == ItemsTokens(items) + Lex(rest) && NUL !in rest
  }

  /** A word, redirections, and then more items, as one sequence of items. */
  lemma WordAndMore(w: string, redirs: seq<Item>, items: seq<Item>)
    requires OnlyRedirs(redirs)
    ensures var all := [W(w)] + (redirs + items);
            && ItemsTokens(all) == [Tok('a', w)] + (ItemsTokens(redirs) + ItemsTokens(items))
            && Words(all) == [w] + Words(items) && Redirections(all) == Redirections(redirs) + Redirections(items)
  {
    OneMoreItem(W(w), redirs + items);
    TokensConcat(redirs, items);
    WordsConcat(redirs, items);
    RedirectionsConcat(redirs, items);
    NoWords(redirs);
    assert [] + Words(items) == Words(items);
    assert [] + Redirections(redirs + items) == Redirections(redirs + items);
  }

  lemma TextsAndMore(argv: seq<Word>, w: Word, words: seq<string>)
    ensures Texts(argv + [w]) + words == Texts(argv) + ([w.text] + words)
  {
    assert Texts(argv + [w]) == Texts(argv) + [w.text];
    Assoc(Texts(argv), [w.text], words);
  }

  lemma ErasedAndMore(rs: seq<Redirection<Word>>, more: seq<Redirection<Word>>, last: seq<Redirection<string>>)
    ensures EraseRedirs(rs + more) + last == EraseRedirs(rs) + (EraseRedirs(more) + last)
  {
    assert EraseRedirs(rs + more) == EraseRedirs(rs) + EraseRedirs(more);
    Assoc(EraseRedirs(rs), EraseRedirs(more), last);
  }

  lemma ArgsReadMore(argv: seq<Word>, rs: seq<Redirection<Word>>, s: string, w: Word, s1: string,
                     redirs: seq<Item>, more: seq<Redirection<Word>>, s2: string, items: seq<Item>, c: Cmd<Word>, rest: string)
    returns (all: seq<Item>)
    requires Lex(s) == [Tok('a', w.text)] + Lex(s1) && RedirsRead(s1, redirs, more, s2)
    requires ArgsRead(argv + [w], rs + more, s2, items, c, rest)
    ensures ArgsRead(argv, rs, s, all, c, rest)
  {
    all := [W(w.text)] + (redirs + items);
    WordAndMore(w.text, redirs, items);
    TextsAndMore(argv, w, Words(items));
    ErasedAndMore(rs, more, Redirections(items));
    ThreeParts([Tok('a', w.text)], ItemsTokens(redirs), ItemsTokens(items), Lex(rest));
  }

  lemma ThreeParts<T>(a: seq<T>, b: seq<T>, c: seq<T>, d: seq<T>)
    ensures a + (b + (c + d)) == a + (b + c) + d
  {
    Assoc(b, c, d);
    Assoc(a, b + c, d);
  }

  lemma {:induction false} ArgsAreRead(argv: seq<Word>, rs: seq<Redirection<Word>>, s: string) returns (items: seq<Item>)
    requires NUL !in s && ParseArgs(argv, rs, s).Some? && |argv| < MAXARGS
    ensures ArgsRead(argv, rs, s, items, ParseArgs(argv, rs, s).value.0, ParseArgs(argv, rs, s).value.1)
    decreases |s|
  {
    Head(s);
    var tok := GetToken(s);
    if EndsExec(Peeked(s)) || tok.kind == NUL {
      items := [];
      EraseWrap(Exec(argv), rs);
      LexSkip(s);
      SkipHasNoNul(s);
      assert Texts(argv) + Words([]) == Texts(argv) && EraseRedirs(rs) + Redirections([]) == EraseRedirs(rs);
    } else {
      var redirs := RedirsAreRead(tok.rest);
      var (more, rest) := ParseRedirs(tok.rest).value;
      var next := ArgsAreRead(argv + [tok.word], rs + more, rest);
      var (c, end) := ParseArgs(argv, rs, s).value;
      items := ArgsReadMore(argv, rs, s, tok.word, tok.rest, redirs, more, rest, next, c, end);
    }
  }

  /** The text starts with line l, which the parser has read as c. */
  ghost predicate IsRead(s: string, l: Line, c: Cmd<Word>, rest: string) {
    Erase(c) == Meaning(l) && Lex(s) == Tokens(l) + Lex(rest) && NUL !in rest
  }

  lemma SimpleIsRead(s: string) returns (l: Line)
    requires NUL !in s && Peeked(s) != '(' && ParseExec(s).Some?
    ensures IsExec(l) && IsRead(s, l, ParseExec(s).value.0, ParseExec(s).value.1)
  {
    var redirs := RedirsAreRead(s);
    var (rs, rest) := ParseRedirs(s).value;
    var items := ArgsAreRead([], rs, rest);
    var (c, end) := ParseArgs([], rs, rest).value;
    l := Simple(redirs + items);
    TokensConcat(redirs, items);
    WordsConcat(redirs, items);
    RedirectionsConcat(redirs, items);
    NoWords(redirs);
    assert [] + Words(items) == Words(items) && Texts([]) + Words(items) == Words(items);
    Assoc(ItemsTokens(redirs), ItemsTokens(items), Lex(end));
  }

  lemma BlockTokens(l: Line, rs: seq<Item>, ts: seq<Tok>)
    ensures Tokens(Block(l, rs)) + ts == [Sym('(')] + (Tokens(l) + ([Sym(')')] + (ItemsTokens(rs) + ts)))
  {
    Assoc([Sym(')')], ItemsTokens(rs), ts);
    Assoc(Tokens(l), [Sym(')')] + ItemsTokens(rs), ts);
    Assoc([Sym('(')], Tokens(l) + ([Sym(')')] + ItemsTokens(rs)), ts);
  }

  /** A symbol other than '>' in front. */
  lemma SymbolFirst(s: string, c: char)
    requires NUL !in s && Symbol(c) && c != '>'
    ensures Peeked(s) == c <==> Lex(s) != [] && Lex(s)[0] == Sym(c)
    ensures Peeked(s) == c ==> Lex(s) == [Sym(c)] + Lex(GetToken(s).rest) && NUL !in GetToken(s).rest
  {
    Head(s);
  }

  lemma {:induction false} ExecIsRead(s: string) returns (l: Line)
    requires NUL !in s && ParseExec(s).Some?
    ensures IsExec(l) && IsRead(s, l, ParseExec(s).value.0, ParseExec(s).value.1)
    decreases |s|, 1
  {
    if Peeked(s) != '(' {
      l := SimpleIsRead(s);
    } else {
      SymbolFirst(s, '(');
      var m := LineIsRead(GetToken(s).rest);
      var (c, rest) := ParseLine(GetToken(s).rest).value;
      SymbolFirst(rest, ')');
      var after := GetToken(rest).rest;
      var items := RedirsAreRead(after);
      var (rs, end) := ParseRedirs(after).value;
      l := Block(m, items);
      EraseWrap(c, rs);
      BlockTokens(m, items, Lex(end));
    }
  }

  lemma {:induction false} PipeIsRead(s: string) returns (l: Line)
    requires NUL !in s && ParsePipe(s).Some?
    ensures IsPipe(l) && IsRead(s, l, ParsePipe(s).value.0, ParsePipe(s).value.1)
    decreases |s|, 2
  {
    l := ExecIsRead(s);
    var (c, rest) := ParseExec(s).value;
    SymbolFirst(rest, '|');
    if Peeked(rest) != '|' {
      LexSkip(rest);
      SkipHasNoNul(rest);
    } else {
      var after := GetToken(rest).rest;
      var r := PipeIsRead(after);
      TwoSides(Tokens(l), Sym('|'), Tokens(r), Lex(ParsePipe(after).value.1));
      l := PipeOf(l, r);
    }
  }

  lemma TwoSides<T>(a: seq<T>, t: T, b: seq<T>, d: seq<T>)
    ensures a + ([t] + (b + d)) == a + ([t] + b) + d
  {
    Assoc([t], b, d);
    Assoc(a, [t] + b, d);
  }

  lemma {:induction false} LineIsRead(s: string) returns (l: Line)
    requires NUL !in s && ParseLine(s).Some?
    ensures IsLine(l) && IsRead(s, l, ParseLine(s).value.0, ParseLine(s).value.1)
    decreases |s|, 4
  {
    l := PipeIsRead(s);
    var (c, rest) := ParsePipe(s).value;
    l := TailIsRead(s, l, c, rest);
  }

  lemma AmpersandRead(s: string, l: Line, c: Cmd<Word>, rest: string)
    requires IsRead(s, l, c, rest) && Peeked(rest) == '&'
    ensures IsRead(s, BackOf(l), Back(c), GetToken(rest).rest)
  {
    SymbolFirst(rest, '&');
    Assoc(Tokens(l), [Sym('&')], Lex(GetToken(rest).rest));
  }

  lemma SemicolonRead(s: string, l: Line, c: Cmd<Word>, rest: string, r: Line, d: Cmd<Word>, end: string)
    requires IsRead(s, l, c, rest) && Peeked(rest) == ';' && IsRead(GetToken(rest).rest, r, d, end)
    ensures IsRead(s, ListOf(l, r), List(c, d), end)
  {
    SymbolFirst(rest, ';');
    TwoSides(Tokens(l), Sym(';'), Tokens(r), Lex(end));
  }

  lemma BackIsLine(l: Line)
    requires IsBack(l)
    ensures IsLine(l)
  {
    assert l.ListOf? ==> !IsPipe(l);
  }

  lemma {:induction false} TailIsRead(s: string, l0: Line, c: Cmd<Word>, rest: string) returns (l: Line)
    requires IsBack(l0) && IsRead(s, l0, c, rest) && LineTail(c, rest).Some?
    ensures IsLine(l) && IsRead(s, l, LineTail(c, rest).value.0, LineTail(c, rest).value.1)
    decreases |rest|, 3
  {
    var after := GetToken(rest).rest;
    if Peeked(rest) == '&' {
      AmpersandRead(s, l0, c, rest);
      l := TailIsRead(s, BackOf(l0), Back(c), after);
    } else if Peeked(rest) == ';' {
      SymbolFirst(rest, ';');
      var r := LineIsRead(after);
      var (d, end) := ParseLine(after).value;
      SemicolonRead(s, l0, c, rest, r, d, end);
      l := ListOf(l0, r);
    } else {
      LexSkip(rest);
      SkipHasNoNul(rest);
      l := l0;
      BackIsLine(l);
    }
  }

  // ----- Every line is accepted -----------------------------------------------

  /** The tokens of a text after its first ones. */
  lemma NextToken(s: string, t: Tok, ts: seq<Tok>)
    requires NUL !in s && Lex(s) == [t] + ts
    ensures GetToken(s).kind == t.kind && GetToken(s).word.text == t.text && Lex(GetToken(s).rest) == ts
    ensures NUL !in GetToken(s).rest && Peeks([t], Peeked(s)) && GoodTok(t)
  {
    Head(s);
  }

  lemma RedirsStop(s: string)
    requires NUL !in s && RedirsEnd(Lex(s))
    ensures ParseRedirs(s) == Some(([], Skip(s))) && Lex(Skip(s)) == Lex(s) && NUL !in Skip(s)
  {
    Head(s);
    LexSkip(s);
    SkipHasNoNul(s);
  }

  lemma RedirTokens(items: seq<Item>, ts: seq<Tok>)
    requires items != [] && items[0].R?
    ensures ItemsTokens(items) + ts == [Sym(items[0].op)] + ([Tok('a', items[0].file)] + (ItemsTokens(items[1..]) + ts))
  {
    Assoc(ItemTokens(items[0]), ItemsTokens(items[1..]), ts);
    Assoc([Sym(items[0].op)], [Tok('a', items[0].file)], ItemsTokens(items[1..]) + ts);
  }

  lemma {:induction false} RedirsAccepted(s: string, items: seq<Item>, ts: seq<Tok>)
    returns (ws: seq<Redirection<Word>>, rest: string)
    requires NUL !in s && OnlyRedirs(items) && Lex(s) == ItemsTokens(items) + ts && RedirsEnd(ts)
    ensures ParseRedirs(s) == Some((ws, rest)) && EraseRedirs(ws) == Redirections(items) && Lex(rest) == ts && NUL !in rest
    decreases |items|
  {
    if items == [] {
      assert Lex(s) == ts;
      RedirsStop(s);
      ws, rest := [], Skip(s);
    } else {
      var R(op, f) := items[0];
      var more := ItemsTokens(items[1..]) + ts;
      RedirTokens(items, ts);
      NextToken(s, Sym(op), [Tok('a', f)] + more);
      var s1 := GetToken(s).rest;
      NextToken(s1, Tok('a', f), more);
      var file := GetToken(s1);
      ws, rest := RedirsAccepted(file.rest, items[1..], ts);
      var r := Redirection(file.word, if GetToken(s).kind == '<' then Input else Output);
      EraseOneMore(r, ws);
      ws := [r] + ws;
    }
  }

  /** Items are redirections, and then a word or nothing. */
  lemma {:induction false} LeadingRedirs(items: seq<Item>) returns (a: seq<Item>, b: seq<Item>)
    requires forall i :: 0 <= i < |items| ==> GoodItem(items[i])
    ensures items == a + b && OnlyRedirs(a) && (b == [] || b[0].W?)
    ensures forall i :: 0 <= i < |b| ==> GoodItem(b[i])
  {
    if items == [] || items[0].W? {
      a, b := [], items;
    } else {
      a, b := LeadingRedirs(items[1..]);
      a := [items[0]] + a;
      assert items == [items[0]] + items[1..];
    }
  }

  lemma ItemsThenEnd(items: seq<Item>, ts: seq<Tok>)
    requires (items == [] || items[0].W?) && ExecEnds(ts)
    ensures RedirsEnd(ItemsTokens(items) + ts)
  {
  }

  lemma ArgsStop(argv: seq<Word>, rs: seq<Redirection<Word>>, s: string)
    requires NUL !in s && ExecEnds(Lex(s))
    ensures ParseArgs(argv, rs, s).Some? && ParseArgs(argv, rs, s).value.0 == Wrap(Exec(argv), rs)
    ensures Lex(ParseArgs(argv, rs, s).value.1) == Lex(s) && NUL !in ParseArgs(argv, rs, s).value.1
  {
    Head(s);
    LexSkip(s);
    SkipHasNoNul(s);
  }

  /** One turn of the loop of parseexec. */
  lemma ArgsTurn(argv: seq<Word>, rs: seq<Redirection<Word>>, s: string, w: string, redirs: seq<Item>, ts: seq<Tok>)
    returns (word: Word, more: seq<Redirection<Word>>, rest: string)
    requires NUL !in s && |argv| + 1 < MAXARGS && OnlyRedirs(redirs) && RedirsEnd(ts)
    requires Lex(s) == [Tok('a', w)] + (ItemsTokens(redirs) + ts)
    ensures word.text == w && EraseRedirs(more) == Redirections(redirs) && Lex(rest) == ts && NUL !in rest
    ensures |rest| < |s| && ParseArgs(argv, rs, s) == ParseArgs(argv + [word], rs + more, rest)
  {
    NextToken(s, Tok('a', w), ItemsTokens(redirs) + ts);
    var tok := GetToken(s);
    word := tok.word;
    more, rest := RedirsAccepted(tok.rest, redirs, ts);
  }

  /** The loop of parseexec accepts words and redirections in any order. */
  lemma {:induction false} ArgsAccepted(argv: seq<Word>, rs: seq<Redirection<Word>>, s: string, items: seq<Item>, ts: seq<Tok>)
    returns (c: Cmd<Word>, rest: string)
    requires NUL !in s && (items == [] || items[0].W?) && ExecEnds(ts) && Lex(s) == ItemsTokens(items) + ts
    requires (forall i :: 0 <= i < |items| ==> GoodItem(items[i])) && |argv| + |Words(items)| < MAXARGS
    ensures ParseArgs(argv, rs, s) == Some((c, rest)) && Lex(rest) == ts && NUL !in rest
    ensures Erase(c) == Wrap(Exec(Texts(argv) + Words(items)), EraseRedirs(rs) + Redirections(items))
    decreases |s|
  {
    if items == [] {
      assert Lex(s) == ts;
      ArgsStop(argv, rs, s);
      c, rest := ParseArgs(argv, rs, s).value.0, ParseArgs(argv, rs, s).value.1;
      EraseWrap(Exec(argv), rs);
      assert Texts(argv) + Words([]) == Texts(argv) && EraseRedirs(rs) + Redirections([]) == EraseRedirs(rs);
    } else {
      var redirs, next := LeadingRedirs(items[1..]);
      var w := items[0].word;
      assert items == [W(w)] + (redirs + next);
      WordAndMore(w, redirs, next);
      ThreeParts([Tok('a', w)], ItemsTokens(redirs), ItemsTokens(next), ts);
      ItemsThenEnd(next, ts);
      var word, more, s1 := ArgsTurn(argv, rs, s, w, redirs, ItemsTokens(next) + ts);
      c, rest := ArgsAccepted(argv + [word], rs + more, s1, next, ts);
      TextsAndMore(argv, word, Words(next));
      ErasedAndMore(rs, more, Redirections(next));
    }
  }

  /** The parser reads line l, and leaves a text of the tokens ts. */
  ghost predicate Accepts(r: Parsed<Cmd<Word>>, l: Line, ts: seq<Tok>) {
    r.Some? && Erase(r.value.0) == Meaning(l) && Lex(r.value.1) == ts && NUL !in r.value.1
  }

  lemma SimpleAccepted(s: string, l: Line, ts: seq<Tok>)
    requires NUL !in s && l.Simple? && IsExec(l) && Lex(s) == Tokens(l) + ts && ExecEnds(ts)
    ensures Accepts(ParseExec(s), l, ts)
  {
    var redirs, items := LeadingRedirs(l.items);
    TokensConcat(redirs, items);
    WordsConcat(redirs, items);
    RedirectionsConcat(redirs, items);
    NoWords(redirs);
    Assoc(ItemsTokens(redirs), ItemsTokens(items), ts);
    ItemsThenEnd(items, ts);
    NoBlock(s, redirs, items, ts);
    var rs, s1 := RedirsAccepted(s, redirs, ItemsTokens(items) + ts);
    assert [] + Words(items) == Words(items);
    var c, rest := ArgsAccepted([], rs, s1, items, ts);
    assert Texts([]) + Words(items) == Words(items);
  }

  lemma NoBlock(s: string, redirs: seq<Item>, items: seq<Item>, ts: seq<Tok>)
    requires NUL !in s && OnlyRedirs(redirs) && (items == [] || items[0].W?) && ExecEnds(ts)
    requires Lex(s) == ItemsTokens(redirs) + (ItemsTokens(items) + ts)
    ensures Peeked(s) != '('
  {
    SymbolFirst(s, '(');
    if redirs != [] {
      assert Lex(s)[0] == Sym(redirs[0].op);
    } else if items != [] {
      assert Lex(s)[0] == Tok('a', items[0].word);
    } else {
      assert Lex(s) == ts;
    }
  }

  lemma {:induction false} ExecAccepted(s: string, l: Line, ts: seq<Tok>)
    requires NUL !in s && IsExec(l) && Lex(s) == Tokens(l) + ts && ExecEnds(ts)
    ensures Accepts(ParseExec(s), l, ts)
    decreases l, 0
  {
    if l.Simple? {
      SimpleAccepted(s, l, ts);
    } else {
      var inner := [Sym(')')] + (ItemsTokens(l.redirs) + ts);
      BlockTokens(l.line, l.redirs, ts);
      SymbolFirst(s, '(');
      NextToken(s, Sym('('), Tokens(l.line) + inner);
      LineAccepted(GetToken(s).rest, l.line, inner);
      var (c, rest) := ParseLine(GetToken(s).rest).value;
      SymbolFirst(rest, ')');
      NextToken(rest, Sym(')'), ItemsTokens(l.redirs) + ts);
      var ws, end := RedirsAccepted(GetToken(rest).rest, l.redirs, ts);
      EraseWrap(c, ws);
    }
  }

  lemma {:induction false} PipeAccepted(s: string, l: Line, ts: seq<Tok>)
    requires NUL !in s && IsPipe(l) && Lex(s) == Tokens(l) + ts && PipeEnds(ts)
    ensures Accepts(ParsePipe(s), l, ts)
    decreases l, 1
  {
    if l.PipeOf? {
      TwoSides(Tokens(l.left), Sym('|'), Tokens(l.right), ts);
      ExecAccepted(s, l.left, [Sym('|')] + (Tokens(l.right) + ts));
      var rest := ParseExec(s).value.1;
      SymbolFirst(rest, '|');
      NextToken(rest, Sym('|'), Tokens(l.right) + ts);
      PipeAccepted(GetToken(rest).rest, l.right, ts);
    } else {
      ExecAccepted(s, l, ts);
      var rest := ParseExec(s).value.1;
      SymbolFirst(rest, '|');
      LexSkip(rest);
      SkipHasNoNul(rest);
    }
  }

  lemma {:induction false} BackAccepted(s: string, l: Line, ts: seq<Tok>) returns (c: Cmd<Word>, rest: string)
    requires NUL !in s && IsBack(l) && Lex(s) == Tokens(l) + ts && PipeEnds(ts)
    ensures ParseLine(s) == LineTail(c, rest) && Erase(c) == Meaning(l) && Lex(rest) == ts && NUL !in rest
    decreases l, 2
  {
    if l.BackOf? {
      Assoc(Tokens(l.line), [Sym('&')], ts);
      c, rest := BackAccepted(s, l.line, [Sym('&')] + ts);
      SymbolFirst(rest, '&');
      NextToken(rest, Sym('&'), ts);
      c, rest := Back(c), GetToken(rest).rest;
    } else {
      PipeAccepted(s, l, ts);
      c, rest := ParsePipe(s).value.0, ParsePipe(s).value.1;
    }
  }

  lemma TailSemicolon(c: Cmd<Word>, rest: string, l: Line, r: Line, ts: seq<Tok>)
    requires NUL !in rest && Lex(rest) == [Sym(';')] + (Tokens(r) + ts) && Erase(c) == Meaning(l)
    requires Accepts(ParseLine(GetToken(rest).rest), r, ts)
    ensures Accepts(LineTail(c, rest), ListOf(l, r), ts)
  {
    SymbolFirst(rest, ';');
    assert Peeked(rest) == ';';
  }

  lemma TailNothing(c: Cmd<Word>, rest: string, l: Line, ts: seq<Tok>)
    requires NUL !in rest && Lex(rest) == ts && LineEnds(ts) && Erase(c) == Meaning(l)
    ensures Accepts(LineTail(c, rest), l, ts)
  {
    SymbolFirst(rest, '&');
    SymbolFirst(rest, ';');
    LexSkip(rest);
    SkipHasNoNul(rest);
  }

  lemma {:induction false} LineAccepted(s: string, l: Line, ts: seq<Tok>)
    requires NUL !in s && IsLine(l) && Lex(s) == Tokens(l) + ts && LineEnds(ts)
    ensures Accepts(ParseLine(s), l, ts)
    decreases l, 3
  {
    if l.ListOf? {
      TwoSides(Tokens(l.left), Sym(';'), Tokens(l.right), ts);
      var c, rest := BackAccepted(s, l.left, [Sym(';')] + (Tokens(l.right) + ts));
      NextToken(rest, Sym(';'), Tokens(l.right) + ts);
      LineAccepted(GetToken(rest).rest, l.right, ts);
      TailSemicolon(c, rest, l.left, l.right, ts);
    } else {
      var c, rest := BackAccepted(s, l, ts);
      TailNothing(c, rest, l, ts);
    }
  }

  // ----- Theorems -------------------------------------------------------------

  /** The tokens of text s are those of a line that stands for command t. */
  ghost predicate StandsFor(s: string, t: Tree) {
    exists l: Line :: IsLine(l) && Tokens(l) == Lex(s) && Meaning(l) == t
  }

  /** sh.c parses a text to command t exactly when the text is a line that stands for t;
      it refuses every other text. */
  lemma ParsesIff(s: string, t: Tree)
    requires NUL !in s
    ensures ParseCmd(s).Some? && Erase(ParseCmd(s).value) == t <==> StandsFor(s, t)
  {
    if ParseCmd(s).Some? && Erase(ParseCmd(s).value) == t {
      var l := LineIsRead(s);
      var rest := ParseLine(s).value.1;
      Head(rest);
      assert Tokens(l) + [] == Tokens(l);
      assert IsLine(l) && Tokens(l) == Lex(s) && Meaning(l) == t;
    }
    if StandsFor(s, t) {
      var l: Line :| IsLine(l) && Tokens(l) == Lex(s) && Meaning(l) == t;
      assert Tokens(l) + [] == Tokens(l);
      LineAccepted(s, l, []);
      Head(ParseLine(s).value.1);
    }
  }

  lemma {:induction false} SpellHasNoNul(ps: seq<Piece>, tail: string)
    requires GoodPieces(ps) && Blank(tail)
    ensures NUL !in Spell(ps, tail)
  {
    if ps != [] {
      SpellHasNoNul(ps[1..], tail);
      var t := ps[0].tok;
      assert forall i :: 0 <= i < |t.text| ==> t.text[i] != NUL by {
        if t.kind == 'a' {
          assert forall i :: 0 <= i < |t.text| ==> WordChar(t.text[i]);
        }
      }
    }
  }

  /** So a line is parsed to what it stands for however it is spelled: with any blanks,
      with redirections before, between and behind the words, and with '>>' among them. */
  lemma ParseSpelled(l: Line, ps: seq<Piece>, tail: string)
    requires IsLine(l) && GoodPieces(ps) && Blank(tail) && TokensOf(ps) == Tokens(l)
    ensures ParseCmd(Spell(ps, tail)).Some? && Erase(ParseCmd(Spell(ps, tail)).value) == Meaning(l)
  {
    LexSpelled(ps, tail);
    SpellHasNoNul(ps, tail);
    assert StandsFor(Spell(ps, tail), Meaning(l));
    ParsesIff(Spell(ps, tail), Meaning(l));
  }
}
