/** The command parser of sh.c.

The parser is given as functions on the text still to be read; the methods at the
end are sh.c itself, advancing a position in the buffer. */
module Shell {

  const NUL: char := '\0'
  const MAXARGS: nat := 10

  datatype Option<T> = None | Some(value: T)

  /** A word of the input, and how many characters remained when it began. */
  datatype Word = Word(text: string, from: nat)

  /** `<` opens for reading as descriptor 0; `>` and `>>` alike open for writing,
      creating the file, as descriptor 1. */
  datatype Mode = Input | Output

  datatype Cmd<W> =
    | Exec(argv: seq<W>)
    | Redir(cmd: Cmd<W>, file: W, mode: Mode)
    | Pipe(left: Cmd<W>, right: Cmd<W>)
    | List(left: Cmd<W>, right: Cmd<W>)
    | Back(cmd: Cmd<W>)

  datatype Redirection<W> = Redirection(file: W, mode: Mode)

  predicate White(c: char) {
    c == ' ' || c == '\t' || c == '\r' || c == '\n' || c == 11 as char
  }

  predicate Symbol(c: char) {
    c == '<' || c == '|' || c == '>' || c == '&' || c == ';' || c == '(' || c == ')'
  }

  predicate WordChar(c: char) {
    !White(c) && !Symbol(c) && c != NUL
  }

  // ----- Tokens ---------------------------------------------------------------

  function Skip(s: string): (r: string)
    ensures |r| <= |s| && (r == [] || !White(r[0]))
  {
    if s != [] && White(s[0]) then Skip(s[1..]) else s
  }

  /** The longest run of word characters at the front of s. */
  function WordLength(s: string): (n: nat)
    ensures n <= |s| && (n == |s| || White(s[n]) || Symbol(s[n]))
    ensures forall i :: 0 <= i < n ==> !White(s[i]) && !Symbol(s[i])
  {
    if s == [] || White(s[0]) || Symbol(s[0]) then 0 else 1 + WordLength(s[1..])
  }

  /** What gettoken returns: NUL at the end, '+' for ">>", 'a' for a word. */
  datatype Token = Token(kind: char, word: Word, rest: string)

  /** The token at the front of a text that does not start with a blank. */
  function TokenAt(b: string): (t: Token)
    requires b == [] || !White(b[0])
    ensures |t.rest| <= |b| && (t.kind != NUL ==> |t.rest| < |b|)
  {
    if b == [] || b[0] == NUL then Token(NUL, Word("", |b|), Skip(b))
    else if b[0] == '>' && |b| > 1 && b[1] == '>' then Token('+', Word(">>", |b|), Skip(b[2..]))
    else if Symbol(b[0]) then Token(b[0], Word(b[..1], |b|), Skip(b[1..]))
    else
      var n := WordLength(b);
      Token('a', Word(b[..n], |b|), Skip(b[n..]))
  }

  function GetToken(s: string): (t: Token)
    ensures |t.rest| <= |s| && (t.kind != NUL ==> |t.rest| < |s|)
  {
    TokenAt(Skip(s))
  }

  /** The character peek looks at. */
  function Peeked(s: string): char {
    var b := Skip(s);
    if b == [] then NUL else b[0]
  }

  // ----- The grammar ----------------------------------------------------------

  type Parsed<T> = Option<(T, string)>

  function Wrap<W>(c: Cmd<W>, rs: seq<Redirection<W>>): Cmd<W> {
    if rs == [] then c else Redir(Wrap(c, rs[..|rs| - 1]), rs[|rs| - 1].file, rs[|rs| - 1].mode)
  }

  function ParseRedirs(s: string): (r: Parsed<seq<Redirection<Word>>>)
    ensures r.Some? ==> |r.value.1| <= |s|
    decreases |s|
  {
    if Peeked(s) == '<' || Peeked(s) == '>' then
      var tok := GetToken(s);
      var file := GetToken(tok.rest);
      if file.kind != 'a' then None // missing file for redirection
      else
        match ParseRedirs(file.rest)
        case None => None
        case Some((rs, rest)) =>
          Some(([Redirection(file.word, if tok.kind == '<' then Input else Output)] + rs, rest))
    else Some(([], Skip(s)))
  }

  predicate EndsExec(c: char) {
    c == '|' || c == ')' || c == '&' || c == ';'
  }

  /** The loop of parseexec: the arguments so far and the redirections so far. */
  function ParseArgs(argv: seq<Word>, rs: seq<Redirection<Word>>, s: string): (r: Parsed<Cmd<Word>>)
    ensures r.Some? ==> |r.value.1| <= |s|
    decreases |s|
  {
    if EndsExec(Peeked(s)) then Some((Wrap(Exec(argv), rs), Skip(s)))
    else
      var tok := GetToken(s);
      if tok.kind == NUL then Some((Wrap(Exec(argv), rs), tok.rest))
      else if tok.kind != 'a' then None // syntax
      else if |argv| + 1 >= MAXARGS then None // too many args
      else
        match ParseRedirs(tok.rest)
        case None => None
        case Some((more, rest)) => ParseArgs(argv + [tok.word], rs + more, rest)
  }

  function ParseExec(s: string): (r: Parsed<Cmd<Word>>)
    ensures r.Some? ==> |r.value.1| <= |s|
    decreases |s|, 1
  {
    if Peeked(s) == '(' then ParseBlock(s)
    else
      match ParseRedirs(s)
      case None => None
      case Some((rs, rest)) => ParseArgs([], rs, rest)
  }

  function ParseBlock(s: string): (r: Parsed<Cmd<Word>>)
    requires Peeked(s) == '('
    ensures r.Some? ==> |r.value.1| <= |s|
    decreases |s|, 0
  {
    match ParseLine(GetToken(s).rest)
    case None => None
    case Some((c, rest)) =>
      if Peeked(rest) != ')' then None // missing )
      else
        match ParseRedirs(GetToken(rest).rest)
        case None => None
        case Some((rs, rest')) => Some((Wrap(c, rs), rest'))
  }

  function ParsePipe(s: string): (r: Parsed<Cmd<Word>>)
    ensures r.Some? ==> |r.value.1| <= |s|
    decreases |s|, 2
  {
    match ParseExec(s)
    case None => None
    case Some((c, rest)) =>
      if Peeked(rest) != '|' then Some((c, Skip(rest)))
      else
        match ParsePipe(GetToken(rest).rest)
        case None => None
        case Some((d, rest')) => Some((Pipe(c, d), rest'))
  }

  function ParseLine(s: string): (r: Parsed<Cmd<Word>>)
    ensures r.Some? ==> |r.value.1| <= |s|
    decreases |s|, 4
  {
    match ParsePipe(s)
    case None => None
    case Some((c, rest)) => LineTail(c, rest)
  }

  /** What follows the first pipe of a line: any number of '&', then maybe ';'. */
  function LineTail(c: Cmd<Word>, s: string): (r: Parsed<Cmd<Word>>)
    ensures r.Some? ==> |r.value.1| <= |s|
    decreases |s|, 3
  {
    if Peeked(s) == '&' then LineTail(Back(c), GetToken(s).rest)
    else if Peeked(s) == ';' then
      match ParseLine(GetToken(s).rest)
      case None => None
      case Some((d, rest)) => Some((List(c, d), rest))
    else Some((c, Skip(s)))
  }

  /** parsecmd; None is one of the panics of the parser. */
  function ParseCmd(s: string): Option<Cmd<Word>> {
    match ParseLine(s)
    case None => None
    case Some((c, rest)) => if Skip(rest) == [] then Some(c) else None // leftovers
  }

  // ----- Printing -------------------------------------------------------------

  type Tree = Cmd<string>

  function Core<W>(t: Cmd<W>): (c: Cmd<W>)
    ensures !c.Redir? && (t.Redir? || c == t)
    ensures t.Redir? ==> Size(c) < Size(t)
  {
    if t.Redir? then Core(t.cmd) else t
  }

  function Redirs<W>(t: Cmd<W>): seq<Redirection<W>> {
    if t.Redir? then Redirs(t.cmd) + [Redirection(t.file, t.mode)] else []
  }

  function Size<W>(t: Cmd<W>): nat {
    match t
    case Exec(_) => 1
    case Redir(c, _, _) => 1 + Size(c)
    case Pipe(l, r) => 1 + Size(l) + Size(r)
    case List(l, r) => 1 + Size(l) + Size(r)
    case Back(c) => 1 + Size(c)
  }

  // Each printer puts a command in front of the text that follows it.

  function WordsThen(argv: seq<string>, rest: string): string {
    if argv == [] then rest else " " + argv[0] + WordsThen(argv[1..], rest)
  }

  function RedirsThen(rs: seq<Redirection<string>>, rest: string): string {
    if rs == [] then rest
    else (if rs[0].mode == Input then " <" else " >") + (" " + rs[0].file + RedirsThen(rs[1..], rest))
  }

  predicate Compound<W>(t: Cmd<W>) {
    t.Pipe? || t.List? || t.Back?
  }

  function PrintExec(t: Tree, rest: string): string
    decreases Size(t), if Compound(t) then 4 else 0
  {
    var core, after := Core(t), RedirsThen(Redirs(t), rest);
    if core.Exec? then WordsThen(core.argv, after) else " (" + PrintLine(core, " )" + after)
  }

  function PrintPipe(t: Tree, rest: string): string
    decreases Size(t), if t.List? || t.Back? then 5 else 1
  {
    if t.Pipe? then PrintExec(t.left, " |" + PrintPipe(t.right, rest)) else PrintExec(t, rest)
  }

  function PrintBack(t: Tree, rest: string): string
    decreases Size(t), if t.List? then 6 else 2
  {
    if t.Back? then PrintBack(t.cmd, " &" + rest) else PrintPipe(t, rest)
  }

  function PrintLine(t: Tree, rest: string): string
    decreases Size(t), 3
  {
    if t.List? then PrintBack(t.left, " ;" + PrintLine(t.right, rest)) else PrintBack(t, rest)
  }

  function Print(t: Tree): string {
    PrintLine(t, "")
  }

  /** Words free of blanks and symbols, and at most nine arguments. */
  predicate GoodWord(w: string) {
    w != [] && forall i :: 0 <= i < |w| ==> WordChar(w[i])
  }

  predicate Printable(t: Tree) {
    match t
    case Exec(argv) => |argv| < MAXARGS && forall i :: 0 <= i < |argv| ==> GoodWord(argv[i])
    case Redir(c, f, _) => GoodWord(f) && Printable(c)
    case Pipe(l, r) => Printable(l) && Printable(r)
    case List(l, r) => Printable(l) && Printable(r)
    case Back(c) => Printable(c)
  }

  // ----- Forgetting where the words were --------------------------------------

  function Texts(argv: seq<Word>): (r: seq<string>)
    ensures |r| == |argv| && forall i :: 0 <= i < |r| ==> r[i] == argv[i].text
  {
    seq(|argv|, i requires 0 <= i < |argv| => argv[i].text)
  }

  function EraseRedirs(rs: seq<Redirection<Word>>): (r: seq<Redirection<string>>)
    ensures |r| == |rs| && forall i :: 0 <= i < |r| ==> r[i] == Redirection(rs[i].file.text, rs[i].mode)
  {
    seq(|rs|, i requires 0 <= i < |rs| => Redirection(rs[i].file.text, rs[i].mode))
  }

  function Erase(c: Cmd<Word>): Tree {
    match c
    case Exec(argv) => Exec(Texts(argv))
    case Redir(d, f, m) => Redir(Erase(d), f.text, m)
    case Pipe(l, r) => Pipe(Erase(l), Erase(r))
    case List(l, r) => List(Erase(l), Erase(r))
    case Back(d) => Back(Erase(d))
  }

  lemma {:induction false} EraseWrap(c: Cmd<Word>, rs: seq<Redirection<Word>>)
    ensures Erase(Wrap(c, rs)) == Wrap(Erase(c), EraseRedirs(rs))
  {
    if rs != [] {
      EraseWrap(c, rs[..|rs| - 1]);
      assert EraseRedirs(rs)[..|rs| - 1] == EraseRedirs(rs[..|rs| - 1]);
    }
  }

  lemma {:induction false} WrapCore(t: Tree)
    ensures Wrap(Core(t), Redirs(t)) == t
    ensures Printable(t) ==> Printable(Core(t)) && forall i :: 0 <= i < |Redirs(t)| ==> GoodWord(Redirs(t)[i].file)
  {
    if t.Redir? {
      WrapCore(t.cmd);
      assert Redirs(t)[..|Redirs(t)| - 1] == Redirs(t.cmd);
    }
  }

  // ----- Reading back tokens --------------------------------------------------

  /** The text that follows a printed token: nothing, or another token. */
  predicate Separated(rest: string) {
    rest == [] || rest[0] == ' '
  }

  lemma {:induction false} SkipTwice(s: string)
    ensures Skip(Skip(s)) == Skip(s)
  {
  }

  lemma {:induction false} WordLengthIs(w: string, rest: string)
    requires GoodWord(w) && Separated(rest)
    ensures WordLength(w + rest) == |w|
  {
    if |w| == 1 {
      assert (w + rest)[1..] == rest;
    } else {
      assert (w + rest)[1..] == w[1..] + rest;
      WordLengthIs(w[1..], rest);
    }
  }

  lemma SkipBlank(b: string)
    requires b == [] || !White(b[0])
    ensures Skip(" " + b) == b
  {
  }

  lemma WordToken(w: string, rest: string)
    requires GoodWord(w) && Separated(rest)
    ensures !White((w + rest)[0]) && TokenAt(w + rest) == Token('a', Word(w, |w + rest|), Skip(rest))
  {
    var b := w + rest;
    assert b[0] == w[0] && WordChar(w[0]);
    WordLengthIs(w, rest);
    assert b[..|w|] == w && b[|w|..] == rest;
  }

  lemma SymbolToken(c: char, rest: string)
    requires Symbol(c) && Separated(rest)
    ensures TokenAt([c] + rest).kind == c && TokenAt([c] + rest).rest == Skip(rest)
  {
  }

  lemma ReadWord(w: string, rest: string)
    requires GoodWord(w) && Separated(rest)
    ensures var s := " " + w + rest;
            Peeked(s) == w[0] && GetToken(s) == Token('a', Word(w, |w + rest|), Skip(rest))
  {
    WordToken(w, rest);
    assert " " + w + rest == " " + (w + rest);
    SkipBlank(w + rest);
  }

  lemma ReadSymbol(c: char, rest: string)
    requires Symbol(c) && Separated(rest)
    ensures var s := [' ', c] + rest;
            Peeked(s) == c && GetToken(s).kind == c && GetToken(s).rest == Skip(rest)
  {
    SymbolToken(c, rest);
    assert [' ', c] + rest == " " + ([c] + rest);
    SkipBlank([c] + rest);
  }

  // Leading blanks never matter.

  lemma RedirsSkip(s: string)
    ensures ParseRedirs(Skip(s)) == ParseRedirs(s)
  {
  }

  lemma ExecSkip(s: string)
    ensures ParseExec(Skip(s)) == ParseExec(s)
  {
  }

  lemma PipeSkip(s: string)
    ensures ParsePipe(Skip(s)) == ParsePipe(s)
  {
    ExecSkip(s);
  }

  lemma LineSkip(s: string)
    ensures ParseLine(Skip(s)) == ParseLine(s)
  {
    PipeSkip(s);
  }

  lemma TailSkip(c: Cmd<Word>, s: string)
    ensures LineTail(c, Skip(s)) == LineTail(c, s)
  {
  }

  // ----- Reading back commands ------------------------------------------------

  predicate EndsRedirs(rest: string) {
    Separated(rest) && Peeked(rest) != '<' && Peeked(rest) != '>'
  }

  /** One turn of the loop of parseredirs. */
  lemma RedirStep(mode: Mode, f: string, after: string, ws: seq<Redirection<Word>>, rest: string)
    requires GoodWord(f) && Separated(after) && ParseRedirs(after) == Some((ws, rest))
    ensures var tail := " " + f + after;
            ParseRedirs([' ', if mode == Input then '<' else '>'] + tail)
            == Some(([Redirection(Word(f, |f + after|), mode)] + ws, rest))
  {
    var tail := " " + f + after;
    ReadSymbol(if mode == Input then '<' else '>', tail);
    ReadWord(f, after);
    SkipTwice(tail);
    RedirsSkip(after);
  }

  lemma {:induction false} ReadRedirs(rs: seq<Redirection<string>>, rest: string) returns (ws: seq<Redirection<Word>>)
    requires EndsRedirs(rest) && forall i :: 0 <= i < |rs| ==> GoodWord(rs[i].file)
    ensures EraseRedirs(ws) == rs
    ensures Separated(RedirsThen(rs, rest)) && ParseRedirs(RedirsThen(rs, rest)) == Some((ws, Skip(rest)))
  {
    if rs == [] {
      ws := [];
    } else {
      var more := ReadRedirs(rs[1..], rest);
      var after := RedirsThen(rs[1..], rest);
      RedirStep(rs[0].mode, rs[0].file, after, more, Skip(rest));
      assert RedirsThen(rs, rest) == [' ', if rs[0].mode == Input then '<' else '>'] + (" " + rs[0].file + after);
      ws := [Redirection(Word(rs[0].file, |rs[0].file + after|), rs[0].mode)] + more;
      assert EraseRedirs(ws) == rs;
    }
  }

  predicate EndsCommand(rest: string) {
    Separated(rest) && (EndsExec(Peeked(rest)) || Skip(rest) == [])
  }

  lemma WordsPeek(argv: seq<string>, after: string)
    requires Separated(after) && forall i :: 0 <= i < |argv| ==> GoodWord(argv[i])
    ensures Separated(WordsThen(argv, after))
    ensures argv != [] ==>
              var s := WordsThen(argv, after); WordChar(Peeked(s)) && ParseRedirs(s) == Some(([], Skip(s)))
  {
    if argv != [] {
      WordsPeek(argv[1..], after);
      ReadWord(argv[0], WordsThen(argv[1..], after));
      assert WordChar(argv[0][0]);
    }
  }

  /** One turn of the loop of parseexec. */
  lemma ArgStep(done: seq<Word>, s: string, w: Word, rest: string, ws: seq<Redirection<Word>>, rest': string)
    requires !EndsExec(Peeked(s)) && |done| + 1 < MAXARGS
    requires GetToken(s) == Token('a', w, rest) && ParseRedirs(rest) == Some((ws, rest'))
    ensures ParseArgs(done, [], s) == ParseArgs(done + [w], ws, rest')
  {
    assert [] + ws == ws;
  }

  lemma ArgsEnd(done: seq<Word>, ws: seq<Redirection<Word>>, rest: string)
    requires EndsCommand(rest)
    ensures ParseArgs(done, ws, Skip(rest)) == Some((Wrap(Exec(done), ws), Skip(rest)))
  {
  }

  lemma NextWord(argv: seq<string>, after: string, s: string)
    requires argv != [] && Separated(after) && forall i :: 0 <= i < |argv| ==> GoodWord(argv[i])
    requires Skip(s) == Skip(WordsThen(argv, after))
    ensures !EndsExec(Peeked(s))
    ensures var more := WordsThen(argv[1..], after);
            && GetToken(s) == Token('a', Word(argv[0], |argv[0] + more|), Skip(more))
            && ParseRedirs(Skip(more)) == if |argv| == 1 then ParseRedirs(after) else Some(([], Skip(more)))
  {
    var more := WordsThen(argv[1..], after);
    WordsPeek(argv, after);
    WordsPeek(argv[1..], after);
    ReadWord(argv[0], more);
    RedirsSkip(more);
  }

  lemma TextsAppend(done: seq<Word>, w: Word, argv: seq<string>)
    requires argv != [] && w.text == argv[0]
    ensures Texts(done + [w]) + argv[1..] == Texts(done) + argv
  {
  }

  /** The loop of parseexec reads the remaining words and then the redirections. */
  lemma {:induction false} ReadArgs(done: seq<Word>, argv: seq<string>, rs: seq<Redirection<string>>,
                                    rest: string, s: string)
    returns (c: Cmd<Word>)
    requires argv != [] && |done| + |argv| < MAXARGS && EndsCommand(rest)
    requires forall i :: 0 <= i < |argv| ==> GoodWord(argv[i])
    requires forall i :: 0 <= i < |rs| ==> GoodWord(rs[i].file)
    requires Skip(s) == Skip(WordsThen(argv, RedirsThen(rs, rest)))
    ensures Erase(c) == Wrap(Exec(Texts(done) + argv), rs)
    ensures ParseArgs(done, [], s) == Some((c, Skip(rest)))
    decreases |argv|
  {
    var ws := ReadRedirs(rs, rest);
    var after := RedirsThen(rs, rest);
    NextWord(argv, after, s);
    var more := WordsThen(argv[1..], after);
    var w := Word(argv[0], |argv[0] + more|);
    TextsAppend(done, w, argv);
    if |argv| == 1 {
      ArgStep(done, s, w, Skip(more), ws, Skip(rest));
      ArgsEnd(done + [w], ws, rest);
      c := Wrap(Exec(done + [w]), ws);
      EraseWrap(Exec(done + [w]), ws);
      assert Texts(done + [w]) + argv[1..] == Texts(done + [w]);
    } else {
      ArgStep(done, s, w, Skip(more), [], Skip(more));
      SkipTwice(more);
      c := ReadArgs(done + [w], argv[1..], rs, rest, Skip(more));
    }
  }

  predicate EndsLine(rest: string) {
    Separated(rest) && (Peeked(rest) == ')' || Skip(rest) == [])
  }

  predicate EndsPipe(rest: string) {
    Separated(rest) && (Peeked(rest) == ')' || Peeked(rest) == '&' || Peeked(rest) == ';' || Skip(rest) == [])
  }

  /** A simple command: its words, then its redirections. */
  lemma ReadSimple(argv: seq<string>, rs: seq<Redirection<string>>, rest: string) returns (c: Cmd<Word>)
    requires Printable(Exec(argv)) && EndsCommand(rest)
    requires forall i :: 0 <= i < |rs| ==> GoodWord(rs[i].file)
    ensures Erase(c) == Wrap(Exec(argv), rs)
    ensures var s := WordsThen(argv, RedirsThen(rs, rest));
            Separated(s) && ParseExec(s) == Some((c, Skip(rest)))
  {
    var ws := ReadRedirs(rs, rest);
    var after := RedirsThen(rs, rest);
    var s := WordsThen(argv, after);
    WordsPeek(argv, after);
    if argv == [] {
      RedirsPeek(rs, rest);
      ArgsEnd([], ws, rest);
      c := Wrap(Exec([]), ws);
      EraseWrap(Exec([]), ws);
      assert Texts([]) == [];
    } else {
      SkipTwice(s);
      c := ReadArgs([], argv, rs, rest, Skip(s));
      assert Texts([]) + argv == argv;
    }
  }

  lemma RedirsPeek(rs: seq<Redirection<string>>, rest: string)
    requires EndsCommand(rest) && forall i :: 0 <= i < |rs| ==> GoodWord(rs[i].file)
    ensures Peeked(RedirsThen(rs, rest)) != '('
  {
    if rs != [] {
      var ws := ReadRedirs(rs[1..], rest);
      var tail := " " + rs[0].file + RedirsThen(rs[1..], rest);
      ReadSymbol(if rs[0].mode == Input then '<' else '>', tail);
      assert RedirsThen(rs, rest) == [' ', if rs[0].mode == Input then '<' else '>'] + tail;
    }
  }

  /** A line in parentheses, then redirections. */
  lemma ReadBlock(inner: string, c: Cmd<Word>, rs: seq<Redirection<string>>, rest: string) returns (d: Cmd<Word>)
    requires EndsCommand(rest) && (forall i :: 0 <= i < |rs| ==> GoodWord(rs[i].file)) && Separated(inner)
    requires ParseLine(inner) == Some((c, Skip(" )" + RedirsThen(rs, rest))))
    ensures Erase(d) == Wrap(Erase(c), rs)
    ensures ParseExec(" (" + inner) == Some((d, Skip(rest)))
  {
    var ws := ReadRedirs(rs, rest);
    var after := RedirsThen(rs, rest);
    assert " (" + inner == [' ', '('] + inner && " )" + after == [' ', ')'] + after;
    ReadSymbol('(', inner);
    ReadSymbol(')', after);
    LineSkip(inner);
    SkipTwice(" )" + after);
    RedirsSkip(after);
    d := Wrap(c, ws);
    EraseWrap(c, ws);
  }

  lemma {:induction false} ReadExec(t: Tree, rest: string) returns (c: Cmd<Word>)
    requires Printable(t) && EndsCommand(rest)
    ensures Erase(c) == t
    ensures Separated(PrintExec(t, rest)) && ParseExec(PrintExec(t, rest)) == Some((c, Skip(rest)))
    decreases Size(t), if Compound(t) then 4 else 0
  {
    WrapCore(t);
    var core, rs := Core(t), Redirs(t);
    if core.Exec? {
      c := ReadSimple(core.argv, rs, rest);
    } else {
      var after := RedirsThen(rs, rest);
      var ws := ReadRedirs(rs, rest);
      ReadSymbol(')', after);
      assert " )" + after == [' ', ')'] + after;
      var inner := ReadLine(core, " )" + after);
      c := ReadBlock(PrintLine(core, " )" + after), inner, rs, rest);
    }
  }

  lemma {:induction false} ReadPipe(t: Tree, rest: string) returns (c: Cmd<Word>)
    requires Printable(t) && EndsPipe(rest)
    ensures Erase(c) == t
    ensures Separated(PrintPipe(t, rest)) && ParsePipe(PrintPipe(t, rest)) == Some((c, Skip(rest)))
    decreases Size(t), if t.List? || t.Back? then 5 else 1
  {
    if t.Pipe? {
      var right := ReadPipe(t.right, rest);
      var tail := PrintPipe(t.right, rest);
      ReadSymbol('|', tail);
      assert " |" + tail == [' ', '|'] + tail;
      var left := ReadExec(t.left, " |" + tail);
      SkipTwice(" |" + tail);
      PipeSkip(tail);
      c := Pipe(left, right);
    } else {
      c := ReadExec(t, rest);
      SkipTwice(rest);
    }
  }

  lemma {:induction false} ReadBack(t: Tree, rest: string) returns (c: Cmd<Word>)
    requires Printable(t) && EndsPipe(rest)
    ensures Erase(c) == t
    ensures Separated(PrintBack(t, rest)) && ParseLine(PrintBack(t, rest)) == LineTail(c, rest)
    decreases Size(t), if t.List? then 6 else 2
  {
    if t.Back? {
      ReadSymbol('&', rest);
      assert " &" + rest == [' ', '&'] + rest;
      var d := ReadBack(t.cmd, " &" + rest);
      TailSkip(Back(d), rest);
      c := Back(d);
    } else {
      c := ReadPipe(t, rest);
      TailSkip(c, rest);
    }
  }

  lemma {:induction false} ReadLine(t: Tree, rest: string) returns (c: Cmd<Word>)
    requires Printable(t) && EndsLine(rest)
    ensures Erase(c) == t
    ensures Separated(PrintLine(t, rest)) && ParseLine(PrintLine(t, rest)) == Some((c, Skip(rest)))
    decreases Size(t), 3
  {
    if t.List? {
      var right := ReadLine(t.right, rest);
      var tail := PrintLine(t.right, rest);
      ReadSymbol(';', tail);
      assert " ;" + tail == [' ', ';'] + tail;
      var left := ReadBack(t.left, " ;" + tail);
      LineSkip(tail);
      c := List(left, right);
    } else {
      c := ReadBack(t, rest);
    }
  }

  /** Parsing the printed form of a command gives the command back. */
  lemma ParsePrinted(t: Tree)
    requires Printable(t)
    ensures ParseCmd(Print(t)).Some? && Erase(ParseCmd(Print(t)).value) == t
  {
    var c := ReadLine(t, "");
  }

  // ----- Where the words lie in the buffer ------------------------------------

  predicate Suffix(r: string, s: string) {
    |r| <= |s| && r == s[|s| - |r|..]
  }

  predicate Separator(c: char) {
    White(c) || Symbol(c)
  }

  /** The word is where it says, made of word characters, and ends at a separator
      or at the end of the input. */
  predicate InPlace(s: string, w: Word) {
    && |w.text| <= w.from <= |s|
    && (forall i :: 0 <= i < |w.text| ==> s[|s| - w.from + i] == w.text[i] && !Separator(w.text[i]))
    && (|w.text| < w.from ==> Separator(s[|s| - w.from + |w.text|]))
  }

  predicate AllInPlace(s: string, c: Cmd<Word>) {
    match c
    case Exec(argv) => forall i :: 0 <= i < |argv| ==> InPlace(s, argv[i])
    case Redir(d, f, _) => InPlace(s, f) && AllInPlace(s, d)
    case Pipe(l, r) => AllInPlace(s, l) && AllInPlace(s, r)
    case List(l, r) => AllInPlace(s, l) && AllInPlace(s, r)
    case Back(d) => AllInPlace(s, d)
  }

  predicate RedirsInPlace(s: string, rs: seq<Redirection<Word>>) {
    forall i :: 0 <= i < |rs| ==> InPlace(s, rs[i].file)
  }

  lemma {:induction false} WrapInPlace(s: string, c: Cmd<Word>, rs: seq<Redirection<Word>>)
    requires AllInPlace(s, c) && RedirsInPlace(s, rs)
    ensures AllInPlace(s, Wrap(c, rs))
  {
    if rs != [] {
      WrapInPlace(s, c, rs[..|rs| - 1]);
    }
  }

  lemma SuffixTransitive(a: string, b: string, c: string)
    requires Suffix(a, b) && Suffix(b, c)
    ensures Suffix(a, c)
  {
  }

  lemma {:induction false} SkipSuffix(s: string)
    ensures Suffix(Skip(s), s)
  {
    if s != [] && White(s[0]) {
      SkipSuffix(s[1..]);
    }
  }

  /** How many characters the token at the front of b has. */
  function Consumed(b: string): (n: nat)
    ensures n <= |b|
  {
    if b == [] || b[0] == NUL then 0
    else if b[0] == '>' && |b| > 1 && b[1] == '>' then 2
    else if Symbol(b[0]) then 1
    else WordLength(b)
  }

  lemma TokenRest(b: string)
    requires b == [] || !White(b[0])
    ensures TokenAt(b).rest == Skip(b[Consumed(b)..])
    ensures TokenAt(b).kind == 'a' ==> TokenAt(b).word == Word(b[..Consumed(b)], |b|) && Consumed(b) == WordLength(b)
  {
    assert b[0..] == b;
  }

  lemma WordPlaced(full: string, b: string, n: nat)
    requires Suffix(b, full) && n <= |b| && (n == |b| || Separator(b[n]))
    requires forall i :: 0 <= i < n ==> !Separator(b[i])
    ensures InPlace(full, Word(b[..n], |b|))
  {
    assert forall i :: 0 <= i < |b| ==> b[i] == full[|full| - |b| + i];
  }

  lemma TokenSuffix(full: string, s: string)
    requires Suffix(s, full)
    ensures Suffix(GetToken(s).rest, full)
    ensures GetToken(s).kind == 'a' ==> InPlace(full, GetToken(s).word)
  {
    var b := Skip(s);
    SkipSuffix(s);
    SuffixTransitive(b, s, full);
    TokenRest(b);
    var n := Consumed(b);
    SkipSuffix(b[n..]);
    assert Suffix(b[n..], b);
    SuffixTransitive(b[n..], b, full);
    SuffixTransitive(TokenAt(b).rest, b[n..], full);
    WordPlaced(full, b, WordLength(b));
  }

  lemma {:induction false} RedirsPlaced(full: string, s: string)
    requires Suffix(s, full) && ParseRedirs(s).Some?
    ensures RedirsInPlace(full, ParseRedirs(s).value.0) && Suffix(ParseRedirs(s).value.1, full)
    decreases |s|
  {
    if Peeked(s) == '<' || Peeked(s) == '>' {
      TokenSuffix(full, s);
      TokenSuffix(full, GetToken(s).rest);
      RedirsPlaced(full, GetToken(GetToken(s).rest).rest);
    } else {
      SkipSuffix(s);
      SuffixTransitive(Skip(s), s, full);
    }
  }

  lemma {:induction false} ArgsPlaced(full: string, argv: seq<Word>, rs: seq<Redirection<Word>>, s: string)
    requires Suffix(s, full) && ParseArgs(argv, rs, s).Some?
    requires AllInPlace(full, Exec(argv)) && RedirsInPlace(full, rs)
    ensures AllInPlace(full, ParseArgs(argv, rs, s).value.0) && Suffix(ParseArgs(argv, rs, s).value.1, full)
    decreases |s|
  {
    TokenSuffix(full, s);
    var tok := GetToken(s);
    if EndsExec(Peeked(s)) || tok.kind == NUL {
      SkipSuffix(s);
      SuffixTransitive(Skip(s), s, full);
      WrapInPlace(full, Exec(argv), rs);
    } else {
      RedirsPlaced(full, tok.rest);
      var more := ParseRedirs(tok.rest).value;
      ArgsPlaced(full, argv + [tok.word], rs + more.0, more.1);
    }
  }

  lemma {:induction false} ExecPlaced(full: string, s: string)
    requires Suffix(s, full) && ParseExec(s).Some?
    ensures AllInPlace(full, ParseExec(s).value.0) && Suffix(ParseExec(s).value.1, full)
    decreases |s|, 1
  {
    if Peeked(s) == '(' {
      TokenSuffix(full, s);
      LinePlaced(full, GetToken(s).rest);
      var (c, rest) := ParseLine(GetToken(s).rest).value;
      TokenSuffix(full, rest);
      RedirsPlaced(full, GetToken(rest).rest);
      WrapInPlace(full, c, ParseRedirs(GetToken(rest).rest).value.0);
    } else {
      RedirsPlaced(full, s);
      var (rs, rest) := ParseRedirs(s).value;
      ArgsPlaced(full, [], rs, rest);
    }
  }

  lemma {:induction false} PipePlaced(full: string, s: string)
    requires Suffix(s, full) && ParsePipe(s).Some?
    ensures AllInPlace(full, ParsePipe(s).value.0) && Suffix(ParsePipe(s).value.1, full)
    decreases |s|, 2
  {
    ExecPlaced(full, s);
    var (c, rest) := ParseExec(s).value;
    if Peeked(rest) != '|' {
      SkipSuffix(rest);
      SuffixTransitive(Skip(rest), rest, full);
    } else {
      TokenSuffix(full, rest);
      PipePlaced(full, GetToken(rest).rest);
    }
  }

  lemma {:induction false} LinePlaced(full: string, s: string)
    requires Suffix(s, full) && ParseLine(s).Some?
    ensures AllInPlace(full, ParseLine(s).value.0) && Suffix(ParseLine(s).value.1, full)
    decreases |s|, 4
  {
    PipePlaced(full, s);
    TailPlaced(full, ParsePipe(s).value.0, ParsePipe(s).value.1);
  }

  lemma {:induction false} TailPlaced(full: string, c: Cmd<Word>, s: string)
    requires Suffix(s, full) && AllInPlace(full, c) && LineTail(c, s).Some?
    ensures AllInPlace(full, LineTail(c, s).value.0) && Suffix(LineTail(c, s).value.1, full)
    decreases |s|, 3
  {
    TokenSuffix(full, s);
    if Peeked(s) == '&' {
      TailPlaced(full, Back(c), GetToken(s).rest);
    } else if Peeked(s) == ';' {
      LinePlaced(full, GetToken(s).rest);
    } else {
      SkipSuffix(s);
      SuffixTransitive(Skip(s), s, full);
    }
  }

  // ----- nulterminate ---------------------------------------------------------

  /** The buffer differs from the input only where separators, or the end, have
      become NUL. */
  ghost predicate OnlySeparatorsCleared(s: string, buf: seq<char>) {
    && |buf| == |s| + 1
    && forall i :: 0 <= i <= |s| ==> (i < |s| && buf[i] == s[i]) || (buf[i] == NUL && (i == |s| || Separator(s[i])))
  }

  /** The C string at the word's address is exactly the word. */
  predicate ReadsAs(s: string, buf: seq<char>, w: Word) {
    && |w.text| <= w.from <= |s| && |buf| == |s| + 1
    && buf[|s| - w.from..|s| - w.from + |w.text|] == w.text && NUL !in w.text
    && buf[|s| - w.from + |w.text|] == NUL
  }

  predicate AllRead(s: string, buf: seq<char>, c: Cmd<Word>) {
    match c
    case Exec(argv) => forall i :: 0 <= i < |argv| ==> ReadsAs(s, buf, argv[i])
    case Redir(d, f, _) => ReadsAs(s, buf, f) && AllRead(s, buf, d)
    case Pipe(l, r) => AllRead(s, buf, l) && AllRead(s, buf, r)
    case List(l, r) => AllRead(s, buf, l) && AllRead(s, buf, r)
    case Back(d) => AllRead(s, buf, d)
  }

  ghost predicate MoreCleared(a: seq<char>, b: seq<char>) {
    |a| == |b| && forall i :: 0 <= i < |a| ==> b[i] == a[i] || b[i] == NUL
  }

  lemma ReadsOn(s: string, a: seq<char>, b: seq<char>, w: Word)
    requires InPlace(s, w) && ReadsAs(s, a, w) && MoreCleared(a, b) && OnlySeparatorsCleared(s, b)
    ensures ReadsAs(s, b, w)
  {
    var q := |s| - w.from;
    forall i | q <= i < q + |w.text|
      ensures b[i] == w.text[i - q]
    {
      assert s[q + (i - q)] == w.text[i - q];
    }
  }

  lemma {:induction false} AllReadOn(s: string, a: seq<char>, b: seq<char>, c: Cmd<Word>)
    requires AllInPlace(s, c) && AllRead(s, a, c) && MoreCleared(a, b) && OnlySeparatorsCleared(s, b)
    ensures AllRead(s, b, c)
  {
    match c
    case Exec(argv) =>
      forall i | 0 <= i < |argv|
        ensures ReadsAs(s, b, argv[i])
      {
        ReadsOn(s, a, b, argv[i]);
      }
    case Redir(d, f, _) =>
      ReadsOn(s, a, b, f);
      AllReadOn(s, a, b, d);
    case Pipe(l, r) =>
      AllReadOn(s, a, b, l);
      AllReadOn(s, a, b, r);
    case List(l, r) =>
      AllReadOn(s, a, b, l);
      AllReadOn(s, a, b, r);
    case Back(d) =>
      AllReadOn(s, a, b, d);
  }

  /** Store NUL behind one word. */
  method Terminate(ghost s: string, buf: array<char>, w: Word)
    requires OnlySeparatorsCleared(s, buf[..]) && InPlace(s, w) && NUL !in s
    modifies buf
    ensures OnlySeparatorsCleared(s, buf[..]) && MoreCleared(old(buf[..]), buf[..]) && ReadsAs(s, buf[..], w)
  {
    var q := buf.Length - 1 - w.from;
    assert forall i :: 0 <= i < |w.text| ==> s[q + i] == w.text[i];
    buf[q + |w.text|] := NUL;
    assert buf[..][q..q + |w.text|] == w.text;
  }

  /** nulterminate: afterwards every argument and file name of the command reads as
      the word it was parsed from. */
  method NulTerminate(ghost s: string, buf: array<char>, c: Cmd<Word>)
    requires OnlySeparatorsCleared(s, buf[..]) && AllInPlace(s, c) && NUL !in s
    modifies buf
    ensures OnlySeparatorsCleared(s, buf[..]) && MoreCleared(old(buf[..]), buf[..]) && AllRead(s, buf[..], c)
    decreases c
  {
    match c
    case Exec(argv) =>
      for i := 0 to |argv|
        invariant OnlySeparatorsCleared(s, buf[..]) && MoreCleared(old(buf[..]), buf[..])
        invariant forall j :: 0 <= j < i ==> ReadsAs(s, buf[..], argv[j])
      {
        ghost var before := buf[..];
        Terminate(s, buf, argv[i]);
        forall j | 0 <= j < i
          ensures ReadsAs(s, buf[..], argv[j])
        {
          ReadsOn(s, before, buf[..], argv[j]);
        }
      }
    case Redir(d, f, _) =>
      NulTerminate(s, buf, d);
      ghost var before := buf[..];
      Terminate(s, buf, f);
      AllReadOn(s, before, buf[..], d);
    case Pipe(l, r) =>
      NulTerminate(s, buf, l);
      ghost var before := buf[..];
      NulTerminate(s, buf, r);
      AllReadOn(s, before, buf[..], l);
    case List(l, r) =>
      NulTerminate(s, buf, l);
      ghost var before := buf[..];
      NulTerminate(s, buf, r);
      AllReadOn(s, before, buf[..], l);
    case Back(d) =>
      NulTerminate(s, buf, d);
  }

  // ----- sh.c -----------------------------------------------------------------

  /** The loop that gettoken and peek share. */
  method SkipBlanks(s: string, start: nat) returns (pos: nat)
    requires start <= |s|
    ensures start <= pos <= |s| && s[pos..] == Skip(s[start..])
  {
    pos := start;
    while pos < |s| && White(s[pos])
      invariant start <= pos <= |s| && Skip(s[pos..]) == Skip(s[start..])
    {
      assert s[pos..][1..] == s[pos + 1..];
      pos := pos + 1;
    }
  }

  function CharAt(s: string, pos: nat): char {
    if pos < |s| then s[pos] else NUL
  }

  function Kind(b: string): char {
    if b == [] || b[0] == NUL then NUL
    else if b[0] == '>' && |b| > 1 && b[1] == '>' then '+'
    else if Symbol(b[0]) then b[0]
    else 'a'
  }

  lemma TokenIs(b: string)
    requires b == [] || !White(b[0])
    ensures TokenAt(b) == Token(Kind(b), Word(b[..Consumed(b)], |b|), Skip(b[Consumed(b)..]))
  {
    assert b[0..] == b && b[..0] == "";
    if |b| > 1 && b[0] == '>' && b[1] == '>' {
      assert b[..2] == ">>";
    }
  }

  /** The switch of gettoken, at a character that is not a blank. */
  method ScanToken(s: string, q: nat) returns (tok: char, pos: nat)
    requires q <= |s|
    ensures q <= pos <= |s| && tok == Kind(s[q..]) && pos == q + Consumed(s[q..])
  {
    pos := q;
    tok := CharAt(s, pos);
    if tok == NUL {
    } else if tok == '>' {
      pos := pos + 1;
      if CharAt(s, pos) == '>' {
        tok := '+';
        pos := pos + 1;
      }
    } else if Symbol(tok) {
      pos := pos + 1;
    } else {
      tok := 'a';
      pos := ScanWord(s, q);
    }
  }

  method ScanWord(s: string, q: nat) returns (pos: nat)
    requires q <= |s|
    ensures q <= pos <= |s| && pos - q == WordLength(s[q..])
  {
    pos := q;
    while pos < |s| && !White(s[pos]) && !Symbol(s[pos])
      invariant q <= pos <= |s|
      invariant WordLength(s[q..]) == pos - q + WordLength(s[pos..])
    {
      assert s[pos..][1..] == s[pos + 1..];
      pos := pos + 1;
    }
  }

  /** gettoken: the token, where its text lies, and where the next one starts. */
  method Gettoken(s: string, start: nat) returns (tok: char, word: Word, pos: nat)
    requires start <= |s|
    ensures start <= pos <= |s| && GetToken(s[start..]) == Token(tok, word, s[pos..])
  {
    var q := SkipBlanks(s, start);
    var e;
    tok, e := ScanToken(s, q);
    word := Word(s[q..e], |s| - q);
    TokenIs(s[q..]);
    assert s[q..][..e - q] == s[q..e] && s[q..][e - q..] == s[e..];
    pos := SkipBlanks(s, e);
  }

  /** peek: the next character that is not a blank. */
  method Peek(s: string, start: nat) returns (c: char, pos: nat)
    requires start <= |s|
    ensures start <= pos <= |s| && s[pos..] == Skip(s[start..]) && c == Peeked(s[start..])
  {
    pos := SkipBlanks(s, start);
    c := CharAt(s, pos);
  }

  /** parseredirs, with the redirections it has read so far. */
  function RedirsFrom(rs: seq<Redirection<Word>>, s: string): Parsed<seq<Redirection<Word>>> {
    var r := ParseRedirs(s);
    if r.None? then None else Some((rs + r.value.0, r.value.1))
  }

  lemma RedirsFromNone(s: string)
    ensures RedirsFrom([], s) == ParseRedirs(s) == RedirsFrom([], Skip(s))
  {
    RedirsSkip(s);
    assert ParseRedirs(s).Some? ==> [] + ParseRedirs(s).value.0 == ParseRedirs(s).value.0;
  }

  lemma RedirsFromEnd(rs: seq<Redirection<Word>>, s: string)
    requires Peeked(s) != '<' && Peeked(s) != '>'
    ensures RedirsFrom(rs, s) == Some((rs, Skip(s)))
  {
    assert rs + [] == rs;
  }

  lemma RedirsFromStep(rs: seq<Redirection<Word>>, s: string, r: Redirection<Word>)
    requires Peeked(s) == '<' || Peeked(s) == '>'
    requires var file := GetToken(GetToken(s).rest);
             file.kind == 'a' && r == Redirection(file.word, if GetToken(s).kind == '<' then Input else Output)
    ensures RedirsFrom(rs, s) == RedirsFrom(rs + [r], Skip(GetToken(GetToken(s).rest).rest))
  {
    var rest := GetToken(GetToken(s).rest).rest;
    RedirsSkip(rest);
    if ParseRedirs(rest).Some? {
      assert rs + [r] + ParseRedirs(rest).value.0 == rs + ([r] + ParseRedirs(rest).value.0);
    }
  }

  /** parseredirs, collecting the redirections in the order in which it wraps them. */
  method Parseredirs(s: string, start: nat) returns (ok: bool, rs: seq<Redirection<Word>>, pos: nat)
    requires start <= |s|
    ensures ok <==> ParseRedirs(s[start..]).Some?
    ensures start <= pos <= |s| && (ok ==> ParseRedirs(s[start..]) == Some((rs, s[pos..])))
  {
    rs := [];
    var c;
    c, pos := Peek(s, start);
    RedirsFromNone(s[start..]);
    SkipTwice(s[start..]);
    while c == '<' || c == '>'
      invariant start <= pos <= |s| && c == Peeked(s[pos..]) && Skip(s[pos..]) == s[pos..]
      invariant ParseRedirs(s[start..]) == RedirsFrom(rs, s[pos..])
      decreases |s| - pos
    {
      ghost var p0 := pos;
      var tok, mark, file, word;
      tok, mark, pos := Gettoken(s, pos);
      file, word, pos := Gettoken(s, pos);
      if file != 'a' {
        return false, rs, pos;
      }
      var r := Redirection(word, if tok == '<' then Input else Output);
      RedirsFromStep(rs, s[p0..], r);
      SkipTwice(s[pos..]);
      rs := rs + [r];
      c, pos := Peek(s, pos);
    }
    RedirsFromEnd(rs, s[pos..]);
    ok := true;
  }

  /** parseexec's loop over the arguments. */
  method Parseargs(s: string, start: nat, rs0: seq<Redirection<Word>>) returns (ok: bool, cmd: Cmd<Word>, pos: nat)
    requires start <= |s|
    ensures ok <==> ParseArgs([], rs0, s[start..]).Some?
    ensures start <= pos <= |s| && (ok ==> ParseArgs([], rs0, s[start..]) == Some((cmd, s[pos..])))
  {
    var argv, rs := [], rs0;
    pos, cmd := start, Exec([]);
    while true
      invariant start <= pos <= |s| && |argv| < MAXARGS
      invariant ParseArgs([], rs0, s[start..]) == ParseArgs(argv, rs, s[pos..])
      decreases |s| - pos
    {
      ghost var p0 := pos;
      var c, tok, word;
      c, pos := Peek(s, pos);
      if EndsExec(c) {
        break;
      }
      SkipTwice(s[p0..]);
      tok, word, pos := Gettoken(s, pos);
      if tok == NUL {
        break;
      }
      if tok != 'a' || |argv| + 1 >= MAXARGS {
        return false, cmd, pos;
      }
      argv := argv + [word];
      var good, more;
      good, more, pos := Parseredirs(s, pos);
      if !good {
        return false, cmd, pos;
      }
      rs := rs + more;
    }
    return true, Wrap(Exec(argv), rs), pos;
  }

  method Parseexec(s: string, start: nat) returns (ok: bool, cmd: Cmd<Word>, pos: nat)
    requires start <= |s|
    ensures ok <==> ParseExec(s[start..]).Some?
    ensures start <= pos <= |s| && (ok ==> ParseExec(s[start..]) == Some((cmd, s[pos..])))
    decreases |s| - start, 1
  {
    var c;
    c, pos := Peek(s, start);
    ExecSkip(s[start..]);
    SkipTwice(s[start..]);
    if c == '(' {
      ok, cmd, pos := Parseblock(s, pos);
      return;
    }
    var rs;
    cmd := Exec([]);
    ok, rs, pos := Parseredirs(s, pos);
    if ok {
      ok, cmd, pos := Parseargs(s, pos, rs);
    }
  }

  method Parseblock(s: string, start: nat) returns (ok: bool, cmd: Cmd<Word>, pos: nat)
    requires start <= |s| && Peeked(s[start..]) == '('
    ensures ok <==> ParseBlock(s[start..]).Some?
    ensures start <= pos <= |s| && (ok ==> ParseBlock(s[start..]) == Some((cmd, s[pos..])))
    decreases |s| - start, 0
  {
    var tok, word, c, rs;
    tok, word, pos := Gettoken(s, start);
    ok, cmd, pos := Parseline(s, pos);
    if !ok {
      return;
    }
    ghost var p0 := pos;
    c, pos := Peek(s, pos);
    if c != ')' {
      return false, cmd, pos;
    }
    SkipTwice(s[p0..]);
    tok, word, pos := Gettoken(s, pos);
    ok, rs, pos := Parseredirs(s, pos);
    if ok {
      cmd := Wrap(cmd, rs);
    }
  }

  method Parsepipe(s: string, start: nat) returns (ok: bool, cmd: Cmd<Word>, pos: nat)
    requires start <= |s|
    ensures ok <==> ParsePipe(s[start..]).Some?
    ensures start <= pos <= |s| && (ok ==> ParsePipe(s[start..]) == Some((cmd, s[pos..])))
    decreases |s| - start, 2
  {
    ok, cmd, pos := Parseexec(s, start);
    if !ok {
      return;
    }
    ghost var p0 := pos;
    var c, tok, word, right;
    c, pos := Peek(s, pos);
    if c == '|' {
      SkipTwice(s[p0..]);
      tok, word, pos := Gettoken(s, pos);
      ok, right, pos := Parsepipe(s, pos);
      cmd := Pipe(cmd, right);
    }
  }

  method Parseline(s: string, start: nat) returns (ok: bool, cmd: Cmd<Word>, pos: nat)
    requires start <= |s|
    ensures ok <==> ParseLine(s[start..]).Some?
    ensures start <= pos <= |s| && (ok ==> ParseLine(s[start..]) == Some((cmd, s[pos..])))
    decreases |s| - start, 3
  {
    ok, cmd, pos := Parsepipe(s, start);
    if !ok {
      return;
    }
    var c, tok, word, right;
    TailSkip(cmd, s[pos..]);
    c, pos := Peek(s, pos);
    while c == '&'
      invariant start <= pos <= |s| && c == Peeked(s[pos..])
      invariant ParseLine(s[start..]) == LineTail(cmd, s[pos..])
      decreases |s| - pos
    {
      tok, word, pos := Gettoken(s, pos);
      cmd := Back(cmd);
      TailSkip(cmd, s[pos..]);
      SkipTwice(s[pos..]);
      c, pos := Peek(s, pos);
    }
    ghost var p0 := pos;
    c, pos := Peek(s, pos);
    if c == ';' {
      SkipTwice(s[p0..]);
      tok, word, pos := Gettoken(s, pos);
      ok, right, pos := Parseline(s, pos);
      cmd := List(cmd, right);
    }
  }

  /** parsecmd: false is one of the panics of the parser.  Otherwise the buffer holds
      the words of the command as C strings. */
  method Parsecmd(s: string, buf: array<char>) returns (ok: bool, cmd: Cmd<Word>)
    requires NUL !in s && buf[..] == s + [NUL]
    modifies buf
    ensures ok <==> ParseCmd(s).Some?
    ensures ok ==> cmd == ParseCmd(s).value && AllRead(s, buf[..], cmd)
  {
    var pos, c;
    assert s[0..] == s;
    ok, cmd, pos := Parseline(s, 0);
    if !ok {
      return;
    }
    c, pos := Peek(s, pos);
    if pos != |s| {
      return false, cmd;
    }
    LinePlaced(s, s);
    NulTerminate(s, buf, cmd);
  }
}
