/** The command language of the shell (user/src/phase6/sh.c): what a sequence of tokens parses to, and back. */
module ShellGrammar {

  const MAXARGS := 10

  const BLANKS: string := " \t\r\n\U{0b}"
  const SYMBOLS: string := "<|>&;()"

  predicate Plain(c: char) {
    c !in BLANKS && c !in SYMBOLS
  }

  predicate PlainWord(w: string) {
    w != "" && forall x :: 0 <= x < |w| ==> Plain(w[x]) && w[x] != '\0'
  }

  datatype Token = Word(text: string) | Sym(c: char) | Append

  datatype Mode = Input | Output | AppendTo

  // W is what a word is: a string, or a piece of the input line.
  datatype Cmd<W> =
    | Exec(argv: seq<W>)
    | Redir(cmd: Cmd<W>, file: W, mode: Mode)
    | Pipe(left: Cmd<W>, right: Cmd<W>)
    | List(left: Cmd<W>, right: Cmd<W>)
    | Back(cmd: Cmd<W>)

  type Tree = Cmd<string>

  datatype Panic = MissingFile | MissingParen | TooManyArgs | Syntax | Leftovers

  datatype Parsed = Fail(why: Panic) | Done(tree: Tree, rest: seq<Token>)

  // ---------------------------------------------------------------- parsing

  function FirstChar(t: Token): char {
    match t
    case Word(w) => if w == "" then ' ' else w[0]
    case Sym(c) => c
    case Append => '>'
  }

  /** peek: the next token starts with one of these characters. */
  predicate Starts(toks: seq<Token>, chars: string) {
    toks != [] && FirstChar(toks[0]) in chars
  }

  function ModeOf(t: Token): Mode {
    if t == Sym('<') then Input else if t == Append then AppendTo else Output
  }

  /** Words are put in the command at the core of the redirections around it. */
  function WithArgv<W>(cmd: Cmd<W>, argv: seq<W>): Cmd<W> {
    match cmd
    case Redir(c, f, m) => Redir(WithArgv(c, argv), f, m)
    case _ => Exec(argv)
  }

  function ParseRedirs(cmd: Tree, toks: seq<Token>): (r: Parsed)
    ensures r.Done? ==> |r.rest| <= |toks|
    decreases |toks|
  {
    if !Starts(toks, "<>") then Done(cmd, toks)
    else if |toks| < 2 || !toks[1].Word? then Fail(MissingFile)
    else ParseRedirs(Redir(cmd, toks[1].text, ModeOf(toks[0])), toks[2..])
  }

  function ParseArgs(ret: Tree, argv: seq<string>, toks: seq<Token>): (r: Parsed)
    ensures r.Done? ==> |r.rest| <= |toks|
    decreases |toks|
  {
    if toks == [] || Starts(toks, "|)&;") then Done(ret, toks)
    else if !toks[0].Word? then Fail(Syntax)
    else if |argv| + 1 >= MAXARGS then Fail(TooManyArgs)
    else
      var argv2 := argv + [toks[0].text];
      var r := ParseRedirs(WithArgv(ret, argv2), toks[1..]);
      if r.Fail? then r else ParseArgs(r.tree, argv2, r.rest)
  }

  function ParseBlock(toks: seq<Token>): (r: Parsed)
    requires toks != []
    ensures r.Done? ==> |r.rest| <= |toks|
    decreases |toks|, 0
  {
    var r := ParseLine(toks[1..]);
    if r.Fail? then r
    else if !Starts(r.rest, ")") then Fail(MissingParen)
    else ParseRedirs(r.tree, r.rest[1..])
  }

  function ParseExec(toks: seq<Token>): (r: Parsed)
    ensures r.Done? ==> |r.rest| <= |toks|
    decreases |toks|, 1
  {
    if Starts(toks, "(") then ParseBlock(toks)
    else
      var r := ParseRedirs(Exec([]), toks);
      if r.Fail? then r else ParseArgs(r.tree, [], r.rest)
  }

  function ParsePipe(toks: seq<Token>): (r: Parsed)
    ensures r.Done? ==> |r.rest| <= |toks|
    decreases |toks|, 2
  {
    var r := ParseExec(toks);
    if r.Fail? || !Starts(r.rest, "|") then r
    else
      var right := ParsePipe(r.rest[1..]);
      if right.Fail? then right else Done(Pipe(r.tree, right.tree), right.rest)
  }

  function ParseBacks(cmd: Tree, toks: seq<Token>): (r: Parsed)
    ensures r.Done? && |r.rest| <= |toks|
    decreases |toks|
  {
    if Starts(toks, "&") then ParseBacks(Back(cmd), toks[1..]) else Done(cmd, toks)
  }

  function ParseLine(toks: seq<Token>): (r: Parsed)
    ensures r.Done? ==> |r.rest| <= |toks|
    decreases |toks|, 3
  {
    var r := ParsePipe(toks);
    if r.Fail? then r
    else
      var b := ParseBacks(r.tree, r.rest);
      if !Starts(b.rest, ";") then b
      else
        var next := ParseLine(b.rest[1..]);
        if next.Fail? then next else Done(List(b.tree, next.tree), next.rest)
  }

  function ParseTokens(toks: seq<Token>): Parsed {
    var r := ParseLine(toks);
    if r.Done? && r.rest != [] then Fail(Leftovers) else r
  }

  // ---------------------------------------------------------------- rendering

  /** What redirections are put around. */
  function Base(t: Tree): (b: Tree)
    ensures !b.Redir?
  {
    if t.Redir? then Base(t.cmd) else t
  }

  function RedirToken(m: Mode): Token {
    match m
    case Input => Sym('<')
    case Output => Sym('>')
    case AppendTo => Append
  }

  function RedirTokens(t: Tree): seq<Token> {
    if t.Redir? then RedirTokens(t.cmd) + [RedirToken(t.mode), Word(t.file)] else []
  }

  function Words(argv: seq<string>): seq<Token> {
    seq(|argv|, (k: nat) requires k < |argv| => Word(argv[k]))
  }

  function Height(t: Tree): nat {
    match t
    case Exec(_) => 0
    case Redir(c, _, _) => Height(c) + 1
    case Pipe(l, r) => 1 + (if Height(l) > Height(r) then Height(l) else Height(r))
    case List(l, r) => 1 + (if Height(l) > Height(r) then Height(l) else Height(r))
    case Back(c) => Height(c) + 1
  }

  lemma {:induction false} BaseHeight(t: Tree)
    ensures Height(Base(t)) <= Height(t)
  {
    if t.Redir? {
      BaseHeight(t.cmd);
    }
  }

  /** One element of a pipeline: the words of a command, or a line in parentheses; then the redirections. */
  function RenderItem(t: Tree): seq<Token>
    decreases Height(t), 0
  {
    BaseHeight(t);
    var base := Base(t);
    (if base.Exec? then Words(base.argv) else [Sym('(')] + RenderInner(base) + [Sym(')')]) + RedirTokens(t)
  }

  /** A line that is not a single command. */
  function RenderInner(t: Tree): seq<Token>
    requires !t.Exec? && !t.Redir?
    decreases Height(t), 0, 0
  {
    match t
    case Pipe(l, r) => RenderItem(l) + [Sym('|')] + RenderPipe(r)
    case List(l, r) => RenderBack(l) + [Sym(';')] + RenderLine(r)
    case Back(c) => RenderBack(c) + [Sym('&')]
  }

  function RenderPipe(t: Tree): seq<Token>
    decreases Height(t), 1
  {
    if t.Pipe? then RenderInner(t) else RenderItem(t)
  }

  function RenderBack(t: Tree): seq<Token>
    decreases Height(t), 2
  {
    if t.Back? then RenderInner(t) else RenderPipe(t)
  }

  function RenderLine(t: Tree): seq<Token>
    decreases Height(t), 3
  {
    if t.List? then RenderInner(t) else RenderBack(t)
  }

  // ---------------------------------------------------------------- parsing what was rendered

  /** Fewer than MAXARGS words in every command, and words that the lexer takes as words. */
  predicate Well(t: Tree) {
    match t
    case Exec(argv) => |argv| < MAXARGS && forall k :: 0 <= k < |argv| ==> PlainWord(argv[k])
    case Redir(c, f, _) => Well(c) && PlainWord(f)
    case Pipe(l, r) => Well(l) && Well(r)
    case List(l, r) => Well(l) && Well(r)
    case Back(c) => Well(c)
  }

  /** The redirections of t, put around c. */
  function Around(c: Tree, t: Tree): Tree {
    if t.Redir? then Redir(Around(c, t.cmd), t.file, t.mode) else c
  }

  lemma {:induction false} AroundBase(t: Tree)
    ensures Around(Base(t), t) == t
    ensures Well(t) ==> Well(Base(t))
  {
    if t.Redir? {
      AroundBase(t.cmd);
    }
  }

  lemma {:induction false} RedirsParsed(c: Tree, t: Tree, rest: seq<Token>)
    requires Well(t)
    ensures ParseRedirs(c, RedirTokens(t) + rest) == ParseRedirs(Around(c, t), rest)
  {
    if t.Redir? {
      var pair := [RedirToken(t.mode), Word(t.file)];
      assert RedirTokens(t) + rest == RedirTokens(t.cmd) + (pair + rest);
      RedirsParsed(c, t.cmd, pair + rest);
      assert (pair + rest)[2..] == rest && (pair + rest)[1].Word?;
      assert ModeOf(RedirToken(t.mode)) == t.mode;
    } else {
      assert RedirTokens(t) + rest == rest;
    }
  }

  predicate Ends(rest: seq<Token>, chars: string) {
    rest == [] || Starts(rest, chars)
  }

  lemma PlainStart(w: string, rest: seq<Token>, chars: string)
    requires PlainWord(w) && forall x :: 0 <= x < |chars| ==> chars[x] in SYMBOLS
    ensures !Starts([Word(w)] + rest, chars)
  {
    assert Plain(w[0]);
  }

  /** One word of a command. */
  lemma ArgStep(ret: Tree, argv: seq<string>, w: string, more: seq<Token>)
    requires PlainWord(w) && |argv| + 1 < MAXARGS
    ensures ParseArgs(ret, argv, [Word(w)] + more) ==
      var r := ParseRedirs(WithArgv(ret, argv + [w]), more);
      if r.Fail? then r else ParseArgs(r.tree, argv + [w], r.rest)
  {
    hide ParseRedirs, WithArgv, PlainWord;
    PlainStart(w, more, "|)&;");
    assert ([Word(w)] + more)[1..] == more;
  }

  lemma NoRedirs(c: Tree, toks: seq<Token>)
    requires !Starts(toks, "<>")
    ensures ParseRedirs(c, toks) == Done(c, toks)
  {
  }

  lemma NoArgs(ret: Tree, argv: seq<string>, rest: seq<Token>)
    requires Ends(rest, "|)&;")
    ensures ParseArgs(ret, argv, rest) == Done(ret, rest) && ParseRedirs(ret, rest) == Done(ret, rest)
  {
  }

  lemma WordsOf(argv: seq<string>)
    requires argv != []
    ensures Words(argv) == [Word(argv[0])] + Words(argv[1..])
  {
  }

  /** The words of a command that are left, and its redirections. */
  lemma ArgsParsed(t: Tree, before: seq<string>, argv: seq<string>, rest: seq<Token>)
    requires Well(t) && Base(t) == Exec(before + argv) && argv != [] && Ends(rest, "|)&;")
    ensures ParseArgs(Exec(before), before, Words(argv) + RedirTokens(t) + rest) == Done(t, rest)
    decreases |argv|
  {
    hide ParseArgs, ParseRedirs, Words, RedirTokens, PlainWord;
    AroundBase(t);
    var tail := RedirTokens(t) + rest;
    var more := Words(argv[1..]) + tail;
    WordsOf(argv);
    assert Words(argv) + RedirTokens(t) + rest == [Word(argv[0])] + more;
    assert (before + argv)[|before|] == argv[0];
    ArgStep(Exec(before), before, argv[0], more);
    var next := before + [argv[0]];
    assert next + argv[1..] == before + argv;
    if argv[1..] == [] {
      assert next == before + argv;
      NoWords();
      assert more == tail;
      RedirsParsed(Exec(next), t, rest);
      NoArgs(t, next, rest);
    } else {
      WordsOf(argv[1..]);
      var more2 := Words(argv[2..]) + tail;
      assert argv[1..][1..] == argv[2..] && argv[1..][0] == (before + argv)[|before| + 1];
      assert more == [Word(argv[1])] + more2;
      PlainStart(argv[1], more2, "<>");
      NoRedirs(Exec(next), more);
      ArgsParsed(t, next, argv[1..], rest);
      assert more == Words(argv[1..]) + RedirTokens(t) + rest;
    }
  }

  lemma NoWords()
    ensures Words([]) == []
  {
  }

  lemma CommandParsed(t: Tree, rest: seq<Token>)
    requires Well(t) && Base(t).Exec? && Ends(rest, "|)&;")
    ensures ParseExec(Words(Base(t).argv) + RedirTokens(t) + rest) == Done(t, rest)
  {
    hide ParseArgs, ParseRedirs, Words, RedirTokens, PlainWord;
    var argv := Base(t).argv;
    var toks := Words(argv) + RedirTokens(t) + rest;
    AroundBase(t);
    if argv == [] {
      NoWords();
      assert toks == RedirTokens(t) + rest;
      RedirStart(t, rest);
      RedirsParsed(Exec([]), t, rest);
      NoArgs(t, [], rest);
    } else {
      WordsOf(argv);
      assert toks == [Word(argv[0])] + (Words(argv[1..]) + RedirTokens(t) + rest);
      PlainStart(argv[0], Words(argv[1..]) + RedirTokens(t) + rest, "(");
      PlainStart(argv[0], Words(argv[1..]) + RedirTokens(t) + rest, "<>");
      NoRedirs(Exec([]), toks);
      assert [] + argv == argv;
      ArgsParsed(t, [], argv, rest);
    }
  }

  lemma {:induction false} RedirStart(t: Tree, rest: seq<Token>)
    requires Ends(rest, "|)&;") || Starts(rest, "<>")
    ensures !Starts(RedirTokens(t) + rest, "(")
  {
    if t.Redir? {
      var pair := [RedirToken(t.mode), Word(t.file)];
      assert RedirTokens(t) + rest == RedirTokens(t.cmd) + (pair + rest);
      RedirStart(t.cmd, pair + rest);
    } else {
      assert RedirTokens(t) + rest == rest;
    }
  }

  lemma ItemParsed(t: Tree, rest: seq<Token>)
    requires Well(t) && Ends(rest, "|)&;")
    ensures ParseExec(RenderItem(t) + rest) == Done(t, rest)
    decreases Height(t), 0
  {
    hide ParseRedirs, ParseArgs, ParseLine, RenderInner, RedirTokens, Words, Well, Height;
    BaseHeight(t);
    AroundBase(t);
    var base := Base(t);
    if base.Exec? {
      CommandParsed(t, rest);
      assert RenderItem(t) + rest == Words(base.argv) + RedirTokens(t) + rest;
    } else {
      var tail := [Sym(')')] + (RedirTokens(t) + rest);
      assert RenderItem(t) + rest == [Sym('(')] + (RenderInner(base) + tail);
      InnerParsed(base, tail);
      BlockStep(RenderInner(base) + tail, base, RedirTokens(t) + rest);
      RedirsParsed(base, t, rest);
      NoArgs(t, [], rest);
    }
  }

  lemma BlockStep(toks: seq<Token>, base: Tree, after: seq<Token>)
    requires ParseLine(toks) == Done(base, [Sym(')')] + after)
    ensures ParseExec([Sym('(')] + toks) == ParseRedirs(base, after)
  {
    hide ParseLine, ParseRedirs, ParseArgs;
    assert ([Sym('(')] + toks)[1..] == toks && ([Sym(')')] + after)[1..] == after;
  }

  lemma InnerParsed(t: Tree, rest: seq<Token>)
    requires Well(t) && !t.Exec? && !t.Redir? && Ends(rest, ")")
    ensures ParseLine(RenderInner(t) + rest) == Done(t, rest)
    decreases Height(t), 0, 1
  {
    hide RenderBack, RenderPipe, RenderItem, ParseRedirs, ParsePipe, Well, Height;
    AroundLine(t, rest);
    WellParts(t);
    match t
    case Pipe(l, r) =>
      PipeParsed(l, r, rest);
      PlainLine(RenderInner(t) + rest, t, rest);
    case List(l, r) =>
      var tail := [Sym(';')] + (RenderLine(r) + rest);
      assert RenderInner(t) + rest == RenderBack(l) + tail;
      BackParsed(l, tail);
      LineParsed(r, rest);
      TwoLines(RenderBack(l) + tail, l, r, RenderLine(r) + rest, rest);
    case Back(c) =>
      var tail := [Sym('&')] + rest;
      assert RenderInner(t) + rest == RenderBack(c) + tail;
      BackParsed(c, tail);
      BackLine(RenderBack(c) + tail, c, rest);
  }

  lemma WellParts(t: Tree)
    ensures Well(t) && (t.Pipe? || t.List?) ==> Well(t.left) && Well(t.right)
    ensures t.Pipe? || t.List? ==> Height(t.left) < Height(t) && Height(t.right) < Height(t)
    ensures Well(t) && t.Back? ==> Well(t.cmd)
    ensures t.Back? ==> Height(t.cmd) < Height(t)
  {
  }

  lemma AroundLine(t: Tree, rest: seq<Token>)
    requires Ends(rest, ")")
    ensures Ends(rest, ")&;") && !Starts(rest, "&") && !Starts(rest, ";") && !Starts(rest, "|")
  {
  }

  lemma PlainLine(toks: seq<Token>, t: Tree, rest: seq<Token>)
    requires ParsePipe(toks) == Done(t, rest) && !Starts(rest, "&") && !Starts(rest, ";")
    ensures ParseLine(toks) == Done(t, rest)
  {
    hide ParsePipe;
  }

  lemma TwoLines(toks: seq<Token>, l: Tree, r: Tree, more: seq<Token>, rest: seq<Token>)
    requires ParsePipe(toks).Done? && ParseBacks(ParsePipe(toks).tree, ParsePipe(toks).rest) == ParseBacks(l, [Sym(';')] + more)
    requires ParseLine(more) == Done(r, rest)
    ensures ParseLine(toks) == Done(List(l, r), rest)
  {
    hide ParsePipe;
    assert ([Sym(';')] + more)[1..] == more;
  }

  lemma BackLine(toks: seq<Token>, c: Tree, rest: seq<Token>)
    requires ParsePipe(toks).Done? && ParseBacks(ParsePipe(toks).tree, ParsePipe(toks).rest) == ParseBacks(c, [Sym('&')] + rest)
    requires !Starts(rest, "&") && !Starts(rest, ";")
    ensures ParseLine(toks) == Done(Back(c), rest)
  {
    hide ParsePipe;
    assert ([Sym('&')] + rest)[1..] == rest;
  }

  lemma PipeParsed(l: Tree, r: Tree, rest: seq<Token>)
    requires Well(l) && Well(r) && Ends(rest, ")&;")
    ensures ParsePipe(RenderInner(Pipe(l, r)) + rest) == Done(Pipe(l, r), rest)
    decreases Height(Pipe(l, r)), 0, 0
  {
    var tail := [Sym('|')] + (RenderPipe(r) + rest);
    assert RenderInner(Pipe(l, r)) + rest == RenderItem(l) + tail;
    ItemParsed(l, tail);
    assert tail[1..] == RenderPipe(r) + rest;
    PipelineParsed(r, rest);
  }

  lemma PipelineParsed(t: Tree, rest: seq<Token>)
    requires Well(t) && Ends(rest, ")&;")
    ensures ParsePipe(RenderPipe(t) + rest) == Done(t, rest)
    decreases Height(t), 1
  {
    if t.Pipe? {
      PipeParsed(t.left, t.right, rest);
    } else {
      ItemParsed(t, rest);
    }
  }

  /** A pipeline and the `&` after it; more of them may follow. */
  lemma BackParsed(t: Tree, rest: seq<Token>)
    requires Well(t) && Ends(rest, ")&;")
    ensures var r := ParsePipe(RenderBack(t) + rest);
      r.Done? && ParseBacks(r.tree, r.rest) == ParseBacks(t, rest)
    decreases Height(t), 2
  {
    if t.Back? {
      var tail := [Sym('&')] + rest;
      assert RenderBack(t) + rest == RenderBack(t.cmd) + tail;
      BackParsed(t.cmd, tail);
      assert tail[1..] == rest;
    } else {
      PipelineParsed(t, rest);
    }
  }

  lemma LineParsed(t: Tree, rest: seq<Token>)
    requires Well(t) && Ends(rest, ")")
    ensures ParseLine(RenderLine(t) + rest) == Done(t, rest)
    decreases Height(t), 3
  {
    if t.List? {
      InnerParsed(t, rest);
    } else {
      BackParsed(t, rest);
    }
  }

  /** Rendering a tree and parsing it gives the tree. */
  lemma ParseRender(t: Tree)
    requires Well(t)
    ensures ParseTokens(RenderLine(t)) == Done(t, [])
  {
    LineParsed(t, []);
    assert RenderLine(t) + [] == RenderLine(t);
  }

  // ---------------------------------------------------------------- what can be parsed at all

  predicate GoodToken(t: Token) {
    match t
    case Word(w) => PlainWord(w)
    case Sym(c) => c in SYMBOLS
    case Append => true
  }

  ghost predicate GoodTokens(toks: seq<Token>) {
    forall k :: 0 <= k < |toks| ==> GoodToken(toks[k])
  }

  ghost predicate GoodResult(r: Parsed) {
    r.Done? ==> Well(r.tree) && GoodTokens(r.rest)
  }

  lemma {:induction false} RedirsWell(c: Tree, toks: seq<Token>)
    requires Well(c) && GoodTokens(toks)
    ensures GoodResult(ParseRedirs(c, toks))
    ensures ParseRedirs(c, toks).Done? ==> Base(ParseRedirs(c, toks).tree) == Base(c)
    decreases |toks|
  {
    if Starts(toks, "<>") && |toks| >= 2 && toks[1].Word? {
      RedirsWell(Redir(c, toks[1].text, ModeOf(toks[0])), toks[2..]);
    }
  }

  lemma {:induction false} WithArgvWell(t: Tree, argv: seq<string>)
    requires Well(t) && Well(Exec(argv)) && Base(t).Exec?
    ensures Well(WithArgv(t, argv)) && Base(WithArgv(t, argv)) == Exec(argv)
  {
    if t.Redir? {
      WithArgvWell(t.cmd, argv);
    }
  }

  lemma {:induction false} ArgsWell(ret: Tree, argv: seq<string>, toks: seq<Token>)
    requires Well(ret) && Base(ret) == Exec(argv) && Well(Exec(argv)) && GoodTokens(toks)
    ensures GoodResult(ParseArgs(ret, argv, toks))
    decreases |toks|
  {
    if toks != [] && !Starts(toks, "|)&;") && toks[0].Word? && |argv| + 1 < MAXARGS {
      var argv2 := argv + [toks[0].text];
      WithArgvWell(ret, argv2);
      RedirsWell(WithArgv(ret, argv2), toks[1..]);
      var r := ParseRedirs(WithArgv(ret, argv2), toks[1..]);
      if r.Done? {
        ArgsWell(r.tree, argv2, r.rest);
      }
    }
  }

  lemma {:induction false} ExecWell(toks: seq<Token>)
    requires GoodTokens(toks)
    ensures GoodResult(ParseExec(toks))
    decreases |toks|, 1
  {
    hide ParseLine, ParseRedirs, ParseArgs, PlainWord;
    if Starts(toks, "(") {
      LineWell(toks[1..]);
      var r := ParseLine(toks[1..]);
      if r.Done? && Starts(r.rest, ")") {
        RedirsWell(r.tree, r.rest[1..]);
      }
    } else {
      RedirsWell(Exec([]), toks);
      var r := ParseRedirs(Exec([]), toks);
      if r.Done? {
        ArgsWell(r.tree, [], r.rest);
      }
    }
  }

  lemma {:induction false} PipeWell(toks: seq<Token>)
    requires GoodTokens(toks)
    ensures GoodResult(ParsePipe(toks))
    decreases |toks|, 2
  {
    hide ParseExec, PlainWord;
    ExecWell(toks);
    var r := ParseExec(toks);
    if r.Done? && Starts(r.rest, "|") {
      PipeWell(r.rest[1..]);
    }
  }

  lemma {:induction false} BacksWell(c: Tree, toks: seq<Token>)
    requires Well(c) && GoodTokens(toks)
    ensures GoodResult(ParseBacks(c, toks))
    decreases |toks|
  {
    if Starts(toks, "&") {
      BacksWell(Back(c), toks[1..]);
    }
  }

  lemma {:induction false} LineWell(toks: seq<Token>)
    requires GoodTokens(toks)
    ensures GoodResult(ParseLine(toks))
    decreases |toks|, 3
  {
    hide ParsePipe, ParseBacks, PlainWord;
    PipeWell(toks);
    var r := ParsePipe(toks);
    if r.Done? {
      BacksWell(r.tree, r.rest);
      var b := ParseBacks(r.tree, r.rest);
      if Starts(b.rest, ";") {
        LineWell(b.rest[1..]);
      }
    }
  }

  lemma {:induction false} RedirTokensGood(t: Tree)
    requires Well(t)
    ensures GoodTokens(RedirTokens(t))
  {
    if t.Redir? {
      RedirTokensGood(t.cmd);
    }
  }

  lemma SymsGood(c: char)
    requires c in SYMBOLS
    ensures GoodTokens([Sym(c)]) && GoodTokens([])
  {
  }

  lemma GoodJoin(a: seq<Token>, b: seq<Token>, c: seq<Token>)
    requires GoodTokens(a) && GoodTokens(b) && GoodTokens(c)
    ensures GoodTokens(a + b + c)
  {
    hide PlainWord;
  }

  /** A tree renders the same at every level, but for parentheses. */
  lemma Levels(t: Tree)
    ensures RenderPipe(t) == if t.Pipe? then RenderInner(t) else RenderItem(t)
    ensures RenderBack(t) == if t.Pipe? || t.Back? then RenderInner(t) else RenderItem(t)
    ensures RenderLine(t) == if t.Pipe? || t.Back? || t.List? then RenderInner(t) else RenderItem(t)
  {
    assert RenderBack(t) == if t.Back? then RenderInner(t) else RenderPipe(t);
  }

  lemma {:induction false} RenderGood(t: Tree)
    requires Well(t)
    ensures GoodTokens(RenderLine(t)) && GoodTokens(RenderBack(t)) && GoodTokens(RenderPipe(t)) && GoodTokens(RenderItem(t))
    decreases Height(t)
  {
    hide GoodTokens;
    Levels(t);
    AroundBase(t);
    BaseHeight(t);
    RedirTokensGood(t);
    var base := Base(t);
    if base.Exec? {
      WordsGood(base.argv);
      GoodJoin(Words(base.argv), RedirTokens(t), []);
      assert Words(base.argv) + RedirTokens(t) + [] == RenderItem(t);
    } else {
      InnerGood(base);
      SymsGood('(');
      SymsGood(')');
      GoodJoin([Sym('(')], RenderInner(base), [Sym(')')]);
      GoodJoin([Sym('(')] + RenderInner(base) + [Sym(')')], RedirTokens(t), []);
      assert [Sym('(')] + RenderInner(base) + [Sym(')')] + RedirTokens(t) + [] == RenderItem(t);
    }
  }

  lemma {:induction false} InnerGood(t: Tree)
    requires Well(t) && !t.Exec? && !t.Redir?
    ensures GoodTokens(RenderInner(t))
    decreases Height(t), 0
  {
    hide GoodTokens, RenderLine, RenderBack, RenderPipe, RenderItem;
    WellParts(t);
    SymsGood('|');
    SymsGood(';');
    SymsGood('&');
    match t
    case Pipe(l, r) =>
      RenderGood(l);
      RenderGood(r);
      GoodJoin(RenderItem(l), [Sym('|')], RenderPipe(r));
    case List(l, r) =>
      RenderGood(l);
      RenderGood(r);
      GoodJoin(RenderBack(l), [Sym(';')], RenderLine(r));
    case Back(c) =>
      RenderGood(c);
      GoodJoin(RenderBack(c), [Sym('&')], []);
      assert RenderBack(c) + [Sym('&')] + [] == RenderInner(t);
  }

  lemma WordsGood(argv: seq<string>)
    requires Well(Exec(argv))
    ensures GoodTokens(Words(argv)) && GoodTokens([])
  {
  }

  /** The trees that the parser can produce are those whose commands have fewer than MAXARGS words. */
  lemma ParsedIffWell(t: Tree)
    ensures Well(t) <==> exists toks :: GoodTokens(toks) && ParseTokens(toks) == Done(t, [])
  {
    if Well(t) {
      ParseRender(t);
      RenderGood(t);
    }
    if toks :| GoodTokens(toks) && ParseTokens(toks) == Done(t, []) {
      LineWell(toks);
    }
  }
}
