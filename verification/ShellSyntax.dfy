/** The grammar of the command language (user/src/phase6/sh.c) apart from any parser: what a line is made of, the tokens
    that spell it and the tree that it means. The parser gives a tree for some tokens just when they spell a line that
    means the tree. */
module ShellSyntax {
  import opened Options
  import opened ShellGrammar
  import opened ShellLexer

  datatype Redirection = Redirection(mode: Mode, file: string)

  // A command is words and redirections in any order.
  datatype Part = Arg(word: string) | Target(r: Redirection)

  datatype Item = Simple(parts: seq<Part>) | Block(line: Line, redirs: seq<Redirection>)

  datatype Pipeline = Last(item: Item) | Piped(item: Item, next: Pipeline)

  datatype Line = Line(pipeline: Pipeline, amps: nat, next: Option<Line>)

  // ---------------------------------------------------------------- spelling

  function PairTokens(rs: seq<Redirection>): seq<Token> {
    if rs == [] then [] else [RedirToken(rs[0].mode), Word(rs[0].file)] + PairTokens(rs[1..])
  }

  function PartTokens(parts: seq<Part>): seq<Token> {
    if parts == [] then []
    else (if parts[0].Arg? then [Word(parts[0].word)] else PairTokens([parts[0].r])) + PartTokens(parts[1..])
  }

  function Amps(n: nat): seq<Token> {
    if n == 0 then [] else [Sym('&')] + Amps(n - 1)
  }

  function ItemTokens(d: Item): seq<Token> {
    match d
    case Simple(parts) => PartTokens(parts)
    case Block(line, rs) => [Sym('(')] + LineTokens(line) + [Sym(')')] + PairTokens(rs)
  }

  function PipelineTokens(d: Pipeline): seq<Token> {
    match d
    case Last(item) => ItemTokens(item)
    case Piped(item, next) => ItemTokens(item) + [Sym('|')] + PipelineTokens(next)
  }

  function LineTokens(d: Line): seq<Token> {
    PipelineTokens(d.pipeline) + Amps(d.amps) + if d.next.Some? then [Sym(';')] + LineTokens(d.next.value) else []
  }

  // ---------------------------------------------------------------- meaning

  function ArgsOf(parts: seq<Part>): seq<string> {
    if parts == [] then [] else (if parts[0].Arg? then [parts[0].word] else []) + ArgsOf(parts[1..])
  }

  function RedirsOf(parts: seq<Part>): seq<Redirection> {
    if parts == [] then [] else (if parts[0].Arg? then [] else [parts[0].r]) + RedirsOf(parts[1..])
  }

  /** The redirections around a command, the first one innermost. */
  function Wrapped(c: Tree, rs: seq<Redirection>): Tree
    decreases |rs|
  {
    if rs == [] then c else Wrapped(Redir(c, rs[0].file, rs[0].mode), rs[1..])
  }

  function InBackground(c: Tree, n: nat): Tree
    decreases n
  {
    if n == 0 then c else InBackground(Back(c), n - 1)
  }

  function ItemTree(d: Item): Tree {
    match d
    case Simple(parts) => Wrapped(Exec(ArgsOf(parts)), RedirsOf(parts))
    case Block(line, rs) => Wrapped(LineTree(line), rs)
  }

  function PipelineTree(d: Pipeline): Tree {
    match d
    case Last(item) => ItemTree(item)
    case Piped(item, next) => Pipe(ItemTree(item), PipelineTree(next))
  }

  function LineTree(d: Line): Tree {
    var c := InBackground(PipelineTree(d.pipeline), d.amps);
    if d.next.Some? then List(c, LineTree(d.next.value)) else c
  }

  // ---------------------------------------------------------------- limits

  predicate Named(rs: seq<Redirection>) {
    forall k :: 0 <= k < |rs| ==> PlainWord(rs[k].file)
  }

  predicate PlainParts(parts: seq<Part>) {
    forall k :: 0 <= k < |parts| ==> PlainWord(if parts[k].Arg? then parts[k].word else parts[k].r.file)
  }

  predicate PartsFit(parts: seq<Part>) {
    |ArgsOf(parts)| < MAXARGS && PlainParts(parts)
  }

  /** Fewer than MAXARGS words in each command. */
  predicate ItemFits(d: Item) {
    match d
    case Simple(parts) => PartsFit(parts)
    case Block(line, rs) => LineFits(line) && Named(rs)
  }

  predicate PipelineFits(d: Pipeline) {
    ItemFits(d.item) && (d.Piped? ==> PipelineFits(d.next))
  }

  predicate LineFits(d: Line) {
    PipelineFits(d.pipeline) && (d.next.Some? ==> LineFits(d.next.value))
  }

  // ---------------------------------------------------------------- what is spelt is parsed

  /** parseredirs, and then the words that are left: what parseexec goes on with after every word. */
  function Rest(ret: Tree, argv: seq<string>, toks: seq<Token>): Parsed {
    var r := ParseRedirs(ret, toks);
    if r.Fail? then r else ParseArgs(r.tree, argv, r.rest)
  }

  lemma {:induction false} WrappedMore(c: Tree, rs: seq<Redirection>, r: Redirection)
    ensures Wrapped(c, rs + [r]) == Redir(Wrapped(c, rs), r.file, r.mode)
    decreases |rs|
  {
    if rs == [] {
      assert rs + [r] == [r];
    } else {
      assert (rs + [r])[1..] == rs[1..] + [r];
      WrappedMore(Redir(c, rs[0].file, rs[0].mode), rs[1..], r);
    }
  }

  lemma {:induction false} WrappedArgv(argv: seq<string>, rs: seq<Redirection>, argv2: seq<string>)
    ensures WithArgv(Wrapped(Exec(argv), rs), argv2) == Wrapped(Exec(argv2), rs)
    decreases |rs|
  {
    if rs != [] {
      var n := |rs| - 1;
      assert rs == rs[..n] + [rs[n]];
      WrappedMore(Exec(argv), rs[..n], rs[n]);
      WrappedMore(Exec(argv2), rs[..n], rs[n]);
      WrappedArgv(argv, rs[..n], argv2);
    }
  }

  lemma RedirStep(c: Tree, r: Redirection, more: seq<Token>)
    ensures ParseRedirs(c, PairTokens([r]) + more) == ParseRedirs(Redir(c, r.file, r.mode), more)
  {
    var toks := PairTokens([r]) + more;
    assert PairTokens([r]) == [RedirToken(r.mode), Word(r.file)];
    assert toks[0] == RedirToken(r.mode) && toks[1] == Word(r.file) && toks[2..] == more;
  }

  lemma {:induction false} RedirsSpelt(c: Tree, rs: seq<Redirection>, more: seq<Token>)
    ensures ParseRedirs(c, PairTokens(rs) + more) == ParseRedirs(Wrapped(c, rs), more)
    decreases |rs|
  {
    if rs == [] {
      assert PairTokens(rs) + more == more;
    } else {
      assert PairTokens(rs) + more == PairTokens([rs[0]]) + (PairTokens(rs[1..]) + more);
      RedirStep(c, rs[0], PairTokens(rs[1..]) + more);
      RedirsSpelt(Redir(c, rs[0].file, rs[0].mode), rs[1..], more);
    }
  }

  lemma WordStep(ret: Tree, argv: seq<string>, w: string, more: seq<Token>)
    requires PlainWord(w) && |argv| + 1 < MAXARGS
    ensures Rest(ret, argv, [Word(w)] + more) == Rest(WithArgv(ret, argv + [w]), argv + [w], more)
  {
    hide ParseArgs, PlainWord, WithArgv;
    PlainStart(w, more, "<>");
    NoRedirs(ret, [Word(w)] + more);
    ArgStep(ret, argv, w, more);
  }

  /** The first part of a command and the others. */
  lemma FirstPart(parts: seq<Part>)
    requires PartsFit(parts) && parts != []
    ensures PartsFit(parts[1..])
    ensures parts[0].Arg? ==> PlainWord(parts[0].word) && PartTokens(parts) == [Word(parts[0].word)] + PartTokens(parts[1..])
    ensures parts[0].Arg? ==> ArgsOf(parts) == [parts[0].word] + ArgsOf(parts[1..]) && RedirsOf(parts) == RedirsOf(parts[1..])
    ensures parts[0].Target? ==> PartTokens(parts) == PairTokens([parts[0].r]) + PartTokens(parts[1..])
    ensures parts[0].Target? ==> ArgsOf(parts) == ArgsOf(parts[1..]) && RedirsOf(parts) == [parts[0].r] + RedirsOf(parts[1..])
  {
    hide PlainWord, PairTokens;
  }

  /** Words and redirections in any order, after some that were read. */
  lemma {:induction false} PartsParsed(argv: seq<string>, rs: seq<Redirection>, parts: seq<Part>, rest: seq<Token>)
    requires PartsFit(parts) && |argv| + |ArgsOf(parts)| < MAXARGS && Ends(rest, "|)&;")
    ensures Rest(Wrapped(Exec(argv), rs), argv, PartTokens(parts) + rest) ==
            Done(Wrapped(Exec(argv + ArgsOf(parts)), rs + RedirsOf(parts)), rest)
    decreases |parts|
  {
    hide PlainWord, WithArgv, Rest, Wrapped, PartsFit, PartTokens, PairTokens, ArgsOf, RedirsOf, Starts;
    var ret := Wrapped(Exec(argv), rs);
    if parts == [] {
      NoParts();
      assert PartTokens(parts) + rest == rest && argv + ArgsOf(parts) == argv && rs + RedirsOf(parts) == rs;
      RestEnds(ret, argv, rest);
    } else {
      FirstPart(parts);
      var tail := PartTokens(parts[1..]);
      if parts[0].Arg? {
        var w := parts[0].word;
        assert PartTokens(parts) + rest == [Word(w)] + (tail + rest);
        WordStep(ret, argv, w, tail + rest);
        WrappedArgv(argv, rs, argv + [w]);
        PartsParsed(argv + [w], rs, parts[1..], rest);
        assert argv + [w] + ArgsOf(parts[1..]) == argv + ArgsOf(parts);
      } else {
        var r := parts[0].r;
        assert PartTokens(parts) + rest == PairTokens([r]) + (tail + rest);
        RestRedir(ret, argv, r, tail + rest);
        WrappedMore(Exec(argv), rs, r);
        PartsParsed(argv, rs + [r], parts[1..], rest);
        assert rs + [r] + RedirsOf(parts[1..]) == rs + RedirsOf(parts);
      }
    }
  }

  lemma NoParts()
    ensures PartTokens([]) == [] && ArgsOf([]) == [] && RedirsOf([]) == []
  {
  }

  lemma RestEnds(ret: Tree, argv: seq<string>, rest: seq<Token>)
    requires Ends(rest, "|)&;")
    ensures Rest(ret, argv, rest) == Done(ret, rest)
  {
    NoArgs(ret, argv, rest);
  }

  lemma RestRedir(ret: Tree, argv: seq<string>, r: Redirection, more: seq<Token>)
    ensures Rest(ret, argv, PairTokens([r]) + more) == Rest(Redir(ret, r.file, r.mode), argv, more)
  {
    hide ParseArgs, ParseRedirs;
    RedirStep(ret, r, more);
  }

  lemma ExecIsRest(toks: seq<Token>)
    requires !Starts(toks, "(")
    ensures ParseExec(toks) == Rest(Exec([]), [], toks)
  {
    hide ParseArgs, ParseRedirs, ParseBlock;
  }

  lemma PartsStart(parts: seq<Part>, rest: seq<Token>)
    requires PartsFit(parts) && !Starts(rest, "(")
    ensures !Starts(PartTokens(parts) + rest, "(")
  {
    if parts != [] && parts[0].Arg? {
      assert PlainWord(parts[0].word);
      assert Plain(parts[0].word[0]);
    }
    if parts == [] {
      assert PartTokens(parts) + rest == rest;
    }
  }

  /** However its words and its redirections are mixed, before, between and after each other, a command parses to all of its
      words, in their order, with all of its redirections around them, in theirs. */
  lemma SimpleParsed(parts: seq<Part>, rest: seq<Token>)
    requires PartsFit(parts) && Ends(rest, "|)&;")
    ensures ParseExec(PartTokens(parts) + rest) == Done(Wrapped(Exec(ArgsOf(parts)), RedirsOf(parts)), rest)
  {
    hide ParseExec, Rest, PartsFit, PartTokens;
    EndsPlain(rest);
    PartsStart(parts, rest);
    ExecIsRest(PartTokens(parts) + rest);
    assert [] + ArgsOf(parts) == ArgsOf(parts) && [] + RedirsOf(parts) == RedirsOf(parts);
    FitsAll(parts);
    PartsParsed([], [], parts, rest);
  }

  lemma FitsAll(parts: seq<Part>)
    requires PartsFit(parts)
    ensures |ArgsOf(parts)| < MAXARGS
  {
  }

  lemma EndsPlain(rest: seq<Token>)
    requires Ends(rest, "|)&;")
    ensures !Starts(rest, "(") && !Starts(rest, "<>")
  {
  }

  /** A tree over a command is parsed from its words and its redirections in any mixture. */
  lemma AnyOrder(t: Tree, parts: seq<Part>, rest: seq<Token>)
    requires Well(t) && Base(t).Exec? && Ends(rest, "|)&;")
    requires ArgsOf(parts) == Base(t).argv && PairTokens(RedirsOf(parts)) == RedirTokens(t)
    ensures ParseExec(PartTokens(parts) + rest) == Done(t, rest)
  {
    hide ParseExec, PartTokens, Well, PartsFit;
    AroundBase(t);
    TokensWrap(Base(t), RedirsOf(parts), t);
    PartsAreFit(parts, t);
    SimpleParsed(parts, rest);
  }

  lemma {:induction false} PairTokensMore(rs: seq<Redirection>, r: Redirection)
    ensures PairTokens(rs + [r]) == PairTokens(rs) + [RedirToken(r.mode), Word(r.file)]
  {
    if rs == [] {
      assert rs + [r] == [r];
    } else {
      assert (rs + [r])[1..] == rs[1..] + [r];
      PairTokensMore(rs[1..], r);
    }
  }

  lemma {:induction false} TokensWrap(c: Tree, rs: seq<Redirection>, t: Tree)
    requires PairTokens(rs) == RedirTokens(t)
    ensures Wrapped(c, rs) == Around(c, t)
    decreases |rs|
  {
    if rs != [] {
      var n := |rs| - 1;
      assert rs == rs[..n] + [rs[n]];
      PairTokensMore(rs[..n], rs[n]);
      WrappedMore(c, rs[..n], rs[n]);
      if t.Redir? {
        var a, b := PairTokens(rs[..n]), RedirTokens(t.cmd);
        assert a + [RedirToken(rs[n].mode), Word(rs[n].file)] == b + [RedirToken(t.mode), Word(t.file)];
        var k := |PairTokens(rs)|;
        assert PairTokens(rs)[k - 1] == Word(rs[n].file) && RedirTokens(t)[k - 1] == Word(t.file);
        assert PairTokens(rs)[k - 2] == RedirToken(rs[n].mode) && RedirTokens(t)[k - 2] == RedirToken(t.mode);
        assert a == PairTokens(rs)[..k - 2] == b;
        TokensWrap(c, rs[..n], t.cmd);
      }
    } else {
      assert !t.Redir?;
    }
  }

  lemma {:induction false} PartsAreFit(parts: seq<Part>, t: Tree)
    requires Well(t) && Base(t).Exec? && ArgsOf(parts) == Base(t).argv && PairTokens(RedirsOf(parts)) == RedirTokens(t)
    ensures PartsFit(parts)
  {
    AroundBase(t);
    RedirTokensGood(t);
    forall k | 0 <= k < |parts|
      ensures PlainWord(if parts[k].Arg? then parts[k].word else parts[k].r.file)
    {
      PartIn(parts, k);
    }
  }

  /** A part is among the words, or its pair is among the tokens of the redirections. */
  lemma {:induction false} PartIn(parts: seq<Part>, k: nat)
    requires k < |parts|
    ensures parts[k].Arg? ==> parts[k].word in ArgsOf(parts)
    ensures parts[k].Target? ==> Word(parts[k].r.file) in PairTokens(RedirsOf(parts))
  {
    if k > 0 {
      PartIn(parts[1..], k - 1);
      if parts[0].Target? {
        assert RedirsOf(parts)[1..] == RedirsOf(parts[1..]);
      } else {
        assert RedirsOf(parts) == RedirsOf(parts[1..]);
      }
    } else if parts[0].Target? {
      assert RedirsOf(parts)[0] == parts[0].r;
      assert PairTokens(RedirsOf(parts))[1] == Word(parts[0].r.file);
    }
  }

  lemma ItemSpelt(d: Item, rest: seq<Token>)
    requires ItemFits(d) && Ends(rest, "|)&;")
    ensures ParseExec(ItemTokens(d) + rest) == Done(ItemTree(d), rest)
    decreases d, 0
  {
    hide ParseExec, ParseLine, PartTokens, LineTokens, PairTokens, ParseRedirs, PartsFit, LineFits;
    match d
    case Simple(parts) =>
      SimpleParsed(parts, rest);
    case Block(line, rs) =>
      var after := PairTokens(rs) + rest;
      var inner := LineTokens(line) + ([Sym(')')] + after);
      assert ItemTokens(d) + rest == [Sym('(')] + inner;
      LineSpelt(line, [Sym(')')] + after);
      BlockStep(inner, LineTree(line), after);
      RedirsSpelt(LineTree(line), rs, rest);
      NoArgs(ItemTree(d), [], rest);
  }

  lemma PipelineSpelt(d: Pipeline, rest: seq<Token>)
    requires PipelineFits(d) && Ends(rest, ")&;")
    ensures ParsePipe(PipelineTokens(d) + rest) == Done(PipelineTree(d), rest)
    decreases d, 1
  {
    hide ParseExec, ItemTokens, ItemFits;
    if d.Last? {
      ItemSpelt(d.item, rest);
    } else {
      var tail := [Sym('|')] + (PipelineTokens(d.next) + rest);
      assert PipelineTokens(d) + rest == ItemTokens(d.item) + tail;
      ItemSpelt(d.item, tail);
      assert tail[1..] == PipelineTokens(d.next) + rest;
      PipelineSpelt(d.next, rest);
    }
  }

  lemma {:induction false} AmpsSpelt(c: Tree, n: nat, rest: seq<Token>)
    requires !Starts(rest, "&")
    ensures ParseBacks(c, Amps(n) + rest) == Done(InBackground(c, n), rest)
    decreases n
  {
    if n == 0 {
      assert Amps(n) + rest == rest;
    } else {
      assert (Amps(n) + rest)[1..] == Amps(n - 1) + rest;
      AmpsSpelt(Back(c), n - 1, rest);
    }
  }

  lemma LineSpelt(d: Line, rest: seq<Token>)
    requires LineFits(d) && Ends(rest, ")")
    ensures ParseLine(LineTokens(d) + rest) == Done(LineTree(d), rest)
    decreases d, 2
  {
    hide ParsePipe, PipelineTokens, PipelineFits, PipelineTree, Amps, InBackground;
    var tail := rest;
    if d.next.Some? {
      tail := [Sym(';')] + (LineTokens(d.next.value) + rest);
      LineSpelt(d.next.value, rest);
      assert tail[1..] == LineTokens(d.next.value) + rest;
    }
    assert LineTokens(d) + rest == PipelineTokens(d.pipeline) + (Amps(d.amps) + tail);
    AmpsEnd(d.amps, tail);
    PipelineSpelt(d.pipeline, Amps(d.amps) + tail);
    AmpsSpelt(PipelineTree(d.pipeline), d.amps, tail);
  }

  lemma AmpsEnd(n: nat, tail: seq<Token>)
    requires Ends(tail, ";)")
    ensures Ends(Amps(n) + tail, ")&;")
  {
    if n == 0 {
      assert Amps(n) + tail == tail;
    }
  }

  // ---------------------------------------------------------------- what is parsed is spelt

  lemma NoWordStarts(t: Token)
    requires GoodToken(t)
    ensures FirstChar(t) in SYMBOLS ==> !t.Word?
  {
    assert t.Word? ==> Plain(t.text[0]);
  }

  /** Among proper tokens a symbol is what it looks like. */
  lemma StartsIs(toks: seq<Token>, c: char)
    requires GoodTokens(toks) && c in "()|&;" && Starts(toks, [c])
    ensures toks == [Sym(c)] + toks[1..] && GoodTokens(toks[1..])
  {
    assert GoodToken(toks[0]);
    NoWordStarts(toks[0]);
  }

  lemma RedirIs(toks: seq<Token>)
    requires GoodTokens(toks) && Starts(toks, "<>") && |toks| >= 2 && toks[1].Word?
    ensures toks == PairTokens([Redirection(ModeOf(toks[0]), toks[1].text)]) + toks[2..]
    ensures GoodTokens(toks[2..]) && PlainWord(toks[1].text)
  {
    assert GoodToken(toks[0]) && GoodToken(toks[1]);
    NoWordStarts(toks[0]);
  }

  lemma {:induction false} PairTokensJoin(a: seq<Redirection>, b: seq<Redirection>)
    ensures PairTokens(a + b) == PairTokens(a) + PairTokens(b)
  {
    if a == [] {
      assert a + b == b;
    } else {
      assert (a + b)[1..] == a[1..] + b;
      PairTokensJoin(a[1..], b);
    }
  }

  lemma {:induction false} RedirsFound(c: Tree, toks: seq<Token>) returns (rs: seq<Redirection>)
    requires GoodTokens(toks) && ParseRedirs(c, toks).Done?
    ensures var r := ParseRedirs(c, toks);
            toks == PairTokens(rs) + r.rest && r.tree == Wrapped(c, rs) && Named(rs) && GoodTokens(r.rest)
    decreases |toks|
  {
    hide GoodTokens, PlainWord, ModeOf, Starts;
    rs := [];
    if Starts(toks, "<>") {
      RedirIs(toks);
      var first := Redirection(ModeOf(toks[0]), toks[1].text);
      var more := RedirsFound(Redir(c, first.file, first.mode), toks[2..]);
      rs := [first] + more;
      PairTokensJoin([first], more);
      assert rs[1..] == more;
    }
  }

  function Targets(rs: seq<Redirection>): (parts: seq<Part>)
    ensures |parts| == |rs| && forall k :: 0 <= k < |rs| ==> parts[k] == Target(rs[k])
  {
    seq(|rs|, (k: nat) requires k < |rs| => Target(rs[k]))
  }

  lemma {:induction false} TargetsAre(rs: seq<Redirection>)
    ensures PartTokens(Targets(rs)) == PairTokens(rs) && RedirsOf(Targets(rs)) == rs && ArgsOf(Targets(rs)) == []
  {
    if rs != [] {
      TargetsAre(rs[1..]);
      assert Targets(rs)[1..] == Targets(rs[1..]);
      PairTokensJoin([rs[0]], rs[1..]);
      assert [rs[0]] + rs[1..] == rs;
    }
  }

  lemma {:induction false} PartsJoin(a: seq<Part>, b: seq<Part>)
    ensures PartTokens(a + b) == PartTokens(a) + PartTokens(b)
    ensures ArgsOf(a + b) == ArgsOf(a) + ArgsOf(b) && RedirsOf(a + b) == RedirsOf(a) + RedirsOf(b)
  {
    hide PartTokens, ArgsOf, RedirsOf, PairTokens;
    if a == [] {
      NoParts();
      assert a + b == b;
    } else {
      assert (a + b)[1..] == a[1..] + b;
      PartsJoin(a[1..], b);
      OnePart(a);
      OnePart(a + b);
    }
  }

  lemma OnePart(parts: seq<Part>)
    requires parts != []
    ensures PartTokens(parts) == (if parts[0].Arg? then [Word(parts[0].word)] else PairTokens([parts[0].r])) + PartTokens(parts[1..])
    ensures ArgsOf(parts) == (if parts[0].Arg? then [parts[0].word] else []) + ArgsOf(parts[1..])
    ensures RedirsOf(parts) == (if parts[0].Arg? then [] else [parts[0].r]) + RedirsOf(parts[1..])
  {
  }

  lemma {:induction false} WrappedTwice(c: Tree, a: seq<Redirection>, b: seq<Redirection>)
    ensures Wrapped(Wrapped(c, a), b) == Wrapped(c, a + b)
    decreases |a|
  {
    if a == [] {
      assert a + b == b;
    } else {
      assert (a + b)[1..] == a[1..] + b;
      WrappedTwice(Redir(c, a[0].file, a[0].mode), a[1..], b);
    }
  }

  /** The parts that parseexec read from some point on. */
  lemma {:induction false} PartsFound(argv: seq<string>, rs: seq<Redirection>, toks: seq<Token>) returns (parts: seq<Part>)
    requires GoodTokens(toks) && Rest(Wrapped(Exec(argv), rs), argv, toks).Done? && |argv| < MAXARGS
    ensures var r := Rest(Wrapped(Exec(argv), rs), argv, toks);
            && toks == PartTokens(parts) + r.rest && r.tree == Wrapped(Exec(argv + ArgsOf(parts)), rs + RedirsOf(parts))
            && PlainParts(parts) && |argv| + |ArgsOf(parts)| < MAXARGS && GoodTokens(r.rest)
    decreases |toks|
  {
    hide GoodTokens, PlainWord, PartTokens, ArgsOf, RedirsOf, Starts, Wrapped, WithArgv, ParseRedirs, PairTokens;
    var c := Wrapped(Exec(argv), rs);
    var some := RedirsFound(c, toks);
    TargetsAre(some);
    WrappedTwice(Exec(argv), rs, some);
    var here := ParseRedirs(c, toks);
    parts := Targets(some);
    if here.rest == [] || Starts(here.rest, "|)&;") {
      assert argv + [] == argv;
    } else {
      var w, more := here.rest[0].text, here.rest[1..];
      WordGood(here.rest);
      WrappedArgv(argv, rs + some, argv + [w]);
      var others := PartsFound(argv + [w], rs + some, more);
      parts := Targets(some) + ([Arg(w)] + others);
      OneArg(w, others);
      PartsJoin(Targets(some), [Arg(w)] + others);
      assert argv + [w] + ArgsOf(others) == argv + ArgsOf(parts);
      assert rs + some + RedirsOf(others) == rs + RedirsOf(parts);
      assert toks == PartTokens(parts) + Rest(c, argv, toks).rest;
    }
  }

  lemma WordGood(toks: seq<Token>)
    requires GoodTokens(toks) && toks != []
    ensures GoodTokens(toks[1..]) && (toks[0].Word? ==> PlainWord(toks[0].text) && toks == [Word(toks[0].text)] + toks[1..])
  {
    assert GoodToken(toks[0]);
  }

  lemma OneArg(w: string, others: seq<Part>)
    ensures PartTokens([Arg(w)] + others) == [Word(w)] + PartTokens(others)
    ensures ArgsOf([Arg(w)] + others) == [w] + ArgsOf(others) && RedirsOf([Arg(w)] + others) == RedirsOf(others)
  {
    assert ([Arg(w)] + others)[1..] == others;
  }

  lemma ItemFound(toks: seq<Token>) returns (d: Item)
    requires GoodTokens(toks) && ParseExec(toks).Done?
    ensures var r := ParseExec(toks);
            toks == ItemTokens(d) + r.rest && r.tree == ItemTree(d) && ItemFits(d) && GoodTokens(r.rest)
    decreases |toks|, 1
  {
    hide GoodTokens, PlainWord, PartTokens, ParseLine, ParseArgs, ParseRedirs, Starts, Rest, PairTokens, Wrapped;
    if Starts(toks, "(") {
      StartsIs(toks, '(');
      var inner := ParseLine(toks[1..]);
      var line := LineFound(toks[1..]);
      StartsIs(inner.rest, ')');
      var rs := RedirsFound(inner.tree, inner.rest[1..]);
      d := Block(line, rs);
      assert toks == ItemTokens(d) + ParseExec(toks).rest;
    } else {
      ExecIsRest(toks);
      WrappedNone(Exec([]));
      var parts := PartsFound([], [], toks);
      d := Simple(parts);
      assert [] + ArgsOf(parts) == ArgsOf(parts) && [] + RedirsOf(parts) == RedirsOf(parts);
    }
  }

  lemma WrappedNone(c: Tree)
    ensures Wrapped(c, []) == c
  {
  }

  lemma PipelineFound(toks: seq<Token>) returns (d: Pipeline)
    requires GoodTokens(toks) && ParsePipe(toks).Done?
    ensures var r := ParsePipe(toks);
            toks == PipelineTokens(d) + r.rest && r.tree == PipelineTree(d) && PipelineFits(d) && GoodTokens(r.rest)
    decreases |toks|, 2
  {
    hide GoodTokens, ItemTokens, ItemTree, ItemFits, ParseExec, Starts;
    var item := ItemFound(toks);
    var r := ParseExec(toks);
    d := Last(item);
    if Starts(r.rest, "|") {
      StartsIs(r.rest, '|');
      var next := PipelineFound(r.rest[1..]);
      d := Piped(item, next);
      assert toks == PipelineTokens(d) + ParsePipe(toks).rest;
    }
  }

  lemma {:induction false} AmpsFound(c: Tree, toks: seq<Token>) returns (n: nat)
    requires GoodTokens(toks)
    ensures var r := ParseBacks(c, toks);
            toks == Amps(n) + r.rest && r.tree == InBackground(c, n) && GoodTokens(r.rest)
    decreases |toks|
  {
    hide GoodTokens;
    n := 0;
    if Starts(toks, "&") {
      StartsIs(toks, '&');
      n := AmpsFound(Back(c), toks[1..]);
      n := n + 1;
    }
  }

  lemma LineFound(toks: seq<Token>) returns (d: Line)
    requires GoodTokens(toks) && ParseLine(toks).Done?
    ensures var r := ParseLine(toks);
            toks == LineTokens(d) + r.rest && r.tree == LineTree(d) && LineFits(d) && GoodTokens(r.rest)
    decreases |toks|, 3
  {
    hide GoodTokens, PipelineTokens, PipelineTree, PipelineFits, ParsePipe, Starts, Amps, ParseBacks, InBackground;
    var pipeline := PipelineFound(toks);
    var p := ParsePipe(toks);
    var n := AmpsFound(p.tree, p.rest);
    var b := ParseBacks(p.tree, p.rest);
    d := Line(pipeline, n, None);
    if Starts(b.rest, ";") {
      StartsIs(b.rest, ';');
      var next := LineFound(b.rest[1..]);
      d := Line(pipeline, n, Some(next));
      assert toks == LineTokens(d) + ParseLine(toks).rest;
    }
  }

  // ---------------------------------------------------------------- the parser and the grammar

  /** The tokens spell a line of the grammar that means the tree. */
  ghost predicate Derives(toks: seq<Token>, t: Tree) {
    exists d: Line :: LineFits(d) && LineTokens(d) == toks && LineTree(d) == t
  }

  /** The parser gives a tree exactly when the tokens spell a line that means it: all the ways of mixing words with
      redirections, of nesting parentheses and of putting commands together, and nothing else. */
  lemma ParsedIffDerived(toks: seq<Token>, t: Tree)
    requires GoodTokens(toks)
    ensures ParseTokens(toks) == Done(t, []) <==> Derives(toks, t)
  {
    hide GoodTokens, LineTokens, LineTree, LineFits, ParseLine;
    if ParseTokens(toks) == Done(t, []) {
      var d := LineFound(toks);
      assert LineTokens(d) + [] == LineTokens(d);
    }
    if d: Line :| LineFits(d) && LineTokens(d) == toks && LineTree(d) == t {
      LineSpelt(d, []);
      assert LineTokens(d) + [] == LineTokens(d);
    }
  }

  /** The line spells a line of the grammar, with blanks where they are needed or wanted, that means the tree. */
  ghost predicate Spells(line: string, t: Tree) {
    exists d: Line, gaps: seq<string> ::
      LineFits(d) && LineTree(d) == t && Shows(line, LineTokens(d), gaps)
  }

  predicate Shows(line: string, toks: seq<Token>, gaps: seq<string>) {
    Spaced(toks, gaps) && line == Text(toks, gaps)
  }

  /** Characters to tree: a line parses to a tree exactly when it spells a line of the grammar that means it. */
  lemma LineIffSpells(line: string, t: Tree)
    requires NoNul(line)
    ensures ParseTokens(Tokens(line)) == Done(t, []) <==> Spells(line, t)
  {
    hide GoodTokens, LineTokens, LineTree, LineFits, ParseTokens, Tokens, Text, Spaced;
    TokensGood(line);
    ParsedIffDerived(Tokens(line), t);
    if Derives(Tokens(line), t) {
      var d: Line :| LineFits(d) && LineTokens(d) == Tokens(line) && LineTree(d) == t;
      var gaps := LineSpells(line);
      assert Shows(line, LineTokens(d), gaps);
    }
    if Spells(line, t) {
      var d: Line, gaps: seq<string> :| LineFits(d) && LineTree(d) == t && Shows(line, LineTokens(d), gaps);
      FitsGood(d);
      LexText(LineTokens(d), gaps);
    }
  }

  lemma {:induction false} PairTokensGood(rs: seq<Redirection>)
    requires Named(rs)
    ensures GoodTokens(PairTokens(rs))
  {
    if rs != [] {
      PairTokensGood(rs[1..]);
      assert PlainWord(rs[0].file);
    }
  }

  lemma {:induction false} PartTokensGood(parts: seq<Part>)
    requires PlainParts(parts)
    ensures GoodTokens(PartTokens(parts))
  {
    hide PlainWord;
    if parts != [] {
      PartTokensGood(parts[1..]);
      assert PlainWord(if parts[0].Arg? then parts[0].word else parts[0].r.file);
      if parts[0].Target? {
        PairTokensGood([parts[0].r]);
      }
    }
  }

  lemma {:induction false} AmpsGood(n: nat)
    ensures GoodTokens(Amps(n))
  {
    if n > 0 {
      AmpsGood(n - 1);
    }
  }

  lemma ItemGood(d: Item)
    requires ItemFits(d)
    ensures GoodTokens(ItemTokens(d))
    decreases d, 0
  {
    hide GoodTokens, LineTokens, PairTokens, PartTokens, LineFits, PlainWord;
    match d
    case Simple(parts) =>
      PartTokensGood(parts);
    case Block(line, rs) =>
      FitsGood(line);
      PairTokensGood(rs);
      SymsGood('(');
      SymsGood(')');
      GoodJoin([Sym('(')], LineTokens(line), [Sym(')')]);
      GoodJoin([Sym('(')] + LineTokens(line) + [Sym(')')], PairTokens(rs), []);
      assert [Sym('(')] + LineTokens(line) + [Sym(')')] + PairTokens(rs) + [] == ItemTokens(d);
  }

  lemma PipelineGood(d: Pipeline)
    requires PipelineFits(d)
    ensures GoodTokens(PipelineTokens(d))
    decreases d, 1
  {
    hide GoodTokens, ItemTokens, ItemFits;
    ItemGood(d.item);
    if d.Piped? {
      PipelineGood(d.next);
      SymsGood('|');
      GoodJoin(ItemTokens(d.item), [Sym('|')], PipelineTokens(d.next));
    }
  }

  /** What a line of the grammar is spelt with are proper tokens. */
  lemma FitsGood(d: Line)
    requires LineFits(d)
    ensures GoodTokens(LineTokens(d))
    decreases d, 2
  {
    hide GoodTokens, PipelineTokens, PipelineFits, Amps;
    PipelineGood(d.pipeline);
    AmpsGood(d.amps);
    SymsGood(';');
    if d.next.Some? {
      FitsGood(d.next.value);
      GoodJoin([Sym(';')], LineTokens(d.next.value), []);
      assert [Sym(';')] + LineTokens(d.next.value) + [] == [Sym(';')] + LineTokens(d.next.value);
      GoodJoin(PipelineTokens(d.pipeline), Amps(d.amps), [Sym(';')] + LineTokens(d.next.value));
    } else {
      GoodJoin(PipelineTokens(d.pipeline), Amps(d.amps), []);
    }
  }

  /** The parser panics exactly on the lines that spell nothing. */
  lemma PanicsIffUnspelt(line: string)
    requires NoNul(line)
    ensures ParseTokens(Tokens(line)).Fail? <==> forall t :: !Spells(line, t)
  {
    hide Spells, ParseTokens, Tokens;
    var r := ParseTokens(Tokens(line));
    DoneAll(Tokens(line));
    forall t
      ensures ParseTokens(Tokens(line)) == Done(t, []) <==> Spells(line, t)
    {
      LineIffSpells(line, t);
    }
    if r.Done? {
      assert Spells(line, r.tree);
    }
  }

  lemma DoneAll(toks: seq<Token>)
    ensures ParseTokens(toks).Done? ==> ParseTokens(toks).rest == []
  {
    hide ParseLine;
  }

  lemma CommandLine(parts: seq<Part>)
    requires PartsFit(parts)
    ensures ParseTokens(PartTokens(parts)) == Done(Wrapped(Exec(ArgsOf(parts)), RedirsOf(parts)), [])
  {
    hide PartsFit, PartTokens, ParseExec, Wrapped;
    SimpleParsed(parts, []);
    assert PartTokens(parts) + [] == PartTokens(parts);
    var t := Wrapped(Exec(ArgsOf(parts)), RedirsOf(parts));
    PipeOfOne(PartTokens(parts), t, []);
    EndOfLine(PartTokens(parts), t);
  }

  lemma TwoParts(x: Part, y: Part)
    ensures PartTokens([x, y]) == PartTokens([x]) + PartTokens([y])
    ensures ArgsOf([x, y]) == ArgsOf([x]) + ArgsOf([y]) && RedirsOf([x, y]) == RedirsOf([x]) + RedirsOf([y])
  {
    hide PartTokens, ArgsOf, RedirsOf;
    assert [x, y] == [x] + [y];
    PartsJoin([x], [y]);
  }

  lemma OnePartIs(x: Part)
    ensures x.Arg? ==> PartTokens([x]) == [Word(x.word)] && ArgsOf([x]) == [x.word] && RedirsOf([x]) == []
    ensures x.Target? ==> PartTokens([x]) == [RedirToken(x.r.mode), Word(x.r.file)] && ArgsOf([x]) == [] && RedirsOf([x]) == [x.r]
  {
    OnePart([x]);
  }

  /** Which redirection a symbol stands for; it may stand before the command or after it. */
  lemma RedirSymbols(a: string, b: string, c: Token, m: Mode)
    requires PlainWord(a) && PlainWord(b)
    requires (c == Sym('<') && m == Input) || (c == Sym('>') && m == Output) || (c == Append && m == AppendTo)
    ensures ParseTokens([Word(a), c, Word(b)]) == Done(Redir(Exec([a]), b, m), [])
    ensures ParseTokens([c, Word(b), Word(a)]) == Done(Redir(Exec([a]), b, m), [])
  {
    hide ParseTokens, PartTokens, ArgsOf, RedirsOf, PlainWord;
    var w, r := Arg(a), Target(Redirection(m, b));
    OnePartIs(w);
    OnePartIs(r);
    TwoParts(w, r);
    TwoParts(r, w);
    CommandLine([w, r]);
    CommandLine([r, w]);
    assert PartTokens([w, r]) == [Word(a), c, Word(b)] && PartTokens([r, w]) == [c, Word(b), Word(a)];
    assert ArgsOf([w, r]) == [a] == ArgsOf([r, w]);
    assert RedirsOf([w, r]) == [Redirection(m, b)] == RedirsOf([r, w]);
    WrappedOne(Exec([a]), Redirection(m, b));
  }

  lemma WrappedOne(c: Tree, r: Redirection)
    ensures Wrapped(c, [r]) == Redir(c, r.file, r.mode)
  {
    assert [r][1..] == [];
  }

  /** A word that is all of a command. */
  lemma WordCommand(a: string, rest: seq<Token>)
    requires PlainWord(a) && Ends(rest, "|)&;")
    ensures ParseExec([Word(a)] + rest) == Done(Exec([a]), rest)
  {
    hide ParseExec, PartTokens, ArgsOf, RedirsOf, PlainWord;
    OnePartIs(Arg(a));
    SimpleParsed([Arg(a)], rest);
  }

  lemma EndOfLine(toks: seq<Token>, t: Tree)
    requires ParsePipe(toks) == Done(t, [])
    ensures ParseLine(toks) == Done(t, [])
  {
    hide ParsePipe;
  }

  lemma PipeOfOne(toks: seq<Token>, t: Tree, rest: seq<Token>)
    requires ParseExec(toks) == Done(t, rest) && !Starts(rest, "|")
    ensures ParsePipe(toks) == Done(t, rest)
  {
    hide ParseExec;
  }

  /** Which commands are made of others, and by which symbols. */
  lemma LineSymbols(a: string, b: string)
    requires PlainWord(a) && PlainWord(b)
    ensures ParseTokens([Word(a), Sym('|'), Word(b)]) == Done(Pipe(Exec([a]), Exec([b])), [])
    ensures ParseTokens([Word(a), Sym(';'), Word(b)]) == Done(List(Exec([a]), Exec([b])), [])
    ensures ParseTokens([Word(a), Sym('&')]) == Done(Back(Exec([a])), [])
    ensures ParseTokens([Sym('('), Word(a), Sym(')')]) == Done(Exec([a]), [])
  {
    hide ParseExec, PlainWord, ParsePipe, ParseLine;
    var ta, tb: seq<Token> := [Word(a)], [Word(b)];
    WordCommand(b, []);
    assert tb + [] == tb;
    PipeOfOne(tb, Exec([b]), []);
    EndOfLine(tb, Exec([b]));
    PipeSymbol(a, b);
    EndOfLine([Word(a), Sym('|'), Word(b)], Pipe(Exec([a]), Exec([b])));
    ListSymbol(a, b);
    BackSymbol(a);
    BlockSymbol(a);
  }

  lemma PipeSymbol(a: string, b: string)
    requires PlainWord(a) && ParsePipe([Word(b)]) == Done(Exec([b]), [])
    ensures ParsePipe([Word(a), Sym('|'), Word(b)]) == Done(Pipe(Exec([a]), Exec([b])), [])
  {
    hide ParseExec, PlainWord;
    var rest: seq<Token> := [Sym('|'), Word(b)];
    WordCommand(a, rest);
    assert [Word(a)] + rest == [Word(a), Sym('|'), Word(b)] && rest[1..] == [Word(b)];
  }

  lemma ListSymbol(a: string, b: string)
    requires PlainWord(a) && ParseLine([Word(b)]) == Done(Exec([b]), [])
    ensures ParseLine([Word(a), Sym(';'), Word(b)]) == Done(List(Exec([a]), Exec([b])), [])
  {
    hide ParseExec, PlainWord, ParsePipe;
    var rest: seq<Token> := [Sym(';'), Word(b)];
    WordCommand(a, rest);
    assert [Word(a)] + rest == [Word(a), Sym(';'), Word(b)] && rest[1..] == [Word(b)];
    PipeOfOne([Word(a)] + rest, Exec([a]), rest);
  }

  lemma BackSymbol(a: string)
    requires PlainWord(a)
    ensures ParseLine([Word(a), Sym('&')]) == Done(Back(Exec([a])), [])
  {
    hide ParseExec, PlainWord, ParsePipe;
    var rest: seq<Token> := [Sym('&')];
    WordCommand(a, rest);
    assert [Word(a)] + rest == [Word(a), Sym('&')] && rest[1..] == [];
    PipeOfOne([Word(a)] + rest, Exec([a]), rest);
    BackLine([Word(a), Sym('&')], Exec([a]), []);
  }

  lemma BlockSymbol(a: string)
    requires PlainWord(a)
    ensures ParseLine([Sym('('), Word(a), Sym(')')]) == Done(Exec([a]), [])
  {
    hide ParseExec, PlainWord, ParsePipe, ParseRedirs;
    var close: seq<Token> := [Sym(')')];
    WordCommand(a, close);
    PipeOfOne([Word(a)] + close, Exec([a]), close);
    PlainLine([Word(a)] + close, Exec([a]), close);
    assert close + [] == close;
    BlockStep([Word(a)] + close, Exec([a]), []);
    NoArgs(Exec([a]), [], []);
    assert [Sym('(')] + ([Word(a)] + close) == [Sym('('), Word(a), Sym(')')];
    PipeOfOne([Sym('('), Word(a), Sym(')')], Exec([a]), []);
    EndOfLine([Sym('('), Word(a), Sym(')')], Exec([a]));
  }

  /** No tokens spell lines of two meanings. */
  lemma OneMeaning(a: Line, b: Line)
    requires LineFits(a) && LineFits(b) && LineTokens(a) == LineTokens(b)
    ensures LineTree(a) == LineTree(b)
  {
    hide LineFits, LineTokens, ParseLine;
    LineSpelt(a, []);
    LineSpelt(b, []);
  }
}
