/** The parser of the shell over a line in memory (user/src/phase6/sh.c): gettoken and peek move a position,
    the parse functions build a tree of pieces of the line, and nulterminate ends every piece in place. */
module Shell {
  import opened ShellGrammar
  import opened ShellLexer
  import ShellSyntax

  const NUL: char := '\0'

  // The characters from q up to eq.
  datatype Span = Span(q: nat, eq: nat)

  datatype Result = Error(why: Panic) | Ok(cmd: Cmd<Span>)

  /** The buffer holds the line as a C string. */
  ghost predicate Holds(buf: array<char>, text: string)
    reads buf
  {
    && |text| < buf.Length && buf[..|text|] == text && buf[|text|] == NUL
    && NoNul(text)
  }

  function Piece(text: string, w: Span): string {
    if w.q <= w.eq <= |text| then text[w.q..w.eq] else ""
  }

  /** The piece is a whole word of the line. */
  predicate WordAt(text: string, w: Span) {
    && w.q < w.eq <= |text| && (forall x :: w.q <= x < w.eq ==> Plain(text[x]))
    && (w.eq < |text| ==> !Plain(text[w.eq]))
  }

  function Pieces(text: string, argv: seq<Span>): seq<string> {
    seq(|argv|, (k: nat) requires k < |argv| => Piece(text, argv[k]))
  }

  /** The tree of strings that a tree of pieces of the line stands for. */
  function Spelt(text: string, c: Cmd<Span>): Tree {
    match c
    case Exec(argv) => Exec(Pieces(text, argv))
    case Redir(cmd, file, mode) => Redir(Spelt(text, cmd), Piece(text, file), mode)
    case Pipe(l, r) => Pipe(Spelt(text, l), Spelt(text, r))
    case List(l, r) => List(Spelt(text, l), Spelt(text, r))
    case Back(cmd) => Back(Spelt(text, cmd))
  }

  /** All the pieces of a tree. */
  function Spans(c: Cmd<Span>): set<Span> {
    match c
    case Exec(argv) => set k | 0 <= k < |argv| :: argv[k]
    case Redir(cmd, file, _) => Spans(cmd) + {file}
    case Pipe(l, r) => Spans(l) + Spans(r)
    case List(l, r) => Spans(l) + Spans(r)
    case Back(cmd) => Spans(cmd)
  }

  ghost predicate Words(text: string, c: Cmd<Span>) {
    forall w :: w in Spans(c) ==> WordAt(text, w)
  }

  /** A position in the line, with the tokens from there on. */
  ghost predicate AtTokens(text: string, s: nat, toks: seq<Token>) {
    s <= |text| && Tokens(text[s..]) == toks
  }

  /** A parse function returned what the grammar says, and left the position where the rest starts. */
  ghost predicate Agrees(text: string, r: Result, s: nat, parsed: Parsed) {
    match parsed
    case Fail(why) => r == Error(why)
    case Done(tree, rest) => r.Ok? && Words(text, r.cmd) && Spelt(text, r.cmd) == tree && AtTokens(text, s, rest)
  }

  // ---------------------------------------------------------------- tokens

  lemma BlankStep(text: string, s: nat)
    requires s < |text| && text[s] in BLANKS
    ensures Tokens(text[s..]) == Tokens(text[s + 1..])
  {
    assert text[s..][1..] == text[s + 1..];
  }

  method SkipSpace(buf: array<char>, ps: nat, es: nat, ghost text: string) returns (s: nat)
    requires Holds(buf, text) && ps <= es == |text|
    ensures ps <= s <= es && Tokens(text[s..]) == Tokens(text[ps..]) && (s < es ==> text[s] !in BLANKS)
  {
    s := ps;
    while s < es && buf[s] in BLANKS
      invariant ps <= s <= es && Tokens(text[s..]) == Tokens(text[ps..])
    {
      assert buf[s] == text[s];
      BlankStep(text, s);
      s := s + 1;
    }
    assert s < es ==> buf[s] == text[s];
  }

  /** The character that gettoken returns for a token. */
  function Code(t: Token): char {
    match t
    case Word(_) => 'a'
    case Sym(c) => c
    case Append => '+'
  }

  lemma TokenAt(text: string, s: nat)
    requires s < |text| && text[s] !in BLANKS
    ensures text[s] == '>' && s + 1 < |text| && text[s + 1] == '>' ==> Tokens(text[s..]) == [Append] + Tokens(text[s + 2..])
    ensures text[s] == '>' && !(s + 1 < |text| && text[s + 1] == '>') ==> Tokens(text[s..]) == [Sym('>')] + Tokens(text[s + 1..])
    ensures text[s] != '>' && text[s] in SYMBOLS ==> Tokens(text[s..]) == [Sym(text[s])] + Tokens(text[s + 1..])
  {
    var line := text[s..];
    assert line[0] == text[s] && line[1..] == text[s + 1..];
    if s + 1 < |text| {
      assert line[1] == text[s + 1] && line[2..] == text[s + 2..];
    }
  }

  lemma WordToken(text: string, s: nat, e: nat)
    requires s < e <= |text| && (forall x :: s <= x < e ==> Plain(text[x])) && (e < |text| ==> !Plain(text[e]))
    ensures Tokens(text[s..]) == [Word(text[s..e])] + Tokens(text[e..])
  {
    var line := text[s..];
    assert line == text[s..e] + text[e..];
    WordLenIs(text[s..e], text[e..]);
    assert line[0] == text[s] && Plain(text[s]);
    assert line[..e - s] == text[s..e] && line[e - s..] == text[e..];
  }

  lemma Chars(buf: array<char>, text: string)
    requires Holds(buf, text)
    ensures forall x :: 0 <= x <= |text| ==> buf[x] == if x < |text| then text[x] else NUL
    ensures forall x :: 0 <= x < |text| ==> text[x] != NUL
  {
    assert forall x :: 0 <= x < |text| ==> buf[x] == buf[..|text|][x];
  }

  lemma FirstGood(text: string, s: nat)
    requires s <= |text| && NoNul(text)
    ensures var toks := Tokens(text[s..]); toks != [] ==> GoodToken(toks[0]) && (Code(toks[0]) == 'a' <==> toks[0].Word?)
    ensures var toks := Tokens(text[s..]); toks != [] ==> Code(toks[0]) != NUL
  {
    hide Tokens;
    TokensGood(text[s..]);
  }

  lemma NoTokens(text: string)
    ensures Tokens(text[|text|..]) == []
  {
  }

  method GetToken(buf: array<char>, ps: nat, es: nat, ghost text: string) returns (ret: char, q: nat, eq: nat, s: nat)
    requires Holds(buf, text) && ps <= es == |text|
    ensures s <= es
    ensures var toks := Tokens(text[ps..]);
      if toks == [] then ret == NUL && Tokens(text[s..]) == []
      else toks == [toks[0]] + Tokens(text[s..]) && ret == Code(toks[0]) && (toks[0].Word? ==>
             WordAt(text, Span(q, eq)) && Piece(text, Span(q, eq)) == toks[0].text)
    ensures var toks := Tokens(text[ps..]); toks != [] ==> GoodToken(toks[0]) && (ret == 'a' <==> toks[0].Word?) && ret != NUL
  {
    hide Tokens, WordLen, GoodToken;
    FirstGood(text, ps);
    s := SkipSpace(buf, ps, es, text);
    q := s;
    ret := buf[s];
    Chars(buf, text);
    if ret == NUL {
      NoTokens(text);
    } else {
      assert s < es && ret == text[s];
      TokenAt(text, s);
      if ret == '>' {
        s := s + 1;
        if buf[s] == '>' {
          ret := '+';
          s := s + 1;
        }
      } else if ret in SYMBOLS {
        s := s + 1;
      } else {
        ret := 'a';
        while s < es && buf[s] !in BLANKS && buf[s] !in SYMBOLS
          invariant q <= s <= es && forall x :: q <= x < s ==> Plain(text[x])
          invariant s == q ==> Plain(text[q])
        {
          s := s + 1;
        }
        WordToken(text, q, s);
      }
    }
    eq := s;
    s := SkipSpace(buf, s, es, text);
  }

  method Peek(buf: array<char>, ps: nat, es: nat, toks: string, ghost text: string) returns (s: nat, found: bool)
    requires Holds(buf, text) && ps <= es == |text|
    ensures s <= es && Tokens(text[s..]) == Tokens(text[ps..])
    ensures found <==> Starts(Tokens(text[ps..]), toks)
    ensures s == es <==> Tokens(text[ps..]) == []
  {
    s := SkipSpace(buf, ps, es, text);
    if s < es {
      FirstOf(text, s);
    } else {
      assert text[s..] == "";
    }
    found := buf[s] != NUL && buf[s] in toks;
  }

  lemma FirstOf(text: string, s: nat)
    requires s < |text| && text[s] !in BLANKS
    ensures Tokens(text[s..]) != [] && FirstChar(Tokens(text[s..])[0]) == text[s]
  {
    var line := text[s..];
    assert line[0] == text[s];
    if text[s] !in SYMBOLS {
      assert WordLen(line) > 0;
    }
  }

  // ---------------------------------------------------------------- the parser

  lemma SpeltArgv(text: string, c: Cmd<Span>, argv: seq<Span>)
    ensures Spelt(text, WithArgv(c, argv)) == WithArgv(Spelt(text, c), Pieces(text, argv))
    ensures Words(text, c) && (forall k :: 0 <= k < |argv| ==> WordAt(text, argv[k])) ==> Words(text, WithArgv(c, argv))
  {
    hide WordAt;
    if c.Redir? {
      SpeltArgv(text, c.cmd, argv);
    }
  }

  method ParseRedirs(buf: array<char>, cmd: Cmd<Span>, ps: nat, es: nat, ghost text: string) returns (r: Result, s: nat)
    requires Holds(buf, text) && ps <= es == |text| && Words(text, cmd)
    ensures s <= es && Agrees(text, r, s, ShellGrammar.ParseRedirs(Spelt(text, cmd), Tokens(text[ps..])))
  {
    hide Tokens, WordAt, Holds;
    var c, found := cmd, true;
    s := ps;
    while found
      invariant s <= es && Words(text, c)
      invariant ShellGrammar.ParseRedirs(Spelt(text, cmd), Tokens(text[ps..])) ==
                ShellGrammar.ParseRedirs(Spelt(text, c), Tokens(text[s..]))
      invariant !found ==> !Starts(Tokens(text[s..]), "<>")
      decreases found, |Tokens(text[s..])|
    {
      s, found := Peek(buf, s, es, "<>", text);
      if found {
        ghost var toks := Tokens(text[s..]);
        var tok, file, q, eq;
        tok, q, eq, s := GetToken(buf, s, es, text);
        ghost var toks1 := Tokens(text[s..]);
        file, q, eq, s := GetToken(buf, s, es, text);
        if file != 'a' {
          r := Error(MissingFile);
          return;
        }
        assert toks[1..] == toks1 && toks[2..] == Tokens(text[s..]);
        c := Redir(c, Span(q, eq), if tok == '<' then Input else if tok == '>' then Output else AppendTo);
      }
    }
    r := Ok(c);
  }

  method ParseBlock(buf: array<char>, ps: nat, es: nat, ghost text: string) returns (r: Result, s: nat)
    requires Holds(buf, text) && ps <= es == |text| && Starts(Tokens(text[ps..]), "(")
    ensures s <= es && Agrees(text, r, s, ShellGrammar.ParseBlock(Tokens(text[ps..])))
    decreases |Tokens(text[ps..])|, 0
  {
    hide Tokens, WordAt, Holds;
    ghost var toks := Tokens(text[ps..]);
    var tok, q, eq, found;
    s, found := Peek(buf, ps, es, "(", text);
    assert found;
    tok, q, eq, s := GetToken(buf, s, es, text);
    assert toks[1..] == Tokens(text[s..]);
    r, s := ParseLine(buf, s, es, text);
    if r.Error? {
      return;
    }
    ghost var rest := ShellGrammar.ParseLine(toks[1..]).rest;
    s, found := Peek(buf, s, es, ")", text);
    if !found {
      r := Error(MissingParen);
      return;
    }
    tok, q, eq, s := GetToken(buf, s, es, text);
    assert rest[1..] == Tokens(text[s..]);
    r, s := ParseRedirs(buf, r.cmd, s, es, text);
  }

  method ParseExec(buf: array<char>, ps: nat, es: nat, ghost text: string) returns (r: Result, s: nat)
    requires Holds(buf, text) && ps <= es == |text|
    ensures s <= es && Agrees(text, r, s, ShellGrammar.ParseExec(Tokens(text[ps..])))
    decreases |Tokens(text[ps..])|, 1
  {
    hide Tokens, WordAt, Holds;
    ghost var all := Tokens(text[ps..]);
    var found;
    s, found := Peek(buf, ps, es, "(", text);
    if found {
      r, s := ParseBlock(buf, s, es, text);
      return;
    }
    var argv: seq<Span> := [];
    assert Pieces(text, argv) == [];
    r, s := ParseRedirs(buf, Exec(argv), s, es, text);
    if r.Error? {
      return;
    }
    var ret, done := r.cmd, false;
    while !done
      invariant s <= es && Words(text, ret) && |argv| < MAXARGS && forall k :: 0 <= k < |argv| ==> WordAt(text, argv[k])
      invariant ShellGrammar.ParseExec(all) == ShellGrammar.ParseArgs(Spelt(text, ret), Pieces(text, argv), Tokens(text[s..]))
      invariant done ==> Ends(Tokens(text[s..]), "|)&;")
      decreases !done, |Tokens(text[s..])|
    {
      s, done := Peek(buf, s, es, "|)&;", text);
      if !done {
        ghost var toks := Tokens(text[s..]);
        var tok, q, eq;
        tok, q, eq, s := GetToken(buf, s, es, text);
        if tok == NUL {
          done := true;
        } else if tok != 'a' {
          r := Error(Syntax);
          return;
        } else {
          ghost var before := Pieces(text, argv);
          argv := argv + [Span(q, eq)];
          assert Pieces(text, argv) == before + [toks[0].text];
          SpeltArgv(text, ret, argv);
          ret := WithArgv(ret, argv);
          if |argv| >= MAXARGS {
            r := Error(TooManyArgs);
            return;
          }
          assert toks[1..] == Tokens(text[s..]);
          r, s := ParseRedirs(buf, ret, s, es, text);
          if r.Error? {
            return;
          }
          ret := r.cmd;
        }
      }
    }
    r := Ok(ret);
  }

  method ParsePipe(buf: array<char>, ps: nat, es: nat, ghost text: string) returns (r: Result, s: nat)
    requires Holds(buf, text) && ps <= es == |text|
    ensures s <= es && Agrees(text, r, s, ShellGrammar.ParsePipe(Tokens(text[ps..])))
    decreases |Tokens(text[ps..])|, 2
  {
    hide Tokens, WordAt, Holds;
    ghost var toks := Tokens(text[ps..]);
    var found;
    r, s := ParseExec(buf, ps, es, text);
    if r.Error? {
      return;
    }
    ghost var rest := ShellGrammar.ParseExec(toks).rest;
    s, found := Peek(buf, s, es, "|", text);
    if found {
      var left, tok, q, eq := r.cmd, NUL, 0, 0;
      tok, q, eq, s := GetToken(buf, s, es, text);
      assert rest[1..] == Tokens(text[s..]);
      r, s := ParsePipe(buf, s, es, text);
      if r.Ok? {
        r := Ok(Pipe(left, r.cmd));
      }
    }
  }

  method ParseLine(buf: array<char>, ps: nat, es: nat, ghost text: string) returns (r: Result, s: nat)
    requires Holds(buf, text) && ps <= es == |text|
    ensures s <= es && Agrees(text, r, s, ShellGrammar.ParseLine(Tokens(text[ps..])))
    decreases |Tokens(text[ps..])|, 3
  {
    hide Tokens, WordAt, Holds;
    ghost var toks := Tokens(text[ps..]);
    var found, tok, q, eq;
    r, s := ParsePipe(buf, ps, es, text);
    if r.Error? {
      return;
    }
    ghost var p := ShellGrammar.ParsePipe(toks);
    var cmd := r.cmd;
    s, found := Peek(buf, s, es, "&", text);
    while found
      invariant s <= es && Words(text, cmd) && (found <==> Starts(Tokens(text[s..]), "&"))
      invariant ShellGrammar.ParseBacks(p.tree, p.rest) == ShellGrammar.ParseBacks(Spelt(text, cmd), Tokens(text[s..]))
      invariant |Tokens(text[s..])| <= |toks|
      decreases |Tokens(text[s..])|
    {
      ghost var here := Tokens(text[s..]);
      tok, q, eq, s := GetToken(buf, s, es, text);
      assert here[1..] == Tokens(text[s..]);
      cmd := Back(cmd);
      s, found := Peek(buf, s, es, "&", text);
    }
    ghost var rest := Tokens(text[s..]);
    s, found := Peek(buf, s, es, ";", text);
    r := Ok(cmd);
    if found {
      tok, q, eq, s := GetToken(buf, s, es, text);
      assert rest[1..] == Tokens(text[s..]);
      r, s := ParseLine(buf, s, es, text);
      if r.Ok? {
        r := Ok(List(cmd, r.cmd));
      }
    }
  }

  // ---------------------------------------------------------------- nulterminate

  /** The C string at the start of some memory. */
  function CStr(mem: seq<char>): string {
    if mem == [] || mem[0] == NUL then "" else [mem[0]] + CStr(mem[1..])
  }

  lemma {:induction false} CStrIs(mem: seq<char>, w: string)
    requires |w| < |mem| && mem[..|w|] == w && mem[|w|] == NUL && NoNul(w)
    ensures CStr(mem) == w
  {
    if w != "" {
      assert mem[0] == mem[..|w|][0];
      assert mem[1..][..|w| - 1] == w[1..] by {
        assert mem[1..][..|w| - 1] == mem[..|w|][1..];
      }
      CStrIs(mem[1..], w[1..]);
    }
  }

  /** The string that a pointer into the buffer stands for. */
  function StringAt(mem: seq<char>, w: Span): string {
    if w.q <= |mem| then CStr(mem[w.q..]) else ""
  }

  function Strings(mem: seq<char>, argv: seq<Span>): seq<string> {
    seq(|argv|, (k: nat) requires k < |argv| => StringAt(mem, argv[k]))
  }

  /** The tree as runcmd sees it: every pointer is the C string it points to. */
  function Loaded(mem: seq<char>, c: Cmd<Span>): Tree {
    match c
    case Exec(argv) => Exec(Strings(mem, argv))
    case Redir(cmd, file, mode) => Redir(Loaded(mem, cmd), StringAt(mem, file), mode)
    case Pipe(l, r) => Pipe(Loaded(mem, l), Loaded(mem, r))
    case List(l, r) => List(Loaded(mem, l), Loaded(mem, r))
    case Back(cmd) => Back(Loaded(mem, cmd))
  }

  /** The memory holds the line, but for NULs where no word is. */
  ghost predicate Stamped(mem: seq<char>, text: string) {
    && |text| < |mem| && NoNul(text) && mem[|text|] == NUL
    && forall x :: 0 <= x < |text| ==> mem[x] == text[x] || (mem[x] == NUL && !Plain(text[x]))
  }

  /** Position eq of every piece is NUL. */
  ghost predicate Ended(mem: seq<char>, c: Cmd<Span>) {
    forall w :: w in Spans(c) ==> w.eq < |mem| && mem[w.eq] == NUL
  }

  /** NULs stay NULs. */
  ghost predicate OnlyNuls(mem: seq<char>, mem2: seq<char>) {
    |mem2| == |mem| && forall x :: 0 <= x < |mem| ==> mem2[x] == mem[x] || mem2[x] == NUL
  }

  method NulTerminate(buf: array<char>, cmd: Cmd<Span>, ghost text: string)
    requires Stamped(buf[..], text) && Words(text, cmd)
    modifies buf
    ensures Stamped(buf[..], text) && Ended(buf[..], cmd) && OnlyNuls(old(buf[..]), buf[..])
    decreases cmd
  {
    match cmd
    case Exec(argv) =>
      var i := 0;
      while i < |argv|
        invariant 0 <= i <= |argv| && Stamped(buf[..], text) && OnlyNuls(old(buf[..]), buf[..])
        invariant forall k :: 0 <= k < i ==> argv[k].eq < buf.Length && buf[argv[k].eq] == NUL
      {
        assert argv[i] in Spans(cmd);
        assert WordAt(text, argv[i]);
        buf[argv[i].eq] := NUL;
        i := i + 1;
      }
    case Redir(c, file, _) =>
      NulTerminate(buf, c, text);
      assert file in Spans(cmd);
      assert WordAt(text, file);
      buf[file.eq] := NUL;
    case Pipe(l, r) =>
      NulTerminate(buf, l, text);
      NulTerminate(buf, r, text);
    case List(l, r) =>
      NulTerminate(buf, l, text);
      NulTerminate(buf, r, text);
    case Back(c) =>
      NulTerminate(buf, c, text);
  }

  /** A piece that is ended reads as the word of the line that it was. */
  lemma PieceLoads(mem: seq<char>, text: string, w: Span)
    requires Stamped(mem, text) && WordAt(text, w) && mem[w.eq] == NUL
    ensures StringAt(mem, w) == Piece(text, w)
  {
    var rest, word := mem[w.q..], text[w.q..w.eq];
    forall x | 0 <= x < |word|
      ensures rest[..|word|][x] == word[x]
    {
      assert Plain(text[w.q + x]);
    }
    assert rest[..|word|] == word;
    CStrIs(rest, word);
  }

  lemma {:induction false} TreeLoads(mem: seq<char>, text: string, c: Cmd<Span>)
    requires Stamped(mem, text) && Words(text, c) && Ended(mem, c)
    ensures Loaded(mem, c) == Spelt(text, c)
  {
    hide WordAt, Stamped, StringAt, Piece;
    match c
    case Exec(argv) =>
      forall k | 0 <= k < |argv|
        ensures StringAt(mem, argv[k]) == Piece(text, argv[k])
      {
        assert argv[k] in Spans(c);
        PieceLoads(mem, text, argv[k]);
      }
      assert Strings(mem, argv) == Pieces(text, argv);
    case Redir(cmd, file, _) =>
      TreeLoads(mem, text, cmd);
      assert file in Spans(c);
      PieceLoads(mem, text, file);
    case Pipe(l, r) =>
      TreeLoads(mem, text, l);
      TreeLoads(mem, text, r);
    case List(l, r) =>
      TreeLoads(mem, text, l);
      TreeLoads(mem, text, r);
    case Back(cmd) =>
      TreeLoads(mem, text, cmd);
  }

  method StrLen(buf: array<char>, ghost text: string) returns (n: nat)
    requires Holds(buf, text)
    ensures n == |text|
  {
    Chars(buf, text);
    n := 0;
    while buf[n] != NUL
      invariant n <= |text|
      decreases |text| - n
    {
      n := n + 1;
    }
  }

  /** The whole parser: it panics just when the grammar has no tree for the line; else every argument and every file
      name of the tree it leaves in memory is, as a C string, the word of the line. */
  method ParseCmd(buf: array<char>, ghost text: string) returns (r: Result)
    requires Holds(buf, text)
    modifies buf
    ensures match ParseTokens(Tokens(text))
            case Fail(why) => r == Error(why)
            case Done(tree, _) => r.Ok? && Loaded(buf[..], r.cmd) == tree
    ensures r.Ok? ==> ShellSyntax.Spells(text, Loaded(buf[..], r.cmd))
    ensures r.Error? ==> forall t :: !ShellSyntax.Spells(text, t)
  {
    hide Tokens, WordAt, ShellSyntax.Spells;
    Meant(text);
    var es := StrLen(buf, text);
    assert text[0..] == text;
    var s, found;
    r, s := ParseLine(buf, 0, es, text);
    if r.Error? {
      return;
    }
    s, found := Peek(buf, s, es, "", text);
    if s != es {
      r := Error(Leftovers);
      return;
    }
    FirstStamp(buf, text);
    NulTerminate(buf, r.cmd, text);
    TreeLoads(buf[..], text, r.cmd);
  }

  /** The tree of a line is what it spells; a line without a tree spells nothing. */
  lemma Meant(text: string)
    requires NoNul(text)
    ensures ParseTokens(Tokens(text)).Done? ==> ShellSyntax.Spells(text, ParseTokens(Tokens(text)).tree)
    ensures ParseTokens(Tokens(text)).Fail? ==> forall t :: !ShellSyntax.Spells(text, t)
  {
    hide Tokens, ParseTokens, ShellSyntax.Spells;
    ShellSyntax.PanicsIffUnspelt(text);
    ShellSyntax.DoneAll(Tokens(text));
    if ParseTokens(Tokens(text)).Done? {
      ShellSyntax.LineIffSpells(text, ParseTokens(Tokens(text)).tree);
    }
  }

  lemma FirstStamp(buf: array<char>, text: string)
    requires Holds(buf, text)
    ensures Stamped(buf[..], text)
  {
    Chars(buf, text);
  }

  /** A line that spells a tree, parsed: the tree is in memory. */
  method ParseRendered(buf: array<char>, ghost t: Tree, ghost gaps: seq<string>) returns (r: Result)
    requires Well(t) && Spaced(RenderLine(t), gaps) && Holds(buf, Text(RenderLine(t), gaps))
    modifies buf
    ensures r.Ok? && Loaded(buf[..], r.cmd) == t
  {
    LineRoundTrip(t, gaps);
    r := ParseCmd(buf, Text(RenderLine(t), gaps));
  }
}
