/** The tokens of a command line (gettoken of user/src/phase6/sh.c), and lines that spell given tokens. */
module ShellLexer {
  import opened ShellGrammar

  function WordLen(s: string): (n: nat)
    ensures n <= |s|
    ensures forall x :: 0 <= x < n ==> Plain(s[x])
    ensures n < |s| ==> !Plain(s[n])
  {
    if s == "" || !Plain(s[0]) then 0 else 1 + WordLen(s[1..])
  }

  /** The tokens of the rest of a line. */
  function Tokens(s: string): seq<Token>
    decreases |s|
  {
    if s == "" then []
    else if s[0] in BLANKS then Tokens(s[1..])
    else if s[0] == '>' then
      if |s| > 1 && s[1] == '>' then [Append] + Tokens(s[2..]) else [Sym('>')] + Tokens(s[1..])
    else if s[0] in SYMBOLS then [Sym(s[0])] + Tokens(s[1..])
    else [Word(s[..WordLen(s)])] + Tokens(s[WordLen(s)..])
  }

  predicate NoNul(s: string) {
    forall x :: 0 <= x < |s| ==> s[x] != '\0'
  }

  /** Every token of a line is a plain word or a symbol. */
  lemma {:induction false} TokensGood(s: string)
    requires NoNul(s)
    ensures GoodTokens(Tokens(s))
    decreases |s|
  {
    if s == "" {
    } else if s[0] in BLANKS {
      TokensGood(s[1..]);
    } else if s[0] == '>' {
      TokensGood(if |s| > 1 && s[1] == '>' then s[2..] else s[1..]);
    } else if s[0] in SYMBOLS {
      TokensGood(s[1..]);
    } else {
      TokensGood(s[WordLen(s)..]);
    }
  }

  // ---------------------------------------------------------------- writing tokens as a line

  function Show(t: Token): string {
    match t
    case Word(w) => w
    case Sym(c) => [c]
    case Append => ">>"
  }

  predicate Blanks(gap: string) {
    forall x :: 0 <= x < |gap| ==> gap[x] in BLANKS
  }

  /** Two tokens that cannot stand next to each other without a blank. */
  predicate Sticks(a: Token, b: Token) {
    (a.Word? && b.Word?) || (a == Sym('>') && FirstChar(b) == '>')
  }

  /** The tokens with a gap before each of them and one at the end. */
  function Text(toks: seq<Token>, gaps: seq<string>): string
    requires |gaps| == |toks| + 1
  {
    gaps[0] + if toks == [] then "" else Show(toks[0]) + Text(toks[1..], gaps[1..])
  }

  predicate Spaced(toks: seq<Token>, gaps: seq<string>) {
    && |gaps| == |toks| + 1
    && (forall k :: 0 <= k < |gaps| ==> Blanks(gaps[k]))
    && (forall k, l :: 0 <= k < |toks| && l == k + 1 && l < |toks| && Sticks(toks[k], toks[l]) ==> gaps[l] != "")
  }

  lemma {:induction false} SkipBlanks(gap: string, s: string)
    requires Blanks(gap)
    ensures Tokens(gap + s) == Tokens(s)
  {
    if gap == "" {
      assert gap + s == s;
    } else {
      assert (gap + s)[1..] == gap[1..] + s;
      SkipBlanks(gap[1..], s);
    }
  }

  lemma {:induction false} WordLenIs(w: string, s: string)
    requires (forall x :: 0 <= x < |w| ==> Plain(w[x])) && (s != "" ==> !Plain(s[0]))
    ensures WordLen(w + s) == |w|
  {
    if w == "" {
      assert w + s == s;
    } else {
      assert (w + s)[1..] == w[1..] + s;
      WordLenIs(w[1..], s);
    }
  }

  lemma SpacedTail(t: Token, toks: seq<Token>, gaps: seq<string>)
    requires Spaced([t] + toks, gaps)
    ensures Spaced(toks, gaps[1..])
  {
    hide Sticks, Blanks;
    var all := [t] + toks;
    forall k, l | 0 <= k < |toks| && l == k + 1 && l < |toks| && Sticks(toks[k], toks[l])
      ensures gaps[1..][l] != ""
    {
      assert Sticks(all[k + 1], all[l + 1]);
    }
  }

  /** What the text after a token can start with. */
  lemma Separate(t: Token, toks: seq<Token>, gaps: seq<string>)
    requires Spaced([t] + toks, gaps) && (toks != [] ==> GoodToken(toks[0]))
    ensures var s := Text(toks, gaps[1..]);
      (t.Word? && s != "" ==> !Plain(s[0])) && (t == Sym('>') && s != "" ==> s[0] != '>')
  {
    var all := [t] + toks;
    var s := Text(toks, gaps[1..]);
    var g := gaps[1];
    assert Blanks(g) && gaps[1..][0] == g;
    if g != "" {
      assert s[0] == g[0];
    } else if toks != [] {
      assert all[0] == t && all[1] == toks[0] && !Sticks(all[0], all[1]);
      ShowStarts(toks[0]);
      assert s[0] == Show(toks[0])[0];
    }
  }

  lemma ShowStarts(t: Token)
    requires GoodToken(t)
    ensures Show(t) != "" && Show(t)[0] == FirstChar(t) && (!t.Word? ==> !Plain(FirstChar(t)))
  {
  }

  lemma OneToken(t: Token, s: string)
    requires GoodToken(t) && (t.Word? && s != "" ==> !Plain(s[0])) && (t == Sym('>') && s != "" ==> s[0] != '>')
    ensures Tokens(Show(t) + s) == [t] + Tokens(s)
  {
    var line := Show(t) + s;
    match t
    case Word(w) =>
      WordLenIs(w, s);
      assert line[0] == w[0] && Plain(w[0]);
      assert line[..|w|] == w && line[|w|..] == s;
    case Sym(c) =>
      assert line[1..] == s;
    case Append =>
      assert line[2..] == s;
  }

  /** Lexing a line that spells tokens gives the tokens, whatever the blanks between them. */
  lemma {:induction false} LexText(toks: seq<Token>, gaps: seq<string>)
    requires Spaced(toks, gaps) && GoodTokens(toks)
    ensures Tokens(Text(toks, gaps)) == toks
  {
    if toks == [] {
      SkipBlanks(gaps[0], "");
    } else {
      var s := Text(toks[1..], gaps[1..]);
      assert toks == [toks[0]] + toks[1..];
      SpacedTail(toks[0], toks[1..], gaps);
      Separate(toks[0], toks[1..], gaps);
      SkipBlanks(gaps[0], Show(toks[0]) + s);
      OneToken(toks[0], s);
      LexText(toks[1..], gaps[1..]);
    }
  }

  /** A token put before a text that it may stand before. */
  lemma SpacedMore(t: Token, toks: seq<Token>, gaps: seq<string>)
    requires Spaced(toks, gaps) && (toks != [] && Sticks(t, toks[0]) ==> gaps[0] != "")
    ensures Spaced([t] + toks, [""] + gaps) && Text([t] + toks, [""] + gaps) == Show(t) + Text(toks, gaps)
  {
    hide Sticks, Blanks;
    var all, g := [t] + toks, [""] + gaps;
    forall k | 0 <= k < |g|
      ensures Blanks(g[k])
    {
      NoBlanks();
      assert k > 0 ==> g[k] == gaps[k - 1];
    }
    forall k, l | 0 <= k < |all| && l == k + 1 && l < |all| && Sticks(all[k], all[l])
      ensures g[l] != ""
    {
      if k > 0 {
        assert Sticks(toks[k - 1], toks[l - 1]);
      }
    }
    assert all[1..] == toks && g[1..] == gaps;
  }

  lemma NoBlanks()
    ensures Blanks("")
  {
  }

  /** What a text without a gap at its start begins with. */
  lemma TextStarts(toks: seq<Token>, gaps: seq<string>)
    requires Spaced(toks, gaps) && GoodTokens(toks) && toks != [] && gaps[0] == ""
    ensures Text(toks, gaps) != "" && Text(toks, gaps)[0] == FirstChar(toks[0])
  {
    assert GoodToken(toks[0]);
    ShowStarts(toks[0]);
    assert Text(toks, gaps)[0] == Show(toks[0])[0];
  }

  /** A blank more at the start. */
  lemma BlankMore(c: char, toks: seq<Token>, gaps: seq<string>)
    requires Spaced(toks, gaps) && c in BLANKS
    ensures Spaced(toks, [[c] + gaps[0]] + gaps[1..]) && Text(toks, [[c] + gaps[0]] + gaps[1..]) == [c] + Text(toks, gaps)
  {
    hide Sticks;
    var g := [[c] + gaps[0]] + gaps[1..];
    assert Blanks(gaps[0]) && forall k :: 1 <= k < |g| ==> g[k] == gaps[k];
    assert g[1..] == gaps[1..];
  }

  /** The first token of a line, and the line after it. */
  lemma FirstToken(s: string) returns (t: Token, rest: string)
    requires s != "" && s[0] !in BLANKS && NoNul(s)
    ensures Tokens(s) == [t] + Tokens(rest) && s == Show(t) + rest && |rest| < |s| && NoNul(rest) && GoodToken(t)
    ensures (t.Word? && rest != "" ==> !Plain(rest[0])) && (t == Sym('>') && rest != "" ==> rest[0] != '>')
  {
    if s[0] == '>' {
      if |s| > 1 && s[1] == '>' {
        t, rest := Append, s[2..];
      } else {
        t, rest := Sym('>'), s[1..];
      }
    } else if s[0] in SYMBOLS {
      t, rest := Sym(s[0]), s[1..];
    } else {
      assert WordLen(s) > 0;
      t, rest := Word(s[..WordLen(s)]), s[WordLen(s)..];
    }
  }

  /** Every line spells its tokens. */
  lemma {:induction false} LineSpells(s: string) returns (gaps: seq<string>)
    requires NoNul(s)
    ensures Spaced(Tokens(s), gaps) && Text(Tokens(s), gaps) == s
    decreases |s|
  {
    hide Plain, GoodTokens, GoodToken, Sticks;
    if s == "" {
      gaps := [""];
    } else if s[0] in BLANKS {
      gaps := LineSpells(s[1..]);
      BlankMore(s[0], Tokens(s[1..]), gaps);
      gaps := [[s[0]] + gaps[0]] + gaps[1..];
    } else {
      var t, rest := FirstToken(s);
      gaps := LineSpells(rest);
      TokensGood(rest);
      StandsBefore(t, Tokens(rest), gaps);
      SpacedMore(t, Tokens(rest), gaps);
      gaps := [""] + gaps;
    }
  }

  lemma StandsBefore(t: Token, toks: seq<Token>, gaps: seq<string>)
    requires Spaced(toks, gaps) && GoodTokens(toks)
    requires var rest := Text(toks, gaps); (t.Word? && rest != "" ==> !Plain(rest[0])) && (t == Sym('>') && rest != "" ==> rest[0] != '>')
    ensures toks != [] && Sticks(t, toks[0]) ==> gaps[0] != ""
  {
    if toks != [] && gaps[0] == "" {
      TextStarts(toks, gaps);
      assert GoodToken(toks[0]);
      assert toks[0].Word? ==> Plain(toks[0].text[0]);
    }
  }

  // ---------------------------------------------------------------- lines and trees

  /** Any line that spells a rendered tree, with any blanks, parses to the tree. */
  lemma LineRoundTrip(t: Tree, gaps: seq<string>)
    requires Well(t) && Spaced(RenderLine(t), gaps)
    ensures ParseTokens(Tokens(Text(RenderLine(t), gaps))) == Done(t, [])
  {
    RenderGood(t);
    LexText(RenderLine(t), gaps);
    ParseRender(t);
  }

  function OneBlanks(n: nat): seq<string> {
    seq(n, _ => " ")
  }

  lemma {:induction false} TextNoNul(toks: seq<Token>, gaps: seq<string>)
    requires GoodTokens(toks) && |gaps| == |toks| + 1 && forall k :: 0 <= k < |gaps| ==> gaps[k] == " "
    ensures NoNul(Text(toks, gaps))
  {
    if toks != [] {
      assert GoodToken(toks[0]);
      TextNoNul(toks[1..], gaps[1..]);
    }
  }

  /** The trees that lines parse to are those whose commands have fewer than MAXARGS words, all of them proper words. */
  lemma LineIffWell(t: Tree)
    ensures Well(t) <==> exists line :: NoNul(line) && ParseTokens(Tokens(line)) == Done(t, [])
  {
    if Well(t) {
      var gaps := OneBlanks(|RenderLine(t)| + 1);
      LineRoundTrip(t, gaps);
      RenderGood(t);
      TextNoNul(RenderLine(t), gaps);
      assert NoNul(Text(RenderLine(t), gaps));
    }
    if line :| NoNul(line) && ParseTokens(Tokens(line)) == Done(t, []) {
      TokensGood(line);
      LineWell(Tokens(line));
    }
  }
}
