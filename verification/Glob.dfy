/** Glob matching by translation to a regular expression (`globMatches`, src/services/tools.service.ts:274-286).

    The translation is a pipeline of five textual replacements. This module models the pipeline on
    UTF-16 code units, parses its output by the pattern grammar of ECMA-262 section 22.2.1, runs the
    parsed pattern by the matcher rules of section 22.2.2, and compares that with a direct definition
    of what a glob means. */
module Glob {
  import opened Common

  const NUL: CodeUnit := 0x00
  const DOLLAR: CodeUnit := 0x24
  const STAR: CodeUnit := 0x2A
  const PLUS: CodeUnit := 0x2B
  const HYPHEN: CodeUnit := 0x2D
  const DOT: CodeUnit := 0x2E
  const QUESTION: CodeUnit := 0x3F
  const LBRACKET: CodeUnit := 0x5B
  const BACKSLASH: CodeUnit := 0x5C
  const RBRACKET: CodeUnit := 0x5D
  const CARET: CodeUnit := 0x5E
  const LBRACE: CodeUnit := 0x7B

  /** `[.+^${}()|[\]\\]`: the characters the first replacement puts a backslash before. */
  predicate Escaped(c: CodeUnit) {
    c in {DOT, PLUS, CARET, DOLLAR, LBRACE, 0x7D, 0x28, 0x29, 0x7C, LBRACKET, RBRACKET, BACKSLASH}
  }

  // ---- the replacement pipeline ----

  function Esc(c: CodeUnit): Str {
    if Escaped(c) then [BACKSLASH, c] else [c]
  }

  const NOT_SLASH: Str := [LBRACKET, CARET, SLASH, RBRACKET]
  const DEEP: Str := [DOT, STAR]
  const TWO_STARS: Str := [STAR, STAR]

  const GLOBSTAR: Str := [0x47, 0x4C, 0x4F, 0x42, 0x53, 0x54, 0x41, 0x52]

  const SENTINEL: Str := [NUL] + GLOBSTAR + [NUL]

  function ExpandStar(c: CodeUnit): Str {
    if c == STAR then NOT_SLASH + [STAR] else [c]
  }

  function ExpandQuestion(c: CodeUnit): Str {
    if c == QUESTION then NOT_SLASH else [c]
  }

  /** A global replacement whose pattern matches single characters. */
  function ReplaceEach(s: Str, f: CodeUnit -> Str): Str {
    if s == [] then [] else f(s[0]) + ReplaceEach(s[1..], f)
  }

  /** A global replacement of a literal: leftmost matches, not overlapping. */
  function ReplaceAll(s: Str, needle: Str, repl: Str): Str
    requires needle != []
    decreases |s|
  {
    if |s| < |needle| then s
    else if s[..|needle|] == needle then repl + ReplaceAll(s[|needle|..], needle, repl)
    else [s[0]] + ReplaceAll(s[1..], needle, repl)
  }

  /** The source text handed to `new RegExp`. */
  function RegExpSource(pattern: Str): Str {
    var s1 := ReplaceEach(pattern, Esc);
    var s2 := ReplaceAll(s1, TWO_STARS, SENTINEL);
    var s3 := ReplaceEach(s2, ExpandStar);
    var s4 := ReplaceEach(s3, ExpandQuestion);
    var s5 := ReplaceAll(s4, SENTINEL, DEEP);
    [CARET] + s5 + [DOLLAR]
  }

  // ---- regular expressions: grammar and matching (ECMA-262 section 22.2) ----

  datatype Atom = Char(c: CodeUnit) | NotIn(cs: Str) | AnyButNewline
  datatype Term = Start | End | Once(a: Atom) | Many(a: Atom)

  /** `^ $ \ . * + ? ( ) [ ] { } |`, as the grammar lists them. */
  predicate SyntaxCharacter(c: CodeUnit) {
    c in {CARET, DOLLAR, BACKSLASH, DOT, STAR, PLUS, QUESTION, 0x28, 0x29, LBRACKET, RBRACKET, LBRACE, 0x7D, 0x7C}
  }

  /** The position of the first `]` at or after `from`. */
  function ClassEnd(s: Str, from: nat): (r: Option<nat>)
    requires from <= |s|
    ensures r.Some? ==> from <= r.value < |s| && s[r.value] == RBRACKET && RBRACKET !in s[from..r.value]
    decreases |s| - from
  {
    if from == |s| then None
    else if s[from] == RBRACKET then Some(from)
    else ClassEnd(s, from + 1)
  }

  /** One atom at the front of `s` and its length. Syntax outside the fragment (groups, alternation,
      class ranges, escapes other than identity escapes) is not parsed. */
  function ParseAtom(s: Str): (r: Option<(Atom, nat)>)
    requires s != []
    ensures r.Some? ==> 1 <= r.value.1 <= |s|
  {
    if s[0] == BACKSLASH then
      if |s| >= 2 && (SyntaxCharacter(s[1]) || s[1] == SLASH) then Some((Char(s[1]), 2)) else None
    else if s[0] == DOT then Some((AnyButNewline, 1))
    else if s[0] == LBRACKET then
      if |s| >= 2 && s[1] == CARET then
        match ClassEnd(s, 2)
        case Some(k) =>
          if BACKSLASH !in s[2..k] && HYPHEN !in s[2..k] then Some((NotIn(s[2..k]), k + 1)) else None
        case None => None
      else None
    else if SyntaxCharacter(s[0]) then None
    else Some((Char(s[0]), 1))
  }

  function Parse(s: Str): Option<seq<Term>>
    decreases |s|
  {
    if s == [] then Some([])
    else if s[0] == CARET || s[0] == DOLLAR then
      match Parse(s[1..])
      case Some(ts) => Some([if s[0] == CARET then Start else End] + ts)
      case None => None
    else
      match ParseAtom(s)
      case None => None
      case Some((a, n)) =>
        if n < |s| && s[n] in {PLUS, QUESTION, LBRACE} then None
        else if n < |s| && s[n] == STAR then
          if n + 1 < |s| && s[n + 1] == QUESTION then None
          else
            match Parse(s[n + 1..])
            case Some(ts) => Some([Many(a)] + ts)
            case None => None
        else
          match Parse(s[n..])
          case Some(ts) => Some([Once(a)] + ts)
          case None => None
  }

  predicate LineTerminator(c: CodeUnit) {
    c in {0x0A, 0x0D, 0x2028, 0x2029}
  }

  predicate AtomMatches(a: Atom, c: CodeUnit) {
    match a
    case Char(d) => c == d
    case NotIn(cs) => c !in cs
    case AnyButNewline => !LineTerminator(c)
  }

  /** The backtracking matcher: the terms match `s` from position `i` on. */
  predicate MatchesFrom(ts: seq<Term>, s: Str, i: nat)
    requires i <= |s|
    decreases |ts|, |s| - i
  {
    if ts == [] then true
    else match ts[0]
      case Start => i == 0 && MatchesFrom(ts[1..], s, i)
      case End => i == |s| && MatchesFrom(ts[1..], s, i)
      case Once(a) => i < |s| && AtomMatches(a, s[i]) && MatchesFrom(ts[1..], s, i + 1)
      case Many(a) =>
        || MatchesFrom(ts[1..], s, i)
        || (i < |s| && AtomMatches(a, s[i]) && MatchesFrom(ts, s, i + 1))
  }

  /** `re.test(s)`: some start position matches. */
  ghost predicate Test(ts: seq<Term>, s: Str) {
    exists i: nat :: i <= |s| && MatchesFrom(ts, s, i)
  }

  /** `globMatches(s, pattern)`; an unparsable source would make `new RegExp` throw. */
  ghost predicate GlobMatches(s: Str, pattern: Str) {
    Parse(RegExpSource(pattern)).Some? && Test(Parse(RegExpSource(pattern)).value, s)
  }

  // ---- what a glob means ----

  datatype Token = Literal(c: CodeUnit) | AnyChar | AnyRun | AnyDeepRun

  /** `**` is taken leftmost first; a lone `*` and `?` stand for themselves. */
  function Tokens(pattern: Str): seq<Token> {
    if pattern == [] then []
    else if |pattern| >= 2 && pattern[0] == STAR && pattern[1] == STAR then [AnyDeepRun] + Tokens(pattern[2..])
    else if pattern[0] == STAR then [AnyRun] + Tokens(pattern[1..])
    else if pattern[0] == QUESTION then [AnyChar] + Tokens(pattern[1..])
    else [Literal(pattern[0])] + Tokens(pattern[1..])
  }

  predicate TokenMatches(t: Token, x: Str) {
    match t
    case Literal(c) => x == [c]
    case AnyChar => |x| == 1 && x[0] != SLASH
    case AnyRun => SLASH !in x
    case AnyDeepRun => forall c :: c in x ==> !LineTerminator(c)
  }

  /** `s` splits into one piece per token, each matching its token. */
  ghost predicate Denotes(ts: seq<Token>, s: Str)
    decreases |ts|
  {
    if ts == [] then s == []
    else exists k: nat :: k <= |s| && TokenMatches(ts[0], s[..k]) && Denotes(ts[1..], s[k..])
  }

  // ---- the pipeline computes the concatenation of per-token texts ----

  function Rendered(t: Token, question: Str, star: Str, deep: Str): Str {
    match t
    case Literal(c) => Esc(c)
    case AnyChar => question
    case AnyRun => star
    case AnyDeepRun => deep
  }

  function Render(ts: seq<Token>, question: Str, star: Str, deep: Str): Str {
    if ts == [] then [] else Rendered(ts[0], question, star, deep) + Render(ts[1..], question, star, deep)
  }

  ghost predicate Plain(ts: seq<Token>) {
    forall i :: 0 <= i < |ts| && ts[i].Literal? ==> ts[i].c !in {STAR, QUESTION}
  }

  lemma {:induction false} TokensPlain(pattern: Str)
    ensures Plain(Tokens(pattern))
  {
    if pattern != [] {
      TokensPlain(pattern[1..]);
      if |pattern| >= 2 {
        TokensPlain(pattern[2..]);
      }
    }
  }

  lemma SkipOne(s: Str, needle: Str, repl: Str)
    requires |needle| >= 1 && s != []
    requires s[0] != needle[0] || (|needle| >= 2 && (|s| >= 2 ==> s[1] != needle[1]))
    ensures ReplaceAll(s, needle, repl) == [s[0]] + ReplaceAll(s[1..], needle, repl)
  {
    if |s| < |needle| {
      assert s == [s[0]] + s[1..];
    } else {
      assert s[..|needle|][0] == s[0];
      assert |needle| >= 2 ==> s[..|needle|][1] == s[1];
    }
  }

  /** Text without the needle's first character passes through. */
  lemma {:induction false} SkipFree(x: Str, y: Str, needle: Str, repl: Str)
    requires needle != [] && needle[0] !in x
    ensures ReplaceAll(x + y, needle, repl) == x + ReplaceAll(y, needle, repl)
  {
    if x == [] {
      assert x + y == y;
    } else {
      assert (x + y)[0] == x[0] && (x + y)[1..] == x[1..] + y;
      SkipOne(x + y, needle, repl);
      SkipFree(x[1..], y, needle, repl);
    }
  }

  lemma HitNeedle(y: Str, needle: Str, repl: Str)
    requires needle != []
    ensures ReplaceAll(needle + y, needle, repl) == repl + ReplaceAll(y, needle, repl)
  {
    assert (needle + y)[..|needle|] == needle && (needle + y)[|needle|..] == y;
  }

  lemma RenderSplits(ts: seq<Token>, t: Token, rest: seq<Token>, question: Str, star: Str, deep: Str)
    requires ts == [t] + rest
    ensures Render(ts, question, star, deep) == Rendered(t, question, star, deep) + Render(rest, question, star, deep)
  {
    assert ts[0] == t && ts[1..] == rest;
  }

  /** Replacements 1 and 2. */
  lemma {:induction false} AfterTwo(pattern: Str, deep: Str)
    ensures ReplaceAll(ReplaceEach(pattern, Esc), TWO_STARS, deep)
            == Render(Tokens(pattern), [QUESTION], [STAR], deep)
  {
    if pattern != [] {
      var c := pattern[0];
      var ts := Tokens(pattern);
      if c == STAR && |pattern| >= 2 && pattern[1] == STAR {
        AfterTwo(pattern[2..], deep);
        RenderSplits(ts, AnyDeepRun, Tokens(pattern[2..]), [QUESTION], [STAR], deep);
        TwoStarsEscaped(pattern);
        HitNeedle(ReplaceEach(pattern[2..], Esc), TWO_STARS, deep);
      } else {
        AfterTwo(pattern[1..], deep);
        RenderSplits(ts, ts[0], Tokens(pattern[1..]), [QUESTION], [STAR], deep);
        PassOver(c, pattern[1..], deep);
      }
    }
  }

  lemma TwoStarsEscaped(pattern: Str)
    requires |pattern| >= 2 && pattern[0] == STAR && pattern[1] == STAR
    ensures ReplaceEach(pattern, Esc) == TWO_STARS + ReplaceEach(pattern[2..], Esc)
  {
    var y := ReplaceEach(pattern[2..], Esc);
    assert pattern[1..][1..] == pattern[2..];
    assert ReplaceEach(pattern[1..], Esc) == [STAR] + y;
    assert [STAR] + ([STAR] + y) == TWO_STARS + y;
  }

  lemma PassOver(c: CodeUnit, tail: Str, deep: Str)
    requires c == STAR ==> tail == [] || tail[0] != STAR
    ensures ReplaceAll(Esc(c) + ReplaceEach(tail, Esc), TWO_STARS, deep)
            == Esc(c) + ReplaceAll(ReplaceEach(tail, Esc), TWO_STARS, deep)
  {
    var rest := ReplaceEach(tail, Esc);
    if c == STAR {
      var e := [STAR] + rest;
      assert tail != [] ==> rest[0] == Esc(tail[0])[0] != STAR;
      assert e[1..] == rest;
      SkipOne(e, TWO_STARS, deep);
    } else {
      SkipFree(Esc(c), rest, TWO_STARS, deep);
    }
  }

  lemma {:induction false} ReplaceEachConcat(s: Str, t: Str, f: CodeUnit -> Str)
    ensures ReplaceEach(s + t, f) == ReplaceEach(s, f) + ReplaceEach(t, f)
  {
    if s == [] {
      assert s + t == t;
    } else {
      ReplaceEachConcat(s[1..], t, f);
      var r := s + t;
      assert r[0] == s[0] && r[1..] == s[1..] + t;
      assert ReplaceEach(r, f) == f(s[0]) + (ReplaceEach(s[1..], f) + ReplaceEach(t, f));
      assert ReplaceEach(s, f) == f(s[0]) + ReplaceEach(s[1..], f);
      Assoc(f(s[0]), ReplaceEach(s[1..], f), ReplaceEach(t, f));
    }
  }

  lemma Assoc<T>(a: seq<T>, b: seq<T>, c: seq<T>)
    ensures a + (b + c) == (a + b) + c
  {
  }

  lemma {:induction false} ReplaceEachIdentity(s: Str, f: CodeUnit -> Str)
    requires forall c :: c in s ==> f(c) == [c]
    ensures ReplaceEach(s, f) == s
  {
    if s != [] {
      ReplaceEachIdentity(s[1..], f);
    }
  }

  /** Replacement 3. */
  lemma {:induction false} AfterThree(ts: seq<Token>, deep: Str)
    requires Plain(ts) && STAR !in deep
    ensures ReplaceEach(Render(ts, [QUESTION], [STAR], deep), ExpandStar)
            == Render(ts, [QUESTION], NOT_SLASH + [STAR], deep)
  {
    if ts != [] {
      AfterThree(ts[1..], deep);
      var x := Rendered(ts[0], [QUESTION], [STAR], deep);
      ReplaceEachConcat(x, Render(ts[1..], [QUESTION], [STAR], deep), ExpandStar);
      if ts[0].AnyRun? {
        ReplaceOne(STAR, ExpandStar);
      } else {
        ReplaceEachIdentity(x, ExpandStar);
      }
    }
  }

  lemma ReplaceOne(c: CodeUnit, f: CodeUnit -> Str)
    ensures ReplaceEach([c], f) == f(c)
  {
    assert [c][1..] == [];
    assert f(c) + [] == f(c);
  }

  /** Replacement 4. */
  lemma {:induction false} AfterFour(ts: seq<Token>, star: Str, deep: Str)
    requires Plain(ts) && QUESTION !in star && QUESTION !in deep
    ensures ReplaceEach(Render(ts, [QUESTION], star, deep), ExpandQuestion) == Render(ts, NOT_SLASH, star, deep)
  {
    if ts != [] {
      AfterFour(ts[1..], star, deep);
      var x := Rendered(ts[0], [QUESTION], star, deep);
      ReplaceEachConcat(x, Render(ts[1..], [QUESTION], star, deep), ExpandQuestion);
      if ts[0].AnyChar? {
        ReplaceOne(QUESTION, ExpandQuestion);
      } else {
        ReplaceEachIdentity(x, ExpandQuestion);
      }
    }
  }

  // ---- replacement 5, and what it takes for the sentinel by mistake ----

  function Literals(w: Str): seq<Token> {
    seq(|w|, i requires 0 <= i < |w| => Literal(w[i]))
  }

  /** NUL and `GLOBSTAR` spelt out, followed by NUL or by the `**` whose sentinel starts with one. */
  predicate CollidesHere(ts: seq<Token>) {
    |ts| >= 10 && ts[..9] == Literals([NUL] + GLOBSTAR) && (ts[9] == Literal(NUL) || ts[9].AnyDeepRun?)
  }

  ghost predicate Collides(ts: seq<Token>) {
    exists i :: 0 <= i <= |ts| && CollidesHere(ts[i..])
  }

  /** The tokens the expression ends up with: a collision becomes `**`, and the sentinel of a `**` that lost
      its first NUL is left as text. */
  function Effective(ts: seq<Token>): seq<Token>
    decreases |ts|
  {
    if ts == [] then []
    else if CollidesHere(ts) then [AnyDeepRun] + Effective(AfterCollision(ts))
    else [ts[0]] + Effective(ts[1..])
  }

  function AfterCollision(ts: seq<Token>): seq<Token>
    requires CollidesHere(ts)
  {
    (if ts[9].AnyDeepRun? then Literals(GLOBSTAR + [NUL]) else []) + ts[10..]
  }

  /** The text before replacement 5. */
  function Marked(ts: seq<Token>): Str {
    Render(ts, NOT_SLASH, NOT_SLASH + [STAR], SENTINEL)
  }

  predicate Letters(w: Str) {
    forall i :: 0 <= i < |w| ==> !Escaped(w[i])
  }

  lemma {:induction false} LiteralsRender(w: Str, ts: seq<Token>)
    requires Letters(w)
    ensures Marked(Literals(w) + ts) == w + Marked(ts)
  {
    if w == [] {
      assert Literals(w) + ts == ts;
    } else {
      var all := Literals(w) + ts;
      assert all == [Literal(w[0])] + (Literals(w[1..]) + ts);
      LiteralsRender(w[1..], ts);
      RenderSplits(all, Literal(w[0]), Literals(w[1..]) + ts, NOT_SLASH, NOT_SLASH + [STAR], SENTINEL);
      assert w == [w[0]] + w[1..];
      Assoc([w[0]], w[1..], Marked(ts));
    }
  }

  lemma LetterIsLiteral(c: CodeUnit, ts: seq<Token>)
    requires !Escaped(c) && c != NUL && Marked(ts) != [] && Marked(ts)[0] == c
    ensures ts != [] && ts[0] == Literal(c) && Marked(ts) == [c] + Marked(ts[1..])
  {
    RenderSplits(ts, ts[0], ts[1..], NOT_SLASH, NOT_SLASH + [STAR], SENTINEL);
  }

  /** Text of ordinary characters at the start comes from literals. */
  lemma {:induction false} WordIsLiterals(w: Str, ts: seq<Token>)
    requires Letters(w) && NUL !in w && w <= Marked(ts)
    ensures |w| <= |ts| && ts[..|w|] == Literals(w) && Marked(ts) == w + Marked(ts[|w|..])
  {
    hide Marked, Escaped;
    if w != [] {
      var c := w[0];
      assert c in w;
      LetterIsLiteral(c, ts);
      var rest := ts[1..];
      assert w == [c] + w[1..] && Marked(ts)[1..] == Marked(rest);
      WordIsLiterals(w[1..], rest);
      assert ts[|w|..] == rest[|w| - 1..];
      assert ts[..|w|] == [ts[0]] + rest[..|w| - 1];
      assert Literals(w) == [Literal(c)] + Literals(w[1..]);
      Assoc([c], w[1..], Marked(ts[|w|..]));
    }
  }

  lemma NulNeedsCollision(ts: seq<Token>)
    requires ts != [] && ts[0] == Literal(NUL) && SENTINEL <= Marked(ts)
    ensures CollidesHere(ts)
  {
    var rest := ts[1..];
    RenderSplits(ts, ts[0], rest, NOT_SLASH, NOT_SLASH + [STAR], SENTINEL);
    assert Marked(ts) == [NUL] + Marked(rest);
    assert GLOBSTAR + [NUL] <= Marked(rest) by {
      assert SENTINEL == [NUL] + (GLOBSTAR + [NUL]);
      assert Marked(rest) == Marked(ts)[1..];
      assert (GLOBSTAR + [NUL]) == SENTINEL[1..];
    }
    assert GLOBSTAR <= Marked(rest);
    WordIsLiterals(GLOBSTAR, rest);
    var tail := rest[8..];
    assert Marked(rest)[8] == (GLOBSTAR + [NUL])[8] == NUL;
    assert Marked(tail) != [] && Marked(tail)[0] == NUL;
    assert tail != [];
    assert tail[0] == ts[9] && (tail[0] == Literal(NUL) || tail[0].AnyDeepRun?);
    assert ts[..9] == [ts[0]] + rest[..8];
    assert Literals([NUL] + GLOBSTAR) == [Literal(NUL)] + Literals(GLOBSTAR);
  }

  lemma Rotations(n: Str, g: Str, m: Str)
    ensures (n + g) + ((n + g + n) + m) == (n + g + n) + ((g + n) + m)
    ensures (n + g) + (n + m) == (n + g + n) + m
  {
  }

  lemma CollisionIsSentinel(ts: seq<Token>)
    requires CollidesHere(ts)
    ensures Marked(ts) == SENTINEL + Marked(AfterCollision(ts))
  {
    var tail := ts[10..];
    assert Letters([NUL] + GLOBSTAR) && Letters(GLOBSTAR + [NUL]);
    assert ts == Literals([NUL] + GLOBSTAR) + ts[9..] && ts[9..] == [ts[9]] + tail;
    RenderSplits(ts[9..], ts[9], tail, NOT_SLASH, NOT_SLASH + [STAR], SENTINEL);
    assert Marked(ts[9..]) == (if ts[9].AnyDeepRun? then SENTINEL else [NUL]) + Marked(tail);
    hide Marked, Letters, Escaped;
    LiteralsRender([NUL] + GLOBSTAR, ts[9..]);
    Rotations([NUL], GLOBSTAR, Marked(tail));
    if ts[9].AnyDeepRun? {
      LiteralsRender(GLOBSTAR + [NUL], tail);
    } else {
      assert AfterCollision(ts) == tail;
    }
  }

  /** Replacement 5, for every pattern. */
  lemma {:induction false} AfterFive(ts: seq<Token>)
    ensures ReplaceAll(Marked(ts), SENTINEL, DEEP) == Render(Effective(ts), NOT_SLASH, NOT_SLASH + [STAR], DEEP)
    decreases |ts|
  {
    if ts != [] {
      var t, rest := ts[0], ts[1..];
      RenderSplits(ts, t, rest, NOT_SLASH, NOT_SLASH + [STAR], SENTINEL);
      if CollidesHere(ts) {
        var next := AfterCollision(ts);
        AfterFive(next);
        CollisionIsSentinel(ts);
        HitNeedle(Marked(next), SENTINEL, DEEP);
        RenderSplits(Effective(ts), AnyDeepRun, Effective(next), NOT_SLASH, NOT_SLASH + [STAR], DEEP);
      } else {
        AfterFive(rest);
        RenderSplits(Effective(ts), t, Effective(rest), NOT_SLASH, NOT_SLASH + [STAR], DEEP);
        if t.AnyDeepRun? {
          HitNeedle(Marked(rest), SENTINEL, DEEP);
        } else if t == Literal(NUL) {
          NoNeedleHere(ts);
        } else {
          SkipFree(Rendered(t, NOT_SLASH, NOT_SLASH + [STAR], SENTINEL), Marked(rest), SENTINEL, DEEP);
        }
      }
    }
  }

  lemma NoNeedleHere(ts: seq<Token>)
    requires ts != [] && ts[0] == Literal(NUL) && !CollidesHere(ts)
    ensures ReplaceAll(Marked(ts), SENTINEL, DEEP) == [NUL] + ReplaceAll(Marked(ts[1..]), SENTINEL, DEEP)
  {
    var text := Marked(ts);
    RenderSplits(ts, ts[0], ts[1..], NOT_SLASH, NOT_SLASH + [STAR], SENTINEL);
    assert text == [NUL] + Marked(ts[1..]) && text[1..] == Marked(ts[1..]);
    if |text| >= |SENTINEL| && text[..|SENTINEL|] == SENTINEL {
      assert SENTINEL <= text;
      NulNeedsCollision(ts);
    } else if |text| < |SENTINEL| {
      assert ReplaceAll(text[1..], SENTINEL, DEEP) == text[1..];
    }
  }

  /** For every pattern, the source is the rendering of its effective tokens. */
  lemma SourceIsRendering(pattern: Str)
    ensures RegExpSource(pattern)
            == [CARET] + Render(Effective(Tokens(pattern)), NOT_SLASH, NOT_SLASH + [STAR], DEEP) + [DOLLAR]
  {
    var ts := Tokens(pattern);
    TokensPlain(pattern);
    AfterTwo(pattern, SENTINEL);
    AfterThree(ts, SENTINEL);
    AfterFour(ts, NOT_SLASH + [STAR], SENTINEL);
    AfterFive(ts);
  }

  lemma {:induction false} EffectivePlain(ts: seq<Token>)
    requires Plain(ts)
    ensures Plain(Effective(ts))
    decreases |ts|
  {
    if ts != [] {
      if CollidesHere(ts) {
        assert Plain(AfterCollision(ts));
        EffectivePlain(AfterCollision(ts));
      } else {
        EffectivePlain(ts[1..]);
      }
    }
  }

  lemma {:induction false} NoCollisionNoEffect(ts: seq<Token>)
    requires !Collides(ts)
    ensures Effective(ts) == ts
  {
    if ts != [] {
      assert ts[0..] == ts;
      forall i | 0 <= i <= |ts[1..]| ensures !CollidesHere(ts[1..][i..]) {
        assert ts[1..][i..] == ts[i + 1..];
      }
      NoCollisionNoEffect(ts[1..]);
    }
  }

  /** Only a pattern with NUL can collide. */
  lemma {:induction false} NulFreeDoesNotCollide(pattern: Str)
    requires NUL !in pattern
    ensures !Collides(Tokens(pattern))
  {
    NulFreeTokens(pattern);
    var ts := Tokens(pattern);
    forall i | 0 <= i <= |ts| ensures !CollidesHere(ts[i..]) {
      if |ts[i..]| >= 10 {
        assert ts[i..][..9][0] == ts[i] && Literals([NUL] + GLOBSTAR)[0] == Literal(NUL);
      }
    }
  }

  lemma {:induction false} NulFreeTokens(pattern: Str)
    requires NUL !in pattern
    ensures Literal(NUL) !in Tokens(pattern)
  {
    if pattern != [] {
      NulFreeTokens(pattern[1..]);
      if |pattern| >= 2 {
        NulFreeTokens(pattern[2..]);
      }
    }
  }

  // ---- the rendering parses to one term per token ----

  function TermOf(t: Token): Term {
    match t
    case Literal(c) => Once(Char(c))
    case AnyChar => Once(NotIn([SLASH]))
    case AnyRun => Many(NotIn([SLASH]))
    case AnyDeepRun => Many(AnyButNewline)
  }

  function TermsOf(ts: seq<Token>): seq<Term> {
    if ts == [] then [End] else [TermOf(ts[0])] + TermsOf(ts[1..])
  }

  function Text(ts: seq<Token>): Str {
    Render(ts, NOT_SLASH, NOT_SLASH + [STAR], DEEP) + [DOLLAR]
  }

  lemma TextSplits(ts: seq<Token>)
    requires ts != []
    ensures Text(ts) == Rendered(ts[0], NOT_SLASH, NOT_SLASH + [STAR], DEEP) + Text(ts[1..])
  {
  }

  lemma TextHead(ts: seq<Token>)
    requires Plain(ts)
    ensures Text(ts)[0] !in {STAR, PLUS, QUESTION, LBRACE}
  {
    if ts != [] {
      TextSplits(ts);
      assert ts[0].Literal? ==> ts[0].c !in {STAR, QUESTION};
    }
  }

  lemma ParseNotSlash(s: Str)
    requires |s| >= 4 && s[..4] == NOT_SLASH
    ensures ParseAtom(s) == Some((NotIn([SLASH]), 4))
  {
    assert s[0] == s[..4][0] && s[1] == s[..4][1] && s[2] == s[..4][2] && s[3] == s[..4][3];
    assert ClassEnd(s, 3) == Some(3);
    assert ClassEnd(s, 2) == Some(3);
    assert s[2..3] == [SLASH];
  }

  lemma {:induction false} TextParses(ts: seq<Token>)
    requires Plain(ts)
    ensures Parse(Text(ts)) == Some(TermsOf(ts))
  {
    var s := Text(ts);
    if ts == [] {
      assert s == [DOLLAR] && s[1..] == [];
      assert Parse(s[1..]) == Some([]);
      assert [End] + [] == [End];
    } else {
      TextSplits(ts);
      var rest := Text(ts[1..]);
      TextParses(ts[1..]);
      TextHead(ts[1..]);
      var t := ts[0];
      match t {
        case Literal(c) =>
          assert c !in {STAR, QUESTION};
          if Escaped(c) {
            assert s[0] == BACKSLASH && s[1] == c && s[2..] == rest && s[2] == rest[0];
          } else {
            assert s[0] == c && s[1..] == rest && s[1] == rest[0];
          }
        case AnyChar =>
          ParseNotSlash(s);
          assert s[4..] == rest && s[4] == rest[0];
        case AnyRun =>
          assert s == NOT_SLASH + [STAR] + rest;
          ParseNotSlash(s);
          assert s[4] == STAR && s[5..] == rest && s[5] == rest[0];
        case AnyDeepRun =>
          assert s[0] == DOT && s[1] == STAR && s[2..] == rest && s[2] == rest[0];
          assert ParseAtom(s) == Some((AnyButNewline, 1));
      }
    }
  }

  // ---- the parsed terms match exactly what the tokens denote ----

  ghost predicate AllMatch(a: Atom, x: Str) {
    forall c :: c in x ==> AtomMatches(a, c)
  }

  lemma AllMatchCons(a: Atom, s: Str, i: nat, k: nat)
    requires i < k <= |s|
    ensures AllMatch(a, s[i..k]) <==> AtomMatches(a, s[i]) && AllMatch(a, s[i + 1..k])
  {
    assert s[i..k] == [s[i]] + s[i + 1..k];
  }

  lemma {:induction false} ManyIsARun(a: Atom, ts: seq<Term>, s: Str, i: nat)
    requires i <= |s|
    ensures MatchesFrom([Many(a)] + ts, s, i) <==>
            exists k: nat :: i <= k <= |s| && AllMatch(a, s[i..k]) && MatchesFrom(ts, s, k)
    decreases |s| - i
  {
    var all := [Many(a)] + ts;
    assert all[1..] == ts && all[0] == Many(a);
    if MatchesFrom(ts, s, i) {
      assert AllMatch(a, s[i..i]);
    }
    if i < |s| {
      ManyIsARun(a, ts, s, i + 1);
      if AtomMatches(a, s[i]) && MatchesFrom(all, s, i + 1) {
        var k: nat :| i + 1 <= k <= |s| && AllMatch(a, s[i + 1..k]) && MatchesFrom(ts, s, k);
        AllMatchCons(a, s, i, k);
      }
      if k: nat :| i < k <= |s| && AllMatch(a, s[i..k]) && MatchesFrom(ts, s, k) {
        AllMatchCons(a, s, i, k);
      }
    }
  }

  /** `ts` and its terms agree from every position at or after `i`. */
  ghost predicate Agree(ts: seq<Token>, s: Str, i: nat) {
    forall k: nat :: i <= k <= |s| ==> (MatchesFrom(TermsOf(ts), s, k) <==> Denotes(ts, s[k..]))
  }

  lemma {:induction false} TermsMatchExactlyDenoted(ts: seq<Token>, s: Str, i: nat)
    requires i <= |s|
    ensures MatchesFrom(TermsOf(ts), s, i) <==> Denotes(ts, s[i..])
    decreases |ts|
  {
    if ts == [] {
      assert MatchesFrom([End][1..], s, i);
    } else {
      forall k: nat | i <= k <= |s|
        ensures MatchesFrom(TermsOf(ts[1..]), s, k) <==> Denotes(ts[1..], s[k..])
      {
        TermsMatchExactlyDenoted(ts[1..], s, k);
      }
      match ts[0] {
        case Literal(_) => OneChar(ts, s, i);
        case AnyChar => OneChar(ts, s, i);
        case AnyRun => RunOf(NotIn([SLASH]), ts, s, i);
        case AnyDeepRun => RunOf(AnyButNewline, ts, s, i);
      }
    }
  }

  lemma Pieces(s: Str, i: nat, k: nat)
    requires i <= |s| && k <= |s| - i
    ensures s[i..][..k] == s[i..i + k] && s[i..][k..] == s[i + k..]
  {
  }

  lemma OneCharPiece(t: Token, ts: seq<Token>, x: Str)
    requires ts != [] && ts[0] == t && (t.Literal? || t.AnyChar?)
    ensures Denotes(ts, x) <==> x != [] && TokenMatches(t, [x[0]]) && Denotes(ts[1..], x[1..])
  {
    if Denotes(ts, x) {
      var k: nat :| k <= |x| && TokenMatches(t, x[..k]) && Denotes(ts[1..], x[k..]);
      assert |x[..k]| == 1 && x[..k] == [x[0]];
    }
    if x != [] && TokenMatches(t, [x[0]]) && Denotes(ts[1..], x[1..]) {
      assert x[..1] == [x[0]];
    }
  }

  lemma OneChar(ts: seq<Token>, s: Str, i: nat)
    requires i <= |s| && ts != [] && (ts[0].Literal? || ts[0].AnyChar?) && Agree(ts[1..], s, i)
    ensures MatchesFrom(TermsOf(ts), s, i) <==> Denotes(ts, s[i..])
  {
    assert TermsOf(ts)[0] == TermOf(ts[0]) && TermsOf(ts)[1..] == TermsOf(ts[1..]);
    OneCharPiece(ts[0], ts, s[i..]);
    if i < |s| {
      assert s[i..][1..] == s[i + 1..] && s[i..][0] == s[i];
      assert MatchesFrom(TermsOf(ts[1..]), s, i + 1) <==> Denotes(ts[1..], s[i + 1..]);
    }
  }

  lemma TokenIsARun(a: Atom, t: Token, x: Str)
    requires TermOf(t) == Many(a)
    ensures TokenMatches(t, x) <==> AllMatch(a, x)
  {
  }

  lemma RunOf(a: Atom, ts: seq<Token>, s: Str, i: nat)
    requires i <= |s| && ts != [] && TermOf(ts[0]) == Many(a) && Agree(ts[1..], s, i)
    ensures MatchesFrom(TermsOf(ts), s, i) <==> Denotes(ts, s[i..])
  {
    ManyIsARun(a, TermsOf(ts[1..]), s, i);
    if MatchesFrom(TermsOf(ts), s, i) {
      var k: nat :| i <= k <= |s| && AllMatch(a, s[i..k]) && MatchesFrom(TermsOf(ts[1..]), s, k);
      RunDenoted(a, ts, s, i, k);
    }
    if Denotes(ts, s[i..]) {
      var k := RunFound(a, ts, s, i);
    }
  }

  lemma RunDenoted(a: Atom, ts: seq<Token>, s: Str, i: nat, k: nat)
    requires i <= k <= |s| && ts != [] && TermOf(ts[0]) == Many(a)
    requires AllMatch(a, s[i..k]) && Denotes(ts[1..], s[k..])
    ensures Denotes(ts, s[i..])
  {
    Pieces(s, i, k - i);
    TokenIsARun(a, ts[0], s[i..k]);
    assert TokenMatches(ts[0], s[i..][..k - i]) && Denotes(ts[1..], s[i..][k - i..]);
  }

  lemma RunFound(a: Atom, ts: seq<Token>, s: Str, i: nat) returns (k: nat)
    requires i <= |s| && ts != [] && TermOf(ts[0]) == Many(a) && Denotes(ts, s[i..])
    ensures i <= k <= |s| && AllMatch(a, s[i..k]) && Denotes(ts[1..], s[k..])
  {
    var n: nat :| n <= |s[i..]| && TokenMatches(ts[0], s[i..][..n]) && Denotes(ts[1..], s[i..][n..]);
    k := i + n;
    Pieces(s, i, n);
    TokenIsARun(a, ts[0], s[i..k]);
  }

  lemma AnchoredTextTests(ts: seq<Token>, src: Str, s: Str)
    requires Plain(ts) && src == [CARET] + Text(ts)
    ensures Parse(src).Some? && (Test(Parse(src).value, s) <==> Denotes(ts, s))
  {
    TextParses(ts);
    assert src[0] == CARET && src[1..] == Text(ts);
    var terms := [Start] + TermsOf(ts);
    assert Parse(src) == Some(terms) && terms[1..] == TermsOf(ts);
    TermsMatchExactlyDenoted(ts, s, 0);
    assert s[0..] == s;
    assert MatchesFrom(terms, s, 0) <==> MatchesFrom(TermsOf(ts), s, 0);
    forall i: nat | i <= |s| && MatchesFrom(terms, s, i) ensures i == 0 {}
  }

  /** What every pattern, with or without NUL, is made to mean. */
  lemma TranslationMeansEffectiveTokens(pattern: Str, s: Str)
    ensures Parse(RegExpSource(pattern)).Some?
    ensures GlobMatches(s, pattern) <==> Denotes(Effective(Tokens(pattern)), s)
  {
    var ts := Effective(Tokens(pattern));
    SourceIsRendering(pattern);
    TokensPlain(pattern);
    EffectivePlain(Tokens(pattern));
    assert RegExpSource(pattern) == [CARET] + Text(ts);
    AnchoredTextTests(ts, RegExpSource(pattern), s);
  }

  /** The translation preserves meaning: for every pattern that does not spell the sentinel (every NUL-free
      one, by NulFreeDoesNotCollide), the five replacements build a regular expression that parses and accepts
      exactly the strings the glob denotes. */
  lemma TranslationPreservesMeaning(pattern: Str, s: Str)
    requires !Collides(Tokens(pattern))
    ensures Parse(RegExpSource(pattern)).Some?
    ensures GlobMatches(s, pattern) <==> Denotes(Tokens(pattern), s)
  {
    NoCollisionNoEffect(Tokens(pattern));
    TranslationMeansEffectiveTokens(pattern, s);
  }

  // ---- a collision always changes the meaning ----

  /** The tokens that take exactly one character, in order. */
  function Fixed(ts: seq<Token>): seq<Token> {
    if ts == [] then []
    else FixedHead(ts[0]) + Fixed(ts[1..])
  }

  const LETTER_A: CodeUnit := 0x61

  /** A shortest string the tokens denote. */
  function Shortest(ts: seq<Token>): Str {
    if ts == [] then []
    else
      (match ts[0]
       case Literal(c) => [c]
       case AnyChar => [LETTER_A]
       case _ => [])
      + Shortest(ts[1..])
  }

  /** One character longer, when there is a `**` to take it. */
  function OneLonger(ts: seq<Token>): Str {
    if ts == [] then []
    else
      match ts[0]
      case Literal(c) => [c] + OneLonger(ts[1..])
      case AnyChar => [LETTER_A] + OneLonger(ts[1..])
      case AnyRun => OneLonger(ts[1..])
      case AnyDeepRun => [LETTER_A] + Shortest(ts[1..])
  }

  lemma DenotesCons(ts: seq<Token>, x: Str, rest: Str)
    requires ts != [] && TokenMatches(ts[0], x) && Denotes(ts[1..], rest)
    ensures Denotes(ts, x + rest)
  {
    assert (x + rest)[..|x|] == x && (x + rest)[|x|..] == rest;
  }

  lemma {:induction false} ShortestDenoted(ts: seq<Token>)
    ensures Denotes(ts, Shortest(ts)) && |Shortest(ts)| == |Fixed(ts)|
    ensures forall i :: 0 <= i < |Fixed(ts)| && Fixed(ts)[i].Literal? ==> Shortest(ts)[i] == Fixed(ts)[i].c
  {
    if ts != [] {
      ShortestDenoted(ts[1..]);
      var x: Str := match ts[0] case Literal(c) => [c] case AnyChar => [LETTER_A] case _ => [];
      assert Shortest(ts) == x + Shortest(ts[1..]);
      DenotesCons(ts, x, Shortest(ts[1..]));
    }
  }

  lemma {:induction false} OneLongerDenoted(ts: seq<Token>)
    requires AnyDeepRun in ts
    ensures Denotes(ts, OneLonger(ts)) && |OneLonger(ts)| == |Fixed(ts)| + 1
  {
    if ts[0].AnyDeepRun? {
      ShortestDenoted(ts[1..]);
      DenotesCons(ts, [LETTER_A], Shortest(ts[1..]));
    } else {
      OneLongerDenoted(ts[1..]);
      var x: Str := match ts[0] case Literal(c) => [c] case AnyChar => [LETTER_A] case _ => [];
      assert OneLonger(ts) == x + OneLonger(ts[1..]);
      DenotesCons(ts, x, OneLonger(ts[1..]));
    }
  }

  /** Denoted strings are no shorter than the fixed tokens, and one of just that length matches them in order. */
  lemma {:induction false} FixedBound(ts: seq<Token>, s: Str)
    requires Denotes(ts, s)
    ensures |s| >= |Fixed(ts)|
    ensures |s| == |Fixed(ts)| ==> forall i :: 0 <= i < |s| ==> TokenMatches(Fixed(ts)[i], [s[i]])
  {
    if ts != [] {
      var k: nat :| k <= |s| && TokenMatches(ts[0], s[..k]) && Denotes(ts[1..], s[k..]);
      FixedBound(ts[1..], s[k..]);
      assert ts == [ts[0]] + ts[1..];
      FixedCons(ts, ts[0], ts[1..]);
      hide Fixed, Denotes;
      if ts[0].Literal? || ts[0].AnyChar? {
        assert k == 1 && s[..1] == [s[0]];
        assert forall i :: 1 <= i < |s| ==> s[i] == s[1..][i - 1];
      } else if |s| == |Fixed(ts)| {
        assert k == 0 && s[0..] == s;
      }
    }
  }

  function FixedHead(t: Token): seq<Token> {
    if t.Literal? || t.AnyChar? then [t] else []
  }

  lemma FixedCons(ts: seq<Token>, t: Token, rest: seq<Token>)
    requires ts == [t] + rest
    ensures Fixed(ts) == FixedHead(t) + Fixed(rest)
  {
    assert ts[1..] == rest;
  }

  lemma {:induction false} FixedAppends(a: seq<Token>, b: seq<Token>)
    ensures Fixed(a + b) == Fixed(a) + Fixed(b)
  {
    if a == [] {
      assert a + b == b;
    } else {
      hide Fixed, FixedHead;
      var rest := a[1..];
      FixedAppends(rest, b);
      assert a == [a[0]] + rest && a + b == [a[0]] + (rest + b);
      FixedCons(a, a[0], rest);
      FixedCons(a + b, a[0], rest + b);
      Assoc(FixedHead(a[0]), Fixed(rest), Fixed(b));
    }
  }

  lemma {:induction false} FixedLiterals(w: Str)
    ensures Fixed(Literals(w)) == Literals(w)
  {
    if w != [] {
      assert Literals(w)[1..] == Literals(w[1..]);
      FixedLiterals(w[1..]);
    }
  }

  /** A collision gives up ten fixed characters, or moves NUL behind `GLOBSTAR`. */
  lemma CollisionFixed(ts: seq<Token>)
    requires CollidesHere(ts)
    ensures var tail := Fixed(ts[10..]);
      && Fixed(ts) == Literals([NUL] + GLOBSTAR) + (if ts[9].AnyDeepRun? then [] else [Literal(NUL)]) + tail
      && Fixed(AfterCollision(ts)) == (if ts[9].AnyDeepRun? then Literals(GLOBSTAR + [NUL]) else []) + tail
  {
    var start, tail := Literals([NUL] + GLOBSTAR), ts[10..];
    assert ts == start + ([ts[9]] + tail);
    FixedAppends(start, [ts[9]] + tail);
    FixedLiterals([NUL] + GLOBSTAR);
    assert ([ts[9]] + tail)[1..] == tail;
    FixedLiterals(GLOBSTAR + [NUL]);
    if ts[9].AnyDeepRun? {
      FixedAppends(Literals(GLOBSTAR + [NUL]), tail);
    } else {
      assert AfterCollision(ts) == tail;
    }
  }

  lemma {:induction false} EffectiveShortens(ts: seq<Token>)
    ensures |Fixed(Effective(ts))| == |Fixed(ts)| || |Fixed(Effective(ts))| + 10 <= |Fixed(ts)|
    decreases |ts|
  {
    if ts != [] {
      if CollidesHere(ts) {
        CollisionFixed(ts);
        EffectiveShortens(AfterCollision(ts));
      } else {
        EffectiveShortens(ts[1..]);
      }
    }
  }

  /** With a collision, the expression has a `**`, and its fixed characters are fewer or differ. */
  lemma {:induction false} CollisionShows(ts: seq<Token>)
    requires Collides(ts)
    ensures AnyDeepRun in Effective(ts)
    ensures var f, g := Fixed(ts), Fixed(Effective(ts));
      |g| < |f| || (|g| == |f| && exists i :: 0 <= i < |f| && f[i].Literal? && g[i].Literal? && f[i] != g[i])
    decreases |ts|
  {
    EffectiveShortens(ts);
    if CollidesHere(ts) {
      var next := AfterCollision(ts);
      CollisionFixed(ts);
      EffectiveShortens(next);
      var f, g := Fixed(ts), Fixed(Effective(ts));
      if ts[9].AnyDeepRun? {
        assert next[0] == Literal(GLOBSTAR[0]);
        assert !CollidesHere(next) by {
          if |next| >= 10 {
            assert next[..9][0] == next[0] && Literals([NUL] + GLOBSTAR)[0] == Literal(NUL);
          }
        }
        assert g[0] == Literal(GLOBSTAR[0]) && f[0] == Literal(NUL);
      }
    } else {
      var rest := ts[1..];
      var i :| 0 <= i <= |ts| && CollidesHere(ts[i..]);
      assert i > 0 by {
        assert ts[0..] == ts;
      }
      assert ts[i..] == rest[i - 1..];
      CollisionShows(rest);
      LaterDifferenceShows(ts);
    }
  }

  lemma LaterDifferenceShows(ts: seq<Token>)
    requires ts != [] && !CollidesHere(ts)
    requires var f, g := Fixed(ts[1..]), Fixed(Effective(ts[1..]));
      |g| < |f| || (|g| == |f| && exists i :: 0 <= i < |f| && f[i].Literal? && g[i].Literal? && f[i] != g[i])
    ensures var f, g := Fixed(ts), Fixed(Effective(ts));
      |g| < |f| || (|g| == |f| && exists i :: 0 <= i < |f| && f[i].Literal? && g[i].Literal? && f[i] != g[i])
  {
    var f, g := Fixed(ts[1..]), Fixed(Effective(ts[1..]));
    var head := FixedHead(ts[0]);
    assert ts == [ts[0]] + ts[1..] && Effective(ts) == [ts[0]] + Effective(ts[1..]);
    FixedCons(ts, ts[0], ts[1..]);
    FixedCons(Effective(ts), ts[0], Effective(ts[1..]));
    hide Fixed, Effective, CollidesHere, FixedHead;
    if |g| == |f| {
      var i :| 0 <= i < |f| && f[i].Literal? && g[i].Literal? && f[i] != g[i];
      assert (head + f)[|head| + i] == f[i] && (head + g)[|head| + i] == g[i];
    }
  }

  ghost predicate MeansOnNonempty(pattern: Str) {
    forall s: Str :: s != [] ==> (GlobMatches(s, pattern) <==> Denotes(Tokens(pattern), s))
  }

  lemma CollisionWitness(pattern: Str) returns (s: Str)
    requires Collides(Tokens(pattern))
    ensures s != [] && !(GlobMatches(s, pattern) <==> Denotes(Tokens(pattern), s))
  {
    var ts := Tokens(pattern);
    var es := Effective(ts);
    CollisionShows(ts);
    EffectiveShortens(ts);
    if |Fixed(es)| < |Fixed(ts)| {
      s := OneLonger(es);
      OneLongerDenoted(es);
      TranslationMeansEffectiveTokens(pattern, s);
      if Denotes(ts, s) {
        FixedBound(ts, s);
      }
    } else {
      s := Shortest(ts);
      ShortestDenoted(ts);
      TranslationMeansEffectiveTokens(pattern, s);
      if Denotes(es, s) {
        FixedBound(es, s);
      }
    }
  }

  /** The exact condition: a pattern means what it says, on the nonempty strings `find` and `grep` offer, if
      and only if it nowhere spells NUL, `GLOBSTAR` and then NUL or `**`. */
  lemma MeaningPreservedExactlyWithoutCollision(pattern: Str)
    ensures MeansOnNonempty(pattern) <==> !Collides(Tokens(pattern))
  {
    if Collides(Tokens(pattern)) {
      var s := CollisionWitness(pattern);
    } else {
      forall s: Str | s != [] ensures GlobMatches(s, pattern) <==> Denotes(Tokens(pattern), s) {
        TranslationPreservesMeaning(pattern, s);
      }
    }
  }

  /** The sentinel itself as a pattern acts as `**`. */
  lemma NulBreaksTranslation(s: Str)
    ensures GlobMatches(s, SENTINEL) <==> forall c :: c in s ==> !LineTerminator(c)
    ensures Denotes(Tokens(SENTINEL), s) <==> s == SENTINEL
  {
    LiteralTokens(SENTINEL, s);
    SentinelTokens();
    TranslationMeansEffectiveTokens(SENTINEL, s);
    if GlobMatches(s, SENTINEL) {
      var k: nat :| k <= |s| && TokenMatches(AnyDeepRun, s[..k]) && Denotes([AnyDeepRun][1..], s[k..]);
      assert k == |s| && s[..k] == s;
    } else {
      assert s[..|s|] == s && Denotes([AnyDeepRun][1..], s[|s|..]);
    }
  }

  lemma SentinelTokens()
    ensures Effective(Tokens(SENTINEL)) == [AnyDeepRun]
  {
    PlainTokens(SENTINEL);
    var ts := Literals(SENTINEL);
    assert ts[..9] == Literals([NUL] + GLOBSTAR) && ts[9] == Literal(NUL);
    assert AfterCollision(ts) == [];
  }

  lemma {:induction false} PlainTokens(pattern: Str)
    requires STAR !in pattern && QUESTION !in pattern
    ensures Tokens(pattern) == Literals(pattern)
  {
    if pattern != [] {
      PlainTokens(pattern[1..]);
      assert Literals(pattern) == [Literal(pattern[0])] + Literals(pattern[1..]);
    }
  }

  // ---- consequences a user can see ----

  function Slashes(s: Str): nat {
    if s == [] then 0 else (if s[0] == SLASH then 1 else 0) + Slashes(s[1..])
  }

  lemma {:induction false} SlashesConcat(s: Str, t: Str)
    ensures Slashes(s + t) == Slashes(s) + Slashes(t)
  {
    if s == [] {
      assert s + t == t;
    } else {
      SlashesConcat(s[1..], t);
      assert (s + t)[1..] == s[1..] + t;
    }
  }

  lemma {:induction false} NoSlashes(s: Str)
    requires SLASH !in s
    ensures Slashes(s) == 0
  {
    if s != [] {
      NoSlashes(s[1..]);
    }
  }

  predicate HasDeep(pattern: Str) {
    exists i :: 0 <= i < |pattern| - 1 && pattern[i] == STAR && pattern[i + 1] == STAR
  }

  lemma TailHasNoDeep(pattern: Str)
    requires pattern != [] && !HasDeep(pattern)
    ensures !HasDeep(pattern[1..]) && Tokens(pattern)[1..] == Tokens(pattern[1..])
  {
    assert |pattern| >= 2 ==> !(pattern[0] == STAR && pattern[0 + 1] == STAR);
    forall i | 0 <= i < |pattern[1..]| - 1 ensures !(pattern[1..][i] == STAR && pattern[1..][i + 1] == STAR) {
      assert !(pattern[i + 1] == STAR && pattern[(i + 1) + 1] == STAR);
    }
  }

  lemma PieceSlashes(c: CodeUnit, t: Token, x: Str)
    requires !t.AnyDeepRun? && TokenMatches(t, x)
    requires t == (if c == STAR then AnyRun else if c == QUESTION then AnyChar else Literal(c))
    ensures Slashes(x) == if c == SLASH then 1 else 0
  {
    if t.Literal? {
      assert x[1..] == [];
    } else {
      NoSlashes(x);
    }
  }

  lemma {:induction false} DenotedKeepsSlashes(pattern: Str, s: Str)
    requires !HasDeep(pattern) && Denotes(Tokens(pattern), s)
    ensures Slashes(s) == Slashes(pattern)
  {
    if pattern != [] {
      TailHasNoDeep(pattern);
      var t := Tokens(pattern)[0];
      assert |pattern| >= 2 ==> !(pattern[0] == STAR && pattern[0 + 1] == STAR);
      var k: nat :| k <= |s| && TokenMatches(t, s[..k]) && Denotes(Tokens(pattern)[1..], s[k..]);
      DenotedKeepsSlashes(pattern[1..], s[k..]);
      SlashesConcat(s[..k], s[k..]);
      assert s[..k] + s[k..] == s;
      PieceSlashes(pattern[0], t, s[..k]);
    }
  }

  /** Without `**`, wildcards never cross a path separator: a match has exactly the pattern's slashes. */
  lemma WildcardsStayInTheirDirectory(pattern: Str, s: Str)
    requires !Collides(Tokens(pattern)) && !HasDeep(pattern)
    requires GlobMatches(s, pattern)
    ensures Slashes(s) == Slashes(pattern)
  {
    TranslationPreservesMeaning(pattern, s);
    DenotedKeepsSlashes(pattern, s);
  }

  lemma {:induction false} LiteralTokens(pattern: Str, s: Str)
    requires STAR !in pattern && QUESTION !in pattern
    ensures Denotes(Tokens(pattern), s) <==> s == pattern
  {
    if pattern != [] {
      OneCharPiece(Literal(pattern[0]), Tokens(pattern), s);
      assert Tokens(pattern)[1..] == Tokens(pattern[1..]);
      if s != [] {
        LiteralTokens(pattern[1..], s[1..]);
        assert s == [s[0]] + s[1..] && pattern == [pattern[0]] + pattern[1..];
      }
    }
  }

  /** A pattern without wildcards, whatever regular-expression characters it holds, matches only itself. */
  lemma PlainPatternMatchesOnlyItself(pattern: Str, s: Str)
    requires !Collides(Tokens(pattern)) && STAR !in pattern && QUESTION !in pattern
    ensures GlobMatches(s, pattern) <==> s == pattern
  {
    TranslationPreservesMeaning(pattern, s);
    LiteralTokens(pattern, s);
  }
}
