/** Shell quoting (src/executors/shell-quote.ts) and the command lines the SSH executor builds with it
    (src/executors/ssh-executor.ts), read back by the token rules of the POSIX shell. */
module ShellQuote {
  import opened Common

  // ---- the executor's side ----

  function Escape(s: string): (r: string)
    ensures '\0' in r <==> '\0' in s
  {
    if s == "" then ""
    else if s[0] == '\'' then "'\\''" + Escape(s[1..])
    else [s[0]] + Escape(s[1..])
  }

  function Quote(s: string): (r: string)
    ensures '\0' in r <==> '\0' in s
  {
    "'" + Escape(s) + "'"
  }

  /** A template with one space between two parts, the first perhaps empty. */
  function Spaced(a: string, b: string): (r: string)
    ensures '\0' in r <==> '\0' in a || '\0' in b
  {
    a + " " + b
  }

  predicate NameStart(c: char) {
    'A' <= c <= 'Z' || 'a' <= c <= 'z' || c == '_'
  }

  predicate NameChar(c: char) {
    NameStart(c) || '0' <= c <= '9' || c == '.'
  }

  predicate IsValidEnvName(name: string) {
    name != "" && NameStart(name[0]) && forall c <- name :: NameChar(c)
  }

  const UPPER: set<char> := {
    'A', 'B', 'C', 'D', 'E', 'F', 'G', 'H', 'I', 'J', 'K', 'L', 'M', 'N', 'O', 'P', 'Q', 'R', 'S', 'T', 'U',
    'V', 'W', 'X', 'Y', 'Z'}
  const LOWER: set<char> := {
    'a', 'b', 'c', 'd', 'e', 'f', 'g', 'h', 'i', 'j', 'k', 'l', 'm', 'n', 'o', 'p', 'q', 'r', 's', 't', 'u',
    'v', 'w', 'x', 'y', 'z'}
  const DIGITS: set<char> := {'0', '1', '2', '3', '4', '5', '6', '7', '8', '9'}

  predicate Listed(c: char) {
    c in UPPER || c in LOWER || c in DIGITS || c == '_' || c == '.'
  }

  /** The names accepted, character by character: a letter or underscore, then letters, digits, underscores
      and dots. */
  lemma ValidNames(name: string)
    ensures IsValidEnvName(name)
            <==> && name != "" && name[0] !in DIGITS && name[0] != '.'
                 && forall i :: 0 <= i < |name| ==> Listed(name[i])
  {
    forall i | 0 <= i < |name| ensures NameChar(name[i]) <==> Listed(name[i]) {
      ListedCharacters(name[i]);
    }
    if name != "" {
      ListedCharacters(name[0]);
    }
    hide Listed, NameChar, NameStart;
    assert forall c <- name :: exists i :: 0 <= i < |name| && name[i] == c;
    assert forall i :: 0 <= i < |name| ==> name[i] in name;
  }

  lemma ListedCharacters(c: char)
    ensures NameChar(c) <==> Listed(c)
    ensures NameStart(c) <==> Listed(c) && c !in DIGITS && c != '.'
  {
    UpperLetters(c);
    LowerLetters(c);
  }

  lemma UpperLetters(c: char)
    ensures c in UPPER <==> 'A' <= c <= 'Z'
  {
  }

  lemma LowerLetters(c: char)
    ensures c in LOWER <==> 'a' <= c <= 'z'
  {
  }

  datatype EnvEntry = EnvEntry(key: string, value: string)

  /** One blank-separated part of a command template: fixed text, fixed text (perhaps none) with a quoted
      value attached, or an operator. */
  datatype Part = Plain(text: string) | Value(prefix: string, text: string) | Operator(text: string)

  function PartText(p: Part): (r: string)
    ensures '\0' in r ==> '\0' in p.text || (p.Value? && '\0' in p.prefix)
  {
    if p.Value? then p.prefix + Quote(p.text) else p.text
  }

  function Line(ps: seq<Part>): string {
    if ps == [] then ""
    else if |ps| == 1 then PartText(ps[0])
    else Spaced(PartText(ps[0]), Line(ps[1..]))
  }

  function EnvPart(e: EnvEntry): string {
    Line([Plain("--env"), Value(e.key + "=", e.value)])
  }

  /** The text for the entries with a valid name, in order, joined by spaces. */
  function EnvText(env: seq<EnvEntry>): string {
    if env == [] then ""
    else
      var init, last := EnvText(env[..|env| - 1]), env[|env| - 1];
      if !IsValidEnvName(last.key) then init
      else if init == "" then EnvPart(last)
      else Spaced(init, EnvPart(last))
  }

  method EnvOpts(env: seq<EnvEntry>) returns (text: string)
    ensures text == EnvText(env)
  {
    text := "";
    for i := 0 to |env|
      invariant text == EnvText(env[..i])
    {
      assert env[..i + 1][..i] == env[..i];
      if IsValidEnvName(env[i].key) {
        text := if text == "" then EnvPart(env[i]) else Spaced(text, EnvPart(env[i]));
      }
    }
    assert env[..|env|] == env;
  }

  /** The command-line executor's arguments for the same entries; it spawns without a shell. */
  function EnvArgs(env: seq<EnvEntry>): seq<string> {
    if env == [] then []
    else
      var init, last := EnvArgs(env[..|env| - 1]), env[|env| - 1];
      if IsValidEnvName(last.key) then init + ["--env", last.key + "=" + last.value] else init
  }

  /** `inner` run by `sh -c` inside an instance. */
  function InstanceCommand(id: string, inner: string): string {
    Line([Plain("apptainer"), Plain("exec"), Value("instance://", id), Plain("sh"), Plain("-c"), Value("", inner)])
  }

  /** An empty working directory counts as none. */
  function InDirectory(cwd: string, command: string): string {
    if cwd == "" then command else Spaced(Line([Plain("cd"), Value("", cwd), Operator("&&")]), command)
  }

  function ExecCommand(id: string, cwd: string, command: string): string {
    InstanceCommand(id, InDirectory(cwd, command))
  }

  function LastSlash(path: string): (k: int)
    ensures -1 <= k < |path|
    ensures k >= 0 ==> path[k] == '/'
    ensures forall i :: k < i < |path| ==> path[i] != '/'
  {
    if path == "" then -1
    else if path[|path| - 1] == '/' then |path| - 1
    else LastSlash(path[..|path| - 1])
  }

  function Parent(path: string): (r: string)
    ensures '\0' in r ==> '\0' in path
  {
    if LastSlash(path) >= 0 then path[..LastSlash(path)] else "."
  }

  function WriteInner(path: string, b64: string): string {
    Line([Plain("mkdir"), Plain("-p"), Value("", Parent(path)), Operator("&&"), Plain("echo"), Value("", b64),
          Operator("|"), Plain("base64"), Plain("-d"), Operator(">"), Value("", path)])
  }

  function WriteFileCommand(id: string, path: string, b64: string): string {
    InstanceCommand(id, WriteInner(path, b64))
  }

  const START_FLAGS := ["apptainer", "instance", "start", "--contain", "--no-mount", "hostfs,cwd"]

  function Plains(ts: seq<string>): seq<Part> {
    seq(|ts|, i requires 0 <= i < |ts| => Plain(ts[i]))
  }

  /** The texts of the resource limits, when they apply, and the seed directory to bind; empty for none. */
  datatype StartOptions = StartOptions(cpus: string, memory: string, seed: string)

  function CpuOpt(o: StartOptions): string {
    if o.cpus == "" then "" else Line([Plain("--cpus"), Plain(o.cpus)])
  }

  function MemOpt(o: StartOptions): string {
    if o.memory == "" then "" else Line([Plain("--memory"), Plain(o.memory + "M")])
  }

  function BindOpt(o: StartOptions): string {
    if o.seed == "" then "" else Spaced("--bind", Quote(o.seed) + ":/workspace")
  }

  /** Instance start; empty options leave their spaces behind. */
  function StartCommand(o: StartOptions, env: seq<EnvEntry>, overlay: string, image: string, id: string): string {
    Spaced(Line(Plains(START_FLAGS)),
      Spaced(CpuOpt(o), Spaced(MemOpt(o), Spaced(EnvText(env), StartTail(o, overlay, image, id)))))
  }

  function StartTail(o: StartOptions, overlay: string, image: string, id: string): string {
    Spaced(Line([Plain("--overlay"), Value("", overlay)]),
      Spaced(BindOpt(o), Line([Value("", image), Value("", id)])))
  }

  // ---- the shell's side: IEEE Std 1003.1-2017, Shell Command Language, sections 2.2.1, 2.2.2 and 2.3 ----

  /** A word after quote removal, or an operator. */
  datatype Token = Word(text: string) | Op(text: string)

  function Text(w: Option<string>): string {
    if w.Some? then w.value else ""
  }

  function Flush(w: Option<string>): seq<Token> {
    if w.Some? then [Word(w.value)] else []
  }

  function Prepend(ts: seq<Token>, r: Option<seq<Token>>): Option<seq<Token>> {
    if r.Some? then Some(ts + r.value) else None
  }

  predicate Digits(w: string) {
    w != "" && forall c <- w :: '0' <= c <= '9'
  }

  /** Length of the longest operator the text starts with; 0 if none. */
  function OperatorLength(s: string): (n: nat)
    ensures n <= |s|
  {
    if s == "" then 0
    else if s[0] == '\n' then 1
    else if s[0] == '&' then (if 2 <= |s| && s[1] == '&' then 2 else 1)
    else if s[0] == '|' then (if 2 <= |s| && s[1] == '|' then 2 else 1)
    else if s[0] == ';' then (if 2 <= |s| && s[1] == ';' then 2 else 1)
    else if s[0] == '>' then (if 2 <= |s| && s[1] in ">&|" then 2 else 1)
    else if s[0] == '<' then
      (if 3 <= |s| && s[1] == '<' && s[2] == '-' then 3 else if 2 <= |s| && s[1] in "<&>" then 2 else 1)
    else 0
  }

  /** Characters whose unquoted meaning is outside this fragment: expansions, grouping, double quotes. */
  predicate Unsupported(c: char) {
    c == '$' || c == '`' || c == '"' || c == '(' || c == ')' || c == '*' || c == '?' || c == '[' || c == '~'
  }

  predicate Ordinary(c: char) {
    && c != '\'' && c != '\\' && c != ' ' && c != '\t' && c != '\n' && c != '&' && c != '|' && c != ';'
    && c != '<' && c != '>' && c != '#' && c != '\0' && !Unsupported(c)
  }

  predicate PlainText(t: string) {
    forall i :: 0 <= i < |t| ==> Ordinary(t[i])
  }

  /** Tokens of `s`, given the word being built and whether a single quote is open. None: the text is
      incomplete, holds NUL, or leaves the fragment, so a result means no expansion takes place. */
  function Scan(s: string, w: Option<string>, quoted: bool): Option<seq<Token>>
    decreases |s|
  {
    if s == "" then (if quoted then None else Some(Flush(w)))
    else if s[0] == '\0' then None
    else if quoted then
      if s[0] == '\'' then Scan(s[1..], w, false) else Scan(s[1..], Some(Text(w) + [s[0]]), true)
    else if s[0] == '\'' then Scan(s[1..], Some(Text(w)), true)
    else if s[0] == '\\' then
      if |s| == 1 || s[1] == '\0' then None
      else if s[1] == '\n' then Scan(s[2..], w, false)
      else Scan(s[2..], Some(Text(w) + [s[1]]), false)
    else if s[0] == ' ' || s[0] == '\t' then Prepend(Flush(w), Scan(s[1..], None, false))
    else if OperatorLength(s) > 0 then
      if s[0] in "<>" && Digits(Text(w)) then None
      else Prepend(Flush(w) + [Op(s[..OperatorLength(s)])], Scan(s[OperatorLength(s)..], None, false))
    else if Unsupported(s[0]) || (s[0] == '#' && w.None?) then None
    else Scan(s[1..], Some(Text(w) + [s[0]]), false)
  }

  function Tokens(s: string): Option<seq<Token>> {
    Scan(s, None, false)
  }

  // ---- quoting ----

  lemma EscapedQuoteScans(rest: string, w: string)
    ensures Scan("'\\''" + rest, Some(w), true) == Scan(rest, Some(w + "'"), true)
  {
    var text := "'\\''" + rest;
    assert text[1..] == "\\''" + rest;
    assert Scan(text, Some(w), true) == Scan("\\''" + rest, Some(w), false);
    assert ("\\''" + rest)[2..] == "'" + rest;
    assert Scan("\\''" + rest, Some(w), false) == Scan("'" + rest, Some(w + "'"), false);
    assert ("'" + rest)[1..] == rest;
  }

  lemma QuotedCharScans(c: char, rest: string, w: string)
    requires c != '\''
    ensures Scan([c] + rest, Some(w), true) == if c == '\0' then None else Scan(rest, Some(w + [c]), true)
  {
    assert ([c] + rest)[1..] == rest;
  }

  lemma ClosingQuoteScans(rest: string, w: string)
    ensures Scan("'" + rest, Some(w), true) == Scan(rest, Some(w), false)
  {
    assert ("'" + rest)[1..] == rest;
  }

  lemma {:induction false} EscapeScans(s: string, post: string, w: string)
    ensures Scan(Escape(s) + "'" + post, Some(w), true)
            == if '\0' in s then None else Scan(post, Some(w + s), false)
    decreases |s|
  {
    hide Scan;
    if s == "" {
      assert Escape(s) + "'" + post == "'" + post;
      ClosingQuoteScans(post, w);
      assert w + s == w;
    } else {
      var c, t := s[0], s[1..];
      var rest := Escape(t) + "'" + post;
      assert s == [c] + t;
      EscapeScans(t, post, w + [c]);
      assert w + [c] + t == w + s;
      if c == '\'' {
        assert Escape(s) + "'" + post == "'\\''" + rest;
        EscapedQuoteScans(rest, w);
      } else {
        assert Escape(s) + "'" + post == [c] + rest;
        QuotedCharScans(c, rest, w);
      }
    }
  }

  /** In any word position, before any text, the shell reads the quoted form of `s` as exactly `s`;
      the only strings it cannot carry are those with a NUL. */
  lemma QuoteRoundTrips(s: string, post: string, w: Option<string>)
    ensures Scan(Quote(s) + post, w, false) == if '\0' in s then None else Scan(post, Some(Text(w) + s), false)
  {
    var rest := Escape(s) + "'" + post;
    assert Quote(s) + post == "'" + rest && ("'" + rest)[1..] == rest;
    EscapeScans(s, post, Text(w));
  }

  /** The only strings a quoted argument cannot carry are those with a NUL. */
  lemma QuoteRoundTripsExactlyWithoutNul(s: string)
    ensures Tokens(Quote(s)) == Some([Word(s)]) <==> '\0' !in s
  {
    QuoteRoundTrips(s, "", None);
    assert Quote(s) + "" == Quote(s) && "" + s == s;
  }

  // ---- reading a command line part by part ----

  lemma {:induction false} LiteralScans(t: string, post: string, w: Option<string>)
    requires t != "" && PlainText(t)
    ensures Scan(t + post, w, false) == Scan(post, Some(Text(w) + t), false)
    decreases |t|
  {
    var text := t + post;
    assert Ordinary(t[0]) && text[1..] == t[1..] + post;
    assert Scan(text, w, false) == Scan(text[1..], Some(Text(w) + [t[0]]), false);
    assert Text(w) + [t[0]] + t[1..] == Text(w) + t;
    if |t| == 1 {
      assert t[1..] + post == post && [t[0]] == t;
    } else {
      LiteralScans(t[1..], post, Some(Text(w) + [t[0]]));
    }
  }

  lemma BlankScans(post: string, w: Option<string>)
    ensures Scan(" " + post, w, false) == Prepend(Flush(w), Tokens(post))
  {
    assert (" " + post)[1..] == post;
  }

  lemma EmptyPrepend(r: Option<seq<Token>>)
    ensures Prepend([], r) == r
  {
    assert r.Some? ==> [] + r.value == r.value;
  }

  lemma EmptyPart(post: string)
    ensures Tokens(Spaced("", post)) == Tokens(post)
  {
    assert "" + " " + post == " " + post;
    BlankScans(post, None);
    EmptyPrepend(Tokens(post));
  }

  lemma OperatorScans(t: string, post: string)
    requires t in {"&&", "|", ">"}
    ensures Tokens(Spaced(t, post)) == Prepend([Op(t)], Tokens(post))
  {
    var text := t + " " + post;
    assert text[|t|] == ' ' && text[..|t|] == t && text[|t|..] == " " + post;
    assert OperatorLength(text) == |t|;
    BlankScans(post, None);
    EmptyPrepend(Tokens(post));
    assert [] + [Op(t)] == [Op(t)];
  }

  /** A literal, perhaps empty, with a quoted value attached. */
  lemma ValueScans(lit: string, v: string, post: string)
    requires PlainText(lit) && '\0' !in v
    ensures Scan(lit + Quote(v) + post, None, false) == Scan(post, Some(lit + v), false)
  {
    assert lit + Quote(v) + post == lit + (Quote(v) + post);
    if lit == "" {
      assert lit + (Quote(v) + post) == Quote(v) + post;
      QuoteRoundTrips(v, post, None);
    } else {
      LiteralScans(lit, Quote(v) + post, None);
      assert "" + lit == lit;
      QuoteRoundTrips(v, post, Some(lit));
    }
  }

  function TokenOf(p: Part): Token {
    match p
    case Plain(t) => Word(t)
    case Value(prefix, v) => Word(prefix + v)
    case Operator(t) => Op(t)
  }

  function TokensOf(ps: seq<Part>): seq<Token> {
    seq(|ps|, i requires 0 <= i < |ps| => TokenOf(ps[i]))
  }

  predicate AllClean(ps: seq<Part>) {
    forall i :: 0 <= i < |ps| ==> Clean(ps[i])
  }

  predicate Clean(p: Part) {
    match p
    case Plain(t) => t != "" && PlainText(t)
    case Value(prefix, v) => PlainText(prefix) && '\0' !in v
    case Operator(t) => t in {"&&", "|", ">"}
  }

  lemma PartThen(p: Part, post: string)
    requires Clean(p)
    ensures Tokens(Spaced(PartText(p), post)) == Prepend([TokenOf(p)], Tokens(post))
  {
    if p.Operator? {
      OperatorScans(p.text, post);
    } else {
      var word := TokenOf(p).text;
      assert PartText(p) + " " + post == PartText(p) + (" " + post);
      if p.Plain? {
        LiteralScans(p.text, " " + post, None);
        assert "" + p.text == p.text;
      } else {
        ValueScans(p.prefix, p.text, " " + post);
      }
      BlankScans(post, Some(word));
    }
  }

  lemma LastPart(p: Part)
    requires Clean(p) && !p.Operator?
    ensures Tokens(PartText(p)) == Some([TokenOf(p)])
  {
    assert PartText(p) + "" == PartText(p);
    if p.Plain? {
      LiteralScans(p.text, "", None);
      assert "" + p.text == p.text;
    } else {
      ValueScans(p.prefix, p.text, "");
    }
  }

  lemma PrependTwice(a: seq<Token>, b: seq<Token>, r: Option<seq<Token>>)
    ensures Prepend(a, Prepend(b, r)) == Prepend(a + b, r)
  {
    assert r.Some? ==> a + (b + r.value) == a + b + r.value;
  }

  /** A template of clean parts is read back part by part, whatever follows it. */
  lemma {:induction false} LineThen(ps: seq<Part>, post: string)
    requires ps != [] && AllClean(ps)
    ensures Tokens(Spaced(Line(ps), post)) == Prepend(TokensOf(ps), Tokens(post))
  {
    hide Tokens, PartText, Clean;
    if |ps| == 1 {
      PartThen(ps[0], post);
      assert TokensOf(ps) == [TokenOf(ps[0])];
    } else {
      SpacedAssociates(PartText(ps[0]), Line(ps[1..]), post);
      LineThen(ps[1..], post);
      PartThen(ps[0], Spaced(Line(ps[1..]), post));
      PrependTwice([TokenOf(ps[0])], TokensOf(ps[1..]), Tokens(post));
      assert [TokenOf(ps[0])] + TokensOf(ps[1..]) == TokensOf(ps);
    }
  }

  /** A whole template: one token for each part, in order, every value intact. */
  lemma {:induction false} LineTokens(ps: seq<Part>)
    requires ps != [] && AllClean(ps) && !ps[|ps| - 1].Operator?
    ensures Tokens(Line(ps)) == Some(TokensOf(ps))
  {
    hide Tokens, PartText, Clean;
    if |ps| == 1 {
      LastPart(ps[0]);
      assert TokensOf(ps) == [TokenOf(ps[0])];
    } else {
      LineTokens(ps[1..]);
      PartThen(ps[0], Line(ps[1..]));
      assert [TokenOf(ps[0])] + TokensOf(ps[1..]) == TokensOf(ps);
    }
  }

  lemma SpacedAssociates(a: string, b: string, c: string)
    ensures Spaced(Spaced(a, b), c) == Spaced(a, Spaced(b, c))
  {
  }

  lemma {:induction false} LineWithoutNul(ps: seq<Part>)
    requires AllClean(ps)
    ensures '\0' !in Line(ps)
  {
    if ps != [] {
      LineWithoutNul(ps[1..]);
      assert Clean(ps[0]);
    }
  }

  // ---- the executor's command lines ----

  lemma InstanceCommandTokens(id: string, inner: string)
    requires '\0' !in id && '\0' !in inner
    ensures Tokens(InstanceCommand(id, inner))
            == Some([Word("apptainer"), Word("exec"), Word("instance://" + id), Word("sh"), Word("-c"), Word(inner)])
  {
    hide Tokens, Line;
    var ps := [Plain("apptainer"), Plain("exec"), Value("instance://", id), Plain("sh"), Plain("-c"), Value("", inner)];
    assert "" + inner == inner;
    LineTokens(ps);
    assert TokensOf(ps)
        == [Word("apptainer"), Word("exec"), Word("instance://" + id), Word("sh"), Word("-c"), Word(inner)];
  }

  /** Running a command in an instance: the host shell passes the whole inner text to `sh -c` as one argument,
      and the inner shell changes to exactly the requested directory and then reads exactly the command. */
  lemma ExecDeliversCommand(id: string, cwd: string, command: string)
    requires '\0' !in id && '\0' !in cwd && '\0' !in command
    ensures Tokens(ExecCommand(id, cwd, command))
            == Some([Word("apptainer"), Word("exec"), Word("instance://" + id), Word("sh"), Word("-c"),
                     Word(InDirectory(cwd, command))])
    ensures Tokens(InDirectory(cwd, command))
            == if cwd == "" then Tokens(command) else Prepend([Word("cd"), Word(cwd), Op("&&")], Tokens(command))
  {
    hide Tokens, Line, Spaced;
    if cwd != "" {
      var ps := [Plain("cd"), Value("", cwd), Operator("&&")];
      LineThen(ps, command);
      LineWithoutNul(ps);
      assert "" + cwd == cwd;
      assert TokensOf(ps) == [Word("cd"), Word(cwd), Op("&&")];
    }
    InstanceCommandTokens(id, InDirectory(cwd, command));
  }

  /** Writing a file: two readings later, the directory, the content and the target path arrive unchanged,
      each as one word. */
  lemma WriteFileDeliversPath(id: string, path: string, b64: string)
    requires '\0' !in id && '\0' !in path && '\0' !in b64
    ensures Tokens(WriteFileCommand(id, path, b64))
            == Some([Word("apptainer"), Word("exec"), Word("instance://" + id), Word("sh"), Word("-c"),
                     Word(WriteInner(path, b64))])
    ensures Tokens(WriteInner(path, b64))
            == Some([Word("mkdir"), Word("-p"), Word(Parent(path)), Op("&&"), Word("echo"), Word(b64), Op("|"),
                     Word("base64"), Word("-d"), Op(">"), Word(path)])
  {
    hide Tokens, Line, Parent;
    var parent := Parent(path);
    var ps := [Plain("mkdir"), Plain("-p"), Value("", parent), Operator("&&"), Plain("echo"), Value("", b64),
               Operator("|"), Plain("base64"), Plain("-d"), Operator(">"), Value("", path)];
    assert "" + parent == parent && "" + b64 == b64 && "" + path == path;
    LineTokens(ps);
    LineWithoutNul(ps);
    assert TokensOf(ps)
        == [Word("mkdir"), Word("-p"), Word(parent), Op("&&"), Word("echo"), Word(b64), Op("|"),
            Word("base64"), Word("-d"), Op(">"), Word(path)];
    InstanceCommandTokens(id, WriteInner(path, b64));
  }

  /** The directory made first is the target's own; for a file directly under `/` it is the empty word,
      which `mkdir` refuses, so such a write fails. */
  lemma ParentIsTheDirectory(path: string)
    ensures '/' in path ==> exists name :: '/' !in name && path == Parent(path) + "/" + name
    ensures '/' !in path ==> Parent(path) == "."
    ensures Parent(path) == "" <==> path != "" && path[0] == '/' && '/' !in path[1..]
  {
    var k := LastSlash(path);
    if k >= 0 {
      var name := path[k + 1..];
      assert '/' !in name && path == path[..k] + "/" + name;
      assert k > 0 ==> path[k] == path[1..][k - 1];
    }
  }

  // ---- environment options ----

  function Words(args: seq<string>): seq<Token> {
    seq(|args|, i requires 0 <= i < |args| => Word(args[i]))
  }

  predicate NulFree(env: seq<EnvEntry>) {
    forall e <- env :: '\0' !in e.value
  }

  lemma EnvPartThen(e: EnvEntry, post: string)
    requires IsValidEnvName(e.key) && '\0' !in e.value
    ensures EnvPart(e) != ""
    ensures Tokens(Spaced(EnvPart(e), post)) == Prepend(Words(["--env", e.key + "=" + e.value]), Tokens(post))
  {
    var ps := [Plain("--env"), Value(e.key + "=", e.value)];
    forall i | 0 <= i < |e.key + "="| ensures Ordinary((e.key + "=")[i]) {
      assert i < |e.key| ==> NameChar(e.key[i]);
    }
    assert EnvPart(e) == Line(ps) != "";
    hide Tokens, Line, Spaced;
    assert Clean(ps[0]) && Clean(ps[1]);
    LineThen(ps, post);
    assert TokensOf(ps) == Words(["--env", e.key + "=" + e.value]);
  }

  lemma {:induction false} NoTextNoArgs(env: seq<EnvEntry>)
    requires NulFree(env)
    ensures EnvText(env) == "" <==> EnvArgs(env) == []
  {
    hide EnvPart;
    if env != [] {
      if IsValidEnvName(env[|env| - 1].key) {
        EnvPartThen(env[|env| - 1], "");
      }
      NoTextNoArgs(env[..|env| - 1]);
    }
  }

  /** The shell reads the rendered options as exactly the argument list the other executor passes without
      a shell: malformed names dropped, every value intact, order kept. */
  lemma {:induction false} EnvTextMeansEnvArgs(env: seq<EnvEntry>, post: string)
    requires NulFree(env)
    ensures Tokens(Spaced(EnvText(env), post)) == Prepend(Words(EnvArgs(env)), Tokens(post))
    decreases |env|
  {
    hide Tokens, Spaced, EnvPart;
    if env == [] {
      EmptyPart(post);
      EmptyPrepend(Tokens(post));
    } else {
      var init, last := env[..|env| - 1], env[|env| - 1];
      if !IsValidEnvName(last.key) {
        EnvTextMeansEnvArgs(init, post);
      } else {
        var more := Spaced(EnvPart(last), post);
        EnvPartThen(last, post);
        EnvTextMeansEnvArgs(init, more);
        NoTextNoArgs(init);
        var args := ["--env", last.key + "=" + last.value];
        PrependTwice(Words(EnvArgs(init)), Words(args), Tokens(post));
        assert Words(EnvArgs(init)) + Words(args) == Words(EnvArgs(env));
        if EnvText(init) == "" {
          assert Words(EnvArgs(init)) + Words(args) == Words(args);
        } else {
          SpacedAssociates(EnvText(init), EnvPart(last), post);
        }
      }
    }
  }

  function CpuArgs(o: StartOptions): seq<string> {
    if o.cpus == "" then [] else ["--cpus", o.cpus]
  }

  function MemArgs(o: StartOptions): seq<string> {
    if o.memory == "" then [] else ["--memory", o.memory + "M"]
  }

  function BindArgs(o: StartOptions): seq<string> {
    if o.seed == "" then [] else ["--bind", o.seed + ":/workspace"]
  }

  lemma TwoWordsThen(a: string, b: string, post: string)
    requires a != "" && b != "" && PlainText(a) && PlainText(b)
    ensures Tokens(Spaced(Line([Plain(a), Plain(b)]), post)) == Prepend(Words([a, b]), Tokens(post))
  {
    hide Tokens, Line, Spaced, PlainText;
    var ps := [Plain(a), Plain(b)];
    LineThen(ps, post);
    assert TokensOf(ps) == Words([a, b]);
  }

  lemma NoOption(post: string)
    ensures Tokens(Spaced("", post)) == Prepend(Words([]), Tokens(post))
  {
    EmptyPart(post);
    EmptyPrepend(Tokens(post));
    assert Words([]) == [];
  }

  lemma LimitsThen(o: StartOptions, post: string)
    requires PlainText(o.cpus) && PlainText(o.memory)
    ensures Tokens(Spaced(CpuOpt(o), post)) == Prepend(Words(CpuArgs(o)), Tokens(post))
    ensures Tokens(Spaced(MemOpt(o), post)) == Prepend(Words(MemArgs(o)), Tokens(post))
  {
    assert PlainText("--cpus") && PlainText("--memory") && PlainText(o.memory + "M");
    hide Tokens, Line, Spaced, PlainText;
    NoOption(post);
    if o.cpus != "" {
      TwoWordsThen("--cpus", o.cpus, post);
    }
    if o.memory != "" {
      TwoWordsThen("--memory", o.memory + "M", post);
    }
  }

  lemma BindThen(o: StartOptions, post: string)
    requires '\0' !in o.seed
    ensures Tokens(Spaced(BindOpt(o), post)) == Prepend(Words(BindArgs(o)), Tokens(post))
  {
    hide Tokens, Spaced, Quote;
    NoOption(post);
    if o.seed != "" {
      var bound := Quote(o.seed) + ":/workspace";
      SeedScans(o.seed, post);
      SpacedAssociates("--bind", bound, post);
      assert PartText(Plain("--bind")) == "--bind";
      PartThen(Plain("--bind"), Spaced(bound, post));
      PrependTwice([Word("--bind")], [Word(o.seed + ":/workspace")], Tokens(post));
      assert [Word("--bind")] + [Word(o.seed + ":/workspace")] == Words(["--bind", o.seed + ":/workspace"]);
    }
  }

  lemma SeedScans(seed: string, post: string)
    requires '\0' !in seed
    ensures Tokens(Spaced(Quote(seed) + ":/workspace", post)) == Prepend([Word(seed + ":/workspace")], Tokens(post))
  {
    hide Quote;
    var rest := ":/workspace" + (" " + post);
    assert Quote(seed) + ":/workspace" + " " + post == Quote(seed) + rest && "" + seed == seed;
    QuoteRoundTrips(seed, rest, None);
    LiteralScans(":/workspace", " " + post, Some(seed));
    BlankScans(post, Some(seed + ":/workspace"));
  }

  lemma StartTailTokens(o: StartOptions, overlay: string, image: string, id: string)
    requires '\0' !in o.seed && '\0' !in overlay && '\0' !in image && '\0' !in id
    ensures Tokens(StartTail(o, overlay, image, id)) == Some(Words(["--overlay", overlay] + BindArgs(o) + [image, id]))
  {
    hide Tokens, Line, Spaced, BindOpt, BindArgs;
    var front, back := [Plain("--overlay"), Value("", overlay)], [Value("", image), Value("", id)];
    assert "" + overlay == overlay && "" + image == image && "" + id == id;
    LineTokens(back);
    BindThen(o, Line(back));
    LineThen(front, Spaced(BindOpt(o), Line(back)));
    assert TokensOf(front) == Words(["--overlay", overlay]) && TokensOf(back) == Words([image, id]);
    WordsOfThree(["--overlay", overlay], BindArgs(o), [image, id]);
  }

  lemma WordsOfThree(a: seq<string>, b: seq<string>, c: seq<string>)
    ensures Words(a) + (Words(b) + Words(c)) == Words(a + b + c)
  {
  }

  lemma StartFlagsAreClean()
    ensures AllClean(Plains(START_FLAGS))
    ensures TokensOf(Plains(START_FLAGS)) == Words(START_FLAGS)
  {
    assert forall i :: 0 <= i < |START_FLAGS| ==> START_FLAGS[i] != "" && PlainText(START_FLAGS[i]);
  }

  /** Instance start: with any environment, limits and seed directory, the SSH executor's shell line is read as
      the flags, the limits, the other executor's environment arguments, and the overlay, binding, image and
      instance name unchanged. */
  lemma StartArguments(o: StartOptions, env: seq<EnvEntry>, overlay: string, image: string, id: string)
    requires PlainText(o.cpus) && PlainText(o.memory) && '\0' !in o.seed
    requires NulFree(env) && '\0' !in overlay && '\0' !in image && '\0' !in id
    ensures Tokens(StartCommand(o, env, overlay, image, id))
            == Some(Words(START_FLAGS + (CpuArgs(o) + MemArgs(o) + (EnvArgs(env)
                          + (["--overlay", overlay] + BindArgs(o) + [image, id])))))
  {
    hide Tokens, Spaced, Line, Clean, StartTail, EnvText, EnvArgs;
    hide CpuOpt, MemOpt, CpuArgs, MemArgs, BindArgs, PlainText;
    var last := ["--overlay", overlay] + BindArgs(o) + [image, id];
    var tail := StartTail(o, overlay, image, id);
    var options := Spaced(EnvText(env), tail);
    StartTailTokens(o, overlay, image, id);
    EnvTextMeansEnvArgs(env, tail);
    LimitsThen(o, options);
    LimitsThen(o, Spaced(MemOpt(o), options));
    StartFlagsAreClean();
    LineThen(Plains(START_FLAGS), Spaced(CpuOpt(o), Spaced(MemOpt(o), options)));
    WordsAppend(EnvArgs(env), last);
    WordsOfThree(CpuArgs(o), MemArgs(o), EnvArgs(env) + last);
    WordsAppend(START_FLAGS, CpuArgs(o) + MemArgs(o) + (EnvArgs(env) + last));
  }

  lemma WordsAppend(a: seq<string>, b: seq<string>)
    ensures Words(a) + Words(b) == Words(a + b)
  {
  }
}
