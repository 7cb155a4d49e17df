/** `parse` (make_profiler/parser.py): the token stream becomes a list of AST entries.
    A target token becomes a record carrying its header and the run of command tokens
    that immediately follows it; every other token is kept as it is. */
module Parser {
  import opened Results
  import opened Text
  import opened Tokenizer
  import opened TargetLine

  /** One entry of the AST: a target record, or a token the parser passes through. */
  datatype AstNode = TargetNode(header: Header, body: seq<Token>) | Plain(token: Token)

  /** `next_belongs_to_target`: the next token is a command. At the end of the stream
      `peek` raises `StopIteration`, which `parse_body` catches, so the body ends there. */
  predicate NextBelongsToTarget(toks: seq<Token>, i: nat) {
    i < |toks| && toks[i].Command?
  }

  /** The end of the run of command tokens starting at `i`. */
  function CommandEnd(toks: seq<Token>, i: nat): (j: nat)
    requires i <= |toks|
    ensures i <= j <= |toks| && !NextBelongsToTarget(toks, j)
    ensures forall m :: i <= m < j ==> toks[m].Command?
    decreases |toks| - i
  {
    if NextBelongsToTarget(toks, i) then CommandEnd(toks, i + 1) else i
  }

  /** `Some(ast + rest)` once the rest of the stream has parsed. */
  function Prepend(ast: seq<AstNode>, rest: Option<seq<AstNode>>): Option<seq<AstNode>> {
    match rest
    case None => None
    case Some(r) => Some(ast + r)
  }

  /** How a target token's text becomes its header: `parse_target` is `ParseTargetLine`.
      The parse loop uses it as a black box, and the lemmas below hold for any reader. */
  type LineReader = string -> Option<Header>

  /** The AST of the tokens from `i` on, or `None` when a target text cannot be read. */
  function ParseAt(read: LineReader, toks: seq<Token>, i: nat): Option<seq<AstNode>>
    requires i <= |toks|
    decreases |toks| - i
  {
    if i == |toks| then Some([])
    else match toks[i]
      case Target(t) =>
        (match read(t)
         case None => None
         case Some(h) =>
           var j := CommandEnd(toks, i + 1);
           Prepend([TargetNode(h, toks[i + 1..j])], ParseAt(read, toks, j)))
      case _ => Prepend([Plain(toks[i])], ParseAt(read, toks, i + 1))
  }

  /** `parse` on the lines of a file: tokenizing and parsing either fail together or
      give the AST. */
  function ParseLines(lines: seq<string>): Option<seq<AstNode>> {
    match Tokens(lines)
    case None => None
    case Some(toks) => ParseAt(ParseTargetLine, toks, 0)
  }

  /** `parse_body`: takes command tokens while the next one is a command. */
  method ParseBody(toks: seq<Token>, i: nat) returns (body: seq<Token>, j: nat)
    requires i <= |toks|
    ensures j == CommandEnd(toks, i) && body == toks[i..j]
  {
    body := [];
    j := i;
    while NextBelongsToTarget(toks, j)
      invariant i <= j <= |toks| && body == toks[i..j]
      invariant CommandEnd(toks, j) == CommandEnd(toks, i)
      decreases |toks| - j
    {
      body := body + [toks[j]];
      j := j + 1;
    }
  }

  /** `parse`: one pass over the tokens, appending to the AST. */
  method Parse(lines: seq<string>) returns (r: Option<seq<AstNode>>)
    ensures r == ParseLines(lines)
  {
    var tokens := Tokenize(lines);
    if tokens.None? {
      return None;
    }
    var toks := tokens.value;
    var read: LineReader := ParseTargetLine;
    var ast: seq<AstNode> := [];
    var i := 0;
    PrependNothing(ParseAt(read, toks, 0));
    while i < |toks|
      invariant i <= |toks|
      invariant ParseAt(read, toks, 0) == Prepend(ast, ParseAt(read, toks, i))
      decreases |toks| - i
    {
      var token := toks[i];
      if token.Target? {
        var header := read(token.text);
        ParseAtTarget(read, toks, i);
        if header.None? {
          return None;
        }
        var body, j := ParseBody(toks, i + 1);
        PrependAssoc(ast, [TargetNode(header.value, body)], ParseAt(read, toks, j));
        ast := ast + [TargetNode(header.value, body)];
        i := j;
      } else {
        ParseAtPlain(read, toks, i);
        PrependAssoc(ast, [Plain(token)], ParseAt(read, toks, i + 1));
        ast := ast + [Plain(token)];
        i := i + 1;
      }
    }
    assert ast + [] == ast;
    return Some(ast);
  }

  /** A target token: its record and the rest of the stream, or a failure. */
  lemma ParseAtTarget(read: LineReader, toks: seq<Token>, i: nat)
    requires i < |toks| && toks[i].Target?
    ensures read(toks[i].text).None? ==> ParseAt(read, toks, i) == None
    ensures read(toks[i].text).Some? ==>
      var j := CommandEnd(toks, i + 1);
      ParseAt(read, toks, i)
        == Prepend([TargetNode(read(toks[i].text).value, toks[i + 1..j])], ParseAt(read, toks, j))
  {
  }

  /** Any other token is passed through. */
  lemma ParseAtPlain(read: LineReader, toks: seq<Token>, i: nat)
    requires i < |toks| && !toks[i].Target?
    ensures ParseAt(read, toks, i) == Prepend([Plain(toks[i])], ParseAt(read, toks, i + 1))
  {
  }

  lemma PrependNothing(o: Option<seq<AstNode>>)
    ensures Prepend([], o) == o
  {
    if o.Some? {
      assert [] + o.value == o.value;
    }
  }

  lemma PrependAssoc(a: seq<AstNode>, b: seq<AstNode>, o: Option<seq<AstNode>>)
    ensures Prepend(a, Prepend(b, o)) == Prepend(a + b, o)
  {
    if o.Some? {
      assert a + (b + o.value) == (a + b) + o.value;
    }
  }

  /** The token an AST entry stands for, with the target text blanked out: a record
      keeps its header instead of its text. */
  function BlankText(tok: Token): Token {
    if tok.Target? then Target([]) else tok
  }

  function BlankAll(toks: seq<Token>): (r: seq<Token>)
    ensures |r| == |toks|
  {
    seq(|toks|, k requires 0 <= k < |toks| => BlankText(toks[k]))
  }

  /** The AST read back as a token stream: a record becomes a blank target followed by
      its body. */
  function Flatten(ast: seq<AstNode>): seq<Token> {
    if ast == [] then []
    else
      (match ast[0]
       case TargetNode(_, body) => [Target([])] + body
       case Plain(tok) => [tok]) + Flatten(ast[1..])
  }

  /** The headers of the records, in AST order. */
  function Headers(ast: seq<AstNode>): seq<Header> {
    if ast == [] then []
    else (if ast[0].TargetNode? then [ast[0].header] else []) + Headers(ast[1..])
  }

  /** An AST entry as `parse` can produce it: a record's body is made of commands; a
      passed-through token is never a target, and is not a command when it directly
      follows a record (bodies are maximal). */
  predicate EntryOk(ast: seq<AstNode>, n: nat)
    requires n < |ast|
  {
    match ast[n]
    case TargetNode(_, body) => forall m :: 0 <= m < |body| ==> body[m].Command?
    case Plain(tok) => !tok.Target? && (n > 0 && ast[n - 1].TargetNode? ==> !tok.Command?)
  }

  predicate WellFormed(ast: seq<AstNode>) {
    forall n :: 0 <= n < |ast| ==> EntryOk(ast, n)
  }

  /** Every target text from `i` on can be read. */
  predicate TargetsMatchFrom(read: LineReader, toks: seq<Token>, i: nat) {
    forall m :: i <= m < |toks| && toks[m].Target? ==> read(toks[m].text).Some?
  }

  /** The headers of the target tokens from `i` on that can be read, in stream order. */
  function HeadersFrom(read: LineReader, toks: seq<Token>, i: nat): seq<Header>
    requires i <= |toks|
    decreases |toks| - i
  {
    if i == |toks| then []
    else
      var rest := HeadersFrom(read, toks, i + 1);
      if toks[i].Target? && read(toks[i].text).Some?
      then [read(toks[i].text).value] + rest
      else rest
  }

  /** Parsing fails exactly when some target text does not match the pattern. */
  lemma {:induction false} ParseAtFails(read: LineReader, toks: seq<Token>, i: nat)
    requires i <= |toks|
    ensures ParseAt(read, toks, i).Some? <==> TargetsMatchFrom(read, toks, i)
    decreases |toks| - i
  {
    if i < |toks| {
      if toks[i].Target? && read(toks[i].text).Some? {
        var j := CommandEnd(toks, i + 1);
        ParseAtFails(read, toks, j);
      } else if !toks[i].Target? {
        ParseAtFails(read, toks, i + 1);
      }
    }
  }

  lemma BlankTarget(toks: seq<Token>, i: nat, j: nat)
    requires i < j <= |toks| && toks[i].Target?
    requires forall m :: i < m < j ==> toks[m].Command?
    ensures BlankAll(toks[i..]) == [Target([])] + toks[i + 1..j] + BlankAll(toks[j..])
  {
  }

  lemma BlankPlain(toks: seq<Token>, i: nat)
    requires i < |toks| && !toks[i].Target?
    ensures BlankAll(toks[i..]) == [toks[i]] + BlankAll(toks[i + 1..])
  {
  }

  lemma FlattenCons(x: AstNode, rest: seq<AstNode>)
    ensures Flatten([x] + rest) == Flatten([x]) + Flatten(rest)
  {
    assert ([x] + rest)[1..] == rest;
    assert [x][1..] == [];
  }

  /** The AST read back gives the token stream: no token is lost, duplicated or
      reordered, and only target texts are replaced (by their records). */
  lemma {:induction false} ParseAtFlatten(read: LineReader, toks: seq<Token>, i: nat)
    requires i <= |toks|
    requires ParseAt(read, toks, i).Some?
    ensures Flatten(ParseAt(read, toks, i).value) == BlankAll(toks[i..])
    decreases |toks| - i
  {
    if i < |toks| {
      var ast := ParseAt(read, toks, i).value;
      if toks[i].Target? {
        var h := read(toks[i].text).value;
        var j := CommandEnd(toks, i + 1);
        ParseAtFlatten(read, toks, j);
        var x := TargetNode(h, toks[i + 1..j]);
        FlattenCons(x, ParseAt(read, toks, j).value);
        assert Flatten([x]) == [Target([])] + toks[i + 1..j];
        BlankTarget(toks, i, j);
      } else {
        ParseAtFlatten(read, toks, i + 1);
        FlattenCons(Plain(toks[i]), ParseAt(read, toks, i + 1).value);
        BlankPlain(toks, i);
      }
    }
  }

  lemma WellFormedCons(x: AstNode, rest: seq<AstNode>)
    ensures WellFormed([x] + rest) <==>
      && EntryOk([x], 0)
      && WellFormed(rest)
      && (rest != [] && x.TargetNode? && rest[0].Plain? ==> !rest[0].token.Command?)
  {
    var ast := [x] + rest;
    assert forall n :: 0 <= n < |rest| ==> ast[n + 1] == rest[n];
    if WellFormed(ast) {
      assert EntryOk(ast, 0);
      forall n | 0 <= n < |rest| ensures EntryOk(rest, n) {
        assert EntryOk(ast, n + 1);
      }
      if rest != [] {
        assert EntryOk(ast, 1);
      }
    }
    if && EntryOk([x], 0)
       && WellFormed(rest)
       && (rest != [] && x.TargetNode? && rest[0].Plain? ==> !rest[0].token.Command?) {
      forall n | 0 <= n < |ast| ensures EntryOk(ast, n) {
        if n > 0 {
          assert EntryOk(rest, n - 1);
        }
      }
    }
  }

  /** `parse` produces well-formed ASTs, and the first entry stands for the first
      token. */
  lemma {:induction false} ParseAtWellFormed(read: LineReader, toks: seq<Token>, i: nat)
    requires i <= |toks|
    requires ParseAt(read, toks, i).Some?
    ensures WellFormed(ParseAt(read, toks, i).value)
    ensures var ast := ParseAt(read, toks, i).value;
      ast != [] ==> i < |toks| && (ast[0].Plain? ==> ast[0].token == toks[i])
    decreases |toks| - i
  {
    if i < |toks| {
      if toks[i].Target? {
        var h := read(toks[i].text).value;
        var j := CommandEnd(toks, i + 1);
        ParseAtWellFormed(read, toks, j);
        WellFormedCons(TargetNode(h, toks[i + 1..j]), ParseAt(read, toks, j).value);
      } else {
        ParseAtWellFormed(read, toks, i + 1);
        WellFormedCons(Plain(toks[i]), ParseAt(read, toks, i + 1).value);
      }
    }
  }

  lemma {:induction false} HeadersSkipCommands(read: LineReader, toks: seq<Token>, i: nat, j: nat)
    requires i <= j <= |toks|
    requires forall m :: i <= m < j ==> toks[m].Command?
    ensures HeadersFrom(read, toks, i) == HeadersFrom(read, toks, j)
    decreases j - i
  {
    if i < j {
      HeadersSkipCommand(read, toks, i);
      HeadersSkipCommands(read, toks, i + 1, j);
    }
  }

  lemma HeadersSkipCommand(read: LineReader, toks: seq<Token>, i: nat)
    requires i < |toks| && toks[i].Command?
    ensures HeadersFrom(read, toks, i) == HeadersFrom(read, toks, i + 1)
  {
  }

  lemma HeadersCons(x: AstNode, rest: seq<AstNode>)
    ensures Headers([x] + rest) == (if x.TargetNode? then [x.header] else []) + Headers(rest)
  {
    assert ([x] + rest)[1..] == rest;
  }

  /** One record per target token, in order, each holding that target's header. */
  lemma {:induction false} ParseAtHeaders(read: LineReader, toks: seq<Token>, i: nat)
    requires i <= |toks|
    requires ParseAt(read, toks, i).Some?
    ensures Headers(ParseAt(read, toks, i).value) == HeadersFrom(read, toks, i)
    decreases |toks| - i
  {
    if i < |toks| {
      if toks[i].Target? {
        var h := read(toks[i].text).value;
        var j := CommandEnd(toks, i + 1);
        ParseAtHeaders(read, toks, j);
        HeadersSkipCommands(read, toks, i + 1, j);
        HeadersCons(TargetNode(h, toks[i + 1..j]), ParseAt(read, toks, j).value);
      } else {
        ParseAtHeaders(read, toks, i + 1);
        HeadersCons(Plain(toks[i]), ParseAt(read, toks, i + 1).value);
      }
    }
  }

  /** Any well-formed AST that reads back as the token stream and carries the targets'
      headers in order is the one `parse` builds. */
  lemma {:induction false} ParseAtUnique(read: LineReader, toks: seq<Token>, i: nat, ast: seq<AstNode>)
    requires i <= |toks| && TargetsMatchFrom(read, toks, i)
    requires WellFormed(ast) && Flatten(ast) == BlankAll(toks[i..])
    requires Headers(ast) == HeadersFrom(read, toks, i)
    ensures ParseAt(read, toks, i) == Some(ast)
    decreases |ast|
  {
    if ast == [] {
      assert |toks[i..]| == 0;
    } else {
      var x, rest := ast[0], ast[1..];
      assert ast == [x] + rest;
      WellFormedCons(x, rest);
      HeadersCons(x, rest);
      match x
      case TargetNode(h, body) =>
        var j := TargetCase(read, toks, i, h, body, rest);
        ParseAtUnique(read, toks, j, rest);
      case Plain(tok) =>
        PlainStep(toks, i, tok, rest);
        assert HeadersFrom(read, toks, i) == HeadersFrom(read, toks, i + 1);
        ParseAtUnique(read, toks, i + 1, rest);
        assert ParseAt(read, toks, i) == Prepend([Plain(tok)], ParseAt(read, toks, i + 1));
    }
  }

  /** The record case of `ParseAtUnique`: what is left of the AST after the record is
      again a candidate for the rest of the stream. */
  lemma TargetCase(read: LineReader, toks: seq<Token>, i: nat, h: Header, body: seq<Token>, rest: seq<AstNode>)
    returns (j: nat)
    requires i <= |toks| && TargetsMatchFrom(read, toks, i)
    requires forall m :: 0 <= m < |body| ==> body[m].Command?
    requires rest != [] && rest[0].Plain? ==> !rest[0].token.Command?
    requires Flatten([TargetNode(h, body)] + rest) == BlankAll(toks[i..])
    requires [h] + Headers(rest) == HeadersFrom(read, toks, i)
    ensures i < j <= |toks| && TargetsMatchFrom(read, toks, j)
    ensures Flatten(rest) == BlankAll(toks[j..]) && Headers(rest) == HeadersFrom(read, toks, j)
    ensures ParseAt(read, toks, j) == Some(rest) ==> ParseAt(read, toks, i) == Some([TargetNode(h, body)] + rest)
  {
    j := TargetStep(toks, i, h, body, rest);
    var t := toks[i].text;
    assert read(t).Some?;
    HeadersSkipCommands(read, toks, i + 1, j);
    assert HeadersFrom(read, toks, i) == [read(t).value] + HeadersFrom(read, toks, j);
    assert ([h] + Headers(rest))[0] == h;
    assert h == read(t).value;
    assert Headers(rest) == ([h] + Headers(rest))[1..];
    assert ParseAt(read, toks, i) == Prepend([TargetNode(h, toks[i + 1..j])], ParseAt(read, toks, j));
  }

  lemma PlainStep(toks: seq<Token>, i: nat, tok: Token, rest: seq<AstNode>)
    requires i <= |toks| && !tok.Target?
    requires Flatten([Plain(tok)] + rest) == BlankAll(toks[i..])
    ensures i < |toks| && toks[i] == tok && Flatten(rest) == BlankAll(toks[i + 1..])
  {
    FlattenCons(Plain(tok), rest);
    assert [Plain(tok)][1..] == [];
    assert Flatten([Plain(tok)] + rest) == [tok] + Flatten(rest);
    assert BlankAll(toks[i..])[0] == BlankText(toks[i]);
    assert !toks[i].Target?;
    BlankPlain(toks, i);
    assert ([tok] + Flatten(rest))[1..] == Flatten(rest);
  }

  lemma TargetStep(toks: seq<Token>, i: nat, h: Header, body: seq<Token>, rest: seq<AstNode>)
    returns (j: nat)
    requires i <= |toks|
    requires forall m :: 0 <= m < |body| ==> body[m].Command?
    requires rest != [] && rest[0].Plain? ==> !rest[0].token.Command?
    requires Flatten([TargetNode(h, body)] + rest) == BlankAll(toks[i..])
    ensures j == i + 1 + |body| <= |toks| && toks[i].Target?
    ensures toks[i + 1..j] == body && CommandEnd(toks, i + 1) == j
    ensures Flatten(rest) == BlankAll(toks[j..])
  {
    var x := TargetNode(h, body);
    FlattenCons(x, rest);
    assert [x][1..] == [];
    var f := [Target([])] + body + Flatten(rest);
    assert Flatten([x] + rest) == f;
    assert f[0] == BlankText(toks[i]);
    assert toks[i].Target?;
    j := i + 1 + |body|;
    assert |f| == |toks| - i;
    assert forall m :: 0 <= m < |body| ==> f[m + 1] == body[m];
    assert forall m :: 0 <= m < |body| ==> toks[i + 1 + m] == body[m];
    assert toks[i + 1..j] == body;
    BlankTarget(toks, i, j);
    assert f[1 + |body|..] == Flatten(rest);
    NextNotCommand(toks, j, rest);
    CommandEndAt(toks, i + 1, j);
  }

  lemma NextNotCommand(toks: seq<Token>, j: nat, rest: seq<AstNode>)
    requires j <= |toks| && Flatten(rest) == BlankAll(toks[j..])
    requires rest != [] && rest[0].Plain? ==> !rest[0].token.Command?
    ensures !NextBelongsToTarget(toks, j)
  {
    if j < |toks| && rest != [] {
      FlattenCons(rest[0], rest[1..]);
      assert rest == [rest[0]] + rest[1..];
      assert Flatten(rest)[0] == BlankText(toks[j]);
    }
  }

  lemma {:induction false} CommandEndAt(toks: seq<Token>, i: nat, j: nat)
    requires i <= j <= |toks| && !NextBelongsToTarget(toks, j)
    requires forall m :: i <= m < j ==> toks[m].Command?
    ensures CommandEnd(toks, i) == j
    decreases j - i
  {
    if i < j {
      CommandEndAt(toks, i + 1, j);
    }
  }

  /** `parse` on a token stream, characterized: it succeeds exactly when every target
      text matches, and its AST is the unique well-formed one that reads back as the
      stream with the targets' headers in order. */
  lemma ParseCharacterized(toks: seq<Token>, ast: seq<AstNode>)
    ensures ParseAt(ParseTargetLine, toks, 0).Some? <==> TargetsMatchFrom(ParseTargetLine, toks, 0)
    ensures ParseAt(ParseTargetLine, toks, 0) == Some(ast) <==>
      && TargetsMatchFrom(ParseTargetLine, toks, 0)
      && WellFormed(ast)
      && Flatten(ast) == BlankAll(toks)
      && Headers(ast) == HeadersFrom(ParseTargetLine, toks, 0)
  {
    var read := ParseTargetLine;
    assert toks[0..] == toks;
    ParseAtFails(read, toks, 0);
    if ParseAt(read, toks, 0) == Some(ast) {
      ParseAtWellFormed(read, toks, 0);
      ParseAtFlatten(read, toks, 0);
      ParseAtHeaders(read, toks, 0);
    }
    if && TargetsMatchFrom(read, toks, 0) && WellFormed(ast)
       && Flatten(ast) == BlankAll(toks) && Headers(ast) == HeadersFrom(read, toks, 0) {
      ParseAtUnique(read, toks, 0, ast);
    }
  }

  /** A record takes the commands right after it; a command after an expression is
      passed through on its own, and a target with nothing after the `:` gets empty
      fields. */
  lemma StrayCommand(toks: seq<Token>)
    requires toks == [Target("t:"), Command("x"), Expression("e"), Command("y")]
    ensures ParseAt(ParseTargetLine, toks, 0) == Some([
      TargetNode(Header("t", [], [], ""), [Command("x")]),
      Plain(Expression("e")),
      Plain(Command("y"))])
  {
    EmptyTarget();
    assert ParseAt(ParseTargetLine, toks, 4) == Some([]);
    assert [Plain(Command("y"))] + [] == [Plain(Command("y"))];
    assert ParseAt(ParseTargetLine, toks, 3) == Some([Plain(Command("y"))]);
    assert [Plain(Expression("e"))] + [Plain(Command("y"))] == [Plain(Expression("e")), Plain(Command("y"))];
    assert ParseAt(ParseTargetLine, toks, 2) == Some([Plain(Expression("e")), Plain(Command("y"))]);
    assert [TargetNode(Header("t", [], [], ""), [Command("x")])] + [Plain(Expression("e")), Plain(Command("y"))]
      == [TargetNode(Header("t", [], [], ""), [Command("x")]), Plain(Expression("e")), Plain(Command("y"))];
    assert CommandEnd(toks, 1) == 2;
    assert toks[1..2] == [Command("x")];
    assert toks[0].text == "t:";
  }

  lemma EmptyTarget()
    ensures ParseTargetLine("t:") == Some(Header("t", [], [], ""))
  {
    var t := "t:";
    assert ColonFrom(t, 1) == Some(1);
    assert NameEnd(t) == Some(1);
    assert CutsAfter(t, 1) == Cuts(2, 2, 2, 2);
    assert DocGroup(t, 2) == [];
    assert GroupsAfter(t, 1) == Groups([], [], []);
    assert t[..1] == "t";
    assert Strip("t") == "t";
  }
}
