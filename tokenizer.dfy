/** The line classifier (`tokenizer` and its helper `glue_multiline` in
    make_profiler/parser.py): raw lines in, classified logical lines out. */
module Tokenizer {
  import opened Results
  import opened Text

  /** The source's `Tokens` enumeration, each token carrying its text. */
  datatype Token = Target(text: string) | Command(text: string) | Expression(text: string)

  /** How the first-match-wins rules of the tokenizer see one raw line. */
  datatype LineKind = Blank | Comment | CommandLine | TargetLineKind | ExpressionLine

  predicate StartsWith(s: string, p: string) {
    |p| <= |s| && s[..|p|] == p
  }

  /** The rules in the source's order: blank, comment (a trimmed `#` line unless the
      raw line starts with `##`), a raw leading tab, `:` without `=`, anything else. */
  function Classify(line: string): LineKind {
    var s := Strip(line);
    if s == [] then Blank
    else if s[0] == '#' && !StartsWith(line, "##") then Comment
    else if line[0] == '\t' then CommandLine
    else if ':' in line && '=' !in line then TargetLineKind
    else ExpressionLine
  }

  /** A line that carries on into the next one: non-blank, its trimmed form ends in `\`. */
  predicate Continues(line: string) {
    var s := Strip(line);
    s != [] && s[|s| - 1] == '\\'
  }

  /** A line that ends a logical line: non-blank, not ending in `\`. */
  predicate Ends(line: string) {
    var s := Strip(line);
    s != [] && s[|s| - 1] != '\\'
  }

  /** What one physical line contributes to a spliced logical line:
      `strip_line.rstrip('\\').strip()`. */
  function Piece(line: string): string {
    Strip(RStrip(Strip(line), Among({'\\'})))
  }

  function Pieces(lines: seq<string>): seq<string> {
    seq(|lines|, k requires 0 <= k < |lines| => Piece(lines[k]))
  }

  /** The first `m` lines all carry on into the next. */
  predicate ContinuedRun(lines: seq<string>, m: nat)
    requires m <= |lines|
  {
    forall k :: 0 <= k < m ==> Continues(lines[k])
  }

  /** `glue_multiline` on the logical line that starts at `lines[0]`: the pieces to be
      joined and the number of physical lines consumed, or `None` when the input ends
      while continuing (`next(it)` fails) or a continuation line is blank
      (`strip_line[-1]` fails). */
  function Glued(lines: seq<string>): (r: Option<(seq<string>, nat)>)
    ensures r.Some? ==> 1 <= r.value.1 <= |lines|
  {
    if lines == [] then None
    else
      var s := Strip(lines[0]);
      if s == [] then None
      else if s[|s| - 1] != '\\' then Some(([Piece(lines[0])], 1))
      else
        match Glued(lines[1..])
        case None => None
        case Some((ps, n)) => Some(([Piece(lines[0])] + ps, n + 1))
  }

  /** A splice already `skipped` lines and `pieces` deep, continued by `g`. */
  function Resume(pieces: seq<string>, skipped: nat, g: Option<(seq<string>, nat)>): Option<(seq<string>, nat)> {
    match g
    case None => None
    case Some((ps, n)) => Some((pieces + ps, skipped + n))
  }

  /** Prefix a list of tokens to a tokenizer outcome; a failure stays a failure. */
  function Then(toks: seq<Token>, rest: Option<seq<Token>>): Option<seq<Token>> {
    match rest
    case None => None
    case Some(ts) => Some(toks + ts)
  }

  /** What the tokenizer makes of the logical line that starts at `lines[0]`: the
      tokens it yields (none or one) and the number of physical lines it consumes. */
  function NextToken(lines: seq<string>): (r: Option<(seq<Token>, nat)>)
    requires lines != []
    ensures r.Some? ==> 1 <= r.value.1 <= |lines| && |r.value.0| <= 1
  {
    match Classify(lines[0])
    case Blank => Some(([], 1))
    case Comment => Some(([], 1))
    case CommandLine =>
      (match Glued(lines)
       case None => None
       case Some((ps, n)) => Some(([Command(Join(ps, " "))], n)))
    case TargetLineKind =>
      (match Glued(lines)
       case None => None
       case Some((ps, n)) => Some(([Target(Join(ps, " "))], n)))
    case ExpressionLine => Some(([Expression(StripSet(lines[0], Among({' ', ';', '\t'})))], 1))
  }

  /** The token stream of `tokenizer(lines)`, or `None` when the generator raises. */
  function Tokens(lines: seq<string>): Option<seq<Token>>
    decreases |lines|
  {
    if lines == [] then Some([])
    else
      match NextToken(lines)
      case None => None
      case Some((toks, n)) => Then(toks, Tokens(lines[n..]))
  }

  /** The spliced text of the logical line starting at `lines[i]` and the index of the
      next unread line, or `None` when splicing fails. */
  function Glue(lines: seq<string>, i: nat): Option<(string, nat)>
    requires i <= |lines|
  {
    match Glued(lines[i..])
    case None => None
    case Some((ps, n)) => Some((Join(ps, " "), i + n))
  }

  /** `glue_multiline(line)` where `line == lines[i]` was just read: it advances the shared
      cursor over the continuation lines and returns the spliced text together with the
      index of the next unread line. */
  method GlueMultiline(lines: seq<string>, i: nat) returns (r: Option<(string, nat)>)
    requires i < |lines|
    ensures r == Glue(lines, i)
  {
    var pieces: seq<string> := [];
    var k := i;
    var s := Strip(lines[k]);
    ResumeNothing(Glued(lines[i..]));
    while s != [] && s[|s| - 1] == '\\'
      invariant i <= k < |lines| && s == Strip(lines[k])
      invariant Glued(lines[i..]) == Resume(pieces, k - i, Glued(lines[k..]))
      decreases |lines| - k
    {
      GlueMore(lines, i, k, pieces);
      pieces := pieces + [Strip(RStrip(s, Among({'\\'})))];
      k := k + 1;
      if k == |lines| {
        GlueOutOfLines(lines, i, pieces);
        return None;
      }
      s := Strip(lines[k]);
    }
    GlueLast(lines, i, k, pieces);
    if s == [] {
      return None;
    }
    pieces := pieces + [Strip(RStrip(s, Among({'\\'})))];
    r := Some((Join(pieces, " "), k + 1));
    GlueFinal(lines, i, k, pieces);
  }

  /** The splice so far, continued by a line ending in `\`. */
  lemma GlueMore(lines: seq<string>, i: nat, k: nat, pieces: seq<string>)
    requires i <= k < |lines| && Continues(lines[k])
    requires Glued(lines[i..]) == Resume(pieces, k - i, Glued(lines[k..]))
    ensures Glued(lines[i..]) == Resume(pieces + [Piece(lines[k])], k + 1 - i, Glued(lines[k + 1..]))
  {
    GluedContinues(lines, k);
    ResumeStep(pieces, k - i, Piece(lines[k]), Glued(lines[k + 1..]));
  }

  /** The splice so far, when the input ends while it continues. */
  lemma GlueOutOfLines(lines: seq<string>, i: nat, pieces: seq<string>)
    requires i <= |lines|
    requires Glued(lines[i..]) == Resume(pieces, |lines| - i, Glued(lines[|lines|..]))
    ensures Glued(lines[i..]) == None
  {
    assert lines[|lines|..] == [];
  }

  lemma GlueFinal(lines: seq<string>, i: nat, k: nat, pieces: seq<string>)
    requires i <= k < |lines|
    requires Glued(lines[i..]) == Some((pieces, k + 1 - i))
    ensures Glue(lines, i) == Some((Join(pieces, " "), k + 1))
  {
  }

  /** The splice so far, ended by a line that does not continue. */
  lemma GlueLast(lines: seq<string>, i: nat, k: nat, pieces: seq<string>)
    requires i <= k < |lines| && !Continues(lines[k])
    requires Glued(lines[i..]) == Resume(pieces, k - i, Glued(lines[k..]))
    ensures Strip(lines[k]) == [] ==> Glued(lines[i..]) == None
    ensures Strip(lines[k]) != [] ==>
      Glued(lines[i..]) == Some((pieces + [Piece(lines[k])], k + 1 - i))
  {
    GluedStops(lines, k);
  }

  /** `tokenizer(lines)`, run to the end: the list of tokens it yields, or `None` when
      it raises. */
  method Tokenize(lines: seq<string>) returns (r: Option<seq<Token>>)
    ensures r == Tokens(lines)
  {
    var toks: seq<Token> := [];
    var i := 0;
    ThenNothing(Tokens(lines));
    assert lines[0..] == lines;
    while i < |lines|
      invariant 0 <= i <= |lines|
      invariant Tokens(lines) == Then(toks, Tokens(lines[i..]))
      decreases |lines| - i
    {
      var next := ReadToken(lines, i);
      if next.None? {
        return None;
      }
      var (emitted, j) := next.value;
      ThenAssoc(toks, emitted, Tokens(lines[j..]));
      toks := toks + emitted;
      i := j;
    }
    assert lines[i..] == [] && toks + [] == toks;
    r := Some(toks);
  }

  /** One pass of the tokenizer's loop: the rules applied to `lines[i]`, the tokens
      yielded (none or one) and the index of the next unread line. */
  method ReadToken(lines: seq<string>, i: nat) returns (r: Option<(seq<Token>, nat)>)
    requires i < |lines|
    ensures r.None? <==> NextToken(lines[i..]).None?
    ensures r.Some? ==> r.value.1 - i == NextToken(lines[i..]).value.1
                        && r.value.0 == NextToken(lines[i..]).value.0
    ensures r.None? ==> Tokens(lines[i..]) == None
    ensures r.Some? ==> i < r.value.1 <= |lines|
                        && Tokens(lines[i..]) == Then(r.value.0, Tokens(lines[r.value.1..]))
  {
    var line := lines[i];
    match Classify(line)
    case Blank =>
      TokensSkip(lines, i);
      r := Some(([], i + 1));
    case Comment =>
      TokensSkip(lines, i);
      r := Some(([], i + 1));
    case CommandLine =>
      var g := GlueMultiline(lines, i);
      TokensGlued(lines, i, g);
      if g.None? {
        return None;
      }
      r := Some(([Command(g.value.0)], g.value.1));
    case TargetLineKind =>
      var g := GlueMultiline(lines, i);
      TokensGlued(lines, i, g);
      if g.None? {
        return None;
      }
      r := Some(([Target(g.value.0)], g.value.1));
    case ExpressionLine =>
      TokensExpression(lines, i);
      r := Some(([Expression(StripSet(line, Among({' ', ';', '\t'})))], i + 1));
  }

  /** A continued line adds its piece and hands over to the next line. */
  lemma GluedContinues(lines: seq<string>, k: nat)
    requires k < |lines| && Continues(lines[k])
    ensures Glued(lines[k..]) == Resume([Piece(lines[k])], 1, Glued(lines[k + 1..]))
  {
    assert lines[k..][0] == lines[k] && lines[k..][1..] == lines[k + 1..];
  }

  /** A line that does not continue ends the splice, or fails it when blank. */
  lemma GluedStops(lines: seq<string>, k: nat)
    requires k < |lines| && !Continues(lines[k])
    ensures Strip(lines[k]) == [] ==> Glued(lines[k..]) == None
    ensures Strip(lines[k]) != [] ==> Glued(lines[k..]) == Some(([Piece(lines[k])], 1))
  {
    assert lines[k..][0] == lines[k];
  }

  /** A blank or comment line yields nothing. */
  lemma TokensSkip(lines: seq<string>, i: nat)
    requires i < |lines| && Classify(lines[i]) in {Blank, Comment}
    ensures Tokens(lines[i..]) == Tokens(lines[i + 1..])
  {
    assert lines[i..][0] == lines[i] && lines[i..][1..] == lines[i + 1..];
    ThenNothing(Tokens(lines[i + 1..]));
  }

  /** An expression line yields its text with spaces, tabs and `;` stripped. */
  lemma TokensExpression(lines: seq<string>, i: nat)
    requires i < |lines| && Classify(lines[i]) == ExpressionLine
    ensures Tokens(lines[i..])
      == Then([Expression(StripSet(lines[i], Among({' ', ';', '\t'})))], Tokens(lines[i + 1..]))
  {
    assert lines[i..][0] == lines[i] && lines[i..][1..] == lines[i + 1..];
  }

  /** A command or target line yields the spliced logical line and resumes after it. */
  lemma TokensGlued(lines: seq<string>, i: nat, g: Option<(string, nat)>)
    requires i < |lines| && Classify(lines[i]) in {CommandLine, TargetLineKind}
    requires g == Glue(lines, i)
    ensures g.None? ==> Tokens(lines[i..]) == None
    ensures g.Some? ==> i < g.value.1 <= |lines|
    ensures g.Some? && Classify(lines[i]) == CommandLine ==>
      Tokens(lines[i..]) == Then([Command(g.value.0)], Tokens(lines[g.value.1..]))
    ensures g.Some? && Classify(lines[i]) == TargetLineKind ==>
      Tokens(lines[i..]) == Then([Target(g.value.0)], Tokens(lines[g.value.1..]))
  {
    assert lines[i..][0] == lines[i];
    if g.Some? {
      assert lines[i..][g.value.1 - i..] == lines[g.value.1..];
    }
  }

  lemma ResumeNothing(g: Option<(seq<string>, nat)>)
    ensures Resume([], 0, g) == g
  {
    if g.Some? {
      assert [] + g.value.0 == g.value.0;
    }
  }

  lemma ResumeStep(pieces: seq<string>, skipped: nat, p: string, g: Option<(seq<string>, nat)>)
    ensures Resume(pieces, skipped, Resume([p], 1, g)) == Resume(pieces + [p], skipped + 1, g)
  {
    if g.Some? {
      assert pieces + ([p] + g.value.0) == (pieces + [p]) + g.value.0;
    }
  }

  lemma ThenNothing(t: Option<seq<Token>>)
    ensures Then([], t) == t
  {
    if t.Some? {
      assert [] + t.value == t.value;
    }
  }

  lemma ThenAssoc(a: seq<Token>, b: seq<Token>, t: Option<seq<Token>>)
    ensures Then(a, Then(b, t)) == Then(a + b, t)
  {
    if t.Some? {
      assert a + (b + t.value) == (a + b) + t.value;
    }
  }

  lemma PiecesCons(lines: seq<string>, n: nat)
    requires 1 <= n <= |lines|
    ensures Pieces(lines[..n]) == [Piece(lines[0])] + Pieces(lines[1..][..n - 1])
  {
  }

  lemma ContinuedRunCons(lines: seq<string>, m: nat)
    requires 1 <= m <= |lines|
    ensures ContinuedRun(lines, m) <==> Continues(lines[0]) && ContinuedRun(lines[1..], m - 1)
  {
    if Continues(lines[0]) && ContinuedRun(lines[1..], m - 1) {
      forall k | 0 <= k < m ensures Continues(lines[k]) {
        if k > 0 { assert lines[1..][k - 1] == lines[k]; }
      }
    }
    if ContinuedRun(lines, m) {
      forall k | 0 <= k < m - 1 ensures Continues(lines[1..][k]) {
        assert lines[1..][k] == lines[k + 1];
      }
    }
  }

  /** Continuation splicing, both ways: `glue_multiline` consumes exactly `n` lines and
      produces their pieces iff the first `n - 1` lines end in `\` and line `n` ends
      the logical line. */
  lemma {:induction false} GluedSpec(lines: seq<string>, n: nat)
    requires n <= |lines|
    ensures Glued(lines) == Some((Pieces(lines[..n]), n))
        <==> 1 <= n && ContinuedRun(lines, n - 1) && Ends(lines[n - 1])
    decreases |lines|
  {
    if n == 1 {
      PiecesCons(lines, 1);
      assert Pieces(lines[1..][..0]) == [];
      assert Pieces(lines[..1]) == [Piece(lines[0])];
      if Continues(lines[0]) && Glued(lines[1..]).Some? {
        assert Glued(lines).value.1 > 1;
      }
    }
    if 1 <= n {
      PiecesCons(lines, n);
      if n > 1 {
        GluedSpec(lines[1..], n - 1);
        ContinuedRunCons(lines, n - 1);
        assert lines[1..][n - 2] == lines[n - 1];
        var p := Piece(lines[0]);
        var rest := Pieces(lines[1..][..n - 1]);
        if Continues(lines[0]) && Glued(lines[1..]).Some? {
          var (ps, m) := Glued(lines[1..]).value;
          assert Glued(lines) == Some(([p] + ps, m + 1));
          assert ([p] + ps)[1..] == ps && ([p] + rest)[1..] == rest;
        }
      }
    }
  }

  /** Continuation splicing fails exactly when the input ends, or a blank line comes,
      while the lines so far all carry on. */
  lemma {:induction false} GluedFails(lines: seq<string>)
    ensures Glued(lines).None?
        <==> exists m :: 0 <= m <= |lines| && ContinuedRun(lines, m) && (m == |lines| || Strip(lines[m]) == [])
    decreases |lines|
  {
    if lines == [] || Strip(lines[0]) == [] {
      assert ContinuedRun(lines, 0);
    } else if !Continues(lines[0]) {
      forall m | 0 <= m <= |lines| && ContinuedRun(lines, m)
        ensures !(m == |lines| || Strip(lines[m]) == [])
      {
      }
    } else {
      GluedFails(lines[1..]);
      if Glued(lines[1..]).None? {
        var m :| 0 <= m <= |lines[1..]| && ContinuedRun(lines[1..], m)
          && (m == |lines[1..]| || Strip(lines[1..][m]) == []);
        ContinuedRunCons(lines, m + 1);
      } else {
        forall m | 0 <= m <= |lines| && ContinuedRun(lines, m)
          ensures !(m == |lines| || Strip(lines[m]) == [])
        {
          if m > 0 {
            ContinuedRunCons(lines, m);
            assert lines[1..][m - 1] == lines[m];
          }
        }
      }
    }
  }

  lemma {:induction false} GluedAppend(a: seq<string>, b: seq<string>)
    requires Glued(a).Some?
    ensures Glued(a + b) == Glued(a)
    decreases |a|
  {
    assert (a + b)[0] == a[0];
    var s := Strip(a[0]);
    if s[|s| - 1] == '\\' {
      assert (a + b)[1..] == a[1..] + b;
      GluedAppend(a[1..], b);
    }
  }

  lemma NextTokenAppend(a: seq<string>, b: seq<string>)
    requires a != [] && NextToken(a).Some?
    ensures NextToken(a + b) == NextToken(a)
  {
    assert (a + b)[0] == a[0];
    if Classify(a[0]) in {CommandLine, TargetLineKind} {
      GluedAppend(a, b);
    }
  }

  /** Tokenizing two blocks of lines one after the other gives the two token streams
      one after the other, provided the first block does not end in the middle of a
      continuation. This is what makes the caller's stitching of included files into
      one stream harmless. */
  lemma {:induction false} TokensAppend(a: seq<string>, b: seq<string>)
    requires Tokens(a).Some?
    ensures Tokens(a + b) == Then(Tokens(a).value, Tokens(b))
    decreases |a|
  {
    if a == [] {
      assert a + b == b;
      ThenNothing(Tokens(b));
    } else {
      NextTokenAppend(a, b);
      var (toks, n) := NextToken(a).value;
      assert (a + b)[n..] == a[n..] + b;
      TokensAppend(a[n..], b);
      ThenAssoc(toks, Tokens(a[n..]).value, Tokens(b));
    }
  }

  /** A comment line is skipped even when it is tab-indented. */
  lemma TabIndentedComment()
    ensures Tokens(["\t# x"]) == Some([])
  {
    var line := "\t# x";
    assert IsSpace(line[0]) && !IsSpace(line[1]) && !IsSpace(line[3]);
    assert LStrip(line, Spaces) == line[1..];
    assert RStrip(line[1..], Spaces) == line[1..];
    assert Strip(line) == "# x";
    assert line[..2] != "##";
    assert Classify(line) == Comment;
    assert NextToken([line]) == Some(([], 1));
    var ls: seq<string> := [line];
    assert ls[1..] == [];
    assert Tokens(ls[1..]) == Some([]);
    assert Tokens(ls) == Then([], Tokens(ls[1..]));
    ThenNothing(Tokens(ls[1..]));
    assert ls == ["\t# x"];
  }
}
