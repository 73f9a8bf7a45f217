/** shell/tokenizer.c: splitting a command line into words. */
module Tokenizer {
  import opened Basics

  const N_MAX := 4096

  datatype Mode = Normal | SQuote | DQuote

  /** isspace of the C locale. */
  predicate IsSpace(c: char) {
    c == ' ' || c == '\t' || c == '\n' || c == '\r' || c == 11 as char || c == 12 as char
  }

  // ---------- the state machine as a function ----------

  /** Mode, characters of the open token, and tokens so far. */
  datatype State = State(mode: Mode, token: string, tokens: seq<string>)

  function Flush(st: State): State {
    if st.token == [] then st else st.(token := [], tokens := st.tokens + [st.token])
  }

  /** One character that is not a backslash. */
  function Plain(st: State, c: char): State {
    match st.mode
    case Normal =>
      if c == '\'' then st.(mode := SQuote)
      else if c == '"' then st.(mode := DQuote)
      else if IsSpace(c) then Flush(st)
      else st.(token := st.token + [c])
    case SQuote => if c == '\'' then st.(mode := Normal) else st.(token := st.token + [c])
    case DQuote => if c == '"' then st.(mode := Normal) else st.(token := st.token + [c])
  }

  /** The first step on a nonempty line, and how much of the line it takes. */
  function Step(st: State, line: string): (State, nat)
    requires line != []
  {
    if line[0] != '\\' then (Plain(st, line[0]), 1)
    else if |line| > 1 then (st.(token := st.token + [line[1]]), 2)
    else (st, 1)
  }

  /** The whole line; None where the source aborts. */
  function Scan(st: State, line: string): Option<State>
    decreases |line|
  {
    if line == [] then Some(st)
    else
      var (st', k) := Step(st, line);
      if |st'.token| + 1 >= N_MAX then None else Scan(st', line[k..])
  }

  const START := State(Normal, "", [])

  function Tokens(line: string): Option<seq<string>> {
    match Scan(START, line)
    case None => None
    case Some(st) => Some(Flush(st).tokens)
  }

  // ---------- the loop ----------

  /** Storing the character after a backslash, if there is one. */
  method Escape(line: string, i: nat, token: array<char>, n: nat) returns (i': nat, n': nat)
    requires i < |line| && n + 1 < token.Length
    modifies token
    ensures i + 1 < |line| ==> i' == i + 1 && n' == n + 1 && token[..n'] == old(token[..n]) + [line[i + 1]]
    ensures i + 1 == |line| ==> i' == i && n' == n && token[..n] == old(token[..n])
  {
    i', n' := i, n;
    if i + 1 < |line| {
      i' := i + 1;
      token[n] := line[i'];
      n' := n + 1;
    }
  }

  /** tokenize, tokenizer.c:27-98; None models abort(). */
  method Tokenize(line: string) returns (result: Option<seq<string>>)
    ensures result == Tokens(line)
  {
    var token := new char[N_MAX];
    var n, mode, i := 0, Normal, 0;
    var tokens: seq<string> := [];
    assert line[0..] == line;
    while i < |line|
      invariant 0 <= i <= |line| && 0 <= n && n + 1 < N_MAX
      invariant Scan(State(mode, token[..n], tokens), line[i..]) == Scan(START, line)
    {
      ghost var st, rest := State(mode, token[..n], tokens), line[i..];
      ghost var k := Step(st, rest).1;
      assert rest[0] == line[i] && (|rest| > 1 ==> rest[1] == line[i + 1]) && rest[k..] == line[i + k..];
      n, mode, i, tokens := OneChar(line, i, token, n, mode, tokens);
      hide Step;
      if n + 1 >= N_MAX {
        return None;
      }
    }
    assert line[i..] == [];
    if n > 0 {
      tokens := tokens + [token[..n]];
    }
    return Some(tokens);
  }

  /** The body of the loop, tokenizer.c:49-88, with the increment of i. */
  method OneChar(line: string, i: nat, token: array<char>, n: nat, mode: Mode, tokens: seq<string>)
    returns (n': nat, mode': Mode, i': nat, tokens': seq<string>)
    requires i < |line| && token.Length == N_MAX && n + 1 < N_MAX
    modifies token
    ensures var (st, k) := Step(State(mode, old(token[..n]), tokens), line[i..]);
      n' < N_MAX && State(mode', token[..n'], tokens') == st && i' == i + k
  {
    n', mode', i', tokens' := n, mode, i, tokens;
    var c := line[i];
    if mode.Normal? {
      if c == '\'' {
        mode' := SQuote;
      } else if c == '"' {
        mode' := DQuote;
      } else if c == '\\' {
        i', n' := Escape(line, i, token, n);
      } else if IsSpace(c) {
        if n > 0 {
          tokens' := tokens + [token[..n]];
          n' := 0;
        }
      } else {
        token[n] := c;
        n' := n + 1;
      }
    } else if mode.SQuote? {
      if c == '\'' {
        mode' := Normal;
      } else if c == '\\' {
        i', n' := Escape(line, i, token, n);
      } else {
        token[n] := c;
        n' := n + 1;
      }
    } else {
      if c == '"' {
        mode' := Normal;
      } else if c == '\\' {
        i', n' := Escape(line, i, token, n);
      } else {
        token[n] := c;
        n' := n + 1;
      }
    }
    i' := i' + 1;
  }

  // ---------- lines compose ----------

  /** The line ends in a backslash that escapes nothing. */
  predicate LiveBackslash(line: string)
    decreases |line|
  {
    line != [] && (if line[0] == '\\' then |line| == 1 || LiveBackslash(line[2..]) else LiveBackslash(line[1..]))
  }

  /** Scanning two pieces one after the other. */
  lemma {:induction false} ScanConcat(st: State, a: string, b: string)
    requires !LiveBackslash(a)
    ensures Scan(st, a + b) == match Scan(st, a) case None => None case Some(st') => Scan(st', b)
    decreases |a|
  {
    if a == [] {
      assert a + b == b;
    } else {
      var (st', k) := Step(st, a);
      assert (a + b)[0] == a[0] && (|a| > 1 ==> (a + b)[1] == a[1]) && (a + b)[k..] == a[k..] + b;
      assert Step(st, a + b) == (st', k);
      hide Step;
      if |st'.token| + 1 < N_MAX {
        ScanConcat(st', a[k..], b);
      }
    }
  }

  /** Tokens already found do not matter to the scan. */
  lemma {:induction false} ScanPrefix(st: State, line: string, before: seq<string>)
    ensures Scan(st.(tokens := before + st.tokens), line) ==
      match Scan(st, line) case None => None case Some(st') => Some(st'.(tokens := before + st'.tokens))
    decreases |line|
  {
    if line != [] {
      StepPrefix(st, line, before);
      hide Step;
      var (st', k) := Step(st, line);
      if |st'.token| + 1 < N_MAX {
        ScanPrefix(st', line[k..], before);
      }
    }
  }

  lemma StepPrefix(st: State, line: string, before: seq<string>)
    requires line != []
    ensures Step(st.(tokens := before + st.tokens), line) ==
      (Step(st, line).0.(tokens := before + Step(st, line).0.tokens), Step(st, line).1)
  {
    assert before + st.tokens + [st.token] == before + (st.tokens + [st.token]);
  }

  /** tokenize distributes over lines joined by a space, when the first one ends
      outside quotes and without a live trailing backslash. */
  lemma TokenizeDistributes(a: string, b: string)
    requires !LiveBackslash(a) && (Scan(START, a).Some? ==> Scan(START, a).value.mode.Normal?)
    ensures Tokens(a + " " + b) ==
      match (Tokens(a), Tokens(b)) case (Some(x), Some(y)) => Some(x + y) case _ => None
  {
    assert a + " " + b == a + (" " + b);
    ScanConcat(START, a, " " + b);
    match Scan(START, a)
    case None =>
    case Some(st) =>
      ScanConcat(st, " ", b);
      assert Step(st, " ") == (Flush(st), 1) && " "[1..] == "";
      assert Scan(st, " ") == Some(Flush(st));
      var done := Flush(st).tokens;
      assert Flush(st) == START.(tokens := done + START.tokens) by { assert done + [] == done; }
      ScanPrefix(START, b, done);
      match Scan(START, b)
      case None =>
      case Some(st') => assert done + (st'.tokens + [st'.token]) == done + st'.tokens + [st'.token];
  }

  /** No token is ever empty. */
  lemma {:induction false} NoEmptyToken(st: State, line: string)
    requires forall i :: 0 <= i < |st.tokens| ==> st.tokens[i] != []
    ensures Scan(st, line).Some? ==> forall i :: 0 <= i < |Flush(Scan(st, line).value).tokens| ==> Flush(Scan(st, line).value).tokens[i] != []
    decreases |line|
  {
    if line != [] {
      var (st', k) := Step(st, line);
      NoEmptyToken(st', line[k..]);
    }
  }

  // ---------- round trip ----------

  /** Every character backslash-escaped. */
  function Escaped(word: string): string {
    if word == [] then [] else ['\\', word[0]] + Escaped(word[1..])
  }

  function Joined(words: seq<string>): string {
    if words == [] then ""
    else if |words| == 1 then Escaped(words[0])
    else Escaped(words[0]) + " " + Joined(words[1..])
  }

  lemma {:induction false} EscapedScan(word: string, token: string)
    requires |token| + |word| <= N_MAX - 2
    ensures Scan(State(Normal, token, []), Escaped(word)) == Some(State(Normal, token + word, []))
    ensures !LiveBackslash(Escaped(word))
    decreases |word|
  {
    if word == [] {
      assert token + word == token;
    } else {
      var line := Escaped(word);
      assert line[0] == '\\' && line[1] == word[0] && line[2..] == Escaped(word[1..]);
      assert Step(State(Normal, token, []), line) == (State(Normal, token + [word[0]], []), 2);
      hide Step;
      EscapedScan(word[1..], token + [word[0]]);
      assert token + [word[0]] + word[1..] == token + word;
    }
  }

  /** Escaping and joining any nonempty words of at most 4094 characters, then
      tokenizing, gives the words back. */
  lemma {:induction false} RoundTrip(words: seq<string>)
    requires forall i :: 0 <= i < |words| ==> 1 <= |words[i]| <= 4094
    ensures Tokens(Joined(words)) == Some(words)
    decreases |words|
  {
    if words != [] {
      EscapedScan(words[0], "");
      assert "" + words[0] == words[0];
      var st := State(Normal, words[0], []);
      assert Scan(START, Escaped(words[0])) == Some(st);
      assert Flush(st).tokens == [words[0]];
      assert |words| == 1 ==> words == [words[0]];
      if |words| > 1 {
        RoundTrip(words[1..]);
        TokenizeDistributes(Escaped(words[0]), Joined(words[1..]));
        assert [words[0]] + words[1..] == words;
      }
    }
  }

  // ---------- what a line means ----------

  /** A character as typed: by itself or behind a backslash. */
  datatype Glyph = Raw(c: char) | Esc(c: char)

  /** A stretch of a word: bare or in quotes. */
  datatype Piece = Bare(glyphs: seq<Glyph>) | Single(glyphs: seq<Glyph>) | Double(glyphs: seq<Glyph>)

  const SPACES: string := [' ', '\t', '\n', 11 as char, 12 as char, '\r']

  predicate Blank(gap: string) {
    forall i :: 0 <= i < |gap| ==> gap[i] in SPACES
  }

  /** What may stand by itself: no backslash; no quote or space outside quotes, and not
      the closing quote inside. */
  predicate Allowed(piece: Piece, c: char) {
    && c != '\\'
    && match piece
       case Bare(_) => c != '\'' && c != '"' && c !in SPACES
       case Single(_) => c != '\''
       case Double(_) => c != '"'
  }

  predicate Legal(piece: Piece) {
    forall i :: 0 <= i < |piece.glyphs| && piece.glyphs[i].Raw? ==> Allowed(piece, piece.glyphs[i].c)
  }

  function Typed(glyphs: seq<Glyph>): string {
    if glyphs == [] then ""
    else (match glyphs[0] case Raw(c) => [c] case Esc(c) => ['\\', c]) + Typed(glyphs[1..])
  }

  function Chars(glyphs: seq<Glyph>): (r: string)
    ensures |r| == |glyphs| && forall i :: 0 <= i < |glyphs| ==> r[i] == glyphs[i].c
  {
    if glyphs == [] then "" else [glyphs[0].c] + Chars(glyphs[1..])
  }

  /** A word as typed: its pieces one after the other. */
  function Spelling(word: seq<Piece>): string {
    if word == [] then ""
    else
      (match word[0]
       case Bare(g) => Typed(g)
       case Single(g) => "'" + Typed(g) + "'"
       case Double(g) => "\"" + Typed(g) + "\"") + Spelling(word[1..])
  }

  /** The characters of a word. */
  function Meaning(word: seq<Piece>): string {
    if word == [] then "" else Chars(word[0].glyphs) + Meaning(word[1..])
  }

  function Meanings(words: seq<seq<Piece>>): (r: seq<string>)
    ensures |r| == |words| && forall i :: 0 <= i < |words| ==> r[i] == Meaning(words[i])
  {
    if words == [] then [] else [Meaning(words[0])] + Meanings(words[1..])
  }

  /** The words with gaps before, between and after them. */
  function Line(gaps: seq<string>, words: seq<seq<Piece>>): string
    requires |gaps| == |words| + 1
    decreases |words|
  {
    if words == [] then gaps[0] else gaps[0] + Spelling(words[0]) + Line(gaps[1..], words[1..])
  }

  function ModeOf(piece: Piece): Mode {
    match piece case Bare(_) => Normal case Single(_) => SQuote case Double(_) => DQuote
  }

  /** Typed characters go to the open token; past 4094 of them tokenize aborts. */
  lemma {:induction false} ScanGlyphs(piece: Piece, glyphs: seq<Glyph>, token: string, tokens: seq<string>, rest: string)
    requires forall i :: 0 <= i < |glyphs| && glyphs[i].Raw? ==> Allowed(piece, glyphs[i].c)
    requires |token| <= N_MAX - 2
    ensures var mode := ModeOf(piece);
      Scan(State(mode, token, tokens), Typed(glyphs) + rest) ==
      if |token| + |glyphs| <= N_MAX - 2 then Scan(State(mode, token + Chars(glyphs), tokens), rest) else None
    decreases |glyphs|
  {
    if glyphs == [] {
      assert Typed(glyphs) + rest == rest && token + Chars(glyphs) == token;
    } else {
      var mode, c, k := ModeOf(piece), glyphs[0].c, if glyphs[0].Raw? then 1 else 2;
      GlyphStep(piece, glyphs, token, tokens, rest);
      FirstChar(glyphs);
      hide Step, Scan, Chars, Typed, Allowed;
      ScanStep(State(mode, token, tokens), Typed(glyphs) + rest, State(mode, token + [c], tokens), k);
      if |token| + 1 <= N_MAX - 2 {
        ScanGlyphs(piece, glyphs[1..], token + [c], tokens, rest);
        Assoc(token, [c], Chars(glyphs[1..]));
      }
    }
  }

  lemma ScanStep(st: State, line: string, st': State, k: nat)
    requires line != [] && Step(st, line) == (st', k)
    ensures Scan(st, line) == if |st'.token| + 1 >= N_MAX then None else Scan(st', line[k..])
  {
    hide Step;
  }

  lemma FirstChar(glyphs: seq<Glyph>)
    requires glyphs != []
    ensures Chars(glyphs) == [glyphs[0].c] + Chars(glyphs[1..])
  {
  }

  lemma FirstGlyph(glyphs: seq<Glyph>, rest: string)
    requires glyphs != []
    ensures var tail := Typed(glyphs[1..]) + rest;
      Typed(glyphs) + rest == (if glyphs[0].Raw? then [glyphs[0].c] else ['\\', glyphs[0].c]) + tail
  {
    if glyphs[0].Raw? {
      Assoc([glyphs[0].c], Typed(glyphs[1..]), rest);
    } else {
      Assoc(['\\', glyphs[0].c], Typed(glyphs[1..]), rest);
    }
  }

  lemma GlyphStep(piece: Piece, glyphs: seq<Glyph>, token: string, tokens: seq<string>, rest: string)
    requires glyphs != [] && (glyphs[0].Raw? ==> Allowed(piece, glyphs[0].c))
    ensures var line, k := Typed(glyphs) + rest, if glyphs[0].Raw? then 1 else 2;
      && |line| >= k && line[k..] == Typed(glyphs[1..]) + rest
      && Step(State(ModeOf(piece), token, tokens), line) == (State(ModeOf(piece), token + [glyphs[0].c], tokens), k)
  {
    hide Step, Allowed, Typed;
    var tail := Typed(glyphs[1..]) + rest;
    FirstGlyph(glyphs, rest);
    if glyphs[0].Raw? {
      RawStep(piece, glyphs[0].c, token, tokens, tail);
    } else {
      EscStep(piece, glyphs[0].c, token, tokens, tail);
    }
  }

  lemma RawStep(piece: Piece, c: char, token: string, tokens: seq<string>, rest: string)
    requires Allowed(piece, c)
    ensures Step(State(ModeOf(piece), token, tokens), [c] + rest) == (State(ModeOf(piece), token + [c], tokens), 1)
  {
    NotSpace(c);
  }

  lemma EscStep(piece: Piece, c: char, token: string, tokens: seq<string>, rest: string)
    ensures Step(State(ModeOf(piece), token, tokens), ['\\', c] + rest) == (State(ModeOf(piece), token + [c], tokens), 2)
  {
  }

  lemma NotSpace(c: char)
    ensures IsSpace(c) <==> c in SPACES
  {
    assert SPACES == [' ', '\t', '\n', 11 as char, 12 as char, '\r'];
  }

  /** A quote only switches the mode. */
  lemma ScanQuote(q: char, before: Mode, after: Mode, token: string, tokens: seq<string>, rest: string)
    requires |token| <= N_MAX - 2
    requires (q == '\'' && (before, after) in {(Normal, SQuote), (SQuote, Normal)})
      || (q == '"' && (before, after) in {(Normal, DQuote), (DQuote, Normal)})
    ensures Scan(State(before, token, tokens), [q] + rest) == Scan(State(after, token, tokens), rest)
  {
    assert ([q] + rest)[1..] == rest;
  }

  /** One piece, with its quotes. */
  lemma ScanPiece(piece: Piece, token: string, tokens: seq<string>, rest: string)
    requires Legal(piece) && |token| <= N_MAX - 2
    ensures Scan(State(Normal, token, tokens), Spelling([piece]) + rest) ==
      if |token| + |piece.glyphs| <= N_MAX - 2 then Scan(State(Normal, token + Chars(piece.glyphs), tokens), rest) else None
  {
    hide Scan, Chars;
    assert Spelling([piece][1..]) == "";
    var g := piece.glyphs;
    match piece
    case Bare(_) =>
      assert Spelling([piece]) + rest == Typed(g) + rest;
      ScanGlyphs(piece, g, token, tokens, rest);
    case Single(_) =>
      assert Spelling([piece]) + rest == ['\''] + (Typed(g) + (['\''] + rest));
      ScanQuote('\'', Normal, SQuote, token, tokens, Typed(g) + (['\''] + rest));
      ScanGlyphs(piece, g, token, tokens, ['\''] + rest);
      if |token| + |g| <= N_MAX - 2 { ScanQuote('\'', SQuote, Normal, token + Chars(g), tokens, rest); }
    case Double(_) =>
      assert Spelling([piece]) + rest == ['"'] + (Typed(g) + (['"'] + rest));
      ScanQuote('"', Normal, DQuote, token, tokens, Typed(g) + (['"'] + rest));
      ScanGlyphs(piece, g, token, tokens, ['"'] + rest);
      if |token| + |g| <= N_MAX - 2 { ScanQuote('"', DQuote, Normal, token + Chars(g), tokens, rest); }
  }

  ghost predicate LegalWord(word: seq<Piece>) {
    forall i :: 0 <= i < |word| ==> Legal(word[i])
  }

  /** Adjacent pieces join into one token. */
  lemma {:induction false} ScanWord(word: seq<Piece>, token: string, tokens: seq<string>, rest: string)
    requires LegalWord(word) && |token| <= N_MAX - 2
    ensures Scan(State(Normal, token, tokens), Spelling(word) + rest) ==
      if |token| + |Meaning(word)| <= N_MAX - 2 then Scan(State(Normal, token + Meaning(word), tokens), rest) else None
    decreases |word|
  {
    if word == [] {
      assert Spelling(word) + rest == rest && token + Meaning(word) == token;
    } else {
      hide Scan, Chars, Legal, Spelling, Meaning;
      var g, tail := word[0].glyphs, Spelling(word[1..]) + rest;
      FirstPiece(word);
      Assoc(Spelling([word[0]]), Spelling(word[1..]), rest);
      ScanPiece(word[0], token, tokens, tail);
      CharsLength(g);
      if |token| + |g| <= N_MAX - 2 {
        ScanWord(word[1..], token + Chars(g), tokens, rest);
        Assoc(token, Chars(g), Meaning(word[1..]));
      }
    }
  }

  lemma FirstPiece(word: seq<Piece>)
    requires word != []
    ensures Spelling(word) == Spelling([word[0]]) + Spelling(word[1..])
    ensures Meaning(word) == Chars(word[0].glyphs) + Meaning(word[1..])
  {
    hide Typed, Chars;
    assert Spelling([word[0]][1..]) == "";
  }

  lemma CharsLength(glyphs: seq<Glyph>)
    ensures |Chars(glyphs)| == |glyphs|
  {
  }

  /** A gap closes the open token, if there is one. */
  lemma {:induction false} ScanGap(gap: string, st: State, rest: string)
    requires Blank(gap) && st.mode.Normal? && |st.token| <= N_MAX - 2
    ensures Scan(st, gap + rest) == Scan(if gap == "" then st else Flush(st), rest)
    decreases |gap|
  {
    if gap == "" {
      assert gap + rest == rest;
    } else {
      var line := gap + rest;
      assert line[0] == gap[0] && line[1..] == gap[1..] + rest;
      assert gap[0] in SPACES;
      assert Step(st, line) == (Flush(st), 1);
      hide Step;
      ScanGap(gap[1..], Flush(st), rest);
    }
  }

  /** All gaps are blank, and words are kept apart. */
  ghost predicate Spaced(gaps: seq<string>, words: seq<seq<Piece>>) {
    && |gaps| == |words| + 1
    && (forall i :: 0 <= i < |gaps| ==> Blank(gaps[i]))
    && (forall i :: 1 <= i < |words| ==> gaps[i] != "")
  }

  ghost predicate Wordly(words: seq<seq<Piece>>) {
    forall i :: 0 <= i < |words| ==> LegalWord(words[i]) && 1 <= |Meaning(words[i])| <= 4094
  }

  lemma {:induction false} ScanLine(gaps: seq<string>, words: seq<seq<Piece>>, st: State)
    requires Spaced(gaps, words) && Wordly(words) && st.mode.Normal? && |st.token| <= N_MAX - 2
    requires st.token != "" && words != [] ==> gaps[0] != ""
    ensures Scan(st, Line(gaps, words)).Some?
    ensures Flush(Scan(st, Line(gaps, words)).value).tokens == Flush(st).tokens + Meanings(words)
    decreases |words|
  {
    if words == [] {
      assert gaps[0] + "" == gaps[0];
      ScanGap(gaps[0], st, "");
      assert Flush(st).tokens + [] == Flush(st).tokens;
    } else {
      hide Scan, Meaning, LegalWord, Spelling, Blank;
      var rest := Line(gaps[1..], words[1..]);
      var st1 := if gaps[0] == "" then st else Flush(st);
      var word := Meaning(words[0]);
      Assoc(gaps[0], Spelling(words[0]), rest);
      SpacedTail(gaps, words);
      ScanGap(gaps[0], st, Spelling(words[0]) + rest);
      assert st1 == State(Normal, "", Flush(st).tokens);
      ScanWord(words[0], "", st1.tokens, rest);
      assert "" + word == word;
      ScanLine(gaps[1..], words[1..], State(Normal, word, st1.tokens));
      Assoc(st1.tokens, [word], Meanings(words[1..]));
    }
  }

  lemma SpacedTail(gaps: seq<string>, words: seq<seq<Piece>>)
    requires Spaced(gaps, words) && Wordly(words) && words != []
    ensures Spaced(gaps[1..], words[1..]) && Wordly(words[1..]) && (|words| > 1 ==> gaps[1..][0] != "")
    ensures LegalWord(words[0]) && 1 <= |Meaning(words[0])| <= N_MAX - 2
  {
    hide LegalWord, Meaning, Blank;
    forall i | 1 <= i < |words[1..]| ensures gaps[1..][i] != "" { assert gaps[1..][i] == gaps[i + 1]; }
  }

  /** A line of words, each made of bare and quoted pieces with any characters escaped,
      in any spacing, tokenizes to the words' characters. */
  lemma TokenizeLine(gaps: seq<string>, words: seq<seq<Piece>>)
    requires Spaced(gaps, words) && Wordly(words)
    ensures Tokens(Line(gaps, words)) == Some(Meanings(words))
  {
    hide Scan;
    ScanLine(gaps, words, START);
    assert Flush(START).tokens + Meanings(words) == Meanings(words);
  }

  /** A word of more than 4094 characters aborts, whatever follows. */
  lemma OverlongAborts(word: seq<Piece>, rest: string)
    requires LegalWord(word) && |Meaning(word)| > 4094
    ensures Tokens(Spelling(word) + rest) == None
  {
    hide Scan;
    ScanWord(word, "", [], rest);
  }

  function Raws(text: string): (r: seq<Glyph>)
    ensures |r| == |text| && forall i :: 0 <= i < |text| ==> r[i] == Raw(text[i])
  {
    if text == "" then [] else [Raw(text[0])] + Raws(text[1..])
  }

  lemma {:induction false} RawsTyped(text: string)
    ensures Typed(Raws(text)) == text && Chars(Raws(text)) == text
    decreases |text|
  {
    if text != "" {
      RawsTyped(text[1..]);
      assert Raws(text)[1..] == Raws(text[1..]);
    }
  }

  /** Single and double quotes around any text without the closing quote and backslash,
      spaces included, give that text as one token. */
  lemma QuotedText(text: string)
    requires 1 <= |text| <= 4094 && '\\' !in text
    ensures '\'' !in text ==> Tokens("'" + text + "'") == Some([text])
    ensures '"' !in text ==> Tokens("\"" + text + "\"") == Some([text])
  {
    if '\'' !in text { OnePiece(Single(Raws(text)), text); }
    if '"' !in text { OnePiece(Double(Raws(text)), text); }
  }

  /** A quote that is never closed runs to the end of the line. */
  lemma UnclosedQuote(text: string)
    requires 1 <= |text| <= 4094 && '\\' !in text
    ensures '\'' !in text ==> Tokens("'" + text) == Some([text])
    ensures '"' !in text ==> Tokens("\"" + text) == Some([text])
  {
    if '\'' !in text { OpenPiece(Single(Raws(text)), text); }
    if '"' !in text { OpenPiece(Double(Raws(text)), text); }
  }

  lemma OpenPiece(piece: Piece, text: string)
    requires !piece.Bare? && piece.glyphs == Raws(text) && Legal(piece) && 1 <= |text| <= N_MAX - 2
    ensures Tokens(Quote(piece) + text) == Some([text])
  {
    hide Chars, Raws, Typed, Step, Scan, Allowed;
    RawsTyped(text);
    CharsLength(piece.glyphs);
    var q := if piece.Single? then '\'' else '"';
    assert Quote(piece) + text == [q] + text;
    ScanQuote(q, Normal, ModeOf(piece), "", [], text);
    ScanGlyphs(piece, piece.glyphs, "", [], "");
    assert text + "" == text && "" + text == text;
    ScanEnd(State(ModeOf(piece), text, []));
    assert Scan(START, Quote(piece) + text) == Some(State(ModeOf(piece), text, []));
    assert Flush(State(ModeOf(piece), text, [])).tokens == [text];
  }

  lemma ScanEnd(st: State)
    ensures Scan(st, "") == Some(st)
  {
  }

  lemma {:induction false} ScanBound(st: State, line: string)
    requires |st.token| <= N_MAX - 2
    ensures Scan(st, line).Some? ==> |Scan(st, line).value.token| <= N_MAX - 2
    decreases |line|
  {
    if line != [] {
      hide Step;
      var (st', k) := Step(st, line);
      if |st'.token| <= N_MAX - 2 { ScanBound(st', line[k..]); }
    }
  }

  /** A backslash with nothing behind it is ignored. */
  lemma TrailingBackslash(line: string)
    requires !LiveBackslash(line)
    ensures Tokens(line + "\\") == Tokens(line)
  {
    ScanConcat(START, line, "\\");
    ScanBound(START, line);
    if Scan(START, line).Some? {
      var st := Scan(START, line).value;
      assert "\\"[1..] == "";
      assert Step(st, "\\") == (st, 1);
      assert Scan(st, "") == Some(st);
    }
  }

  /** An ordinary word is its own token. */
  lemma BareText(text: string)
    requires 1 <= |text| <= 4094
    requires forall i :: 0 <= i < |text| ==> text[i] !in SPACES && text[i] != '\'' && text[i] != '"' && text[i] != '\\'
    ensures Tokens(text) == Some([text])
  {
    OnePiece(Bare(Raws(text)), text);
    assert "" + text + "" == text;
  }

  function Quote(piece: Piece): string {
    match piece case Bare(_) => "" case Single(_) => "'" case Double(_) => "\""
  }

  lemma OnePiece(piece: Piece, text: string)
    requires piece.glyphs == Raws(text) && Legal(piece) && 1 <= |text| <= N_MAX - 2
    ensures Tokens(Quote(piece) + text + Quote(piece)) == Some([text])
  {
    hide Tokens, Legal, Line, Meanings, Spelling, Meaning, Spaced, Wordly, Blank;
    RawPiece(piece, text);
    OneWord([piece]);
    TokenizeLine(["", ""], [[piece]]);
  }

  lemma RawPiece(piece: Piece, text: string)
    requires piece.glyphs == Raws(text)
    ensures Spelling([piece]) == Quote(piece) + text + Quote(piece) && Meaning([piece]) == text
  {
    hide Typed, Chars, Raws;
    RawsTyped(text);
    assert [piece][1..] == [] && Meaning([]) == "" && Spelling([]) == "";
  }

  lemma OneWord(word: seq<Piece>)
    requires LegalWord(word) && 1 <= |Meaning(word)| <= N_MAX - 2
    ensures Line(["", ""], [word]) == Spelling(word) && Meanings([word]) == [Meaning(word)]
    ensures Spaced(["", ""], [word]) && Wordly([word])
  {
    hide Spelling, Meaning;
    assert ["", ""][1..] == [""] && [word][1..] == [];
    assert Line([""], []) == "";
    assert "" + Spelling(word) + "" == Spelling(word);
  }
}
