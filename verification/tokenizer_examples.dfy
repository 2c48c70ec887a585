/** The unit tests of back/eaf/src/tokenizer.rs, stated as lemmas: the
    bracket kinds at positions 1 and 3, and the token texts of the two
    `compare_tokens` cases. Each input is taken apart into whitespace gaps
    and words, and each word into the matches it is cut into; the theorem
    TokenizeWordPieces then gives the token texts. */
module TokenizerExamples {
  import opened Normalization
  import opened Tokenizer
  import opened TokenizerLemmas

  /** Spaced words, one word at a time. */
  lemma SpacedCons(gaps: seq<string>, ws: seq<string>)
    requires |gaps| == |ws| + 1 && |ws| > 0
    ensures Spaced(gaps, ws) == gaps[0] + ws[0] + Spaced(gaps[1..], ws[1..])
  {
  }

  /** TokenizeWordPieces for a text given as its gaps and words, with
      the expected token texts. */
  lemma TokenizeWords(raw: string, gaps: seq<string>, ws: seq<string>, pss: seq<seq<string>>, texts: seq<string>)
    requires Gaps(gaps, ws) && Spaced(gaps, ws) == raw
    requires AllWordPieces(ws, pss) && Flatten(pss) == texts
    ensures var t := Tokenize(raw);
      Texts(t, t.tokens) == texts
  {
    TokenizeWordPieces(gaps, ws, pss);
  }

  /** The texts of the bracket tests decide the kinds of tokens 1 and 3. */
  lemma BracketKinds(t: Tokenized, d: DelimKind)
    requires forall k :: 0 <= k < |t.tokens| ==> t.tokens[k].start <= t.tokens[k].end <= |t.source|
    requires forall k :: 0 <= k < |t.tokens| ==> t.tokens[k].kind == KindOf(AsStr(t, t.tokens[k]))
    requires Texts(t, t.tokens) == ["foo", [Opener(d)], "bar", [Closer(d)], "baz"]
    ensures |t.tokens| == 5 && t.tokens[1].kind == Open(d) && t.tokens[3].kind == Close(d)
  {
    TextsAt(t, t.tokens, 1);
    TextsAt(t, t.tokens, 3);
  }

  /** The three words of the bracket tests: foo, bar between the opener and
      the closer of d, and baz. */
  function BracketWords(d: DelimKind): seq<string> {
    ["foo", [Opener(d)] + "bar" + [Closer(d)], "baz"]
  }

  /** The bracketed word is cut into opener, bar and closer. */
  lemma CutBracketed(d: DelimKind)
    ensures WordPieces([Opener(d)] + "bar" + [Closer(d)], [[Opener(d)], "bar", [Closer(d)]])
  {
    var o, c := [Opener(d)], [Closer(d)];
    assert Concat([o, "bar", c]) == o + Concat(["bar", c]);
    assert Concat(["bar", c]) == "bar" + Concat([c]);
    assert Concat([c]) == c + Concat([]);
    assert IsBracket(o[0]) && IsBracket(c[0]) && IsPiece("bar");
    assert [o, "bar", c][1..] == ["bar", c] && ["bar", c][1..] == [c];
    assert Pieces([c]);
    assert Pieces(["bar", c]);
    assert Pieces([o, "bar", c]);
  }

  /** Each of the three words is cut into its matches. */
  lemma CutBracketWords(d: DelimKind)
    ensures AllWordPieces(BracketWords(d), [["foo"], [[Opener(d)], "bar", [Closer(d)]], ["baz"]])
  {
    var ws, pss := BracketWords(d), [["foo"], [[Opener(d)], "bar", [Closer(d)]], ["baz"]];
    CutBracketed(d);
    assert WordPieces("foo", ["foo"]) && WordPieces("baz", ["baz"]);
    assert AllWordPieces(ws[2..], pss[2..]);
    assert AllWordPieces(ws[1..], pss[1..]);
  }

  /** The bracket tests (tokenizer.rs:115-134) for each kind of bracket and
      any whitespace around and between the three words: the tokens are
      foo, the opener, bar, the closer and baz, so token 1 opens and token
      3 closes a span of that kind. */
  lemma BracketedWord(d: DelimKind, gaps: seq<string>)
    requires Gaps(gaps, BracketWords(d))
    ensures var t := Tokenize(Spaced(gaps, BracketWords(d)));
      && Texts(t, t.tokens) == ["foo", [Opener(d)], "bar", [Closer(d)], "baz"]
      && |t.tokens| == 5 && t.tokens[1].kind == Open(d) && t.tokens[3].kind == Close(d)
  {
    var raw := Spaced(gaps, BracketWords(d));
    var pss := [["foo"], [[Opener(d)], "bar", [Closer(d)]], ["baz"]];
    CutBracketWords(d);
    TokenizeWordPieces(gaps, BracketWords(d), pss);
    assert Flatten(pss) == ["foo"] + Flatten(pss[1..]);
    assert Flatten(pss[1..]) == [[Opener(d)], "bar", [Closer(d)]] + Flatten(pss[2..]);
    assert Flatten(pss[2..]) == ["baz"] + Flatten(pss[3..]);
    TokenizeOrdered(raw);
    TokenizeKindOfText(raw);
    BracketKinds(Tokenize(raw), d);
  }

  /** `tokenize_square_brackets` (tokenizer.rs:115-120), on an input with
      irregular whitespace: tabs, a newline and runs of spaces change
      nothing. */
  lemma SquareBrackets()
    ensures var t := Tokenize("  foo \t[bar]  baz\n");
      && Texts(t, t.tokens) == ["foo", "[", "bar", "]", "baz"]
      && |t.tokens| == 5 && t.tokens[1].kind == Open(Square) && t.tokens[3].kind == Close(Square)
  {
    var gaps := ["  ", " \t", "  ", "\n"];
    assert Spaced(gaps, BracketWords(Square)) == "  foo \t[bar]  baz\n";
    BracketedWord(Square, gaps);
  }

  /** `tokenize_round_brackets` (tokenizer.rs:122-127). */
  lemma RoundBrackets()
    ensures var t := Tokenize("foo (bar) baz");
      && Texts(t, t.tokens) == ["foo", "(", "bar", ")", "baz"]
      && |t.tokens| == 5 && t.tokens[1].kind == Open(Round) && t.tokens[3].kind == Close(Round)
  {
    var gaps := ["", " ", " ", ""];
    assert Spaced(gaps, BracketWords(Round)) == "foo (bar) baz";
    BracketedWord(Round, gaps);
  }

  /** `tokenize_angle_brackets` (tokenizer.rs:129-134). */
  lemma AngleBrackets()
    ensures var t := Tokenize("foo <bar> baz");
      && Texts(t, t.tokens) == ["foo", "<", "bar", ">", "baz"]
      && |t.tokens| == 5 && t.tokens[1].kind == Open(Angle) && t.tokens[3].kind == Close(Angle)
  {
    var gaps := ["", " ", " ", ""];
    assert Spaced(gaps, BracketWords(Angle)) == "foo <bar> baz";
    BracketedWord(Angle, gaps);
  }

  /** The two words of `compare_not_nice`, cut into matches. */
  lemma CutNotNice()
    ensures AllWordPieces(["foo][", "bar(baz).."], [["foo", "]", "["], ["bar", "(", "baz", ")", ".."]])
  {
    assert WordPieces("foo][", ["foo", "]", "["]);
    assert WordPieces("bar(baz)..", ["bar", "(", "baz", ")", ".."]);
  }

  /** `compare_not_nice` (tokenizer.rs:160-166): brackets split a word
      whether or not they balance, and a run of dots is one token. */
  lemma CompareNotNice()
    ensures var t := Tokenize("foo][ bar(baz)..");
      Texts(t, t.tokens) == ["foo", "]", "[", "bar", "(", "baz", ")", ".."]
  {
    var gaps, ws := ["", " ", ""], ["foo][", "bar(baz).."];
    var pss := [["foo", "]", "["], ["bar", "(", "baz", ")", ".."]];
    CutNotNice();
    assert Spaced(gaps, ws) == "foo][ bar(baz)..";
    assert Flatten(pss) == ["foo", "]", "[", "bar", "(", "baz", ")", ".."];
    TokenizeWordPieces(gaps, ws, pss);
  }

  /** The seven words of `compare_nice`: the single matches. */
  lemma CutNiceSingles()
    ensures WordPieces("čáp", ["čáp"]) && WordPieces("@", ["@"]) && WordPieces("..", [".."])
  {
  }

  /** The seven words of `compare_nice`: a bracket and a run. */
  lemma CutNicePairs()
    ensures WordPieces("[dřepí", ["[", "dřepí"]) && WordPieces("<SM", ["<", "SM"]) && WordPieces("v]", ["v", "]"])
  {
  }

  /** The seven words of `compare_nice`: the last one. */
  lemma CutNiceLast()
    ensures WordPieces("(louži>)", ["(", "louži", ">", ")"])
  {
  }

  /** Seven words between single spaces. */
  lemma SpacedSeven(a: string, b: string, c: string, d: string, e: string, f: string, g: string)
    ensures Spaced(["", " ", " ", " ", " ", " ", " ", ""], [a, b, c, d, e, f, g])
            == a + " " + b + " " + c + " " + d + " " + e + " " + f + " " + g
  {
    var gaps, ws := ["", " ", " ", " ", " ", " ", " ", ""], [a, b, c, d, e, f, g];
    SpacedCons(gaps, ws);
    SpacedCons(gaps[1..], ws[1..]);
    SpacedCons(gaps[2..], ws[2..]);
    SpacedCons(gaps[3..], ws[3..]);
    SpacedCons(gaps[4..], ws[4..]);
    SpacedCons(gaps[5..], ws[5..]);
    SpacedCons(gaps[6..], ws[6..]);
  }

  /** The input of `compare_nice`, word by word. */
  lemma NiceInput()
    ensures "čáp [dřepí @ <SM v] .. (louži>)"
            == "čáp" + " " + "[dřepí" + " " + "@" + " " + "<SM" + " " + "v]" + " " + ".." + " " + "(louži>)"
  {
  }

  /** The whitespace gaps of `compare_nice`: single spaces between the
      words. */
  function NiceGaps(): seq<string> {
    ["", " ", " ", " ", " ", " ", " ", ""]
  }

  /** The words of `compare_nice`. */
  function NiceWords(): seq<string> {
    ["čáp", "[dřepí", "@", "<SM", "v]", "..", "(louži>)"]
  }

  /** The matches each word of `compare_nice` is cut into. */
  function NicePieces(): seq<seq<string>> {
    [["čáp"], ["[", "dřepí"], ["@"], ["<", "SM"], ["v", "]"], [".."], ["(", "louži", ">", ")"]]
  }

  /** The words of `compare_nice`, each cut into matches. */
  lemma CutNice()
    ensures AllWordPieces(NiceWords(), NicePieces())
  {
    CutNiceSingles();
    CutNicePairs();
    CutNiceLast();
  }

  /** The input of `compare_nice` is its seven words between single
      spaces. */
  lemma NiceSpaced()
    ensures Gaps(NiceGaps(), NiceWords())
    ensures Spaced(NiceGaps(), NiceWords()) == "čáp [dřepí @ <SM v] .. (louži>)"
  {
    SpacedSeven("čáp", "[dřepí", "@", "<SM", "v]", "..", "(louži>)");
    NiceInput();
  }

  /** The matches of the words of `compare_nice`, in order. */
  lemma NiceFlatten()
    ensures Flatten(NicePieces())
            == ["čáp", "[", "dřepí", "@", "<", "SM", "v", "]", "..", "(", "louži", ">", ")"]
  {
    assert Flatten([["čáp"], ["[", "dřepí"], ["@"], ["<", "SM"], ["v", "]"], [".."], ["(", "louži", ">", ")"]])
           == ["čáp", "[", "dřepí", "@", "<", "SM", "v", "]", "..", "(", "louži", ">", ")"];
  }

  /** `compare_nice` (tokenizer.rs:151-158): brackets, an at sign, a run of
      dots and words with diacritics. */
  lemma CompareNice()
    ensures var t := Tokenize("čáp [dřepí @ <SM v] .. (louži>)");
      Texts(t, t.tokens) == ["čáp", "[", "dřepí", "@", "<", "SM", "v", "]", "..", "(", "louži", ">", ")"]
  {
    CutNice();
    NiceSpaced();
    NiceFlatten();
    TokenizeWords("čáp [dřepí @ <SM v] .. (louži>)", NiceGaps(), NiceWords(), NicePieces(),
                  ["čáp", "[", "dřepí", "@", "<", "SM", "v", "]", "..", "(", "louži", ">", ")"]);
  }
}
