/** The character-by-character tokenizer of back/eaf/src/lib.rs: a four-state
    machine over the normalised segment text that records Word,
    bracket, AtSign and UnexpectedChar tokens. Offsets are character
    indices. */
module StateTokenizer {
  import opened Normalization

  datatype TokenKind =
    | Word
    | OpenRound | CloseRound
    | OpenSquare | CloseSquare
    | OpenAngle | CloseAngle
    | OpenCurly | CloseCurly
    | AtSign | Ampersand | Dot | DoubleDot | Count
    | UnexpectedChar

  datatype Token = Token(kind: TokenKind, start: nat, end: nat)

  /** A segment: its normalised text and the tokens found in it so far. */
  datatype Segment = Segment(tokens: seq<Token>, text: string)

  datatype TokenizingState = Whitespace | InsideToken | OpenDelim | CloseDelim

  /** The machine: the segment being built, the current state, where the
      word being read started, and the characters that make up words. */
  datatype Tokenizer = Tokenizer(
    segment: Segment,
    state: TokenizingState,
    currTokStart: nat,
    wordChars: string)

  /** `Segment::push_token`, for the tokens one handler pushes, in order. */
  function PushTokens(seg: Segment, toks: seq<Token>): (r: Segment)
    ensures r.text == seg.text
  {
    seg.(tokens := seg.tokens + toks)
  }

  /** `Tokenizer::new` without the special tokens: no tokens, state
      Whitespace, word start 0. The word characters are kept as the
      string they came from; membership in it is membership in the set
      the source builds from it. */
  function New(text: string, wordChars: string): Tokenizer {
    Tokenizer(Segment([], text), Whitespace, 0, wordChars)
  }

  /** What a handler does to the tokenizer: the tokens it pushes, the word
      start it leaves behind and the state it returns. */
  datatype Effect = Effect(pushed: seq<Token>, wordStart: nat, next: TokenizingState)

  /** A token one character wide at index. */
  function Unit(kind: TokenKind, index: nat): Token {
    Token(kind, index, index + 1)
  }

  /** What every handler does when reading chr at index: at most two tokens
      pushed, each Fresh, a Word only first; the word start kept or moved
      to index; a next state that fits chr. */
  ghost predicate Sound(e: Effect, wordStart: nat, index: nat, chr: char, wc: string) {
    && |e.pushed| <= 2
    && (forall k :: 0 <= k < |e.pushed| ==> Fresh(e.pushed[k], wordStart, index, chr, wc))
    && (|e.pushed| == 2 ==> e.pushed[1].kind != Word)
    && (e.wordStart == wordStart || e.wordStart == index)
    && EndsIn(e.next, chr)
  }

  /** A token pushed while reading chr at index: a Word from the recorded
      start to index, ended by a character that is not a word character;
      any other kind one character wide at index, a bracket or AtSign only
      for its own character. */
  ghost predicate Fresh(tok: Token, wordStart: nat, index: nat, chr: char, wc: string) {
    match tok.kind
    case Word => tok.start == wordStart && tok.end == index && chr !in wc
    case OpenSquare => tok == Unit(OpenSquare, index) && chr == '['
    case CloseSquare => tok == Unit(CloseSquare, index) && chr == ']'
    case AtSign => tok == Unit(AtSign, index) && chr == '@'
    case UnexpectedChar => tok == Unit(UnexpectedChar, index)
    case _ => false
  }

  /** Which characters lead into each state: whitespace into Whitespace,
      '[' into OpenDelim, ']' into CloseDelim. */
  ghost predicate EndsIn(st: TokenizingState, c: char) {
    && (st == Whitespace ==> IsSpace(c))
    && (st == OpenDelim ==> c == '[')
    && (st == CloseDelim ==> c == ']')
  }

  /** `leave_whitespace` (lib.rs:130-151): the character after a space or at
      the start of the text. '[' and '@' are checked before whitespace and
      word characters. No Word is pushed, since none is open. */
  function LeaveWhitespace(wc: string, wordStart: nat, index: nat, chr: char): (e: Effect)
    ensures Sound(e, wordStart, index, chr, wc)
    ensures |e.pushed| <= 1 && (e.pushed != [] ==> e.pushed[0].kind != Word)
    ensures e.next == OpenDelim <==> chr == '['
    ensures e.next == Whitespace <==> e.pushed == [] && IsSpace(chr)
    ensures e.next != CloseDelim
    // the transition for each class of character, in the order tested
    ensures chr == '[' ==> e == Effect([Unit(OpenSquare, index)], wordStart, OpenDelim)
    ensures chr == '@' ==> e == Effect([Unit(AtSign, index)], wordStart, InsideToken)
    ensures chr != '[' && chr != '@' && IsSpace(chr) ==> e == Effect([], wordStart, Whitespace)
    ensures chr != '[' && chr != '@' && !IsSpace(chr) && chr in wc ==>
              e == Effect([], index, InsideToken)
    ensures chr != '[' && chr != '@' && !IsSpace(chr) && chr !in wc ==>
              e == Effect([Unit(UnexpectedChar, index)], wordStart, InsideToken)
  {
    if chr == '[' then Effect([Unit(OpenSquare, index)], wordStart, OpenDelim)
    else if chr == '@' then Effect([Unit(AtSign, index)], wordStart, InsideToken)
    else if IsSpace(chr) then Effect([], wordStart, Whitespace)
    else if chr in wc then Effect([], index, InsideToken)
    else Effect([Unit(UnexpectedChar, index)], wordStart, InsideToken)
  }

  /** `leave_inside_token` (lib.rs:153-170): a word character continues the
      word; anything else closes it with a Word token from the recorded
      start, whichever handler recorded it. */
  function LeaveInsideToken(wc: string, wordStart: nat, index: nat, chr: char): (e: Effect)
    ensures Sound(e, wordStart, index, chr, wc)
    ensures chr in wc <==> e == Effect([], wordStart, InsideToken)
    ensures chr !in wc ==> |e.pushed| >= 1 && e.pushed[0] == Token(Word, wordStart, index)
    ensures e.next == CloseDelim <==> chr !in wc && chr == ']'
    ensures e.next != OpenDelim
    // after the Word, each class of non-word character, in the order tested
    ensures chr !in wc && chr == ']' ==>
              e == Effect([Token(Word, wordStart, index), Unit(CloseSquare, index)], wordStart, CloseDelim)
    ensures chr !in wc && chr != ']' && IsSpace(chr) ==>
              e == Effect([Token(Word, wordStart, index)], wordStart, Whitespace)
    ensures chr !in wc && chr != ']' && !IsSpace(chr) ==>
              e == Effect([Token(Word, wordStart, index), Unit(UnexpectedChar, index)], wordStart, InsideToken)
  {
    if chr in wc then Effect([], wordStart, InsideToken)
    else
      var word := Token(Word, wordStart, index);
      if chr == ']' then Effect([word, Unit(CloseSquare, index)], wordStart, CloseDelim)
      else if IsSpace(chr) then Effect([word], wordStart, Whitespace)
      else Effect([word, Unit(UnexpectedChar, index)], wordStart, InsideToken)
  }

  /** `leave_open_delim` (lib.rs:172-188): after '[' only '@' or a word
      character is expected; anything else, whitespace included, is
      unexpected, and the machine always goes on as inside a token. */
  function LeaveOpenDelim(wc: string, wordStart: nat, index: nat, chr: char): (e: Effect)
    ensures Sound(e, wordStart, index, chr, wc)
    ensures e.next == InsideToken
    ensures e.pushed == [] <==> chr != '@' && chr in wc
    ensures e.pushed != [] ==> |e.pushed| == 1 && e.pushed[0].kind != Word
    // each class of character, in the order tested
    ensures chr == '@' ==> e == Effect([Unit(AtSign, index)], wordStart, InsideToken)
    ensures chr != '@' && chr in wc ==> e == Effect([], index, InsideToken)
    ensures chr != '@' && chr !in wc ==> e == Effect([Unit(UnexpectedChar, index)], wordStart, InsideToken)
  {
    if chr == '@' then Effect([Unit(AtSign, index)], wordStart, InsideToken)
    else if chr in wc then Effect([], index, InsideToken)
    else Effect([Unit(UnexpectedChar, index)], wordStart, InsideToken)
  }

  /** `leave_close_delim` (lib.rs:190-199): after ']' only whitespace is
      expected; anything else, word characters included, is unexpected and
      does not record a word start. */
  function LeaveCloseDelim(wc: string, wordStart: nat, index: nat, chr: char): (e: Effect)
    ensures Sound(e, wordStart, index, chr, wc)
    ensures e.wordStart == wordStart
    ensures e.next == Whitespace <==> IsSpace(chr)
    ensures e.next == Whitespace ==> e.pushed == []
    ensures e.next != Whitespace ==> e.next == InsideToken && e.pushed == [Unit(UnexpectedChar, index)]
  {
    if IsSpace(chr) then Effect([], wordStart, Whitespace)
    else Effect([Unit(UnexpectedChar, index)], wordStart, InsideToken)
  }

  /** The handler the current state selects, as in the `match` of
      `Tokenizer::tokenize`. A Word is pushed only from InsideToken. */
  function Handle(t: Tokenizer, index: nat, chr: char): (e: Effect)
    ensures Sound(e, t.currTokStart, index, chr, t.wordChars)
    ensures t.state != InsideToken ==> e.pushed == [] || e.pushed[0].kind != Word
  {
    match t.state
    case Whitespace => LeaveWhitespace(t.wordChars, t.currTokStart, index, chr)
    case InsideToken => LeaveInsideToken(t.wordChars, t.currTokStart, index, chr)
    case OpenDelim => LeaveOpenDelim(t.wordChars, t.currTokStart, index, chr)
    case CloseDelim => LeaveCloseDelim(t.wordChars, t.currTokStart, index, chr)
  }

  /** One iteration of the loop in `Tokenizer::tokenize`: run the handler,
      then store the state it returns. */
  function Step(t: Tokenizer, index: nat, chr: char): Tokenizer {
    var e := Handle(t, index, chr);
    Tokenizer(PushTokens(t.segment, e.pushed), e.next, e.wordStart, t.wordChars)
  }

  /** The machine after the first n characters of text. */
  function Run(text: string, wordChars: string, n: nat): Tokenizer
    requires n <= |text|
  {
    if n == 0 then New(text, wordChars)
    else Step(Run(text, wordChars, n - 1), n - 1, text[n - 1])
  }

  /** `Tokenizer::tokenize`: collapse whitespace runs to one space, trim,
      then run the machine over every character. A word still open at the
      end of the text is not recorded. */
  function Tokenize(text: string, wordChars: string): Segment {
    var normalized := CollapseThenTrim(text);
    Run(normalized, wordChars, |normalized|).segment
  }

  /** The fold of `Tokenizer::tokenize` over the characters of the
      normalised text, one character per iteration. */
  method RunLoop(text: string, wordChars: string) returns (t: Tokenizer)
    ensures t == Run(text, wordChars, |text|)
    ensures Inv(text, wordChars, t, |text|)
  {
    t := New(text, wordChars);
    var i := 0;
    while i < |text|
      invariant i <= |text|
      invariant t == Run(text, wordChars, i)
      invariant Inv(text, wordChars, t, i)
    {
      StepInv(text, wordChars, t, i);
      t := Step(t, i, text[i]);
      i := i + 1;
    }
  }

  /** `Tokenizer::tokenize` as written: normalise, then the loop. */
  method TokenizeLoop(text: string, wordChars: string) returns (seg: Segment)
    ensures seg == Tokenize(text, wordChars)
    ensures seg.text == Normalize(text)
    ensures WellFormed(seg.text, wordChars, seg.tokens, |seg.text|)
  {
    var normalized := CollapseThenTrim(text);
    CollapseThenTrimAgrees(text);
    var t := RunLoop(normalized, wordChars);
    seg := t.segment;
  }

  /** What every recorded token satisfies: in bounds, one of the five kinds
      the machine produces; a bracket or AtSign one character wide over its
      own character, an UnexpectedChar one character wide, and a Word ending
      just before a character that is not a word character. */
  ghost predicate TokenOk(text: string, wc: string, tok: Token) {
    && tok.start < tok.end <= |text|
    && match tok.kind
       case Word => tok.end < |text| && text[tok.end] !in wc
       case OpenSquare => tok.end == tok.start + 1 && text[tok.start] == '['
       case CloseSquare => tok.end == tok.start + 1 && text[tok.start] == ']'
       case AtSign => tok.end == tok.start + 1 && text[tok.start] == '@'
       case UnexpectedChar => tok.end == tok.start + 1
       case _ => false
  }

  /** The tokens recorded from the first n characters: each well formed
      and ending by n, with ends in non-decreasing order. */
  ghost predicate WellFormed(text: string, wc: string, ts: seq<Token>, n: nat) {
    && (forall k :: 0 <= k < |ts| ==> TokenOk(text, wc, ts[k]) && ts[k].end <= n)
    && (forall k :: 0 < k < |ts| ==> ts[k - 1].end <= ts[k].end)
  }

  /** The state agrees with the last character read. */
  ghost predicate StateFits(text: string, n: nat, st: TokenizingState)
    requires n <= |text|
  {
    if n == 0 then st == Whitespace else EndsIn(st, text[n - 1])
  }

  /** The invariant of the loop after n characters. */
  ghost predicate Inv(text: string, wc: string, t: Tokenizer, n: nat) {
    && n <= |text|
    && t.segment.text == text
    && t.wordChars == wc
    && t.currTokStart <= n
    && (t.state == InsideToken ==> t.currTokStart < n)
    && StateFits(text, n, t.state)
    && WellFormed(text, wc, t.segment.tokens, n)
  }

  /** Appending tokens pushed at index by a sound handler to well-formed
      tokens ending by index keeps them well formed, ending by index + 1,
      provided a pushed Word started before index. */
  lemma WellFormedExtend(text: string, wc: string, ts: seq<Token>, e: Effect, wordStart: nat, index: nat)
    requires index < |text| && WellFormed(text, wc, ts, index)
    requires Sound(e, wordStart, index, text[index], wc)
    requires e.pushed != [] && e.pushed[0].kind == Word ==> wordStart < index
    ensures WellFormed(text, wc, ts + e.pushed, index + 1)
  {
    var us := ts + e.pushed;
    forall k | 0 <= k < |us|
      ensures TokenOk(text, wc, us[k]) && us[k].end <= index + 1
    {
      if k < |ts| {
        assert us[k] == ts[k];
      } else {
        assert us[k] == e.pushed[k - |ts|];
      }
    }
    forall k | 0 < k < |us|
      ensures us[k - 1].end <= us[k].end
    {
      if k < |ts| {
        assert us[k - 1] == ts[k - 1] && us[k] == ts[k];
      } else if k - 1 < |ts| {
        assert us[k - 1] == ts[k - 1] && us[k] == e.pushed[0];
      } else {
        assert us[k - 1] == e.pushed[0] && us[k] == e.pushed[1];
      }
    }
  }

  /** One step of the machine keeps the invariant. */
  lemma StepInv(text: string, wc: string, t: Tokenizer, n: nat)
    requires n < |text| && Inv(text, wc, t, n)
    ensures Inv(text, wc, Step(t, n, text[n]), n + 1)
  {
    var e := Handle(t, n, text[n]);
    WellFormedExtend(text, wc, t.segment.tokens, e, t.currTokStart, n);
  }

  /** Every prefix run of the machine satisfies the invariant. */
  lemma {:induction false} RunInv(text: string, wordChars: string, n: nat)
    requires n <= |text|
    ensures Inv(text, wordChars, Run(text, wordChars, n), n)
    decreases n
  {
    if n > 0 {
      RunInv(text, wordChars, n - 1);
      RunInvNext(text, wordChars, n - 1);
    }
  }

  /** StepInv, stated on the run itself. */
  lemma RunInvNext(text: string, wordChars: string, n: nat)
    requires n < |text| && Inv(text, wordChars, Run(text, wordChars, n), n)
    ensures Inv(text, wordChars, Run(text, wordChars, n + 1), n + 1)
  {
    StepInv(text, wordChars, Run(text, wordChars, n), n);
  }

  /** a is a prefix of b. */
  ghost predicate IsPrefix(a: seq<Token>, b: seq<Token>) {
    |a| <= |b| && b[..|a|] == a
  }

  lemma PrefixAppend(a: seq<Token>, b: seq<Token>, c: seq<Token>)
    requires IsPrefix(a, b)
    ensures IsPrefix(a, b + c)
  {
    assert (b + c)[..|a|] == b[..|a|];
  }

  /** Tokens are only ever appended (lib.rs:60-62): the tokens after m
      characters are a prefix of the tokens after n >= m characters. */
  lemma {:induction false} RunAppendOnly(text: string, wordChars: string, m: nat, n: nat)
    requires m <= n <= |text|
    ensures IsPrefix(Run(text, wordChars, m).segment.tokens, Run(text, wordChars, n).segment.tokens)
    decreases n - m
  {
    if m == n {
      var ts := Run(text, wordChars, m).segment.tokens;
      assert ts[..|ts|] == ts;
    } else {
      RunAppendOnly(text, wordChars, m, n - 1);
      var t := Run(text, wordChars, n - 1);
      PrefixAppend(Run(text, wordChars, m).segment.tokens, t.segment.tokens, Handle(t, n - 1, text[n - 1]).pushed);
    }
  }

  /** The tokenized segment carries the normalised text, and its tokens are
      well formed: only Word, OpenSquare, CloseSquare, AtSign and
      UnexpectedChar occur (lib.rs:114-128). */
  lemma TokenizeWellFormed(text: string, wordChars: string)
    ensures var seg := Tokenize(text, wordChars);
      && seg.text == Normalize(text)
      && WellFormed(seg.text, wordChars, seg.tokens, |seg.text|)
      && forall k :: 0 <= k < |seg.tokens| ==>
           seg.tokens[k].kind in {Word, OpenSquare, CloseSquare, AtSign, UnexpectedChar}
  {
    var normalized := CollapseThenTrim(text);
    CollapseThenTrimAgrees(text);
    RunInv(normalized, wordChars, |normalized|);
  }

  /** A text the machine reads without surprises: every character is a
      single space or a word character other than '[' and '@', and the
      space is not a word character. */
  ghost predicate Plain(text: string, wc: string) {
    && ' ' !in wc
    && forall p :: 0 <= p < |text| ==> text[p] == ' ' || (text[p] in wc && text[p] != '[' && text[p] != '@')
  }

  /** The positions of the spaces among the first n characters, in order. */
  function SpacesBefore(text: string, n: nat): (sp: seq<nat>)
    requires n <= |text|
    ensures forall k :: 0 <= k < |sp| ==> sp[k] < n && text[sp[k]] == ' '
    ensures forall k :: 0 < k < |sp| ==> sp[k - 1] < sp[k]
  {
    if n == 0 then []
    else if text[n - 1] == ' ' then SpacesBefore(text, n - 1) + [n - 1]
    else SpacesBefore(text, n - 1)
  }

  /** Where the word after the given spaces starts. */
  function WordStartAfter(sp: seq<nat>): nat {
    if |sp| == 0 then 0 else sp[|sp| - 1] + 1
  }

  /** Reference result for a plain text: one Word per space, running from
      just after the previous space (or from 0) up to that space. The word
      after the last space has no space to end it. */
  function WordsEndedBy(sp: seq<nat>): (ts: seq<Token>)
    ensures |ts| == |sp|
    ensures forall k :: 0 <= k < |sp| ==> ts[k] == Token(Word, WordStartAfter(sp[..k]), sp[k])
  {
    seq(|sp|, k requires 0 <= k < |sp| => Token(Word, WordStartAfter(sp[..k]), sp[k]))
  }

  lemma WordsEndedBySnoc(sp: seq<nat>, x: nat)
    ensures WordsEndedBy(sp + [x]) == WordsEndedBy(sp) + [Token(Word, WordStartAfter(sp), x)]
  {
    var l, r := WordsEndedBy(sp + [x]), WordsEndedBy(sp) + [Token(Word, WordStartAfter(sp), x)];
    forall k | 0 <= k < |l|
      ensures l[k] == r[k]
    {
      assert (sp + [x])[..k] == if k < |sp| then sp[..k] else sp;
    }
  }

  /** Invariant of the machine on a plain text after n characters: the
      reference tokens so far; Whitespace after a space or at the start,
      otherwise InsideToken with the word start just after the last
      space. */
  ghost predicate PlainInv(text: string, wc: string, t: Tokenizer, n: nat)
    requires n <= |text|
  {
    var sp := SpacesBefore(text, n);
    && t.wordChars == wc
    && t.segment.tokens == WordsEndedBy(sp)
    && (if n == 0 || text[n - 1] == ' ' then t.state == Whitespace
        else t.state == InsideToken && t.currTokStart == WordStartAfter(sp))
  }

  /** One step on a normalised plain text keeps PlainInv. */
  lemma PlainStep(text: string, wc: string, t: Tokenizer, n: nat)
    requires Normalized(text) && Plain(text, wc)
    requires n < |text| && PlainInv(text, wc, t, n)
    ensures PlainInv(text, wc, Step(t, n, text[n]), n + 1)
  {
    var sp := SpacesBefore(text, n);
    if text[n] == ' ' {
      assert n > 0 && IsSpace(text[n]);
      assert !IsSpace(text[n - 1]);
      assert SpacesBefore(text, n + 1) == sp + [n];
      WordsEndedBySnoc(sp, n);
    } else {
      assert !IsSpace(text[n]);
      assert SpacesBefore(text, n + 1) == sp;
    }
  }

  /** On a normalised plain text the machine produces exactly the
      reference tokens. */
  lemma {:induction false} PlainRun(text: string, wc: string, n: nat)
    requires Normalized(text) && Plain(text, wc) && n <= |text|
    ensures PlainInv(text, wc, Run(text, wc, n), n)
    decreases n
  {
    if n > 0 {
      PlainRun(text, wc, n - 1);
      PlainNext(text, wc, n - 1);
    }
  }

  /** PlainStep, stated on the run itself. */
  lemma PlainNext(text: string, wc: string, n: nat)
    requires Normalized(text) && Plain(text, wc) && n < |text|
    requires PlainInv(text, wc, Run(text, wc, n), n)
    ensures PlainInv(text, wc, Run(text, wc, n + 1), n + 1)
  {
    PlainStep(text, wc, Run(text, wc, n), n);
  }

  /** Tokenizing a text whose normalised form is plain yields one Word per
      space, each from just after the previous space up to it. The last
      word is never recorded, since no flush follows the loop
      (lib.rs:119-127); so a text without spaces yields no tokens. */
  lemma TokenizePlain(text: string, wordChars: string)
    requires Plain(CollapseThenTrim(text), wordChars)
    ensures var normalized := CollapseThenTrim(text);
      Tokenize(text, wordChars).tokens == WordsEndedBy(SpacesBefore(normalized, |normalized|))
  {
    var normalized := CollapseThenTrim(text);
    CollapseThenTrimAgrees(text);
    NormalizeIsNormalized(text);
    PlainRun(normalized, wordChars, |normalized|);
  }

  /** One step of a run, given the effect of the handler. */
  lemma RunNext(text: string, wc: string, n: nat, t: Tokenizer, e: Effect)
    requires n < |text| && Run(text, wc, n) == t && Handle(t, n, text[n]) == e
    ensures Run(text, wc, n + 1) == Tokenizer(Segment(t.segment.tokens + e.pushed, t.segment.text), e.next, e.wordStart, t.wordChars)
  {
  }

  /** The word start is not reset by '@': in "@a b" the Word ends at the
      space but starts at 0, overlapping the AtSign before it. */
  lemma AtSignWordOverlap()
    ensures Run("@a b", "ab", 4).segment.tokens == [Unit(AtSign, 0), Token(Word, 0, 2)]
  {
    var text, wc := "@a b", "ab";
    var t1 := Tokenizer(Segment([Unit(AtSign, 0)], text), InsideToken, 0, wc);
    var t3 := Tokenizer(Segment([Unit(AtSign, 0), Token(Word, 0, 2)], text), Whitespace, 0, wc);
    RunNext(text, wc, 0, New(text, wc), Effect([Unit(AtSign, 0)], 0, InsideToken));
    RunNext(text, wc, 1, t1, Effect([], 0, InsideToken));
    RunNext(text, wc, 2, t1, Effect([Token(Word, 0, 2)], 0, Whitespace));
    RunNext(text, wc, 3, t3, Effect([], 3, InsideToken));
  }

  /** After '[' a space is unexpected, not a separator: "[ a" gives an
      OpenSquare and an UnexpectedChar for the space. */
  lemma SpaceAfterOpenUnexpected()
    ensures Run("[ a", "a", 3).segment.tokens == [Unit(OpenSquare, 0), Unit(UnexpectedChar, 1)]
  {
    var text, wc := "[ a", "a";
    var t1 := Tokenizer(Segment([Unit(OpenSquare, 0)], text), OpenDelim, 0, wc);
    var t2 := Tokenizer(Segment([Unit(OpenSquare, 0), Unit(UnexpectedChar, 1)], text), InsideToken, 0, wc);
    RunNext(text, wc, 0, New(text, wc), Effect([Unit(OpenSquare, 0)], 0, OpenDelim));
    RunNext(text, wc, 1, t1, Effect([Unit(UnexpectedChar, 1)], 0, InsideToken));
    RunNext(text, wc, 2, t2, Effect([], 0, InsideToken));
  }

  /** After ']' a word character is unexpected: "a]b" gives the Word, the
      CloseSquare and an UnexpectedChar for b. */
  lemma WordAfterCloseUnexpected()
    ensures Run("a]b", "ab", 3).segment.tokens ==
            [Token(Word, 0, 1), Unit(CloseSquare, 1), Unit(UnexpectedChar, 2)]
  {
    var text, wc := "a]b", "ab";
    var t1 := Tokenizer(Segment([], text), InsideToken, 0, wc);
    var t2 := Tokenizer(Segment([Token(Word, 0, 1), Unit(CloseSquare, 1)], text), CloseDelim, 0, wc);
    RunNext(text, wc, 0, New(text, wc), Effect([], 0, InsideToken));
    RunNext(text, wc, 1, t1, Effect([Token(Word, 0, 1), Unit(CloseSquare, 1)], 0, CloseDelim));
    RunNext(text, wc, 2, t2, Effect([Unit(UnexpectedChar, 2)], 0, InsideToken));
  }

  /** The last word of a segment is never recorded: "ab" with word
      characters "ab" tokenizes to no tokens at all. */
  lemma LastWordLost()
    ensures Tokenize("ab", "ab").tokens == []
  {
    var text := "ab";
    assert !IsSpace(text[0]) && !IsSpace(text[1]);
    TokenizeNormalized(text, "ab");
    var t1 := Tokenizer(Segment([], text), InsideToken, 0, "ab");
    RunNext(text, "ab", 0, New(text, "ab"), Effect([], 0, InsideToken));
    RunNext(text, "ab", 1, t1, Effect([], 0, InsideToken));
  }

  /** An already normalised text is tokenized as it stands. */
  lemma TokenizeNormalized(text: string, wordChars: string)
    requires Normalized(text)
    ensures Tokenize(text, wordChars) == Run(text, wordChars, |text|).segment
  {
    NormalizeFixpoint(text);
    CollapseThenTrimAgrees(text);
  }
}
