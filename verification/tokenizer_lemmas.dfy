/** Properties of the segment tokenizer of back/eaf/src/tokenizer.rs:
    bounds and order of the tokens, the bracket-to-kind mapping, maximality
    of NonDelim runs, coverage, round trip and idempotence. */
module TokenizerLemmas {
  import opened Normalization
  import opened Tokenizer

  /** A match of the tokenizer pattern can begin at i: i is an end of s, a
      bracket, or the first character of a new character class. */
  ghost predicate AtMatchStart(s: string, i: nat)
    requires i <= |s|
  {
    i == 0 || i == |s| || ClassOf(s[i]) == Bracket || ClassOf(s[i - 1]) != ClassOf(s[i])
  }

  /** s[a..b] is a run of one character class that cannot be extended to
      either side. */
  ghost predicate MaximalRun(s: string, a: nat, b: nat)
    requires a < b <= |s|
  {
    && (forall p :: a <= p < b ==> ClassOf(s[p]) == ClassOf(s[a]))
    && (a == 0 || ClassOf(s[a - 1]) != ClassOf(s[a]))
    && (b == |s| || ClassOf(s[b]) != ClassOf(s[a]))
  }

  /** k is the kind the bracket character c stands for: Open(d) exactly for
      the opener of d and Close(d) exactly for its closer. */
  ghost predicate BracketKind(c: char, k: TokenKind) {
    forall d: DelimKind ::
      && (k == Open(d) <==> c == Opener(d))
      && (k == Close(d) <==> c == Closer(d))
  }

  /** What the scan may emit for a match: a bracket is a one-character
      token of its kind; anything else is a NonDelim token spanning a
      maximal run of one class, other than the lone space. */
  ghost predicate WellShaped(s: string, t: Token) {
    && t.start < t.end <= |s|
    && if IsBracket(s[t.start]) then
         t.end == t.start + 1 && BracketKind(s[t.start], t.kind)
       else
         t.kind == NonDelim && MaximalRun(s, t.start, t.end) && !LoneSpace(s[t.start..t.end])
  }

  /** A NonDelim token of a normalised source: a maximal run of characters
      that are neither brackets nor whitespace. */
  ghost predicate WordRun(s: string, a: nat, b: nat)
    requires a < b <= |s|
  {
    && (forall p :: a <= p < b ==> !IsBracket(s[p]) && !IsSpace(s[p]))
    && (a == 0 || IsBracket(s[a - 1]) || IsSpace(s[a - 1]))
    && (b == |s| || IsBracket(s[b]) || IsSpace(s[b]))
  }

  /** The six single-bracket texts map to their kinds (tokenizer.rs:43-49). */
  lemma KindOfBracket(c: char)
    requires IsBracket(c)
    ensures BracketKind(c, KindOf([c]))
  {
  }

  /** A bracket never stands for NonDelim. */
  lemma BracketIsDelim(c: char, k: TokenKind)
    requires BracketKind(c, k)
    ensures IsBracket(c) ==> k != NonDelim
  {
    var d := if c == '(' || c == ')' then Round else if c == '[' || c == ']' then Square else Angle;
    assert IsBracket(c) ==> c == Opener(d) || c == Closer(d);
  }

  /** Any other text is NonDelim (tokenizer.rs:50). */
  lemma KindOfOther(text: string)
    requires |text| > 0 && !IsBracket(text[0])
    ensures KindOf(text) == NonDelim
  {
  }

  /** Every token the scan emits from a match start is well shaped. */
  lemma {:induction false} ScanShape(s: string, i: nat)
    requires i <= |s| && AtMatchStart(s, i)
    ensures forall k :: 0 <= k < |Scan(s, i)| ==> WellShaped(s, Scan(s, i)[k])
    decreases |s| - i
  {
    if i < |s| {
      var j := MatchEnd(s, i);
      assert AtMatchStart(s, j);
      ScanShape(s, j);
      var text := s[i..j];
      if !LoneSpace(text) {
        var t := Token(KindOf(text), i, j);
        if IsBracket(s[i]) {
          assert text == [s[i]];
          KindOfBracket(s[i]);
        } else {
          KindOfOther(text);
        }
        assert WellShaped(s, t);
        assert Scan(s, i) == [t] + Scan(s, j);
      }
    }
  }

  /** Everything the scan skips is whitespace: before the first token,
      between two consecutive tokens and after the last one. */
  lemma {:induction false} ScanGaps(s: string, i: nat)
    requires i <= |s|
    ensures var ts := Scan(s, i);
      && (|ts| == 0 ==> AllSpace(s, i, |s|))
      && (|ts| > 0 ==> AllSpace(s, i, ts[0].start) && AllSpace(s, ts[|ts| - 1].end, |s|))
      && (forall k :: 0 <= k < |ts| - 1 ==> AllSpace(s, ts[k].end, ts[k + 1].start))
    decreases |s| - i
  {
    if i < |s| {
      var j := MatchEnd(s, i);
      ScanGaps(s, j);
      var rest := Scan(s, j);
      if LoneSpace(s[i..j]) {
        assert j == i + 1 && IsSpace(s[i]) by {
          assert s[i..j][0] == s[i];
        }
      } else {
        var ts := [Token(KindOf(s[i..j]), i, j)] + rest;
        assert Scan(s, i) == ts;
        forall k | 0 <= k < |ts| - 1
          ensures AllSpace(s, ts[k].end, ts[k + 1].start)
        {
          if k > 0 {
            assert ts[k] == rest[k - 1] && ts[k + 1] == rest[k];
          }
        }
      }
    }
  }

  /** Every non-whitespace character lies inside some emitted token; k is
      that token's index. */
  lemma {:induction false} ScanCovers(s: string, i: nat, p: nat) returns (k: nat)
    requires i <= p < |s| && !IsSpace(s[p])
    ensures k < |Scan(s, i)| && Scan(s, i)[k].start <= p < Scan(s, i)[k].end
    decreases |s| - i
  {
    var j := MatchEnd(s, i);
    if p < j {
      k := ScanCoversFirst(s, i, p);
    } else {
      var k' := ScanCovers(s, j, p);
      k := ScanCoversLater(s, i, k');
    }
  }

  /** A non-whitespace character inside the match at i lies in the token
      emitted for that match. */
  lemma ScanCoversFirst(s: string, i: nat, p: nat) returns (k: nat)
    requires i <= p < |s| && p < MatchEnd(s, i) && !IsSpace(s[p])
    ensures k < |Scan(s, i)| && Scan(s, i)[k].start <= p < Scan(s, i)[k].end
  {
    var j := MatchEnd(s, i);
    assert !LoneSpace(s[i..j]) by {
      assert s[i..j][p - i] == s[p];
    }
    k := 0;
  }

  /** A token of the scan after the match at i is also a token of the scan
      from i. */
  lemma ScanCoversLater(s: string, i: nat, k': nat) returns (k: nat)
    requires i < |s| && k' < |Scan(s, MatchEnd(s, i))|
    ensures k < |Scan(s, i)| && Scan(s, i)[k] == Scan(s, MatchEnd(s, i))[k']
  {
    var j := MatchEnd(s, i);
    if LoneSpace(s[i..j]) {
      k := k';
    } else {
      assert Scan(s, i) == [Token(KindOf(s[i..j]), i, j)] + Scan(s, j);
      k := k' + 1;
    }
  }

  /** In a normalised text a run of whitespace is a single space, so a well
      shaped non-bracket token is a run of ordinary characters. */
  lemma SpaceRunIsLoneSpace(s: string, a: nat, b: nat)
    requires Normalized(s) && a < b <= |s|
    requires forall p :: a <= p < b ==> ClassOf(s[p]) == ClassOf(s[a])
    ensures ClassOf(s[a]) == Space ==> LoneSpace(s[a..b])
  {
    if ClassOf(s[a]) == Space {
      var q := if b > a + 1 then a + 1 else a;
      assert ClassOf(s[q]) == Space && IsSpace(s[a]);
      assert b == a + 1;
      assert s[a..b][0] == s[a];
    }
  }

  /** A well shaped token of a normalised text is a bracket or a word run. */
  lemma WellShapedInNormalized(s: string, t: Token)
    requires Normalized(s) && WellShaped(s, t)
    ensures !IsBracket(s[t.start]) ==> t.kind == NonDelim && WordRun(s, t.start, t.end)
  {
    if !IsBracket(s[t.start]) {
      SpaceRunIsLoneSpace(s, t.start, t.end);
      assert ClassOf(s[t.start]) == Other;
    }
  }

  /** A whitespace gap of a normalised text is empty or one space, and the
      outer gaps are empty. */
  lemma NormalizedGap(s: string, a: nat, b: nat)
    requires Normalized(s) && a <= b <= |s| && AllSpace(s, a, b)
    ensures b == a || (b == a + 1 && s[a] == ' ')
    ensures a == 0 ==> b == 0
    ensures b == |s| ==> a == |s|
  {
    if b > a {
      var q := if b > a + 1 then a + 1 else a;
      assert IsSpace(s[q]) && IsSpace(s[a]) && IsSpace(s[b - 1]);
      assert b == a + 1;
    }
  }

  /** The kinds and extents a scan of a normalised text produces: a
      bracket is a one-character token of its kind, anything else a
      NonDelim word run. */
  ghost predicate KindsOk(s: string, ts: seq<Token>) {
    forall k :: 0 <= k < |ts| ==>
      && ts[k].start < ts[k].end <= |s|
      && (IsBracket(s[ts[k].start]) ==>
            ts[k].end == ts[k].start + 1 && BracketKind(s[ts[k].start], ts[k].kind))
      && (!IsBracket(s[ts[k].start]) ==>
            ts[k].kind == NonDelim && WordRun(s, ts[k].start, ts[k].end))
  }

  /** The scan of a normalised text has well-formed kinds and extents. */
  lemma ScanKinds(s: string)
    requires Normalized(s)
    ensures KindsOk(s, Scan(s, 0))
  {
    var ts := Scan(s, 0);
    ScanShape(s, 0);
    forall k | 0 <= k < |ts|
      ensures !IsBracket(s[ts[k].start]) ==> ts[k].kind == NonDelim && WordRun(s, ts[k].start, ts[k].end)
    {
      WellShapedInNormalized(s, ts[k]);
    }
  }

  /** The scan of a normalised text tiles it. */
  lemma ScanTiles(s: string)
    requires Normalized(s)
    ensures Tiles(s, Scan(s, 0), 0)
  {
    var ts := Scan(s, 0);
    ScanGaps(s, 0);
    if |ts| == 0 {
      NormalizedGap(s, 0, |s|);
    } else {
      NormalizedGap(s, 0, ts[0].start);
      NormalizedGap(s, ts[|ts| - 1].end, |s|);
    }
    forall k | 0 <= k < |ts| - 1
      ensures Joined(s, ts[k], ts[k + 1])
    {
      NormalizedGap(s, ts[k].end, ts[k + 1].start);
    }
  }

  /** Tokens are non-empty, in bounds and in order, over a normalised source
      (tokenizer.rs:72, 98-107). */
  lemma TokenizeOrdered(raw: string)
    ensures var t := Tokenize(raw);
      && Normalized(t.source)
      && (forall k :: 0 <= k < |t.tokens| ==> t.tokens[k].start < t.tokens[k].end <= |t.source|)
      && (forall k :: 0 <= k < |t.tokens| - 1 ==> t.tokens[k].end <= t.tokens[k + 1].start)
  {
    NormalizeIsNormalized(raw);
  }

  /** Each bracket yields a one-character token of the kind its character
      stands for; every other token is NonDelim and spans a maximal run of
      characters that are neither brackets nor whitespace
      (tokenizer.rs:43-51, 78-89). */
  lemma TokenizeKinds(raw: string)
    ensures var t := Tokenize(raw);
      KindsOk(t.source, t.tokens)
  {
    NormalizeIsNormalized(raw);
    ScanKinds(Normalize(raw));
  }

  /** No token's text contains whitespace: the separating spaces are never
      emitted (tokenizer.rs:100-106). */
  lemma TokenizeNoSpaceInTokens(raw: string)
    ensures var t := Tokenize(raw);
      forall k, p :: 0 <= k < |t.tokens| && t.tokens[k].start <= p < t.tokens[k].end ==>
        p < |t.source| && !IsSpace(t.source[p])
  {
    var t := Tokenize(raw);
    TokenizeKinds(raw);
    KindsNoSpace(t.source, t.tokens);
  }

  /** Well-formed tokens contain no whitespace. */
  lemma KindsNoSpace(s: string, ts: seq<Token>)
    requires KindsOk(s, ts)
    ensures forall k, p :: 0 <= k < |ts| && ts[k].start <= p < ts[k].end ==>
      p < |s| && !IsSpace(s[p])
  {
    forall k, p | 0 <= k < |ts| && ts[k].start <= p < ts[k].end
      ensures p < |s| && !IsSpace(s[p])
    {
      if IsBracket(s[ts[k].start]) {
        assert p == ts[k].start;
      }
    }
  }

  /** The source is all tokens: the first starts at 0, the last ends at the
      end, and consecutive tokens are adjacent or separated by exactly one
      space (tokenizer.rs:97-107). */
  lemma TokenizeGaps(raw: string)
    ensures var t := Tokenize(raw);
      && Tiles(t.source, t.tokens, 0)
      && (|t.tokens| == 0 <==> |t.source| == 0)
  {
    NormalizeIsNormalized(raw);
    ScanTiles(Normalize(raw));
  }

  /** Every bracket character of the source is the start of a token
      (tokenizer.rs:78-80). */
  lemma TokenizeCoversBrackets(raw: string)
    ensures var t := Tokenize(raw);
      forall p :: 0 <= p < |t.source| && IsBracket(t.source[p]) ==>
        exists k :: 0 <= k < |t.tokens| && t.tokens[k].start == p
  {
    var t := Tokenize(raw);
    NormalizeIsNormalized(raw);
    forall p | 0 <= p < |t.source| && IsBracket(t.source[p])
      ensures exists k :: 0 <= k < |t.tokens| && t.tokens[k].start == p
    {
      var k := BracketStartsToken(t.source, p);
      assert t.tokens[k].start == p;
    }
  }

  /** The token covering a bracket of a normalised text starts at it. */
  lemma BracketStartsToken(s: string, p: nat) returns (k: nat)
    requires Normalized(s) && p < |s| && IsBracket(s[p])
    ensures k < |Scan(s, 0)| && Scan(s, 0)[k].start == p
  {
    ScanKinds(s);
    k := ScanCovers(s, 0, p);
  }

  /** Two NonDelim tokens are never directly adjacent: each is a maximal
      run (tokenizer.rs:85-89). */
  lemma TokenizeNonDelimSeparated(raw: string)
    ensures var t := Tokenize(raw);
      forall k :: 0 <= k < |t.tokens| - 1 && t.tokens[k].kind == NonDelim && t.tokens[k + 1].kind == NonDelim ==>
        t.tokens[k].end < t.tokens[k + 1].start
  {
    var t := Tokenize(raw);
    TokenizeKinds(raw);
    TokenizeOrdered(raw);
    KindsSeparated(t.source, t.tokens);
  }

  /** Well-formed, ordered NonDelim tokens are never adjacent. */
  lemma KindsSeparated(s: string, ts: seq<Token>)
    requires KindsOk(s, ts)
    requires forall k :: 0 <= k < |ts| - 1 ==> ts[k].end <= ts[k + 1].start
    ensures forall k :: 0 <= k < |ts| - 1 && ts[k].kind == NonDelim && ts[k + 1].kind == NonDelim ==>
      ts[k].end < ts[k + 1].start
  {
    forall k | 0 <= k < |ts| - 1 && ts[k].kind == NonDelim && ts[k + 1].kind == NonDelim
      ensures ts[k].end < ts[k + 1].start
    {
      BracketIsDelim(s[ts[k].start], ts[k].kind);
      BracketIsDelim(s[ts[k + 1].start], ts[k + 1].kind);
    }
  }

  /** The tokens' texts (`as_str`) in order, with one space wherever two
      consecutive tokens are not adjacent. */
  function Rebuild(t: Tokenized, ts: seq<Token>): string
    requires forall k :: 0 <= k < |ts| ==> ts[k].start <= ts[k].end <= |t.source|
  {
    if |ts| == 0 then ""
    else
      AsStr(t, ts[0])
      + (if |ts| > 1 && ts[0].end < ts[1].start then " " else "")
      + Rebuild(t, ts[1..])
  }

  /** Token u follows token t directly or after exactly one space. */
  ghost predicate Joined(s: string, t: Token, u: Token) {
    || u.start == t.end
    || (u.start == t.end + 1 && t.end < |s| && s[t.end] == ' ')
  }

  /** The tokens cover s[a..] exactly: the first starts at a, the last ends
      at the end, and consecutive tokens are joined. */
  ghost predicate Tiles(s: string, ts: seq<Token>, a: nat) {
    && (forall k :: 0 <= k < |ts| ==> ts[k].start < ts[k].end <= |s|)
    && (|ts| == 0 ==> a == |s|)
    && (|ts| > 0 ==> ts[0].start == a && ts[|ts| - 1].end == |s|)
    && (forall k :: 0 <= k < |ts| - 1 ==> Joined(s, ts[k], ts[k + 1]))
  }

  /** Dropping the first token of a tiling leaves a tiling of the rest. */
  lemma TilesTail(s: string, ts: seq<Token>, a: nat)
    requires Tiles(s, ts, a) && |ts| > 1
    ensures Tiles(s, ts[1..], ts[1].start) && Joined(s, ts[0], ts[1])
  {
    var rest := ts[1..];
    forall k | 0 <= k < |rest| - 1
      ensures Joined(s, rest[k], rest[k + 1])
    {
      assert rest[k] == ts[k + 1] && rest[k + 1] == ts[k + 2];
    }
  }

  /** Rebuild peels off the first token and its following gap. */
  lemma RebuildCons(t: Tokenized, tok: Token, rest: seq<Token>)
    requires tok.start <= tok.end <= |t.source|
    requires forall k :: 0 <= k < |rest| ==> rest[k].start <= rest[k].end <= |t.source|
    ensures |rest| == 0 || rest[0].start <= tok.end ==>
              Rebuild(t, [tok] + rest) == t.source[tok.start..tok.end] + Rebuild(t, rest)
    ensures |rest| > 0 && tok.end < rest[0].start ==>
              Rebuild(t, [tok] + rest) == t.source[tok.start..tok.end] + " " + Rebuild(t, rest)
  {
    assert ([tok] + rest)[1..] == rest;
    if |rest| == 0 || rest[0].start <= tok.end {
      assert t.source[tok.start..tok.end] + "" == t.source[tok.start..tok.end];
    }
  }

  /** A text splits at any position. */
  lemma SplitAt(s: string, a: nat, e: nat)
    requires a <= e <= |s|
    ensures s[a..] == s[a..e] + s[e..]
  {
  }

  /** A text splits around one of its spaces. */
  lemma SplitAtSpace(s: string, a: nat, e: nat)
    requires a <= e < |s| && s[e] == ' '
    ensures s[a..] == s[a..e] + " " + s[e + 1..]
  {
    assert s[a..] == s[a..e] + s[e..];
    assert s[e..] == [s[e]] + s[e + 1..];
  }

  /** Rebuild over a token directly followed by the rebuilt rest. */
  lemma RebuildAdjacent(t: Tokenized, tok: Token, rest: seq<Token>)
    requires tok.start <= tok.end <= |t.source|
    requires forall k :: 0 <= k < |rest| ==> rest[k].start <= rest[k].end <= |t.source|
    requires |rest| == 0 || rest[0].start == tok.end
    requires Rebuild(t, rest) == t.source[tok.end..]
    ensures Rebuild(t, [tok] + rest) == t.source[tok.start..]
  {
    RebuildCons(t, tok, rest);
    SplitAt(t.source, tok.start, tok.end);
  }

  /** Rebuild over a token, one space, then the rebuilt rest. */
  lemma RebuildSpaced(t: Tokenized, tok: Token, rest: seq<Token>)
    requires tok.start <= tok.end < |t.source| && t.source[tok.end] == ' '
    requires forall k :: 0 <= k < |rest| ==> rest[k].start <= rest[k].end <= |t.source|
    requires |rest| > 0 && rest[0].start == tok.end + 1
    requires Rebuild(t, rest) == t.source[tok.end + 1..]
    ensures Rebuild(t, [tok] + rest) == t.source[tok.start..]
  {
    RebuildCons(t, tok, rest);
    SplitAtSpace(t.source, tok.start, tok.end);
  }

  /** Rebuilding a tiling of the source from a gives back source[a..]. */
  lemma {:induction false} RebuildTiles(t: Tokenized, ts: seq<Token>, a: nat)
    requires a <= |t.source| && Tiles(t.source, ts, a)
    ensures Rebuild(t, ts) == t.source[a..]
    decreases |ts|
  {
    if |ts| > 0 {
      var tok, rest := ts[0], ts[1..];
      assert ts == [tok] + rest;
      if |rest| == 0 {
        RebuildAdjacent(t, tok, rest);
      } else {
        TilesTail(t.source, ts, a);
        RebuildTiles(t, rest, rest[0].start);
        if rest[0].start == tok.end {
          RebuildAdjacent(t, tok, rest);
        } else {
          RebuildSpaced(t, tok, rest);
        }
      }
    }
  }

  /** Round trip: the source is the concatenation of the tokens' texts as
      `as_str` gives them, separated by single spaces where they are not
      adjacent (tokenizer.rs:67-69, 97-107). */
  lemma TokenizeRoundTrip(raw: string)
    ensures var t := Tokenize(raw);
      Rebuild(t, t.tokens) == t.source
  {
    var t := Tokenize(raw);
    TokenizeGaps(raw);
    RebuildTiles(t, t.tokens, 0);
  }

  /** Tokenizing the normalised source again gives the same source and the
      same tokens (tokenizer.rs:72, 97). */
  lemma TokenizeIdempotent(raw: string)
    ensures Tokenize(Tokenize(raw).source) == Tokenize(raw)
  {
    NormalizeIdempotent(raw);
  }

  /** The texts of the tokens ts, as `as_str` gives them. */
  function Texts(t: Tokenized, ts: seq<Token>): (r: seq<string>)
    requires forall k :: 0 <= k < |ts| ==> ts[k].start <= ts[k].end <= |t.source|
    ensures |r| == |ts|
  {
    if |ts| == 0 then [] else [AsStr(t, ts[0])] + Texts(t, ts[1..])
  }

  /** A match of the tokenizer pattern in a normalised text: one bracket,
      the single space, or a run of other characters. */
  ghost predicate IsPiece(w: string) {
    && |w| > 0
    && (|| (|w| == 1 && (IsBracket(w[0]) || w[0] == ' '))
        || forall p :: 0 <= p < |w| ==> ClassOf(w[p]) == Other)
  }

  /** Neighbouring pieces v and w are separate matches: they are not two
      runs of other characters and not two spaces. */
  predicate Apart(v: string, w: string) {
    && |v| > 0 && |w| > 0
    && !(ClassOf(v[0]) == Other && ClassOf(w[0]) == Other)
    && !(v == " " && w == " ")
  }

  /** A sequence of matches, each apart from the one after it. */
  ghost predicate Pieces(ps: seq<string>)
    decreases |ps|
  {
    |ps| == 0 || (IsPiece(ps[0]) && (|ps| > 1 ==> Apart(ps[0], ps[1])) && Pieces(ps[1..]))
  }

  /** The pieces written one after the other. */
  function Concat(ps: seq<string>): string {
    if |ps| == 0 then "" else ps[0] + Concat(ps[1..])
  }

  /** The pieces other than the single space, in order. */
  function Unspaced(ps: seq<string>): seq<string> {
    if |ps| == 0 then []
    else if ps[0] == " " then Unspaced(ps[1..])
    else [ps[0]] + Unspaced(ps[1..])
  }

  /** The token each piece other than the single space becomes, when the
      pieces start at offset at. */
  function PieceTokens(ps: seq<string>, at: nat): (ts: seq<Token>)
    ensures forall k :: 0 <= k < |ts| ==> at <= ts[k].start <= ts[k].end <= at + |Concat(ps)|
  {
    if |ps| == 0 then []
    else if ps[0] == " " then PieceTokens(ps[1..], at + 1)
    else [Token(KindOf(ps[0]), at, at + |ps[0]|)] + PieceTokens(ps[1..], at + |ps[0]|)
  }

  /** Every element of a list of pieces is a piece. */
  lemma {:induction false} PieceAt(ps: seq<string>, k: nat)
    requires Pieces(ps) && k < |ps|
    ensures IsPiece(ps[k])
    decreases k
  {
    if k > 0 {
      PieceAt(ps[1..], k - 1);
    }
  }

  /** The match found where a piece starts is that piece, when the
      character after it, if any, does not continue it. */
  lemma {:induction false} MatchEndPiece(s: string, i: nat, w: string)
    requires i + |w| <= |s| && s[i..i + |w|] == w && IsPiece(w)
    requires i + |w| < |s| ==> !(ClassOf(w[0]) == Other && ClassOf(s[i + |w|]) == Other)
    requires i + |w| < |s| && w == " " ==> !IsSpace(s[i + |w|])
    ensures MatchEnd(s, i) == i + |w|
  {
    var j := i + |w|;
    assert forall p :: 0 <= p < |w| ==> s[i + p] == w[p];
    if !IsBracket(w[0]) {
      if w == " " {
        RunEndAt(s, i + 1, Space, j);
      } else {
        assert forall p :: i + 1 <= p < j ==> ClassOf(s[p]) == Other;
        RunEndAt(s, i + 1, Other, j);
      }
    }
  }

  /** The end of a run of one class is where the class changes. */
  lemma RunEndAt(s: string, i: nat, c: CharClass, j: nat)
    requires i <= j <= |s| && (forall p :: i <= p < j ==> ClassOf(s[p]) == c)
    requires j == |s| || ClassOf(s[j]) != c
    ensures RunEnd(s, i, c) == j
    decreases j - i
  {
  }

  /** s from i on is the pieces written one after the other, each at its
      own offset. */
  ghost predicate Cut(s: string, i: nat, ps: seq<string>)
    decreases |ps|
  {
    if |ps| == 0 then i == |s|
    else i + |ps[0]| <= |s| && s[i..i + |ps[0]|] == ps[0] && Cut(s, i + |ps[0]|, ps[1..])
  }

  /** A text ending in the pieces written out is cut into them after its
      prefix. */
  lemma {:induction false} CutConcat(pre: string, ps: seq<string>)
    ensures Cut(pre + Concat(ps), |pre|, ps)
    decreases |ps|
  {
    var s := pre + Concat(ps);
    if |ps| > 0 {
      var w := ps[0];
      assert s == (pre + w) + Concat(ps[1..]);
      CutConcat(pre + w, ps[1..]);
      assert s[|pre|..|pre| + |w|] == w;
    } else {
      assert |s| == |pre|;
    }
  }

  /** The first piece of a text made of pieces, and the character after
      it. */
  lemma {:induction false} FirstPiece(s: string, i: nat, pieces: seq<string>)
    requires Cut(s, i, pieces) && Pieces(pieces) && |pieces| > 0
    ensures var w, j := pieces[0], i + |pieces[0]|;
      && j <= |s| && s[i..j] == w && IsPiece(w)
      && (j < |s| ==> !(ClassOf(w[0]) == Other && ClassOf(s[j]) == Other))
      && (j < |s| && w == " " ==> !IsSpace(s[j]))
  {
    var j := i + |pieces[0]|;
    if |pieces| > 1 {
      assert Apart(pieces[0], pieces[1]);
      assert s[j..j + |pieces[1]|] == pieces[1];
      assert s[j] == pieces[1][0];
    }
  }

  /** PieceTokens, one piece at a time. */
  lemma PieceTokensCons(ps: seq<string>, at: nat)
    requires |ps| > 0
    ensures ps[0] == " " ==> PieceTokens(ps, at) == PieceTokens(ps[1..], at + 1)
    ensures ps[0] != " " ==>
              PieceTokens(ps, at) == [Token(KindOf(ps[0]), at, at + |ps[0]|)] + PieceTokens(ps[1..], at + |ps[0]|)
  {
  }

  /** The pieces after the first are pieces. */
  lemma PiecesTail(ps: seq<string>)
    requires Pieces(ps) && |ps| > 0
    ensures Pieces(ps[1..])
  {
  }

  /** The lone space is the text " ". */
  lemma LoneSpaceIsSpace(w: string)
    ensures LoneSpace(w) <==> w == " "
  {
    if LoneSpace(w) {
      assert w == [w[0]];
    }
  }

  /** The scan at i: the match there, then the scan after it. */
  lemma ScanAt(s: string, i: nat)
    requires i < |s|
    ensures var j := MatchEnd(s, i);
      && (LoneSpace(s[i..j]) ==> Scan(s, i) == Scan(s, j))
      && (!LoneSpace(s[i..j]) ==> Scan(s, i) == [Token(KindOf(s[i..j]), i, j)] + Scan(s, j))
  {
  }

  /** The ends of the matches the scan finds from i, in order; the last
      is the end of the text. */
  ghost predicate MatchesAt(s: string, i: nat, ends: seq<nat>)
    decreases |ends|
  {
    if |ends| == 0 then i == |s|
    else i < |s| && MatchEnd(s, i) == ends[0] && MatchesAt(s, ends[0], ends[1..])
  }

  /** Positions from i on that never decrease and stay within n. */
  ghost predicate Within(n: nat, i: nat, ends: seq<nat>)
    decreases |ends|
  {
    i <= n && (|ends| > 0 ==> i <= ends[0] <= n && Within(n, ends[0], ends[1..]))
  }

  /** The tokens of the matches of s from i ending at the given positions,
      the lone spaces dropped. */
  ghost function MatchTokens(s: string, i: nat, ends: seq<nat>): seq<Token>
    requires Within(|s|, i, ends)
    decreases |ends|
  {
    if |ends| == 0 then []
    else if LoneSpace(s[i..ends[0]]) then MatchTokens(s, ends[0], ends[1..])
    else [Token(KindOf(s[i..ends[0]]), i, ends[0])] + MatchTokens(s, ends[0], ends[1..])
  }

  /** The ends of the pieces, when the first starts at offset at. */
  function PieceEnds(ps: seq<string>, at: nat): seq<nat> {
    if |ps| == 0 then [] else [at + |ps[0]|] + PieceEnds(ps[1..], at + |ps[0]|)
  }

  /** In a text made of pieces, the first piece is the first match. */
  lemma {:induction false} MatchStep(s: string, i: nat, pieces: seq<string>)
    requires Cut(s, i, pieces) && Pieces(pieces) && |pieces| > 0
    requires MatchesAt(s, i + |pieces[0]|, PieceEnds(pieces[1..], i + |pieces[0]|))
    ensures MatchesAt(s, i, PieceEnds(pieces, i))
  {
    var w, j := pieces[0], i + |pieces[0]|;
    FirstPiece(s, i, pieces);
    MatchEndPiece(s, i, w);
    assert PieceEnds(pieces, i) == [j] + PieceEnds(pieces[1..], j);
  }

  /** The scan from i emits the tokens of the matches it finds. */
  lemma {:induction false} ScanMatches(s: string, i: nat, ends: seq<nat>)
    requires MatchesAt(s, i, ends)
    ensures Within(|s|, i, ends) && Scan(s, i) == MatchTokens(s, i, ends)
    decreases |ends|
  {
    if |ends| > 0 {
      ScanMatches(s, ends[0], ends[1..]);
      ScanAt(s, i);
    }
  }

  /** In a text made of pieces, the matches are the pieces. */
  lemma {:induction false} PiecesMatch(s: string, i: nat, pieces: seq<string>)
    requires Cut(s, i, pieces) && Pieces(pieces)
    ensures MatchesAt(s, i, PieceEnds(pieces, i))
    decreases |pieces|
  {
    if |pieces| > 0 {
      PiecesTail(pieces);
      PiecesMatch(s, i + |pieces[0]|, pieces[1..]);
      MatchStep(s, i, pieces);
    }
  }

  /** The tokens of the pieces of a text, read off the text. */
  lemma {:induction false} PieceMatchTokens(s: string, i: nat, pieces: seq<string>)
    requires Cut(s, i, pieces)
    ensures Within(|s|, i, PieceEnds(pieces, i))
    ensures MatchTokens(s, i, PieceEnds(pieces, i)) == PieceTokens(pieces, i)
    decreases |pieces|
  {
    if |pieces| > 0 {
      var w, j := pieces[0], i + |pieces[0]|;
      PieceMatchTokens(s, j, pieces[1..]);
      assert PieceEnds(pieces, i)[1..] == PieceEnds(pieces[1..], j);
      PieceTokensCons(pieces, i);
      LoneSpaceIsSpace(w);
      if w == " " {
        assert |w| == 1;
      }
    }
  }

  /** Scanning a text made of pieces emits one token per piece, the single
      spaces excepted. */
  lemma ScanPieces(s: string, i: nat, pieces: seq<string>)
    requires Cut(s, i, pieces) && Pieces(pieces)
    ensures Scan(s, i) == PieceTokens(pieces, i)
  {
    PiecesMatch(s, i, pieces);
    ScanMatches(s, i, PieceEnds(pieces, i));
    PieceMatchTokens(s, i, pieces);
  }

  /** The texts of the tokens of a text made of pieces are the pieces, the
      single spaces excepted. */
  lemma {:induction false} PieceTexts(t: Tokenized, i: nat, pieces: seq<string>)
    requires Cut(t.source, i, pieces) && i + |Concat(pieces)| == |t.source|
    ensures Texts(t, PieceTokens(pieces, i)) == Unspaced(pieces)
    decreases |pieces|
  {
    if |pieces| > 0 {
      var w, j := pieces[0], i + |pieces[0]|;
      PieceTexts(t, j, pieces[1..]);
      PieceTokensCons(pieces, i);
      if w != " " {
        TextsCons(t, Token(KindOf(w), i, j), PieceTokens(pieces[1..], j));
      }
    }
  }

  /** Texts, one token at a time. */
  lemma TextsCons(t: Tokenized, tok: Token, ts: seq<Token>)
    requires tok.start <= tok.end <= |t.source|
    requires forall k :: 0 <= k < |ts| ==> ts[k].start <= ts[k].end <= |t.source|
    ensures Texts(t, [tok] + ts) == [AsStr(t, tok)] + Texts(t, ts)
  {
    assert ([tok] + ts)[1..] == ts;
  }

  /** Tokenizing words spaced by any whitespace, where the words joined by
      single spaces are the given pieces: one token per piece other than
      the space, each with the piece as its text. */
  lemma {:induction false} TokenizePieces(gaps: seq<string>, ws: seq<string>, pieces: seq<string>)
    requires Gaps(gaps, ws) && forall k :: 0 <= k < |ws| ==> IsWord(ws[k])
    requires Unwords(ws) == Concat(pieces) && Pieces(pieces)
    ensures var t := Tokenize(Spaced(gaps, ws));
      && t.source == Unwords(ws)
      && t.tokens == PieceTokens(pieces, 0)
      && Texts(t, t.tokens) == Unspaced(pieces)
  {
    var t := Tokenize(Spaced(gaps, ws));
    NormalizeSpaced(gaps, ws);
    CutConcat("", pieces);
    assert "" + Concat(pieces) == t.source;
    ScanPieces(t.source, 0, pieces);
    PieceTexts(t, 0, pieces);
  }

  /** The texts of a list of tokens, one at a time. */
  lemma {:induction false} TextsAt(t: Tokenized, ts: seq<Token>, k: nat)
    requires forall k :: 0 <= k < |ts| ==> ts[k].start <= ts[k].end <= |t.source|
    requires k < |ts|
    ensures Texts(t, ts)[k] == AsStr(t, ts[k])
    decreases k
  {
    if k > 0 {
      TextsAt(t, ts[1..], k - 1);
    }
  }

  /** Each token's kind is the kind of its text (tokenizer.rs:38-57,
      104-105). */
  lemma {:induction false} ScanKindOfText(s: string, i: nat)
    requires i <= |s|
    ensures forall k :: 0 <= k < |Scan(s, i)| ==>
      Scan(s, i)[k].kind == KindOf(s[Scan(s, i)[k].start..Scan(s, i)[k].end])
    decreases |s| - i
  {
    if i < |s| {
      var j := MatchEnd(s, i);
      ScanKindOfText(s, j);
      if !LoneSpace(s[i..j]) {
        var ts := [Token(KindOf(s[i..j]), i, j)] + Scan(s, j);
        assert Scan(s, i) == ts;
        assert forall k :: 0 < k < |ts| ==> ts[k] == Scan(s, j)[k - 1];
      }
    }
  }

  /** `From<Match> for Token`, as seen through `as_str`: every token's kind
      is the kind its own text maps to (tokenizer.rs:38-57, 67-69, 104-105). */
  lemma TokenizeKindOfText(raw: string)
    ensures var t := Tokenize(raw);
      forall k :: 0 <= k < |t.tokens| ==> t.tokens[k].kind == KindOf(AsStr(t, t.tokens[k]))
  {
    ScanKindOfText(Normalize(raw), 0);
  }

  /** A word cut into matches: at least one piece, none of them the
      single space, and the pieces written out give the word. */
  ghost predicate WordPieces(w: string, ps: seq<string>) {
    && |ps| > 0 && Concat(ps) == w && Pieces(ps)
    && forall k :: 0 <= k < |ps| ==> ps[k] != " "
  }

  /** Each word ws[k] is cut into the pieces pss[k]. */
  ghost predicate AllWordPieces(ws: seq<string>, pss: seq<seq<string>>)
    decreases |ws|
  {
    && |ws| == |pss|
    && (|ws| > 0 ==> WordPieces(ws[0], pss[0]) && AllWordPieces(ws[1..], pss[1..]))
  }

  /** The pieces of all words, with a single space between words. */
  function JoinPieces(pss: seq<seq<string>>): seq<string> {
    if |pss| == 0 then []
    else if |pss| == 1 then pss[0]
    else pss[0] + [" "] + JoinPieces(pss[1..])
  }

  /** The pieces of all words, in order. */
  function Flatten(pss: seq<seq<string>>): seq<string> {
    if |pss| == 0 then [] else pss[0] + Flatten(pss[1..])
  }

  lemma {:induction false} ConcatAppend(a: seq<string>, b: seq<string>)
    ensures Concat(a + b) == Concat(a) + Concat(b)
    decreases |a|
  {
    if |a| > 0 {
      assert (a + b)[1..] == a[1..] + b;
      ConcatAppend(a[1..], b);
    } else {
      assert a + b == b;
    }
  }

  lemma {:induction false} UnspacedAppend(a: seq<string>, b: seq<string>)
    ensures Unspaced(a + b) == Unspaced(a) + Unspaced(b)
    decreases |a|
  {
    if |a| > 0 {
      assert (a + b)[1..] == a[1..] + b;
      UnspacedAppend(a[1..], b);
    } else {
      assert a + b == b;
    }
  }

  lemma {:induction false} UnspacedNoSpace(ps: seq<string>)
    requires forall k :: 0 <= k < |ps| ==> ps[k] != " "
    ensures Unspaced(ps) == ps
    decreases |ps|
  {
    if |ps| > 0 {
      UnspacedNoSpace(ps[1..]);
    }
  }

  /** Two lists of pieces that meet apart make one list of pieces. */
  lemma {:induction false} PiecesAppend(a: seq<string>, b: seq<string>)
    requires Pieces(a) && Pieces(b)
    requires |a| > 0 && |b| > 0 ==> Apart(a[|a| - 1], b[0])
    ensures Pieces(a + b)
    decreases |a|
  {
    if |a| > 0 {
      assert (a + b)[1..] == a[1..] + b;
      assert |a| > 1 ==> a[1..][|a| - 2] == a[|a| - 1];
      PiecesAppend(a[1..], b);
    } else {
      assert a + b == b;
    }
  }

  /** Pieces other than the single space contain no whitespace. */
  lemma {:induction false} ConcatNoSpace(ps: seq<string>)
    requires Pieces(ps) && forall k :: 0 <= k < |ps| ==> ps[k] != " "
    ensures forall p :: 0 <= p < |Concat(ps)| ==> !IsSpace(Concat(ps)[p])
    decreases |ps|
  {
    if |ps| > 0 {
      var w, rest := ps[0], Concat(ps[1..]);
      ConcatNoSpace(ps[1..]);
      forall p | 0 <= p < |w + rest|
        ensures !IsSpace((w + rest)[p])
      {
        if p < |w| {
          assert IsPiece(w) && w != " ";
          if |w| == 1 && IsBracket(w[0]) {
          } else {
            assert w[0] != ' ' && ClassOf(w[p]) == Other;
          }
        } else {
          assert (w + rest)[p] == rest[p - |w|];
        }
      }
    }
  }

  /** A word cut into pieces is a word. */
  lemma {:induction false} WordPiecesIsWord(w: string, ps: seq<string>)
    requires WordPieces(w, ps)
    ensures IsWord(w)
  {
    ConcatNoSpace(ps);
    assert |w| >= |ps[0]| > 0 by {
      assert Concat(ps) == ps[0] + Concat(ps[1..]);
    }
  }

  /** The first piece of the joined pieces of all words. */
  lemma JoinPiecesHead(pss: seq<seq<string>>)
    requires |pss| > 0 && |pss[0]| > 0
    ensures |JoinPieces(pss)| > 0 && JoinPieces(pss)[0] == pss[0][0]
  {
  }

  /** Every word cut into pieces is a word. */
  lemma {:induction false} AllWordPiecesAreWords(ws: seq<string>, pss: seq<seq<string>>)
    requires AllWordPieces(ws, pss)
    ensures forall k :: 0 <= k < |ws| ==> IsWord(ws[k])
    decreases |ws|
  {
    if |ws| > 0 {
      WordPiecesIsWord(ws[0], pss[0]);
      AllWordPiecesAreWords(ws[1..], pss[1..]);
      assert forall k :: 0 < k < |ws| ==> ws[k] == ws[1..][k - 1];
    }
  }

  /** The second word's pieces start with a piece other than the space. */
  lemma {:induction false} SecondWordHead(ws: seq<string>, pss: seq<seq<string>>)
    requires AllWordPieces(ws, pss) && |ws| > 1
    ensures |pss[1]| > 0 && |JoinPieces(pss[1..])| > 0
    ensures JoinPieces(pss[1..])[0] == pss[1][0] != " "
  {
    assert WordPieces(ws[1], pss[1]);
    JoinPiecesHead(pss[1..]);
  }

  /** The joined pieces written out are the words joined by single spaces. */
  lemma {:induction false} JoinedConcat(ws: seq<string>, pss: seq<seq<string>>)
    requires AllWordPieces(ws, pss)
    ensures Concat(JoinPieces(pss)) == Unwords(ws)
    decreases |ws|
  {
    if |ws| > 1 {
      var ps', rest := pss[0] + [" "], JoinPieces(pss[1..]);
      JoinedConcat(ws[1..], pss[1..]);
      assert JoinPieces(pss) == ps' + rest;
      ConcatAppend(pss[0], [" "]);
      ConcatAppend(ps', rest);
      assert Concat([" "]) == " ";
    }
  }

  /** The joined pieces are pieces: inside a word by assumption, and the
      single space between words is apart from both neighbours. */
  lemma {:induction false} JoinedPieces(ws: seq<string>, pss: seq<seq<string>>)
    requires AllWordPieces(ws, pss)
    ensures Pieces(JoinPieces(pss))
    decreases |ws|
  {
    if |ws| > 1 {
      var ps', rest := pss[0] + [" "], JoinPieces(pss[1..]);
      JoinedPieces(ws[1..], pss[1..]);
      assert JoinPieces(pss) == ps' + rest;
      SecondWordHead(ws, pss);
      assert Pieces([" "]) && WordPieces(ws[0], pss[0]);
      PieceAt(pss[0], |pss[0]| - 1);
      PiecesAppend(pss[0], [" "]);
      PiecesAppend(ps', rest);
    }
  }

  /** The joined pieces other than the spaces are all the words' pieces. */
  lemma {:induction false} JoinedUnspaced(ws: seq<string>, pss: seq<seq<string>>)
    requires AllWordPieces(ws, pss)
    ensures Unspaced(JoinPieces(pss)) == Flatten(pss)
    decreases |ws|
  {
    if |ws| > 0 {
      assert WordPieces(ws[0], pss[0]);
      assert Flatten(pss) == pss[0] + Flatten(pss[1..]);
      if |ws| > 1 {
        JoinedUnspaced(ws[1..], pss[1..]);
        UnspacedBetween(pss[0], JoinPieces(pss[1..]));
      } else {
        UnspacedNoSpace(pss[0]);
        assert Flatten(pss[1..]) == [];
        assert pss[0] + [] == pss[0];
      }
    }
  }

  /** The space between two words' pieces is dropped. */
  lemma UnspacedBetween(ps: seq<string>, rest: seq<string>)
    requires forall k :: 0 <= k < |ps| ==> ps[k] != " "
    ensures Unspaced(ps + [" "] + rest) == ps + Unspaced(rest)
  {
    UnspacedNoSpace(ps);
    UnspacedAppend(ps, [" "]);
    UnspacedAppend(ps + [" "], rest);
    assert Unspaced([" "]) == [];
    assert ps + [] == ps;
  }

  /** Tokenizing words spaced by any whitespace gives, as token texts, the
      pieces each word is cut into, word after word: the whitespace only
      separates, and each word is cut independently of its neighbours
      (tokenizer.rs:72-109). */
  lemma {:induction false} TokenizeWordPieces(gaps: seq<string>, ws: seq<string>, pss: seq<seq<string>>)
    requires Gaps(gaps, ws) && AllWordPieces(ws, pss)
    ensures var t := Tokenize(Spaced(gaps, ws));
      Texts(t, t.tokens) == Flatten(pss)
  {
    AllWordPiecesAreWords(ws, pss);
    JoinedConcat(ws, pss);
    JoinedPieces(ws, pss);
    JoinedUnspaced(ws, pss);
    TokenizePieces(gaps, ws, JoinPieces(pss));
  }
}
