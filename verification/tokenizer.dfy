/** The segment tokenizer (back/eaf/src/tokenizer.rs): after whitespace
    normalisation, the text is split left to right into bracket tokens,
    one per bracket character, and NonDelim tokens, one per maximal run of
    other non-whitespace characters; the single spaces between them are
    dropped. No legality checking happens here. */
module Tokenizer {
  import opened Normalization

  datatype DelimKind = Round | Square | Angle

  datatype TokenKind = NonDelim | Open(delim: DelimKind) | Close(delim: DelimKind)

  /** A token is a kind and the half-open span [start, end) of the
      normalised source it covers. */
  datatype Token = Token(kind: TokenKind, start: nat, end: nat)

  datatype Tokenized = Tokenized(source: string, tokens: seq<Token>)

  /** The character that opens a span of the given kind. */
  function Opener(d: DelimKind): char {
    match d
    case Round => '('
    case Square => '['
    case Angle => '<'
  }

  /** The character that closes a span of the given kind. */
  function Closer(d: DelimKind): char {
    match d
    case Round => ')'
    case Square => ']'
    case Angle => '>'
  }

  predicate IsBracket(c: char) {
    c == '(' || c == ')' || c == '[' || c == ']' || c == '<' || c == '>'
  }

  /** The three alternatives of the tokenizer pattern: a bracket, a
      whitespace run, a run of anything else. They are disjoint, so the
      leftmost-first match of the pattern is also the longest one. */
  datatype CharClass = Bracket | Space | Other

  function ClassOf(c: char): CharClass {
    if IsBracket(c) then Bracket else if IsSpace(c) then Space else Other
  }

  /** `From<Match> for Token`: the kind a match's text maps to. Only the
      six one-character bracket texts are delimiters. */
  function KindOf(text: string): TokenKind {
    if |text| != 1 then NonDelim
    else
      match text[0]
      case '(' => Open(Round)
      case ')' => Close(Round)
      case '[' => Open(Square)
      case ']' => Close(Square)
      case '<' => Open(Angle)
      case '>' => Close(Angle)
      case _ => NonDelim
  }

  /** The match text is exactly one ASCII space, the only match the
      tokenizer drops. */
  predicate LoneSpace(text: string) {
    |text| == 1 && text[0] == ' '
  }

  /** `Tokenized::as_str`: the text a token covers; slicing out of range
      panics in the source, hence the precondition. */
  function AsStr(t: Tokenized, tok: Token): (r: string)
    requires tok.start <= tok.end <= |t.source|
    ensures |r| == tok.end - tok.start
    ensures forall p :: 0 <= p < |r| ==> r[p] == t.source[tok.start + p]
  {
    t.source[tok.start..tok.end]
  }

  /** End of the longest run of characters of class c starting at i. */
  function RunEnd(s: string, i: nat, c: CharClass): (j: nat)
    requires i <= |s|
    ensures i <= j <= |s|
    ensures forall p :: i <= p < j ==> ClassOf(s[p]) == c
    ensures j == |s| || ClassOf(s[j]) != c
    decreases |s| - i
  {
    if i < |s| && ClassOf(s[i]) == c then RunEnd(s, i + 1, c) else i
  }

  /** End of the match the tokenizer pattern finds at position i: one
      character for a bracket, the maximal run of the same class
      otherwise. */
  function MatchEnd(s: string, i: nat): (j: nat)
    requires i < |s|
    ensures i < j <= |s|
    ensures ClassOf(s[i]) == Bracket ==> j == i + 1
    ensures ClassOf(s[i]) != Bracket ==>
              && (forall p :: i <= p < j ==> ClassOf(s[p]) == ClassOf(s[i]))
              && (j == |s| || ClassOf(s[j]) != ClassOf(s[i]))
  {
    if ClassOf(s[i]) == Bracket then i + 1 else RunEnd(s, i + 1, ClassOf(s[i]))
  }

  /** `find_iter` over s from position i, with the `filter_map` that drops
      matches whose text is a single space and turns every other match
      into a token. */
  function Scan(s: string, i: nat): (ts: seq<Token>)
    requires i <= |s|
    ensures forall k :: 0 <= k < |ts| ==> i <= ts[k].start < ts[k].end <= |s|
    ensures forall k :: 0 <= k < |ts| - 1 ==> ts[k].end <= ts[k + 1].start
    decreases |s| - i
  {
    if i == |s| then []
    else
      var j := MatchEnd(s, i);
      if LoneSpace(s[i..j]) then Scan(s, j)
      else [Token(KindOf(s[i..j]), i, j)] + Scan(s, j)
  }

  /** `tokenize`: normalise the whitespace, then scan the result. */
  function Tokenize(source: string): Tokenized {
    var normalized := Normalize(source);
    Tokenized(normalized, Scan(normalized, 0))
  }
}
