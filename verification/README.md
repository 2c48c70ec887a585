# Segment tokenizers of the EAF transcription checker, in Dafny

A transcribed segment is a line of text that is checked for transcription
mistakes. Before checking, the text is cut into tokens. The repository has
two tokenizers for this, and this project models both. They share one
whitespace normalisation.

- **Normalisation** (module `Normalization`, `normalization.dfy`).
  - Every maximal run of Unicode whitespace becomes one ASCII space.
  - Whitespace at either end is removed.
  - So the result is the words of the input, its maximal non-whitespace
    runs, joined by single ASCII spaces (`NormalizeIsUnwords`).
  - `back/eaf/src/tokenizer.rs` trims first and collapses second.
    `back/eaf/src/lib.rs` collapses first and trims second. The model
    proves that the two orders give the same text.
  - Whitespace is the Unicode White_Space property. This is what Rust's
    `char::is_whitespace`, `str::trim` and the regex class `\s` test.
- **Regex tokenizer** (modules `Tokenizer` and `TokenizerLemmas`,
  `tokenizer.dfy` and `tokenizer_lemmas.dfy`).
  - `tokenize` scans the normalised source left to right with a
    three-way pattern: one bracket character out of `()[]<>`, a whitespace
    run, or a run of other characters.
  - It drops the matches whose text is a single space.
  - Each remaining match becomes a token. A bracket becomes `Open(kind)` or
    `Close(kind)`; anything else becomes `NonDelim`.
- **Unit tests of tokenizer.rs** (module `TokenizerExamples`,
  `tokenizer_examples.dfy`).
  - The three bracket tests and the two `compare_tokens` cases are stated
    as lemmas about `Tokenize` and proved from the general theorem
    `TokenizeWordPieces`.
  - That theorem says: if an input is words separated by arbitrary
    whitespace, and each word is cut into the matches of the tokenizer
    pattern, then the token texts are those matches, word after word.
- **State-machine tokenizer** (module `StateTokenizer`,
  `state_tokenizer.dfy`).
  - `Tokenizer::tokenize` walks the normalised text one character at a
    time with four states: Whitespace, InsideToken, OpenDelim and
    CloseDelim.
  - It records Word, OpenSquare, CloseSquare, AtSign and UnexpectedChar
    tokens. Which characters make up words is a parameter.
  - Each `leave_*` handler is a function that returns an `Effect`. An
    `Effect` holds the tokens the handler pushes, the word start it leaves
    behind and the next state. `Step` applies it to the tokenizer.

Two behaviours of lib.rs are modelled as written:

- The word start is set only when a word character is read in the
  Whitespace or OpenDelim state. After '@' or an unexpected character it
  keeps its old value, so a later Word can start before the AtSign that
  precedes it (`AtSignWordOverlap`).
- The loop has no final flush: a word that is still open when the text
  ends is never recorded (`TokenizePlain`, `LastWordLost`).

Offsets are character indices.

## Model

| member | source | states |
|---|---|---|
| Normalization.TrimStart | back/eaf/src/tokenizer.rs:97 | the result is empty or starts with a non-whitespace character, and is never longer than the input |
| Normalization.TrimStartSplit | back/eaf/src/tokenizer.rs:97 | `TrimStart` drops exactly the leading whitespace run: the input is a whitespace run followed by the result |
| Normalization.TrimEnd | back/eaf/src/tokenizer.rs:97 | the result is empty or ends with a non-whitespace character, and is never longer than the input |
| Normalization.TrimEndSplit | back/eaf/src/tokenizer.rs:97 | `TrimEnd` drops exactly the trailing whitespace run: the input is the result followed by a whitespace run |
| Normalization.Trim | back/eaf/src/lib.rs:117 | `str::trim` leaves no whitespace at either end |
| Normalization.TrimKeepsWords | back/eaf/src/tokenizer.rs:97 | trimming removes only whitespace: the non-whitespace characters are unchanged and in order |
| Normalization.Collapse | back/eaf/src/lib.rs:116 | after `\s+` → `" "` every whitespace character is an ASCII space and no two are adjacent; the result is empty exactly when the input is, and starts with whitespace exactly when the input does |
| Normalization.CollapseLast | back/eaf/src/lib.rs:116 | collapsing keeps whether the text ends in whitespace |
| Normalization.CollapseKeepsWords | back/eaf/src/lib.rs:116 | collapsing replaces whitespace runs only: the non-whitespace characters are kept, in order |
| Normalization.CollapseAllSpace | back/eaf/src/lib.rs:116 | a non-empty all-whitespace text collapses to a single space |
| Normalization.CollapseFixpoint | back/eaf/src/lib.rs:116 | collapsing an already collapsed text changes nothing |
| Normalization.NormalizeIsNormalized | back/eaf/src/tokenizer.rs:97 | the normalised source is collapsed and has no whitespace at either end |
| Normalization.NormalizeKeepsWords | back/eaf/src/tokenizer.rs:97 | normalisation changes whitespace only: the non-whitespace characters of the source survive in order |
| Normalization.NormalizeFixpoint | back/eaf/src/tokenizer.rs:97 | a normalised text is its own normalisation |
| Normalization.NormalizeIdempotent | back/eaf/src/tokenizer.rs:97 | normalising twice is normalising once |
| Normalization.CollapseTrimStart | back/eaf/src/lib.rs:116-117 | trimming the start commutes with collapsing |
| Normalization.CollapseTrimEnd | back/eaf/src/lib.rs:116-117 | trimming the end commutes with collapsing |
| Normalization.CollapseThenTrimAgrees | back/eaf/src/lib.rs:116-117 | `CollapseThenTrim` (lib.rs) equals `Normalize` (tokenizer.rs, trim then collapse) for every text |
| Normalization.TrimKeepsWordRuns | back/eaf/src/tokenizer.rs:97 | trimming keeps the words, the maximal non-whitespace runs, of the input, in order |
| Normalization.CollapseKeepsWordRuns | back/eaf/src/lib.rs:116 | `\s+` → `" "` keeps the words: no two words are joined, and no word is split or changed |
| Normalization.NormalizeKeepsWordRuns | back/eaf/src/tokenizer.rs:97 | the normalised text has exactly the words of the input |
| Normalization.NormalizeIsUnwords | back/eaf/src/tokenizer.rs:97 | `Normalize` is the words of the input joined by single ASCII spaces, so every whitespace run between two words becomes exactly one space |
| Normalization.NormalizeSpaced | back/eaf/src/tokenizer.rs:97 | words separated by any non-empty whitespace runs, with any whitespace at the ends, normalise to the words joined by single spaces |
| Tokenizer.RunEnd | back/eaf/src/tokenizer.rs:83-89 | a `\s+` or non-bracket, non-whitespace run is maximal: every character in it has the class, the next one does not |
| Tokenizer.MatchEnd | back/eaf/src/tokenizer.rs:75-94 | the match at a position is one character for a bracket, otherwise the maximal run of the first character's class |
| Tokenizer.Scan | back/eaf/src/tokenizer.rs:98-107 | the tokens are non-empty, lie within the source, and do not overlap, in order |
| TokenizerLemmas.KindOfBracket | back/eaf/src/tokenizer.rs:43-49 | each of the six bracket texts maps to Open(d) exactly for the opener of d and to Close(d) exactly for its closer |
| TokenizerLemmas.BracketIsDelim | back/eaf/src/tokenizer.rs:43-51 | a bracket is never NonDelim |
| TokenizerLemmas.KindOfOther | back/eaf/src/tokenizer.rs:50 | any text that does not start with a bracket is NonDelim |
| TokenizerLemmas.TokenizeKindOfText | back/eaf/src/tokenizer.rs:38-57 | every token's kind is what `KindOf` gives for its own text as `as_str` returns it |
| TokenizerLemmas.ScanShape | back/eaf/src/tokenizer.rs:75-107 | every emitted token is a one-character bracket of its kind, or a NonDelim maximal run that is not the lone space |
| TokenizerLemmas.ScanGaps | back/eaf/src/tokenizer.rs:98-107 | everything the scan skips is whitespace: before the first token, between tokens and after the last |
| TokenizerLemmas.ScanCovers | back/eaf/src/tokenizer.rs:98-107 | every non-whitespace character lies inside some emitted token |
| TokenizerLemmas.ScanKinds | back/eaf/src/tokenizer.rs:43-51 | on a normalised text: brackets are one-character tokens of their kind, every other token is NonDelim over a maximal run of non-bracket, non-whitespace characters |
| TokenizerLemmas.ScanTiles | back/eaf/src/tokenizer.rs:97-107 | on a normalised text the tokens tile it: the first starts at 0, the last ends at the end, and neighbours are adjacent or one space apart |
| TokenizerLemmas.TokenizeOrdered | back/eaf/src/tokenizer.rs:72-109 | the source is normalised, and the tokens are non-empty, in bounds and ordered |
| TokenizerLemmas.TokenizeKinds | back/eaf/src/tokenizer.rs:43-51 | `tokenize` gives the bracket → kind mapping and maximal NonDelim runs |
| TokenizerLemmas.TokenizeNoSpaceInTokens | back/eaf/src/tokenizer.rs:100-106 | no token contains whitespace: the separating spaces are never emitted |
| TokenizerLemmas.TokenizeGaps | back/eaf/src/tokenizer.rs:97-107 | the tokens tile the source, and there are no tokens exactly when the source is empty |
| TokenizerLemmas.TokenizeCoversBrackets | back/eaf/src/tokenizer.rs:78-80 | every bracket character of the source starts a token |
| TokenizerLemmas.BracketStartsToken | back/eaf/src/tokenizer.rs:78-80 | in a normalised text, the index of the token that starts at a given bracket |
| TokenizerLemmas.TokenizeNonDelimSeparated | back/eaf/src/tokenizer.rs:85-89 | two NonDelim tokens are never directly adjacent |
| TokenizerLemmas.RebuildTiles | back/eaf/src/tokenizer.rs:67-69 | rejoining the texts of a tiling of the tokens gives back the text they tile |
| TokenizerLemmas.TokenizeRoundTrip | back/eaf/src/tokenizer.rs:67-69 | round trip: the texts `as_str` gives for the tokens, joined with a single space wherever neighbours are not adjacent, give back the source |
| TokenizerLemmas.TokenizeIdempotent | back/eaf/src/tokenizer.rs:72-109 | tokenizing the normalised source again gives the same source and the same tokens |
| TokenizerLemmas.ScanPieces | back/eaf/src/tokenizer.rs:98-107 | scanning a text that is cut into pattern matches (each a bracket, the single space or a run of other characters, no two runs or two spaces in a row) emits one token per match other than the space, with the kind of its text |
| TokenizerLemmas.TokenizePieces | back/eaf/src/tokenizer.rs:72-109 | for words spaced by any whitespace and cut into matches, the source is the words joined by single spaces, and the token texts are the matches other than the single spaces |
| TokenizerLemmas.TokenizeWordPieces | back/eaf/src/tokenizer.rs:72-109 | for words spaced by any whitespace, the token texts are the matches each word is cut into, word after word |
| TokenizerExamples.BracketedWord | back/eaf/src/tokenizer.rs:115-134 | for each bracket kind and any whitespace around foo, the bracketed bar and baz: five tokens, foo, opener, bar, closer, baz, with token 1 `Open` and token 3 `Close` of that kind |
| TokenizerExamples.SquareBrackets | back/eaf/src/tokenizer.rs:115-120 | `tokenize_square_brackets`, on the input with tabs, a newline and runs of spaces added: token 1 is `Open(Square)` and token 3 is `Close(Square)` |
| TokenizerExamples.RoundBrackets | back/eaf/src/tokenizer.rs:122-127 | `tokenize_round_brackets`: token 1 is `Open(Round)` and token 3 is `Close(Round)` |
| TokenizerExamples.AngleBrackets | back/eaf/src/tokenizer.rs:129-134 | `tokenize_angle_brackets`: token 1 is `Open(Angle)` and token 3 is `Close(Angle)` |
| TokenizerExamples.CompareNice | back/eaf/src/tokenizer.rs:150-158 | `compare_nice`: the token texts of "čáp [dřepí @ <SM v] .. (louži>)" are exactly the thirteen expected strings |
| TokenizerExamples.CompareNotNice | back/eaf/src/tokenizer.rs:160-166 | `compare_not_nice`: the token texts of "foo][ bar(baz).." are exactly the eight expected strings |
| StateTokenizer.LeaveWhitespace | back/eaf/src/lib.rs:130-151 | in the order tested: '[' pushes OpenSquare and goes to OpenDelim; '@' pushes AtSign; whitespace stays in Whitespace with nothing pushed; a word character moves the word start to it; anything else pushes UnexpectedChar. Only a word character moves the start |
| StateTokenizer.LeaveInsideToken | back/eaf/src/lib.rs:153-170 | a word character changes nothing; any other character first pushes a Word from the recorded start up to it, then ']' pushes CloseSquare and goes to CloseDelim, whitespace goes to Whitespace, and anything else pushes UnexpectedChar; the start is never moved |
| StateTokenizer.LeaveOpenDelim | back/eaf/src/lib.rs:172-188 | the next state is always InsideToken; '@' pushes AtSign, a word character moves the word start to it with nothing pushed, and anything else, whitespace included, pushes UnexpectedChar with the start kept |
| StateTokenizer.LeaveCloseDelim | back/eaf/src/lib.rs:190-199 | Whitespace exactly on whitespace, with nothing pushed; anything else is one UnexpectedChar, and the word start is untouched |
| StateTokenizer.Handle | back/eaf/src/lib.rs:120-125 | each handler pushes at most two sound tokens, a Word only first and only from InsideToken; the next state fits the character |
| StateTokenizer.RunLoop | back/eaf/src/lib.rs:119-126 | the loop, started from `New` and applying `Step` to each character, computes the fold `Run` and keeps the tokenizer invariant |
| StateTokenizer.TokenizeLoop | back/eaf/src/lib.rs:114-128 | the result equals `Tokenize`, carries the normalised text and has well-formed tokens |
| StateTokenizer.StepInv | back/eaf/src/lib.rs:119-126 | one character step keeps token bounds, ordering and kinds, and the state agrees with the character just read |
| StateTokenizer.RunInv | back/eaf/src/lib.rs:106-126 | from the tokenizer `New` builds (no tokens, state Whitespace, word start 0) and after every `Step`: each token is well formed and ends within the prefix read, and ends never decrease |
| StateTokenizer.RunAppendOnly | back/eaf/src/lib.rs:60-62 | `PushTokens` only appends: the tokens after a prefix are a prefix of the tokens after any longer prefix |
| StateTokenizer.TokenizeWellFormed | back/eaf/src/lib.rs:114-128 | for `Tokenize`: the segment text is the normalised text; only Word, OpenSquare, CloseSquare, AtSign and UnexpectedChar occur; brackets and AtSign sit on their own character; a Word ends just before a non-word character |
| StateTokenizer.PlainRun | back/eaf/src/lib.rs:130-170 | on a normalised text of word characters and spaces the machine matches the reference: one Word per space, from just after the previous space |
| StateTokenizer.TokenizePlain | back/eaf/src/lib.rs:114-128 | tokenizing a text whose normalised form is plain gives exactly the reference Words, so the word after the last space is missing |
| StateTokenizer.TokenizeNormalized | back/eaf/src/lib.rs:114-118 | an already normalised text is run as it stands |
| StateTokenizer.AtSignWordOverlap | back/eaf/src/lib.rs:136-139 | "@a b" gives AtSign [0,1) and a Word [0,2) that overlaps it, because '@' does not set the word start |
| StateTokenizer.SpaceAfterOpenUnexpected | back/eaf/src/lib.rs:172-188 | after '[' a space is an UnexpectedChar, not a separator |
| StateTokenizer.WordAfterCloseUnexpected | back/eaf/src/lib.rs:190-199 | after ']' a word character is an UnexpectedChar |
| StateTokenizer.LastWordLost | back/eaf/src/lib.rs:119-127 | with no flush after the loop, "ab" with word characters "ab" yields no tokens |

## Left out

- Byte offsets: both sources use UTF-8 byte offsets (`Match::start`, `char_indices`, `len_utf8`). The model uses character indices, so an UnexpectedChar is one position wide.
- The regex engine: `\s+` and the three-way tokenizer pattern are modelled by their meaning on character classes. The alternatives are disjoint, so leftmost-first matching and maximal runs coincide.
- Special tokens: the `special_toks` and `special_tok_chars` fields and their construction in `Tokenizer::new` (lib.rs:93-105) are unused by the handlers and are not modelled. `New` takes the text and the word characters only.
- `Tokenizer::new` is declared with three parameters but called with two (lib.rs:98, 118), and its struct literal omits two fields, so lib.rs does not compile as written. The model follows the evident intent.
- The `word_chars` HashSet is kept as the string it is built from. Membership is the same.
- `Segment::with_text` is folded into `New`. `Segment::push_token` appears as `PushTokens`, which appends the tokens one handler pushes. Its property is `RunAppendOnly`.
- `Segment::debug` (grapheme-counted caret display, stderr output) is left out.
- The TokenKind variants OpenRound, CloseRound, OpenAngle, CloseAngle, OpenCurly, CloseCurly, Ampersand, Dot, DoubleDot and Count of lib.rs are declared but never produced. `TokenizeWellFormed` proves they do not occur.
- The commented-out parser in lib.rs, parser.rs, document.rs, the database schema and the web server are not part of this model.
- Adjacent tokens with no space between them, such as in "foo][", are accepted as in the source. No legality checking is modelled, since tokenizer.rs leaves it to the parser.
- `Tokenized::as_str` panics when a span lies outside the source. `AsStr` requires the span to be in bounds instead, and every token `Tokenize` produces is in bounds (`TokenizeOrdered`).
- The unit test of lib.rs (lib.rs:259-283) only prints its segments and then fails on `assert!(false)`. It states no expected tokens, so it has no example lemma. The state machine's behaviour on such inputs is stated by `AtSignWordOverlap`, `SpaceAfterOpenUnexpected`, `WordAfterCloseUnexpected` and `LastWordLost`.
- StateTokenizer.PlainRun: the reference characterisation covers texts of word characters and spaces only. Brackets and '@' are covered by the invariants and the example lemmas, not by a full reference.
