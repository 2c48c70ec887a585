/** Whitespace normalisation shared by both tokenizers of the segment
    checker: trim the segment and collapse every whitespace run to a
    single ASCII space, so that all token offsets refer to the normalised
    text and transcribers never fix spacing by hand. */
module Normalization {

  /** The Unicode White_Space property: the characters Rust's
      `char::is_whitespace`, `str::trim` and the regex class `\s` all treat
      as whitespace. */
  predicate IsSpace(c: char) {
    || ('\t' <= c <= '\r')
    || c == ' '
    || c == '\U{0085}'
    || c == '\U{00A0}'
    || c == '\U{1680}'
    || ('\U{2000}' <= c <= '\U{200A}')
    || c == '\U{2028}'
    || c == '\U{2029}'
    || c == '\U{202F}'
    || c == '\U{205F}'
    || c == '\U{3000}'
  }

  /** Every character of s[a..b] is whitespace. */
  ghost predicate AllSpace(s: string, a: int, b: int)
    requires 0 <= a <= b <= |s|
  {
    forall p :: a <= p < b ==> IsSpace(s[p])
  }

  /** Whitespace, if any, is single ASCII spaces. */
  ghost predicate Collapsed(s: string) {
    && (forall k :: 0 <= k < |s| && IsSpace(s[k]) ==> s[k] == ' ')
    && (forall k :: 0 < k < |s| ==> !(IsSpace(s[k - 1]) && IsSpace(s[k])))
  }

  /** The shape of a normalised segment: collapsed, and no whitespace at
      either end. */
  ghost predicate Normalized(s: string) {
    && Collapsed(s)
    && (|s| > 0 ==> !IsSpace(s[0]) && !IsSpace(s[|s| - 1]))
  }

  /** The end of the whitespace run starting at i: the first index at or
      after i that holds a non-whitespace character, or |s|. */
  function SkipSpace(s: string, i: nat): (j: nat)
    requires i <= |s|
    ensures i <= j <= |s| && AllSpace(s, i, j)
    ensures j == |s| || !IsSpace(s[j])
    decreases |s| - i
  {
    if i < |s| && IsSpace(s[i]) then SkipSpace(s, i + 1) else i
  }

  /** The start of the whitespace run ending at j: the least index i with
      s[i..j] all whitespace. */
  function SkipSpaceBack(s: string, j: nat): (i: nat)
    requires j <= |s|
    ensures i <= j && AllSpace(s, i, j)
    ensures i == 0 || !IsSpace(s[i - 1])
  {
    if j > 0 && IsSpace(s[j - 1]) then SkipSpaceBack(s, j - 1) else j
  }

  /** `str::trim_start`: drop the leading whitespace run. */
  function TrimStart(s: string): (r: string)
    ensures |r| <= |s|
    ensures r == [] || !IsSpace(r[0])
  {
    s[SkipSpace(s, 0)..]
  }

  /** `str::trim_end`: drop the trailing whitespace run. */
  function TrimEnd(s: string): (r: string)
    ensures |r| <= |s|
    ensures r == [] || !IsSpace(r[|r| - 1])
  {
    s[..SkipSpaceBack(s, |s|)]
  }

  /** The whitespace run starting at i ends exactly where whitespace stops. */
  lemma SkipSpaceUnique(s: string, i: nat, n: nat)
    requires i <= n <= |s| && AllSpace(s, i, n)
    requires n == |s| || !IsSpace(s[n])
    ensures SkipSpace(s, i) == n
  {
  }

  /** The whitespace run ending at j starts exactly where whitespace stops. */
  lemma SkipSpaceBackUnique(s: string, j: nat, n: nat)
    requires n <= j <= |s| && AllSpace(s, n, j)
    requires n == 0 || !IsSpace(s[n - 1])
    ensures SkipSpaceBack(s, j) == n
  {
  }

  /** Trimming the start of a text that starts with no whitespace is a no-op. */
  lemma TrimStartNoop(s: string)
    requires s == [] || !IsSpace(s[0])
    ensures TrimStart(s) == s
  {
    SkipSpaceUnique(s, 0, 0);
  }

  /** Trimming the end of a text that ends with no whitespace is a no-op. */
  lemma TrimEndNoop(s: string)
    requires s == [] || !IsSpace(s[|s| - 1])
    ensures TrimEnd(s) == s
  {
    SkipSpaceBackUnique(s, |s|, |s|);
  }

  /** A text is its leading whitespace run followed by its start-trimmed rest. */
  lemma TrimStartSplit(s: string)
    ensures var a := s[..|s| - |TrimStart(s)|];
      s == a + TrimStart(s) && AllSpace(a, 0, |a|)
  {
    var n := SkipSpace(s, 0);
    var a := s[..n];
    assert |TrimStart(s)| == |s| - n;
    assert s == a + s[n..];
    forall p | 0 <= p < |a| ensures IsSpace(a[p]) {
      assert a[p] == s[p];
    }
  }

  /** `str::trim`: drop whitespace at both ends. */
  function Trim(s: string): (r: string)
    ensures r == [] || (!IsSpace(r[0]) && !IsSpace(r[|r| - 1]))
    ensures |r| <= |s|
  {
    TrimEnd(TrimStart(s))
  }

  /** `Regex::new(r"\s+").replace_all(s, " ")`: every maximal whitespace
      run becomes one ASCII space; other characters are kept in order. */
  function Collapse(s: string): (r: string)
    ensures Collapsed(r)
    ensures |r| == 0 <==> |s| == 0
    ensures |r| > 0 ==> (IsSpace(r[0]) <==> IsSpace(s[0]))
    decreases |s|
  {
    if |s| == 0 then []
    else if IsSpace(s[0]) then
      var t := TrimStart(s);
      var rest := Collapse(t);
      CollapsedCons(' ', rest);
      [' '] + rest
    else
      var rest := Collapse(s[1..]);
      CollapsedCons(s[0], rest);
      [s[0]] + rest
  }

  /** Putting c in front of a collapsed text keeps it collapsed, provided
      c is an ASCII space not followed by whitespace, or not whitespace. */
  lemma CollapsedCons(c: char, rest: string)
    requires Collapsed(rest)
    requires IsSpace(c) ==> c == ' ' && (rest == [] || !IsSpace(rest[0]))
    ensures Collapsed([c] + rest)
    ensures ([c] + rest)[0] == c
    ensures |rest| > 0 ==> ([c] + rest)[|rest|] == rest[|rest| - 1]
  {
    var r := [c] + rest;
    forall k | 0 < k < |r|
      ensures r[k] == rest[k - 1]
    {
    }
  }

  /** Collapsing keeps whether the text ends in whitespace. */
  lemma {:induction false} CollapseLast(s: string)
    requires |s| > 0
    ensures var r := Collapse(s); IsSpace(r[|r| - 1]) <==> IsSpace(s[|s| - 1])
    decreases |s|
  {
    var r := Collapse(s);
    if IsSpace(s[0]) {
      var t := TrimStart(s);
      var rest := Collapse(t);
      assert r == [' '] + rest;
      if |t| > 0 {
        CollapseLast(t);
        assert t[|t| - 1] == s[|s| - 1];
        assert r[|r| - 1] == rest[|rest| - 1];
      } else {
        assert IsSpace(s[|s| - 1]);
      }
    } else if |s| > 1 {
      var rest := Collapse(s[1..]);
      assert r == [s[0]] + rest;
      CollapseLast(s[1..]);
      assert r[|r| - 1] == rest[|rest| - 1];
    }
  }

  /** The normalisation of tokenizer.rs: trim first, then collapse. */
  function Normalize(s: string): string {
    Collapse(Trim(s))
  }

  /** The normalisation of lib.rs: collapse first, then trim. */
  function CollapseThenTrim(s: string): string {
    Trim(Collapse(s))
  }

  /** Normalising any text yields a normalised text. */
  lemma NormalizeIsNormalized(s: string)
    ensures Normalized(Normalize(s))
  {
    var t := Trim(s);
    var r := Collapse(t);
    assert Collapsed(r);
    if |r| > 0 {
      CollapseLast(t);
      assert !IsSpace(r[0]) && !IsSpace(r[|r| - 1]);
    }
  }

  /** Collapsing a collapsed text changes nothing. */
  lemma {:induction false} CollapseFixpoint(s: string)
    requires Collapsed(s)
    ensures Collapse(s) == s
    decreases |s|
  {
    if |s| > 0 {
      var tail := s[1..];
      CollapsedTail(s);
      CollapseFixpoint(tail);
      if IsSpace(s[0]) {
        CollapsedSpaceHead(s);
        CollapseSpaceHead(s);
      } else {
        CollapseWordHead(s);
      }
      assert s == [s[0]] + tail;
    }
  }

  /** Dropping the first character of a collapsed text keeps it collapsed. */
  lemma CollapsedTail(s: string)
    requires Collapsed(s) && |s| > 0
    ensures Collapsed(s[1..])
  {
    var tail := s[1..];
    forall k | 0 <= k < |tail| && IsSpace(tail[k])
      ensures tail[k] == ' '
    {
      assert tail[k] == s[k + 1];
    }
    forall k | 0 < k < |tail|
      ensures !(IsSpace(tail[k - 1]) && IsSpace(tail[k]))
    {
      assert tail[k - 1] == s[k] && tail[k] == s[k + 1];
    }
  }

  /** A collapsed text starting with whitespace starts with one ASCII space,
      and trimming its start drops just that space. */
  lemma CollapsedSpaceHead(s: string)
    requires Collapsed(s) && |s| > 0 && IsSpace(s[0])
    ensures s[0] == ' ' && TrimStart(s) == s[1..]
  {
    assert |s| == 1 || !IsSpace(s[1]);
    SkipSpaceUnique(s, 0, 1);
  }

  /** A normalised text is a fixpoint of normalisation. */
  lemma NormalizeFixpoint(s: string)
    requires Normalized(s)
    ensures Normalize(s) == s
  {
    TrimStartNoop(s);
    TrimEndNoop(s);
    CollapseFixpoint(s);
  }

  /** Normalisation is idempotent. */
  lemma NormalizeIdempotent(s: string)
    ensures Normalize(Normalize(s)) == Normalize(s)
  {
    NormalizeIsNormalized(s);
    NormalizeFixpoint(Normalize(s));
  }

  /** Dropping an all-whitespace prefix does not change the start-trimmed text. */
  lemma TrimStartSpacePrefix(a: string, y: string)
    requires AllSpace(a, 0, |a|)
    ensures TrimStart(a + y) == TrimStart(y)
  {
    var s := a + y;
    var n := SkipSpace(y, 0);
    forall p | 0 <= p < |a| + n ensures IsSpace(s[p]) {
      if p >= |a| {
        assert s[p] == y[p - |a|];
      }
    }
    assert |a| + n == |s| || s[|a| + n] == y[n];
    SkipSpaceUnique(s, 0, |a| + n);
    assert s[|a| + n..] == y[n..];
  }

  /** Trimming the end of x + y touches only y when y is not all whitespace. */
  lemma TrimEndConcat(x: string, y: string, p: nat)
    requires p < |y| && !IsSpace(y[p])
    ensures TrimEnd(x + y) == x + TrimEnd(y)
  {
    var s := x + y;
    var m := SkipSpaceBack(y, |y|);
    assert p < m;
    forall q | |x| + m <= q < |s| ensures IsSpace(s[q]) {
      assert s[q] == y[q - |x|];
    }
    assert s[|x| + m - 1] == y[m - 1];
    SkipSpaceBackUnique(s, |s|, |x| + m);
    assert s[..|x| + m] == x + y[..m];
  }

  /** An all-whitespace suffix does not change the end-trimmed text. */
  lemma TrimEndSpaceSuffix(x: string, b: string)
    requires AllSpace(b, 0, |b|)
    ensures TrimEnd(x + b) == TrimEnd(x)
  {
    var s := x + b;
    var m := SkipSpaceBack(x, |x|);
    forall q | m <= q < |s| ensures IsSpace(s[q]) {
      if q < |x| {
        assert s[q] == x[q];
      } else {
        assert s[q] == b[q - |x|];
      }
    }
    assert m == 0 || s[m - 1] == x[m - 1];
    SkipSpaceBackUnique(s, |s|, m);
    assert s[..m] == x[..m];
  }

  /** Collapsing a non-empty all-whitespace text leaves one space. */
  lemma CollapseAllSpace(s: string)
    requires |s| > 0 && AllSpace(s, 0, |s|)
    ensures Collapse(s) == " "
  {
    SkipSpaceUnique(s, 0, |s|);
    assert TrimStart(s) == [];
  }

  /** A text starting with whitespace collapses to one space followed by
      the collapsed rest. */
  lemma CollapseSpaceHead(u: string)
    requires |u| > 0 && IsSpace(u[0])
    ensures Collapse(u) == [' '] + Collapse(TrimStart(u))
  {
  }

  /** A text starting with a non-whitespace character collapses to that
      character followed by the collapsed rest. */
  lemma CollapseWordHead(u: string)
    requires |u| > 0 && !IsSpace(u[0])
    ensures Collapse(u) == [u[0]] + Collapse(u[1..])
  {
  }

  /** Trimming the start commutes with collapsing. */
  lemma CollapseTrimStart(s: string)
    ensures Collapse(TrimStart(s)) == TrimStart(Collapse(s))
  {
    if |s| > 0 && IsSpace(s[0]) {
      var rest := Collapse(TrimStart(s));
      CollapseSpaceHead(s);
      var c := Collapse(s);
      assert c[0] == ' ' && c[1..] == rest;
      SkipSpaceUnique(c, 0, 1);
      TrimStartNoop(rest);
    } else {
      TrimStartNoop(s);
      TrimStartNoop(Collapse(s));
    }
  }

  /** Trimming the end commutes with collapsing. */
  lemma {:induction false} CollapseTrimEnd(s: string)
    ensures Collapse(TrimEnd(s)) == TrimEnd(Collapse(s))
    decreases |s|, 1
  {
    if |s| == 0 {
    } else if TrimEnd(s) == [] {
      assert AllSpace(s, 0, |s|);
      CollapseAllSpace(s);
      SkipSpaceBackUnique(" ", 1, 0);
    } else if !IsSpace(s[0]) {
      CollapseTrimEndWordHead(s);
    } else {
      var t := TrimStart(s);
      var a := s[..|s| - |t|];
      TrimStartSplit(s);
      if t == [] {
        assert s == a + [];
        assert AllSpace(s, 0, |s|);
        SkipSpaceBackUnique(s, |s|, 0);
      } else {
        CollapseTrimEndSpaceHead(a, t);
      }
    }
  }

  /** CollapseTrimEnd when the text starts with a non-whitespace character. */
  lemma {:induction false} CollapseTrimEndWordHead(s: string)
    requires |s| > 0 && !IsSpace(s[0])
    ensures Collapse(TrimEnd(s)) == TrimEnd(Collapse(s))
    decreases |s|, 0
  {
    var tail := s[1..];
    assert s == [s[0]] + tail;
    var c := Collapse(tail);
    assert Collapse(s) == [s[0]] + c;
    var te := TrimEnd(tail);
    if te == [] {
      TrimEndSpaceSuffix([s[0]], tail);
      TrimEndNoop([s[0]]);
      assert Collapse([s[0]]) == [s[0]] + Collapse([]);
      if |tail| > 0 {
        CollapseAllSpace(tail);
        TrimEndSpaceSuffix([s[0]], c);
      } else {
        assert [s[0]] + c == [s[0]];
      }
    } else {
      TrimEndConcat([s[0]], tail, |te| - 1);
      CollapseTrimEnd(tail);
      assert Collapse(TrimEnd(s)) == [s[0]] + Collapse(te);
      var ct := TrimEnd(c);
      assert |ct| > 0;
      TrimEndConcat([s[0]], c, |ct| - 1);
    }
  }

  /** CollapseTrimEnd for a whitespace run a followed by a text t that
      starts with a non-whitespace character. */
  lemma {:induction false} CollapseTrimEndSpaceHead(a: string, t: string)
    requires |a| > 0 && AllSpace(a, 0, |a|)
    requires |t| > 0 && !IsSpace(t[0])
    ensures Collapse(TrimEnd(a + t)) == TrimEnd(Collapse(a + t))
    decreases |a + t|, 0
  {
    var te := TrimEnd(t);
    TrimEndConcat(a, t, 0);
    assert |te| > 0 && te[0] == t[0];
    TrimStartSpacePrefix(a, te);
    TrimStartSpacePrefix(a, t);
    TrimStartNoop(te);
    TrimStartNoop(t);
    CollapseSpaceHead(a + te);
    CollapseSpaceHead(a + t);
    CollapseTrimEnd(t);
    var c := Collapse(t);
    assert |c| > 0 && !IsSpace(c[0]);
    TrimEndConcat([' '], c, 0);
  }

  /** The two normalisations agree: lib.rs collapses then trims,
      tokenizer.rs trims then collapses. */
  lemma CollapseThenTrimAgrees(s: string)
    ensures CollapseThenTrim(s) == Normalize(s)
  {
    CollapseTrimStart(s);
    CollapseTrimEnd(TrimStart(s));
  }

  /** The non-whitespace characters of s, in order. */
  function NonSpace(s: string): (r: string)
    ensures |r| <= |s|
    ensures forall p :: 0 <= p < |r| ==> !IsSpace(r[p])
  {
    if |s| == 0 then []
    else if IsSpace(s[0]) then NonSpace(s[1..])
    else [s[0]] + NonSpace(s[1..])
  }

  lemma {:induction false} NonSpaceConcat(a: string, b: string)
    ensures NonSpace(a + b) == NonSpace(a) + NonSpace(b)
    decreases |a|
  {
    if |a| == 0 {
      assert a + b == b;
    } else {
      assert (a + b)[1..] == a[1..] + b;
      NonSpaceConcat(a[1..], b);
    }
  }

  lemma {:induction false} NonSpaceAllSpace(a: string)
    requires AllSpace(a, 0, |a|)
    ensures NonSpace(a) == []
    decreases |a|
  {
    if |a| > 0 {
      assert AllSpace(a[1..], 0, |a| - 1) by {
        forall p | 0 <= p < |a| - 1 ensures IsSpace(a[1..][p]) {
          assert a[1..][p] == a[p + 1];
        }
      }
      NonSpaceAllSpace(a[1..]);
    }
  }

  /** A text is its end-trimmed part followed by its trailing whitespace run. */
  lemma TrimEndSplit(s: string)
    ensures var b := s[|TrimEnd(s)|..];
      s == TrimEnd(s) + b && AllSpace(b, 0, |b|)
  {
    var n := SkipSpaceBack(s, |s|);
    var b := s[n..];
    assert |TrimEnd(s)| == n;
    assert s == s[..n] + b;
    forall p | 0 <= p < |b| ensures IsSpace(b[p]) {
      assert b[p] == s[n + p];
    }
  }

  /** Trimming removes only whitespace. */
  lemma TrimKeepsWords(s: string)
    ensures NonSpace(Trim(s)) == NonSpace(s)
  {
    TrimStartSplit(s);
    var t := TrimStart(s);
    var a := s[..|s| - |t|];
    NonSpaceConcat(a, t);
    NonSpaceAllSpace(a);
    TrimEndSplit(t);
    var b := t[|TrimEnd(t)|..];
    NonSpaceConcat(TrimEnd(t), b);
    NonSpaceAllSpace(b);
  }

  /** Collapsing a text that starts with whitespace drops only whitespace
      before its start-trimmed rest. */
  lemma CollapseKeepsWordsSpaceHead(s: string)
    requires |s| > 0 && IsSpace(s[0])
    ensures |TrimStart(s)| < |s|
    ensures NonSpace(TrimStart(s)) == NonSpace(s)
    ensures NonSpace(Collapse(s)) == NonSpace(Collapse(TrimStart(s)))
  {
    var t := TrimStart(s);
    TrimStartSplit(s);
    var a := s[..|s| - |t|];
    NonSpaceConcat(a, t);
    NonSpaceAllSpace(a);
    CollapseSpaceHead(s);
    NonSpaceConcat([' '], Collapse(t));
  }

  /** Collapsing replaces whitespace runs only: the non-whitespace
      characters are kept, in order. */
  lemma {:induction false} CollapseKeepsWords(s: string)
    ensures NonSpace(Collapse(s)) == NonSpace(s)
    decreases |s|
  {
    if |s| > 0 {
      if IsSpace(s[0]) {
        CollapseKeepsWordsSpaceHead(s);
        CollapseKeepsWords(TrimStart(s));
      } else {
        CollapseWordHead(s);
        CollapseKeepsWords(s[1..]);
        NonSpaceConcat([s[0]], Collapse(s[1..]));
      }
    }
  }

  /** Normalisation changes whitespace only: the non-whitespace characters
      of the normalised text are those of the input, in order. */
  lemma NormalizeKeepsWords(s: string)
    ensures NonSpace(Normalize(s)) == NonSpace(s)
  {
    TrimKeepsWords(s);
    CollapseKeepsWords(Trim(s));
  }

  /** The words of s: its maximal runs of non-whitespace characters, in
      order. Defined from the right: a non-whitespace character joins the
      first word of the rest when the next character is not whitespace,
      and starts a word of its own otherwise. */
  function Words(s: string): (ws: seq<string>)
    ensures |s| > 0 && !IsSpace(s[0]) ==> |ws| > 0
    decreases |s|
  {
    if |s| == 0 then []
    else if IsSpace(s[0]) then Words(s[1..])
    else PrependChar(s[0], |s| > 1 && !IsSpace(s[1]), Words(s[1..]))
  }

  /** Put c in front of the first word of ws when joins holds, and in a
      word of its own otherwise. */
  function PrependChar(c: char, joins: bool, ws: seq<string>): (r: seq<string>)
    requires joins ==> |ws| > 0
    ensures |r| > 0
  {
    if joins then [[c] + ws[0]] + ws[1..] else [[c]] + ws
  }

  /** A whitespace prefix does not change the words. */
  lemma {:induction false} WordsSpacePrefix(a: string, t: string)
    requires AllSpace(a, 0, |a|)
    ensures Words(a + t) == Words(t)
    decreases |a|
  {
    if |a| > 0 {
      assert (a + t)[1..] == a[1..] + t;
      assert (a + t)[0] == a[0];
      assert AllSpace(a[1..], 0, |a| - 1) by {
        forall p | 0 <= p < |a| - 1 ensures IsSpace(a[1..][p]) {
          assert a[1..][p] == a[p + 1];
        }
      }
      WordsSpacePrefix(a[1..], t);
    } else {
      assert a + t == t;
    }
  }

  /** A whitespace suffix does not change the words. */
  lemma {:induction false} WordsSpaceSuffix(x: string, b: string)
    requires AllSpace(b, 0, |b|)
    ensures Words(x + b) == Words(x)
    decreases |x|
  {
    if |x| == 0 {
      assert x + b == b + [];
      WordsSpacePrefix(b, []);
    } else {
      var s := x + b;
      assert s[1..] == x[1..] + b;
      assert s[0] == x[0];
      WordsSpaceSuffix(x[1..], b);
      if |x| == 1 {
        assert |s| > 1 ==> s[1] == b[0];
      } else {
        assert s[1] == x[1];
      }
    }
  }

  /** Trimming keeps the words. */
  lemma TrimKeepsWordRuns(s: string)
    ensures Words(Trim(s)) == Words(s)
  {
    TrimStartSplit(s);
    var t := TrimStart(s);
    WordsSpacePrefix(s[..|s| - |t|], t);
    TrimEndSplit(t);
    WordsSpaceSuffix(TrimEnd(t), t[|TrimEnd(t)|..]);
  }

  /** Collapsing keeps the words: every whitespace run between two words
      survives as a separator, and no two words are joined. */
  lemma {:induction false} CollapseKeepsWordRuns(s: string)
    ensures Words(Collapse(s)) == Words(s)
    decreases |s|
  {
    if |s| > 0 {
      if IsSpace(s[0]) {
        var t := TrimStart(s);
        TrimStartSplit(s);
        WordsSpacePrefix(s[..|s| - |t|], t);
        CollapseSpaceHead(s);
        assert ([' '] + Collapse(t))[1..] == Collapse(t);
        CollapseKeepsWordRuns(t);
      } else {
        var c := Collapse(s[1..]);
        CollapseWordHead(s);
        assert ([s[0]] + c)[1..] == c;
        CollapseKeepsWordRuns(s[1..]);
      }
    }
  }

  /** Normalisation keeps the words: the normalised text has exactly the
      maximal non-whitespace runs of the input, in order. */
  lemma NormalizeKeepsWordRuns(s: string)
    ensures Words(Normalize(s)) == Words(s)
  {
    TrimKeepsWordRuns(s);
    CollapseKeepsWordRuns(Trim(s));
  }

  /** The words joined by single ASCII spaces. */
  function Unwords(ws: seq<string>): string {
    if |ws| == 0 then ""
    else if |ws| == 1 then ws[0]
    else ws[0] + " " + Unwords(ws[1..])
  }

  /** Joining a character to the first word joins it to the text. */
  lemma {:induction false} UnwordsPrepend(c: char, ws: seq<string>)
    requires |ws| > 0
    ensures Unwords(PrependChar(c, true, ws)) == [c] + Unwords(ws)
  {
    var r := PrependChar(c, true, ws);
    assert r[0] == [c] + ws[0] && r[1..] == ws[1..];
    if |ws| > 1 {
      var a, u := ws[0], Unwords(ws[1..]);
      assert Unwords(r) == ([c] + a) + " " + u;
      assert ([c] + a) + " " + u == [c] + (a + " " + u);
    }
  }

  /** Dropping the first character of a normalised text that is followed
      by another non-whitespace character leaves a normalised text. */
  lemma NormalizedDrop(s: string, n: nat)
    requires Normalized(s) && 0 < n < |s| && !IsSpace(s[n])
    ensures Normalized(s[n..])
  {
    CollapsedSuffix(s, n);
  }

  /** Any suffix of a collapsed text is collapsed. */
  lemma CollapsedSuffix(s: string, n: nat)
    requires Collapsed(s) && n <= |s|
    ensures Collapsed(s[n..])
  {
    var t := s[n..];
    forall k | 0 <= k < |t| && IsSpace(t[k]) ensures t[k] == ' ' {
      assert t[k] == s[n + k];
    }
    forall k | 0 < k < |t| ensures !(IsSpace(t[k - 1]) && IsSpace(t[k])) {
      assert t[k - 1] == s[n + k - 1] && t[k] == s[n + k];
    }
  }

  /** A normalised text is its words joined by single spaces. */
  lemma {:induction false} NormalizedIsUnwords(s: string)
    requires Normalized(s)
    ensures Unwords(Words(s)) == s
    decreases |s|
  {
    if |s| == 1 {
      assert Words(s[1..]) == [];
    } else if |s| > 1 {
      if !IsSpace(s[1]) {
        NormalizedDrop(s, 1);
        NormalizedIsUnwords(s[1..]);
        UnwordsPrepend(s[0], Words(s[1..]));
        assert s == [s[0]] + s[1..];
      } else {
        assert s[1] == ' ' && |s| > 2 && !IsSpace(s[2]);
        NormalizedDrop(s, 2);
        NormalizedIsUnwords(s[2..]);
        assert s[1..][1..] == s[2..];
        var w := Words(s[2..]);
        assert Words(s[1..]) == w;
        assert Words(s) == [[s[0]]] + w;
        assert ([[s[0]]] + w)[1..] == w;
        assert s == [s[0]] + " " + s[2..];
      }
    }
  }

  /** What normalisation computes: the words of the input, joined by
      single ASCII spaces. */
  lemma NormalizeIsUnwords(s: string)
    ensures Normalize(s) == Unwords(Words(s))
  {
    NormalizeIsNormalized(s);
    NormalizedIsUnwords(Normalize(s));
    NormalizeKeepsWordRuns(s);
  }

  /** A word: a non-empty text without whitespace. */
  ghost predicate IsWord(w: string) {
    |w| > 0 && forall p :: 0 <= p < |w| ==> !IsSpace(w[p])
  }

  /** The words ws with the whitespace runs gaps around them: gaps[0],
      ws[0], gaps[1], ..., ws[|ws| - 1], gaps[|ws|]. */
  function Spaced(gaps: seq<string>, ws: seq<string>): string
    requires |gaps| == |ws| + 1
    decreases |ws|
  {
    if |ws| == 0 then gaps[0] else gaps[0] + ws[0] + Spaced(gaps[1..], ws[1..])
  }

  /** The gaps between words are whitespace runs, and those between two
      words are not empty. */
  ghost predicate Gaps(gaps: seq<string>, ws: seq<string>) {
    && |gaps| == |ws| + 1
    && (forall k :: 0 <= k < |gaps| ==> AllSpace(gaps[k], 0, |gaps[k]|))
    && (forall k :: 0 < k < |ws| ==> |gaps[k]| > 0)
  }

  /** A word followed by nothing or by whitespace is the first word. */
  lemma {:induction false} WordsWordThenSpace(w: string, rest: string)
    requires IsWord(w) && (rest == [] || IsSpace(rest[0]))
    ensures Words(w + rest) == [w] + Words(rest)
    decreases |w|
  {
    var s := w + rest;
    assert s[0] == w[0] && s[1..] == w[1..] + rest;
    if |w| == 1 {
      assert w[1..] + rest == rest && w == [w[0]];
      assert |s| > 1 ==> s[1] == rest[0];
    } else {
      assert s[1] == w[1];
      assert IsWord(w[1..]) by {
        forall p | 0 <= p < |w| - 1 ensures !IsSpace(w[1..][p]) {
          assert w[1..][p] == w[p + 1];
        }
      }
      WordsWordThenSpace(w[1..], rest);
      assert w == [w[0]] + w[1..];
    }
  }

  /** The words of words spaced by whitespace runs are those words. */
  lemma {:induction false} WordsOfSpaced(gaps: seq<string>, ws: seq<string>)
    requires Gaps(gaps, ws) && forall k :: 0 <= k < |ws| ==> IsWord(ws[k])
    ensures Words(Spaced(gaps, ws)) == ws
    decreases |ws|
  {
    if |ws| == 0 {
      WordsSpacePrefix(gaps[0], []);
      assert gaps[0] + [] == gaps[0];
    } else {
      var rest := Spaced(gaps[1..], ws[1..]);
      assert Gaps(gaps[1..], ws[1..]) by {
        assert forall k :: 0 < k < |ws| - 1 ==> gaps[1..][k] == gaps[k + 1];
      }
      WordsOfSpaced(gaps[1..], ws[1..]);
      assert rest == [] || IsSpace(rest[0]) by {
        if |ws| > 1 {
          assert rest == gaps[1] + (ws[1] + Spaced(gaps[2..], ws[2..]));
          assert rest[0] == gaps[1][0];
        } else {
          assert rest == gaps[1];
        }
      }
      WordsWordThenSpace(ws[0], rest);
      assert gaps[0] + ws[0] + rest == gaps[0] + (ws[0] + rest);
      WordsSpacePrefix(gaps[0], ws[0] + rest);
      assert [ws[0]] + ws[1..] == ws;
    }
  }

  /** Normalising words spaced by any whitespace runs joins them with
      single ASCII spaces. */
  lemma NormalizeSpaced(gaps: seq<string>, ws: seq<string>)
    requires Gaps(gaps, ws) && forall k :: 0 <= k < |ws| ==> IsWord(ws[k])
    ensures Normalize(Spaced(gaps, ws)) == Unwords(ws)
  {
    NormalizeIsUnwords(Spaced(gaps, ws));
    WordsOfSpaced(gaps, ws);
  }
}
