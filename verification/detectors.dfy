/**
 * The candidate-span detectors: the `get_clean` tokenizer, the offset walkers
 * `map_set` and `map_pos`, `map_regex`, `match_all`, the context decision and
 * sub-tokenisation of `map_regex_context`, and the `find_phi` dispatch.
 *
 * The part-of-speech tagger and the regular-expression engine are not part of
 * this model: they are passed in as functions (`posTag`, `finditer`).
 */
module Detectors {
  import opened Text
  import opened Records

  // ---- get_clean ----

  /** A token of `get_clean`: non-empty, and either all whitespace or all `[a-zA-Z0-9]`. */
  predicate IsToken(w: string) {
    |w| > 0 && (AllSpace(w) || AllAlnum(w))
  }

  /** The non-empty strings of `xs`, in order. */
  function NonEmpty(xs: seq<string>): (r: seq<string>)
    ensures forall i :: 0 <= i < |r| ==> |r[i]| > 0
  {
    if xs == [] then []
    else
      var last := xs[|xs| - 1];
      NonEmpty(xs[..|xs| - 1]) + (if |last| > 0 then [last] else [])
  }

  lemma {:induction false} NonEmptyFrom(xs: seq<string>, i: nat)
    requires i < |NonEmpty(xs)|
    ensures exists k :: 0 <= k < |xs| && xs[k] == NonEmpty(xs)[i]
  {
    var n := |xs| - 1;
    var prev := NonEmpty(xs[..n]);
    if i < |prev| {
      NonEmptyFrom(xs[..n], i);
      var k :| 0 <= k < n && xs[..n][k] == prev[i];
      assert xs[k] == NonEmpty(xs)[i];
    } else {
      assert xs[n] == NonEmpty(xs)[i];
    }
  }

  lemma {:induction false} NonEmptyFlatten(xs: seq<string>)
    ensures Flatten(NonEmpty(xs)) == Flatten(xs)
  {
    if xs != [] {
      var n := |xs| - 1;
      NonEmptyFlatten(xs[..n]);
      FlattenPrefix(xs, n);
      assert xs[..n + 1] == xs;
      var last := if |xs[n]| > 0 then [xs[n]] else [];
      FlattenAppend(NonEmpty(xs[..n]), last);
      if |xs[n]| > 0 {
        assert Flatten(last) == xs[n] + Flatten([]);
      }
    }
  }

  /** What `get_clean` makes of one element of `re.split(r"(\s+)", text)`. */
  function CleanPiece(item: string): seq<string> {
    if |item| == 0 then []
    else if !AllSpace(item) then NonEmpty(SplitWs(Scrub(item)))
    else [item]
  }

  function CleanPieces(items: seq<string>): seq<string> {
    if items == [] then []
    else CleanPieces(items[..|items| - 1]) + CleanPiece(items[|items| - 1])
  }

  /** One more item cleaned. */
  lemma CleanPiecesNext(items: seq<string>, k: nat)
    requires k < |items|
    ensures CleanPieces(items[..k + 1]) == CleanPieces(items[..k]) + CleanPiece(items[k])
  {
    assert items[..k + 1][..k] == items[..k];
  }

  /** `get_clean(text)`. */
  function Clean(text: string): seq<string> {
    CleanPieces(SplitWs(text))
  }

  /** Character `j` of piece `k` stands at index `q` of the concatenation. */
  lemma CharOfPiece(xs: seq<string>, k: nat, j: nat, q: int)
    requires k < |xs| && j < |xs[k]| && q == |Flatten(xs[..k])| + j
    ensures 0 <= q < |Flatten(xs)|
    ensures Flatten(xs)[q] == xs[k][j]
  {
    FlattenSplit(xs, k);
  }

  /** Every token `get_clean` makes of one element is non-empty and all whitespace or all `[a-zA-Z0-9]`. */
  lemma CleanPieceTokens(item: string)
    ensures AllTokens(CleanPiece(item))
  {
    if |item| > 0 && !AllSpace(item) {
      var u := Scrub(item);
      SplitWsSpec(u);
      ScrubAlnum(item);
      PiecesAreTokens(u, SplitWs(u));
      NonEmptyTokens(SplitWs(u));
    }
  }

  /** Each non-empty element of the whitespace split of a blanked text is a token. */
  lemma PiecesAreTokens(u: string, pieces: seq<string>)
    requires Alternating(pieces) && Flatten(pieces) == u && Blanked(u)
    ensures forall k :: 0 <= k < |pieces| && |pieces[k]| > 0 ==> IsToken(pieces[k])
  {
    forall k | 0 <= k < |pieces| && |pieces[k]| > 0 ensures IsToken(pieces[k]) {
      if k % 2 == 0 {
        forall j | 0 <= j < |pieces[k]| ensures IsAlnum(pieces[k][j]) {
          CharOfPiece(pieces, k, j, |Flatten(pieces[..k])| + j);
          assert !IsSpace(pieces[k][j]);
        }
      }
    }
  }

  lemma NonEmptyTokens(xs: seq<string>)
    requires forall k :: 0 <= k < |xs| && |xs[k]| > 0 ==> IsToken(xs[k])
    ensures AllTokens(NonEmpty(xs))
  {
    forall i | 0 <= i < |NonEmpty(xs)| ensures IsToken(NonEmpty(xs)[i]) {
      NonEmptyFrom(xs, i);
    }
  }

  predicate AllTokens(ts: seq<string>) {
    forall i :: 0 <= i < |ts| ==> IsToken(ts[i])
  }

  lemma {:induction false} CleanPiecesTokens(items: seq<string>)
    ensures AllTokens(CleanPieces(items))
  {
    if items != [] {
      var n := |items| - 1;
      CleanPiecesTokens(items[..n]);
      CleanPieceTokens(items[n]);
      AllTokensAppend(CleanPieces(items[..n]), CleanPiece(items[n]));
    }
  }

  lemma AllTokensAppend(a: seq<string>, b: seq<string>)
    requires AllTokens(a) && AllTokens(b)
    ensures AllTokens(a + b)
  {
    forall i | 0 <= i < |a + b| ensures IsToken((a + b)[i]) {
      if i >= |a| { assert (a + b)[i] == b[i - |a|]; } else { assert (a + b)[i] == a[i]; }
    }
  }

  lemma BlankAppend(a: string, b: string)
    ensures Blank(a + b) == Blank(a) + Blank(b)
  {
  }

  lemma CleanPieceFlatten(item: string)
    requires NoSpace(item) || AllSpace(item)
    ensures Flatten(CleanPiece(item)) == Blank(item)
  {
    if |item| > 0 && !AllSpace(item) {
      var u := Scrub(item);
      SplitWsSpec(u);
      NonEmptyFlatten(SplitWs(u));
      ScrubIsBlank(item);
    } else if |item| > 0 {
      assert Flatten([item]) == item + Flatten([]);
    }
  }

  /** Without whitespace, `re.sub(r"[^a-zA-Z0-9]", " ", s)` is the tokenizer's view of `s`. */
  lemma ScrubIsBlank(s: string)
    requires NoSpace(s)
    ensures Scrub(s) == Blank(s)
  {
  }

  lemma {:induction false} CleanPiecesFlatten(items: seq<string>)
    requires forall k :: 0 <= k < |items| ==> NoSpace(items[k]) || AllSpace(items[k])
    ensures Flatten(CleanPieces(items)) == Blank(Flatten(items))
  {
    if items != [] {
      var n := |items| - 1;
      CleanPiecesFlatten(items[..n]);
      CleanPieceFlatten(items[n]);
      FlattenAppend(CleanPieces(items[..n]), CleanPiece(items[n]));
      FlattenPrefix(items, n);
      assert items[..n + 1] == items;
      BlankAppend(Flatten(items[..n]), items[n]);
    }
  }

  /**
   * `get_clean` never returns an empty token; each token is all whitespace or
   * all `[a-zA-Z0-9]`; and the tokens spell the text with every character that
   * is neither whitespace nor `[a-zA-Z0-9]` turned into one space, so their
   * lengths add up to `len(text)`.
   */
  lemma CleanSpellsText(text: string)
    ensures AllTokens(Clean(text))
    ensures Flatten(Clean(text)) == Blank(text)
    ensures |Flatten(Clean(text))| == |text|
  {
    var items := SplitWs(text);
    SplitWsSpec(text);
    CleanPiecesTokens(items);
    forall k | 0 <= k < |items| ensures NoSpace(items[k]) || AllSpace(items[k]) {
      assert k % 2 == 0 || k % 2 == 1;
    }
    CleanPiecesFlatten(items);
  }

  /** The inner loop of `get_clean`: append the non-empty elements of `xs`. */
  method AppendNonEmpty(acc: seq<string>, xs: seq<string>) returns (r: seq<string>)
    ensures r == acc + NonEmpty(xs)
  {
    r := acc;
    var j := 0;
    while j < |xs|
      invariant 0 <= j <= |xs|
      invariant r == acc + NonEmpty(xs[..j])
    {
      assert xs[..j + 1][..j] == xs[..j];
      assert NonEmpty(xs[..j + 1]) == NonEmpty(xs[..j]) + (if |xs[j]| > 0 then [xs[j]] else []);
      if |xs[j]| > 0 {
        r := r + [xs[j]];
      }
      j := j + 1;
    }
    assert xs[..j] == xs;
  }

  /** `get_clean(text)`. */
  method GetClean(text: string) returns (cleaned: seq<string>)
    ensures cleaned == Clean(text)
  {
    var lst := SplitWs(text);
    cleaned := [];
    var k := 0;
    while k < |lst|
      invariant 0 <= k <= |lst|
      invariant cleaned == CleanPieces(lst[..k])
    {
      cleaned := AppendCleanPiece(cleaned, lst[k]);
      CleanPiecesNext(lst, k);
      k := k + 1;
    }
    assert lst[..k] == lst;
  }

  /** The body of the outer loop of `get_clean` for one element `item`. */
  method AppendCleanPiece(cleaned: seq<string>, item: string) returns (r: seq<string>)
    ensures r == cleaned + CleanPiece(item)
  {
    r := cleaned;
    if |item| > 0 {
      if !AllSpace(item) {
        r := AppendNonEmpty(r, SplitWs(Scrub(item)));
      } else {
        r := r + [item];
      }
    }
  }

  // ---- map_set and map_pos ----

  /** `start_coordinate` when the walk reaches tagged word `i`: the total length of the words before it. */
  function Offset(tagged: seq<(string, string)>, i: nat): nat
    requires i <= |tagged|
  {
    if i == 0 then 0 else Offset(tagged, i - 1) + |tagged[i - 1].0|
  }

  lemma {:induction false} OffsetMonotone(tagged: seq<(string, string)>, i: nat, j: nat)
    requires i <= j <= |tagged|
    ensures Offset(tagged, i) <= Offset(tagged, j)
    ensures i < j ==> Offset(tagged, i) + |tagged[i].0| <= Offset(tagged, j)
    decreases j
  {
    if i < j {
      OffsetMonotone(tagged, i, j - 1);
    }
  }

  /** The emission test of a walker: `map_set` (part-of-speech list and word set) or `map_pos`. */
  datatype Rule = SetRule(pos: seq<string>, words: set<string>) | PosRule(pos: seq<string>)

  predicate Emits(rule: Rule, word: string, tag: string) {
    match rule
    case SetRule(pos, words) => (|pos| == 0 || tag in pos) && (CleanWord(word) in words || word in words)
    case PosRule(pos) => tag in pos
  }

  /** Tagged word `i` is emitted: its cleaned form is not empty and the rule accepts it. */
  predicate Kept(rule: Rule, tagged: seq<(string, string)>, i: nat)
    requires i < |tagged|
  {
    CleanWord(tagged[i].0) != [] && Emits(rule, tagged[i].0, tagged[i].1)
  }

  /** The span of tagged word `i`: `[start_coordinate, start_coordinate + len(word))`. */
  function EntryAt(tagged: seq<(string, string)>, i: nat, f: Filter): CoordinateEntry
    requires i < |tagged|
  {
    CoordinateEntry(Offset(tagged, i), Offset(tagged, i) + |tagged[i].0|, f)
  }

  /** The keep decision for every tagged word. */
  function Keeps(rule: Rule, tagged: seq<(string, string)>): (r: seq<bool>)
    ensures |r| == |tagged|
    ensures forall i :: 0 <= i < |r| ==> r[i] == Kept(rule, tagged, i)
  {
    seq(|tagged|, i requires 0 <= i < |tagged| => Kept(rule, tagged, i))
  }

  /** The entries a walker appends over the first `n` tagged words, given each word's keep decision. */
  function Walk(keep: seq<bool>, tagged: seq<(string, string)>, n: nat, f: Filter): seq<CoordinateEntry>
    requires n <= |tagged| == |keep|
  {
    if n == 0 then []
    else Walk(keep, tagged, n - 1, f) + (if keep[n - 1] then [EntryAt(tagged, n - 1, f)] else [])
  }

  /** Every entry of the walk is the span of a kept word. */
  lemma {:induction false} WalkSound(keep: seq<bool>, tagged: seq<(string, string)>, n: nat, f: Filter, e: CoordinateEntry)
    returns (i: nat)
    requires n <= |tagged| == |keep| && e in Walk(keep, tagged, n, f)
    ensures i < n && keep[i] && e == EntryAt(tagged, i, f)
  {
    if e in Walk(keep, tagged, n - 1, f) {
      i := WalkSound(keep, tagged, n - 1, f, e);
    } else {
      i := n - 1;
    }
  }

  /** Every kept word's span is in the walk. */
  lemma {:induction false} WalkComplete(keep: seq<bool>, tagged: seq<(string, string)>, n: nat, f: Filter, i: nat)
    requires i < n <= |tagged| == |keep| && keep[i]
    ensures EntryAt(tagged, i, f) in Walk(keep, tagged, n, f)
  {
    if i < n - 1 {
      WalkComplete(keep, tagged, n - 1, f, i);
    }
  }

  /** A kept word is not empty: its cleaned form is not. */
  lemma KeptIsNonEmpty(rule: Rule, tagged: seq<(string, string)>, i: nat)
    requires i < |tagged| && Kept(rule, tagged, i)
    ensures |tagged[i].0| > 0
  {
  }

  /**
   * A word's span `[offset_i, offset_i + len(word_i))` is emitted iff the word
   * is kept: its cleaned form is not empty and the rule accepts it.
   */
  lemma WalkEmitsExactly(rule: Rule, tagged: seq<(string, string)>, f: Filter, i: nat)
    requires i < |tagged|
    ensures EntryAt(tagged, i, f) in Walk(Keeps(rule, tagged), tagged, |tagged|, f) <==> Kept(rule, tagged, i)
  {
    var keep := Keeps(rule, tagged);
    var n := |tagged|;
    if keep[i] {
      WalkComplete(keep, tagged, n, f, i);
    } else if EntryAt(tagged, i, f) in Walk(keep, tagged, n, f) {
      var j := WalkSound(keep, tagged, n, f, EntryAt(tagged, i, f));
      KeptIsNonEmpty(rule, tagged, j);
      if j < i {
        OffsetMonotone(tagged, j, i);
      } else {
        OffsetMonotone(tagged, i, j);
      }
    }
  }

  /** Spans listed left to right, each non-empty and ending before the next begins. */
  predicate Ascending(es: seq<CoordinateEntry>) {
    forall a, b :: 0 <= a < b < |es| ==> es[a].start < es[a].stop <= es[b].start
  }

  /**
   * When every kept word is non-empty, the emitted spans are non-empty,
   * ascending and disjoint, and end within the walked words.
   */
  lemma {:induction false} WalkAscending(keep: seq<bool>, tagged: seq<(string, string)>, n: nat, f: Filter)
    requires n <= |tagged| == |keep|
    requires forall j :: 0 <= j < |keep| && keep[j] ==> |tagged[j].0| > 0
    ensures Ascending(Walk(keep, tagged, n, f))
    ensures forall e :: e in Walk(keep, tagged, n, f) ==> 0 <= e.start < e.stop <= Offset(tagged, n)
  {
    if n > 0 {
      WalkAscending(keep, tagged, n - 1, f);
      var prev := Walk(keep, tagged, n - 1, f);
      var w := Walk(keep, tagged, n, f);
      if keep[n - 1] {
        assert w == prev + [EntryAt(tagged, n - 1, f)];
        forall a, b | 0 <= a < b < |w| ensures w[a].start < w[a].stop <= w[b].start {
          if b < |prev| {
            assert w[a] == prev[a] && w[b] == prev[b];
          } else {
            assert w[a] == prev[a] && prev[a] in prev;
          }
        }
      } else {
        assert w == prev;
      }
    }
  }

  /** The spans of `map_set` and `map_pos` are non-empty, ascending and disjoint. */
  lemma RuleWalkAscending(rule: Rule, tagged: seq<(string, string)>, f: Filter)
    ensures Ascending(Walk(Keeps(rule, tagged), tagged, |tagged|, f))
  {
    var keep := Keeps(rule, tagged);
    forall j | 0 <= j < |keep| && keep[j] ensures |tagged[j].0| > 0 {
      KeptIsNonEmpty(rule, tagged, j);
    }
    WalkAscending(keep, tagged, |tagged|, f);
  }

  /** The tagger returned the tokens themselves, each with some tag. */
  predicate TagsWords(tagged: seq<(string, string)>, words: seq<string>) {
    |tagged| == |words| && forall i :: 0 <= i < |tagged| ==> tagged[i].0 == words[i]
  }

  lemma {:induction false} OffsetIsPrefixLength(tagged: seq<(string, string)>, words: seq<string>, i: nat)
    requires TagsWords(tagged, words) && i <= |tagged|
    ensures Offset(tagged, i) == |Flatten(words[..i])|
  {
    if i > 0 {
      OffsetIsPrefixLength(tagged, words, i - 1);
      FlattenPrefix(words, i - 1);
    }
  }

  /** A kept token sits in the text where the tokens' concatenation has it. */
  lemma KeptTokenInText(text: string, words: seq<string>, tagged: seq<(string, string)>, i: nat)
    requires Flatten(words) == Blank(text) && AllTokens(words)
    requires TagsWords(tagged, words) && i < |tagged|
    requires CleanWord(tagged[i].0) != []
    ensures Offset(tagged, i) + |tagged[i].0| <= |text|
    ensures text[Offset(tagged, i)..Offset(tagged, i) + |tagged[i].0|] == tagged[i].0
  {
    var w := words[i];
    OffsetIsPrefixLength(tagged, words, i);
    FlattenLengths(words, i);
    TokenIsAlnum(w);
    BlankPieceInText(text, words, i, Offset(tagged, i));
  }

  /** A token with a `[a-zA-Z0-9]` character is made of them. */
  lemma TokenIsAlnum(w: string)
    requires IsToken(w) && CleanWord(w) != []
    ensures AllAlnum(w)
  {
    var c :| 0 <= c < |w| && IsAlnum(w[c]);
    assert !IsSpace(w[c]);
  }

  /** An alphanumeric piece of the blanked text stands unchanged in the text. */
  lemma BlankPieceInText(text: string, words: seq<string>, i: nat, off: nat)
    requires Flatten(words) == Blank(text) && i < |words| && AllAlnum(words[i])
    requires off == |Flatten(words[..i])| && off + |words[i]| <= |text|
    ensures text[off..off + |words[i]|] == words[i]
  {
    var w := words[i];
    forall j | 0 <= j < |w| ensures text[off + j] == w[j] {
      CharOfPiece(words, i, j, off + j);
      BlankKeepsAlnum(text, off + j, w[j]);
    }
  }

  /** Where the blanked text has a `[a-zA-Z0-9]` character, so has the text. */
  lemma BlankKeepsAlnum(text: string, q: int, c: char)
    requires 0 <= q < |text| && q < |Blank(text)| && Blank(text)[q] == c && IsAlnum(c)
    ensures text[q] == c
  {
  }

  /**
   * When the tagger hands back the tokens of `get_clean` unchanged, the span
   * of every kept word is exactly where that word stands in the original text.
   */
  lemma SpanPointsAtWord(text: string, tagged: seq<(string, string)>, i: nat)
    requires TagsWords(tagged, Clean(text)) && i < |tagged|
    requires CleanWord(tagged[i].0) != []
    ensures Offset(tagged, i) + |tagged[i].0| <= |text|
    ensures text[Offset(tagged, i)..Offset(tagged, i) + |tagged[i].0|] == tagged[i].0
  {
    CleanSpellsText(text);
    KeptTokenInText(text, Clean(text), tagged, i);
  }

  /** The rule a filter's walker applies. */
  function RuleOf(f: Filter): Rule
    requires f.SetFilter? || f.PosFilter?
  {
    if f.SetFilter? then SetRule(f.pos, f.words) else PosRule(f.pos)
  }

  /**
   * The loop `map_set` and `map_pos` share: walk the tagged words with a
   * running `start_coordinate`, skip words whose cleaned form is empty, and
   * emit the others by the filter's own test.
   */
  method WalkTagged(posList: seq<(string, string)>, f: Filter) returns (result: seq<CoordinateEntry>)
    requires f.SetFilter? || f.PosFilter?
    ensures result == Walk(Keeps(RuleOf(f), posList), posList, |posList|, f)
  {
    var checkPos := |f.pos| > 0;
    ghost var keep := Keeps(RuleOf(f), posList);
    result := [];
    var startCoordinate := 0;
    var k := 0;
    while k < |posList|
      invariant 0 <= k <= |posList|
      invariant startCoordinate == Offset(posList, k)
      invariant result == Walk(keep, posList, k, f)
    {
      var word := posList[k].0;
      var pos := posList[k].1;
      WalkStep(RuleOf(f), keep, posList, k, f, word, pos, startCoordinate);
      result := VisitWord(result, f, checkPos, word, pos, startCoordinate);
      startCoordinate := startCoordinate + |word|;
      k := k + 1;
    }
  }

  /**
   * The body of the walk for one tagged word starting at `start`: a word
   * whose cleaned form is empty is skipped (the early return stands for the
   * loop's `continue`), any other is emitted when the filter accepts it.
   */
  method VisitWord(result: seq<CoordinateEntry>, f: Filter, checkPos: bool, word: string, pos: string, start: int)
    returns (r: seq<CoordinateEntry>)
    requires f.SetFilter? || f.PosFilter?
    requires checkPos == (|f.pos| > 0)
    ensures r == result + (if CleanWord(word) != [] && Emits(RuleOf(f), word, pos)
                           then [CoordinateEntry(start, start + |word|, f)] else [])
  {
    r := result;
    var stop := start + |word|;
    var wordClean := CleanWord(word);
    if |wordClean| == 0 {
      return;
    }
    var emit := Accepts(f, checkPos, word, pos, wordClean);
    if emit {
      r := r + [CoordinateEntry(start, stop, f)];
    }
  }

  /** One step of the walk: word `k` adds its span exactly when the rule keeps it. */
  lemma WalkStep(rule: Rule, keep: seq<bool>, tagged: seq<(string, string)>, k: nat, f: Filter,
                 word: string, tag: string, start: int)
    requires keep == Keeps(rule, tagged) && k < |tagged|
    requires tagged[k].0 == word && tagged[k].1 == tag && start == Offset(tagged, k)
    ensures Offset(tagged, k + 1) == start + |word|
    ensures Walk(keep, tagged, k + 1, f) == Walk(keep, tagged, k, f)
      + (if CleanWord(word) != [] && Emits(rule, word, tag) then [CoordinateEntry(start, start + |word|, f)] else [])
  {
    assert keep[k] == Kept(rule, tagged, k);
  }

  /** The filter's own test for a word whose cleaned form is not empty. */
  method Accepts(f: Filter, checkPos: bool, word: string, pos: string, wordClean: string) returns (emit: bool)
    requires f.SetFilter? || f.PosFilter?
    requires checkPos == (|f.pos| > 0) && wordClean == CleanWord(word)
    ensures emit == Emits(RuleOf(f), word, pos)
  {
    emit := false;
    if f.SetFilter? {
      if !checkPos || (checkPos && pos in f.pos) {
        if wordClean in f.words || word in f.words {
          emit := true;
        }
      }
    } else if pos in f.pos {
      emit := true;
    }
  }

  /** `map_set(text, pattern)`: `pattern.pos` and `pattern.words` decide which tagged words are emitted. */
  method MapSet(text: string, f: Filter, posTag: seq<string> -> seq<(string, string)>)
    returns (result: seq<CoordinateEntry>)
    requires f.SetFilter?
    ensures result == Walk(Keeps(SetRule(f.pos, f.words), posTag(Clean(text))), posTag(Clean(text)), |posTag(Clean(text))|, f)
  {
    var cleaned := GetClean(text);
    var posList := posTag(cleaned);
    result := WalkTagged(posList, f);
  }

  /** `map_pos(text, pattern)`: a tagged word is emitted iff its tag is in `pattern.pos`. */
  method MapPos(text: string, f: Filter, posTag: seq<string> -> seq<(string, string)>)
    returns (result: seq<CoordinateEntry>)
    requires f.PosFilter?
    ensures result == Walk(Keeps(PosRule(f.pos), posTag(Clean(text))), posTag(Clean(text)), |posTag(Clean(text))|, f)
  {
    var cleaned := GetClean(text);
    var posList := posTag(cleaned);
    result := WalkTagged(posList, f);
  }

  // ---- map_regex and match_all ----

  /** `map_regex(text, pattern)`: one entry per match of `pattern.regex`, in match order. */
  function MapRegex(text: string, f: Filter, finditer: (Pattern, string) -> seq<Match>): (r: seq<CoordinateEntry>)
    requires f.RegexFilter?
    ensures |r| == |finditer(f.regex, text)|
    ensures forall i :: 0 <= i < |r| ==>
      r[i].start == finditer(f.regex, text)[i].start && r[i].stop == finditer(f.regex, text)[i].end && r[i].filter == f
  {
    var ms := finditer(f.regex, text);
    seq(|ms|, i requires 0 <= i < |ms| => CoordinateEntry(ms[i].start, ms[i].end, f))
  }

  /** `match_all(text, pattern)`: the whole text as one span. */
  function MatchAll(text: string, f: Filter): (r: seq<CoordinateEntry>)
    ensures |r| == 1 && r[0].start == 0 && r[0].stop == |text| && r[0].filter == f
  {
    [CoordinateEntry(0, |text|, f)]
  }

  // ---- map_regex_context: the context decision and the sub-spans ----

  /** The `context` test; a value other than the four names accepts nothing. */
  predicate ContextHolds(context: string, phiLeft: bool, phiRight: bool) {
    || (context == "left" && phiLeft)
    || (context == "right" && phiRight)
    || (context == "left_or_right" && (phiRight || phiLeft))
    || (context == "left_and_right" && (phiRight && phiLeft))
  }

  /** `phi_left`: the match starts where an interval of the reference map stops. */
  predicate PhiLeft(refMap: map<int, int>, m: Match) {
    m.start in refMap.Values
  }

  /** `phi_right`: the match ends where an interval of the reference map starts. */
  predicate PhiRight(refMap: map<int, int>, m: Match) {
    m.end in refMap
  }

  /** `coord_tracker` when the walk over the split match text reaches element `k`. */
  function PieceStart(pieces: seq<string>, k: nat): nat
    requires k <= |pieces|
  {
    |Flatten(pieces[..k])|
  }

  /** Element `k` yields a sub-span: it is non-empty and does not start with `[^a-zA-Z0-9*]`. */
  predicate Spanned(pieces: seq<string>, k: nat)
    requires k < |pieces|
  {
    |pieces[k]| > 0 && !IsPunctuation(pieces[k][0])
  }

  function SpanOf(pieces: seq<string>, k: nat, base: int): (int, int)
    requires k < |pieces|
  {
    (base + PieceStart(pieces, k), base + PieceStart(pieces, k) + |pieces[k]|)
  }

  /** `tokenized_matches` after the first `n` elements of the split match text. */
  function TokenSpans(pieces: seq<string>, n: nat, base: int): seq<(int, int)>
    requires n <= |pieces|
  {
    if n == 0 then []
    else TokenSpans(pieces, n - 1, base) + (if Spanned(pieces, n - 1) then [SpanOf(pieces, n - 1, base)] else [])
  }

  /** The split of a match text: `re.split(r"(\s+)", re.sub(r"[^a-zA-Z0-9]", " ", match_text))`. */
  function MatchPieces(text: string, m: Match): seq<string> {
    SplitWs(Scrub(Slice(text, m.start, m.end)))
  }

  /** The sub-spans of one match. */
  function MatchSpans(text: string, m: Match): seq<(int, int)> {
    TokenSpans(MatchPieces(text, m), |MatchPieces(text, m)|, m.start)
  }

  function Entries(spans: seq<(int, int)>, f: Filter): (r: seq<CoordinateEntry>)
    ensures |r| == |spans|
    ensures forall i :: 0 <= i < |r| ==> r[i] == CoordinateEntry(spans[i].0, spans[i].1, f)
  {
    seq(|spans|, i requires 0 <= i < |spans| => CoordinateEntry(spans[i].0, spans[i].1, f))
  }

  /** Whether the context test holds for each match. */
  function ContextMask(context: string, refMap: map<int, int>, ms: seq<Match>): (r: seq<bool>)
    ensures |r| == |ms|
    ensures forall i :: 0 <= i < |ms| ==> r[i] == ContextHolds(context, PhiLeft(refMap, ms[i]), PhiRight(refMap, ms[i]))
  {
    seq(|ms|, i requires 0 <= i < |ms| => ContextHolds(context, PhiLeft(refMap, ms[i]), PhiRight(refMap, ms[i])))
  }

  /** The sub-spans of each match. */
  function SpansOf(text: string, ms: seq<Match>): (r: seq<seq<(int, int)>>)
    ensures |r| == |ms|
    ensures forall i :: 0 <= i < |ms| ==> r[i] == MatchSpans(text, ms[i])
  {
    seq(|ms|, i requires 0 <= i < |ms| => MatchSpans(text, ms[i]))
  }

  /** The entries for the sub-spans of the first `n` matches whose flag in `holds` is set. */
  function Hits(f: Filter, holds: seq<bool>, spans: seq<seq<(int, int)>>, n: nat): seq<CoordinateEntry>
    requires n <= |spans| == |holds|
  {
    if n == 0 then []
    else Hits(f, holds, spans, n - 1) + (if holds[n - 1] then Entries(spans[n - 1], f) else [])
  }

  /** The entries `map_regex_context` appends for the first `n` matches. */
  function ContextHits(text: string, f: Filter, refMap: map<int, int>, ms: seq<Match>, n: nat): seq<CoordinateEntry>
    requires f.RegexContextFilter? && n <= |ms|
  {
    Hits(f, ContextMask(f.context, refMap, ms), SpansOf(text, ms), n)
  }

  lemma {:induction false} HitsSound(f: Filter, holds: seq<bool>, spans: seq<seq<(int, int)>>, n: nat,
                                     e: CoordinateEntry) returns (i: nat, j: nat)
    requires n <= |spans| == |holds| && e in Hits(f, holds, spans, n)
    ensures i < n && holds[i] && j < |spans[i]|
    ensures e == CoordinateEntry(spans[i][j].0, spans[i][j].1, f)
  {
    if e in Hits(f, holds, spans, n - 1) {
      i, j := HitsSound(f, holds, spans, n - 1, e);
    } else {
      i := n - 1;
      j :| 0 <= j < |Entries(spans[i], f)| && Entries(spans[i], f)[j] == e;
    }
  }

  lemma {:induction false} HitsComplete(f: Filter, holds: seq<bool>, spans: seq<seq<(int, int)>>, n: nat,
                                        i: nat, j: nat)
    requires n <= |spans| == |holds| && i < n && holds[i] && j < |spans[i]|
    ensures CoordinateEntry(spans[i][j].0, spans[i][j].1, f) in Hits(f, holds, spans, n)
  {
    var e := CoordinateEntry(spans[i][j].0, spans[i][j].1, f);
    if i < n - 1 {
      HitsComplete(f, holds, spans, n - 1, i, j);
      InLeft(e, Hits(f, holds, spans, n - 1), if holds[n - 1] then Entries(spans[n - 1], f) else []);
    } else {
      assert Entries(spans[i], f)[j] == e;
      InRight(e, Hits(f, holds, spans, n - 1), Entries(spans[i], f), j);
    }
  }

  lemma {:induction false} TokenSpansSound(pieces: seq<string>, n: nat, base: int, sp: (int, int)) returns (k: nat)
    requires n <= |pieces| && sp in TokenSpans(pieces, n, base)
    ensures k < n && Spanned(pieces, k) && sp == SpanOf(pieces, k, base)
  {
    if sp in TokenSpans(pieces, n - 1, base) {
      k := TokenSpansSound(pieces, n - 1, base, sp);
    } else {
      k := n - 1;
    }
  }

  lemma {:induction false} TokenSpansComplete(pieces: seq<string>, n: nat, base: int, k: nat)
    requires k < n <= |pieces| && Spanned(pieces, k)
    ensures SpanOf(pieces, k, base) in TokenSpans(pieces, n, base)
  {
    var prev := TokenSpans(pieces, n - 1, base);
    assert TokenSpans(pieces, n, base) == prev + (if Spanned(pieces, n - 1) then [SpanOf(pieces, n - 1, base)] else []);
    if k < n - 1 {
      TokenSpansComplete(pieces, n - 1, base, k);
      assert SpanOf(pieces, k, base) in prev;
    }
  }

  /** Every character is `[a-zA-Z0-9]` or a plain space, as after `re.sub(r"[^a-zA-Z0-9]", " ", s)`. */
  predicate Blanked(u: string) {
    forall q :: 0 <= q < |u| ==> IsAlnum(u[q]) || u[q] == ' '
  }

  lemma ScrubAlnum(mt: string)
    ensures Blanked(Scrub(mt))
    ensures forall q :: 0 <= q < |mt| ==> (IsAlnum(Scrub(mt)[q]) <==> IsAlnum(mt[q]))
  {
  }

  /** A spanned element is one of the stretches without whitespace. */
  lemma SpannedIsEven(u: string, pieces: seq<string>, k: nat)
    requires Alternating(pieces) && Flatten(pieces) == u && Blanked(u)
    requires k < |pieces| && Spanned(pieces, k)
    ensures k % 2 == 0 && NoSpace(pieces[k])
  {
    CharOfPiece(pieces, k, 0, PieceStart(pieces, k));
    assert IsAlnum(pieces[k][0]);
    assert !IsSpace(pieces[k][0]);
  }

  /** A stretch without whitespace, inside a text with only spaces and `[a-zA-Z0-9]`, is alphanumeric. */
  lemma PieceIsAlnum(u: string, pieces: seq<string>, k: nat)
    requires Flatten(pieces) == u && Blanked(u)
    requires k < |pieces| && NoSpace(pieces[k])
    ensures PieceStart(pieces, k) + |pieces[k]| <= |u|
    ensures forall p :: PieceStart(pieces, k) <= p < PieceStart(pieces, k) + |pieces[k]| ==> IsAlnum(u[p])
  {
    var a := PieceStart(pieces, k);
    var w := pieces[k];
    FlattenLengths(pieces, k);
    forall p | a <= p < a + |w| ensures IsAlnum(u[p]) {
      CharOfPiece(pieces, k, p - a, p);
      assert !IsSpace(w[p - a]);
    }
  }

  /** ... the character before an even element is whitespace ... */
  lemma PieceLeftEdge(u: string, pieces: seq<string>, k: nat)
    requires Flatten(pieces) == u && k < |pieces|
    requires k > 0 ==> AllSpace(pieces[k - 1])
    ensures PieceStart(pieces, k) <= |u|
    ensures PieceStart(pieces, k) == 0 || IsSpace(u[PieceStart(pieces, k) - 1])
  {
    if k > 0 {
      CharBefore(pieces, k);
    } else {
      assert pieces[..k] == [];
    }
  }

  /** The character before piece `k` is the last character of piece `k - 1`. */
  lemma CharBefore(pieces: seq<string>, k: nat)
    requires 0 < k < |pieces| && |pieces[k - 1]| > 0
    ensures 0 < PieceStart(pieces, k) <= |Flatten(pieces)|
    ensures Flatten(pieces)[PieceStart(pieces, k) - 1] == pieces[k - 1][|pieces[k - 1]| - 1]
  {
    var v := pieces[k - 1];
    FlattenLengths(pieces, k - 1);
    CharOfPiece(pieces, k - 1, |v| - 1, PieceStart(pieces, k) - 1);
  }

  /** ... and so is the character after it. */
  lemma PieceRightEdge(u: string, pieces: seq<string>, k: nat)
    requires Flatten(pieces) == u && k < |pieces|
    requires k + 1 < |pieces| ==> AllSpace(pieces[k + 1])
    ensures PieceStart(pieces, k) + |pieces[k]| <= |u|
    ensures PieceStart(pieces, k) + |pieces[k]| == |u| || IsSpace(u[PieceStart(pieces, k) + |pieces[k]|])
  {
    FlattenLengths(pieces, k);
    if k + 1 < |pieces| {
      CharOfPiece(pieces, k + 1, 0, PieceStart(pieces, k) + |pieces[k]|);
    } else {
      assert pieces[..k + 1] == pieces;
    }
  }

  /** Whitespace is never `[a-zA-Z0-9]`. */
  lemma SpaceIsNotAlnum(c: char)
    requires IsSpace(c)
    ensures !IsAlnum(c)
  {
  }

  /** In a blanked text, every alphanumeric character lies in a spanned element of its whitespace split. */
  lemma AlnumInPiece(u: string, pieces: seq<string>, q: int) returns (k: nat)
    requires Alternating(pieces) && Flatten(pieces) == u && Blanked(u)
    requires 0 <= q < |u| && IsAlnum(u[q])
    ensures k < |pieces| && Spanned(pieces, k)
    ensures PieceStart(pieces, k) <= q < PieceStart(pieces, k) + |pieces[k]|
  {
    var j;
    k, j := FlattenLocate(pieces, q);
    CharOfPiece(pieces, k, j, q);
    assert !IsSpace(pieces[k][j]);
    assert k % 2 == 0;
    CharOfPiece(pieces, k, 0, PieceStart(pieces, k));
    assert !IsSpace(pieces[k][0]);
  }

  /** A match the engine can report: `0 <= start <= end <= len(text)`. */
  predicate ValidMatch(text: string, m: Match) {
    0 <= m.start <= m.end <= |text|
  }

  /**
   * `sp` is a maximal run of `[a-zA-Z0-9]` characters of `text` inside
   * `[lo, hi)`: non-empty, all alphanumeric, and not extendable within the bounds.
   */
  predicate MaximalAlnumRun(text: string, lo: int, hi: int, sp: (int, int))
    requires 0 <= lo <= hi <= |text|
  {
    && lo <= sp.0 < sp.1 <= hi
    && (forall p :: sp.0 <= p < sp.1 ==> IsAlnum(text[p]))
    && (sp.0 == lo || !IsAlnum(text[sp.0 - 1]))
    && (sp.1 == hi || !IsAlnum(text[sp.1]))
  }

  /**
   * For a match within the text, every sub-span lies inside the match, is
   * made of `[a-zA-Z0-9]`, and is a maximal such run of the match text.
   */
  lemma MatchSpanIsAlnumRun(text: string, m: Match, sp: (int, int))
    requires ValidMatch(text, m) && sp in MatchSpans(text, m)
    ensures MaximalAlnumRun(text, m.start, m.end, sp)
  {
    var u := Scrub(text[m.start..m.end]);
    var pieces := MatchPieces(text, m);
    MatchPiecesSplit(text, m);
    ScrubOfMatch(text, m);
    var k := TokenSpansSound(pieces, |pieces|, m.start, sp);
    PieceIsMaximalRun(u, pieces, k);
    SpanIsAlnumRun(text, m, u, pieces, k);
  }

  /** The split match text alternates and spells the scrubbed match text. */
  lemma MatchPiecesSplit(text: string, m: Match)
    requires ValidMatch(text, m)
    ensures Alternating(MatchPieces(text, m))
    ensures Flatten(MatchPieces(text, m)) == Scrub(text[m.start..m.end])
  {
    assert Slice(text, m.start, m.end) == text[m.start..m.end];
    SplitWsSpec(Scrub(text[m.start..m.end]));
  }

  /** The scrubbed match text keeps the match's length and its `[a-zA-Z0-9]` characters. */
  lemma ScrubOfMatch(text: string, m: Match)
    requires ValidMatch(text, m)
    ensures |Scrub(text[m.start..m.end])| == m.end - m.start
    ensures Blanked(Scrub(text[m.start..m.end]))
    ensures forall q :: 0 <= q < m.end - m.start ==>
      (IsAlnum(Scrub(text[m.start..m.end])[q]) <==> IsAlnum(text[m.start + q]))
  {
    var mt := text[m.start..m.end];
    ScrubAlnum(mt);
    forall q | 0 <= q < m.end - m.start
      ensures IsAlnum(Scrub(mt)[q]) <==> IsAlnum(text[m.start + q])
    {
      assert mt[q] == text[m.start + q];
    }
  }

  lemma SpanIsAlnumRun(text: string, m: Match, u: string, pieces: seq<string>, k: nat)
    requires ValidMatch(text, m) && |u| == m.end - m.start
    requires forall q :: 0 <= q < |u| ==> (IsAlnum(u[q]) <==> IsAlnum(text[m.start + q]))
    requires k < |pieces| && PieceStart(pieces, k) + |pieces[k]| <= |u|
    requires MaximalAlnumRun(u, 0, |u|, (PieceStart(pieces, k), PieceStart(pieces, k) + |pieces[k]|))
    ensures MaximalAlnumRun(text, m.start, m.end, SpanOf(pieces, k, m.start))
  {
    var a := PieceStart(pieces, k);
    var b := a + |pieces[k]|;
    var sp := SpanOf(pieces, k, m.start);
    ShiftAlnumRun(text, m, u, a, b, sp);
  }

  lemma PieceIsMaximalRun(u: string, pieces: seq<string>, k: nat)
    requires Alternating(pieces) && Flatten(pieces) == u && Blanked(u)
    requires k < |pieces| && Spanned(pieces, k)
    ensures MaximalAlnumRun(u, 0, |u|, (PieceStart(pieces, k), PieceStart(pieces, k) + |pieces[k]|))
  {
    SpannedIsEven(u, pieces, k);
    PieceIsAlnum(u, pieces, k);
    var a := PieceStart(pieces, k);
    var b := a + |pieces[k]|;
    if k > 0 {
      assert (k - 1) % 2 == 1;
    }
    if k + 1 < |pieces| {
      assert (k + 1) % 2 == 1;
    }
    PieceLeftEdge(u, pieces, k);
    if a > 0 {
      SpaceIsNotAlnum(u[a - 1]);
    }
    PieceRightEdge(u, pieces, k);
    if b < |u| {
      SpaceIsNotAlnum(u[b]);
    }
  }

  /** A maximal run of the match text, moved to the match's place in the text. */
  lemma ShiftAlnumRun(text: string, m: Match, u: string, a: int, b: int, sp: (int, int))
    requires ValidMatch(text, m) && |u| == m.end - m.start
    requires forall q :: 0 <= q < |u| ==> (IsAlnum(u[q]) <==> IsAlnum(text[m.start + q]))
    requires MaximalAlnumRun(u, 0, |u|, (a, b)) && sp == (m.start + a, m.start + b)
    ensures MaximalAlnumRun(text, m.start, m.end, sp)
  {
    forall p | sp.0 <= p < sp.1 ensures IsAlnum(text[p]) {
      assert IsAlnum(u[p - m.start]);
    }
    if a > 0 {
      assert !IsAlnum(u[a - 1]);
      assert !IsAlnum(text[m.start + a - 1]);
    }
    if b < |u| {
      assert !IsAlnum(u[b]);
      assert !IsAlnum(text[m.start + b]);
    }
  }

  /** Every `[a-zA-Z0-9]` character of a match lies in one of its sub-spans. */
  lemma MatchSpansCover(text: string, m: Match, p: int) returns (sp: (int, int))
    requires ValidMatch(text, m) && m.start <= p < m.end && IsAlnum(text[p])
    ensures sp in MatchSpans(text, m) && sp.0 <= p < sp.1
  {
    var pieces := MatchPieces(text, m);
    MatchPiecesSplit(text, m);
    var k := AlnumPieceOfMatch(text, m, pieces, p);
    TokenSpansComplete(pieces, |pieces|, m.start, k);
    sp := SpanOf(pieces, k, m.start);
  }

  lemma AlnumPieceOfMatch(text: string, m: Match, pieces: seq<string>, p: int) returns (k: nat)
    requires ValidMatch(text, m) && m.start <= p < m.end && IsAlnum(text[p])
    requires Alternating(pieces) && Flatten(pieces) == Scrub(text[m.start..m.end])
    ensures k < |pieces| && Spanned(pieces, k)
    ensures PieceStart(pieces, k) <= p - m.start < PieceStart(pieces, k) + |pieces[k]|
  {
    var mt := text[m.start..m.end];
    ScrubAlnum(mt);
    assert mt[p - m.start] == text[p];
    k := AlnumInPiece(Scrub(mt), pieces, p - m.start);
  }

  /** Every entry of `map_regex_context` is a sub-span of a match whose context holds. */
  lemma ContextHitsSound(text: string, f: Filter, refMap: map<int, int>, ms: seq<Match>, n: nat,
                         e: CoordinateEntry) returns (i: nat)
    requires f.RegexContextFilter? && n <= |ms| && e in ContextHits(text, f, refMap, ms, n)
    ensures i < n && ContextHolds(f.context, PhiLeft(refMap, ms[i]), PhiRight(refMap, ms[i]))
    ensures (e.start, e.stop) in MatchSpans(text, ms[i]) && e.filter == f
  {
    var spans := SpansOf(text, ms);
    var j;
    i, j := HitsSound(f, ContextMask(f.context, refMap, ms), spans, n, e);
    assert spans[i][j] == (e.start, e.stop);
  }

  /** Every sub-span of a match whose context holds is an entry of `map_regex_context`. */
  lemma ContextHitsComplete(text: string, f: Filter, refMap: map<int, int>, ms: seq<Match>, n: nat,
                            i: nat, sp: (int, int))
    requires f.RegexContextFilter? && i < n <= |ms|
    requires ContextHolds(f.context, PhiLeft(refMap, ms[i]), PhiRight(refMap, ms[i]))
    requires sp in MatchSpans(text, ms[i])
    ensures CoordinateEntry(sp.0, sp.1, f) in ContextHits(text, f, refMap, ms, n)
  {
    var spans := SpansOf(text, ms);
    var j :| 0 <= j < |spans[i]| && spans[i][j] == sp;
    HitsComplete(f, ContextMask(f.context, refMap, ms), spans, n, i, j);
  }

  /** The sub-span loop of `map_regex_context` over one match text. */
  method TokenizeMatch(matchText: string, matchStart: int) returns (tokenized: seq<(int, int)>)
    ensures tokenized == TokenSpans(SplitWs(Scrub(matchText)), |SplitWs(Scrub(matchText))|, matchStart)
  {
    var splitMatch := SplitWs(Scrub(matchText));
    tokenized := [];
    var coordTracker := 0;
    var j := 0;
    while j < |splitMatch|
      invariant 0 <= j <= |splitMatch|
      invariant coordTracker == PieceStart(splitMatch, j)
      invariant tokenized == TokenSpans(splitMatch, j, matchStart)
    {
      var element := splitMatch[j];
      FlattenPrefix(splitMatch, j);
      if element != "" {
        if !IsPunctuation(element[0]) {
          var currentStart := matchStart + coordTracker;
          var currentEnd := currentStart + |element|;
          tokenized := tokenized + [(currentStart, currentEnd)];
          coordTracker := coordTracker + |element|;
        } else {
          coordTracker := coordTracker + |element|;
        }
      }
      j := j + 1;
    }
  }

  /** The append loop of `map_regex_context` for one accepted match. */
  method AppendEntries(results: seq<CoordinateEntry>, tokenized: seq<(int, int)>, f: Filter)
    returns (r: seq<CoordinateEntry>)
    ensures r == results + Entries(tokenized, f)
  {
    r := results;
    var t := 0;
    while t < |tokenized|
      invariant 0 <= t <= |tokenized|
      invariant r == results + Entries(tokenized[..t], f)
    {
      assert Entries(tokenized[..t + 1], f) == Entries(tokenized[..t], f) + [CoordinateEntry(tokenized[t].0, tokenized[t].1, f)];
      r := r + [CoordinateEntry(tokenized[t].0, tokenized[t].1, f)];
      t := t + 1;
    }
    assert tokenized[..t] == tokenized;
  }

  /** One more match: its sub-spans are appended when the context holds. */
  lemma ContextHitsNext(text: string, f: Filter, refMap: map<int, int>, ms: seq<Match>, i: nat)
    requires f.RegexContextFilter? && i < |ms|
    ensures ContextHits(text, f, refMap, ms, i + 1) == ContextHits(text, f, refMap, ms, i)
      + (if ContextHolds(f.context, ms[i].start in refMap.Values, ms[i].end in refMap)
         then Entries(MatchSpans(text, ms[i]), f) else [])
  {
    assert SpansOf(text, ms)[i] == MatchSpans(text, ms[i]);
    assert ContextMask(f.context, refMap, ms)[i] == ContextHolds(f.context, PhiLeft(refMap, ms[i]), PhiRight(refMap, ms[i]));
  }

  /**
   * `map_regex_context(text, pattern, ...)` with its reference map given: for
   * each match, `phi_left` / `phi_right` against the reference map, the
   * sub-spans of the match text, and the sub-spans appended when the context
   * test holds.
   */
  method MapRegexContext(text: string, f: Filter, refMap: map<int, int>, finditer: (Pattern, string) -> seq<Match>)
    returns (results: seq<CoordinateEntry>)
    requires f.RegexContextFilter?
    ensures results == ContextHits(text, f, refMap, finditer(f.regex, text), |finditer(f.regex, text)|)
  {
    var matches := finditer(f.regex, text);
    results := [];
    var i := 0;
    while i < |matches|
      invariant 0 <= i <= |matches|
      invariant results == ContextHits(text, f, refMap, matches, i)
    {
      var m := matches[i];
      var matchStart := m.start;
      var matchEnd := m.end;
      var phiLeft := matchStart in refMap.Values;
      var phiRight := matchEnd in refMap;
      var tokenized := TokenizeMatch(Slice(text, matchStart, matchEnd), matchStart);
      ContextHitsNext(text, f, refMap, matches, i);
      if ContextHolds(f.context, phiLeft, phiRight) {
        results := AppendEntries(results, tokenized, f);
      }
      i := i + 1;
    }
  }

  // ---- find_phi ----

  /** Why `find_phi` raises. */
  datatype ScanError =
    | MissingTagger             // `map_ner` is called without its `stanford_ner_tagger` argument
    | UnsupportedType(typ: string)

  /** The hits of `map_set` / `map_pos`: the walk over the tagger's output for `get_clean(text)`. */
  function TaggedHits(text: string, f: Filter, posTag: seq<string> -> seq<(string, string)>): seq<CoordinateEntry>
    requires f.SetFilter? || f.PosFilter?
  {
    Walk(Keeps(RuleOf(f), posTag(Clean(text))), posTag(Clean(text)), |posTag(Clean(text))|, f)
  }

  /** The pattern is one `find_phi` dispatches without raising: its type string matches its class. */
  predicate Supported(f: Filter) {
    || (f.typ == "regex" && f.RegexFilter?)
    || (f.typ == "set" && f.SetFilter?)
    || (f.typ == "regex_context" && f.RegexContextFilter?)
    || (f.typ == "pos_matcher" && f.PosFilter?)
    || f.typ == "match_all"
  }

  /** The hits one pattern contributes in `find_phi`, or the exception it raises. */
  function PatternHits(text: string, f: Filter, posTag: seq<string> -> seq<(string, string)>,
                       finditer: (Pattern, string) -> seq<Match>): (r: Result<seq<CoordinateEntry>, ScanError>)
    ensures r.Success? <==> Supported(f)
    ensures r.Failure? ==> r.error == if f.typ == "stanford_ner" && f.NerFilter? then MissingTagger else UnsupportedType(f.typ)
    ensures f.typ == "match_all" ==> r == Success([CoordinateEntry(0, |text|, f)])
    ensures f.typ == "regex_context" && f.RegexContextFilter? ==> r == Success([])
  {
    if f.typ == "regex" && f.RegexFilter? then Success(MapRegex(text, f, finditer))
    else if f.typ == "set" && f.SetFilter? then Success(TaggedHits(text, f, posTag))
    else if f.typ == "regex_context" && f.RegexContextFilter? then Success([])
    else if f.typ == "stanford_ner" && f.NerFilter? then Failure(MissingTagger)
    else if f.typ == "pos_matcher" && f.PosFilter? then Success(TaggedHits(text, f, posTag))
    else if f.typ == "match_all" then Success(MatchAll(text, f))
    else Failure(UnsupportedType(f.typ))
  }

  /** The outcome of each pattern. */
  function AllPatternHits(text: string, patterns: seq<Filter>, posTag: seq<string> -> seq<(string, string)>,
                          finditer: (Pattern, string) -> seq<Match>): (r: seq<Result<seq<CoordinateEntry>, ScanError>>)
    ensures |r| == |patterns|
    ensures forall i :: 0 <= i < |patterns| ==> r[i] == PatternHits(text, patterns[i], posTag, finditer)
  {
    seq(|patterns|, i requires 0 <= i < |patterns| => PatternHits(text, patterns[i], posTag, finditer))
  }

  /** The first `n` outcomes joined: the hits concatenated in order, or the first failure. */
  function Join<T, E>(rs: seq<Result<seq<T>, E>>, n: nat): Result<seq<T>, E>
    requires n <= |rs|
  {
    if n == 0 then Success([])
    else
      var prev := Join(rs, n - 1);
      if prev.Failure? then prev
      else if rs[n - 1].Failure? then Failure(rs[n - 1].error)
      else Success(prev.value + rs[n - 1].value)
  }

  /** `find_phi` over the patterns: their hits in pattern order, or the first exception. */
  function FindPhiSpec(text: string, patterns: seq<Filter>, posTag: seq<string> -> seq<(string, string)>,
                       finditer: (Pattern, string) -> seq<Match>): Result<seq<CoordinateEntry>, ScanError>
  {
    Join(AllPatternHits(text, patterns, posTag, finditer), |patterns|)
  }

  /** Once an outcome has failed, later outcomes change nothing. */
  lemma {:induction false} JoinSticks<T, E>(rs: seq<Result<seq<T>, E>>, i: nat, n: nat)
    requires i <= n <= |rs| && Join(rs, i).Failure?
    ensures Join(rs, n) == Join(rs, i)
  {
    if n > i {
      JoinSticks(rs, i, n - 1);
    }
  }

  /** One more outcome joined onto a successful prefix. */
  lemma JoinNext<T, E>(rs: seq<Result<seq<T>, E>>, i: nat, acc: seq<T>, h: Result<seq<T>, E>)
    requires i < |rs| && Join(rs, i) == Success(acc) && rs[i] == h
    ensures Join(rs, i + 1) == if h.Failure? then Failure(h.error) else Success(acc + h.value)
  {
  }

  /** One more outcome: a failure decides the whole join, a success extends the prefix. */
  lemma JoinStep<T, E>(rs: seq<Result<seq<T>, E>>, i: nat, acc: seq<T>)
    requires i < |rs| && Join(rs, i) == Success(acc)
    ensures rs[i].Failure? ==> Join(rs, |rs|) == Failure(rs[i].error)
    ensures rs[i].Success? ==> Join(rs, i + 1) == Success(acc + rs[i].value)
  {
    JoinNext(rs, i, acc, rs[i]);
    if rs[i].Failure? {
      JoinSticks(rs, i + 1, |rs|);
    }
  }

  lemma {:induction false} JoinSucceeds<T, E>(rs: seq<Result<seq<T>, E>>, n: nat)
    requires n <= |rs|
    ensures Join(rs, n).Success? <==> forall i :: 0 <= i < n ==> rs[i].Success?
  {
    if n > 0 {
      JoinSucceeds(rs, n - 1);
    }
  }

  lemma {:induction false} JoinFirstFailure<T, E>(rs: seq<Result<seq<T>, E>>, n: nat) returns (i: nat)
    requires n <= |rs| && Join(rs, n).Failure?
    ensures i < n && rs[i].Failure? && Join(rs, n).error == rs[i].error
    ensures forall j :: 0 <= j < i ==> rs[j].Success?
  {
    if Join(rs, n - 1).Failure? {
      i := JoinFirstFailure(rs, n - 1);
    } else {
      i := n - 1;
      JoinSucceeds(rs, n - 1);
    }
  }

  lemma {:induction false} JoinSound<T, E>(rs: seq<Result<seq<T>, E>>, n: nat, e: T) returns (i: nat)
    requires n <= |rs| && Join(rs, n).Success? && e in Join(rs, n).value
    ensures i < n && rs[i].Success? && e in rs[i].value
  {
    if e in Join(rs, n - 1).value {
      i := JoinSound(rs, n - 1, e);
    } else {
      i := n - 1;
    }
  }

  lemma {:induction false} JoinComplete<T, E>(rs: seq<Result<seq<T>, E>>, n: nat, i: nat, e: T)
    requires i < n <= |rs| && Join(rs, n).Success? && rs[i].Success? && e in rs[i].value
    ensures e in Join(rs, n).value
  {
    if i < n - 1 {
      JoinComplete(rs, n - 1, i, e);
      InLeft(e, Join(rs, n - 1).value, rs[n - 1].value);
    } else {
      var k :| 0 <= k < |rs[i].value| && rs[i].value[k] == e;
      InRight(e, Join(rs, n - 1).value, rs[i].value, k);
    }
  }

  /** The dispatch of `find_phi` for one pattern. */
  method DispatchPattern(text: string, pat: Filter, posTag: seq<string> -> seq<(string, string)>,
                         finditer: (Pattern, string) -> seq<Match>) returns (r: Result<seq<CoordinateEntry>, ScanError>)
    ensures r == PatternHits(text, pat, posTag, finditer)
  {
    var hits: seq<CoordinateEntry>;
    if pat.typ == "regex" && pat.RegexFilter? {
      hits := MapRegex(text, pat, finditer);
    } else if pat.typ == "set" && pat.SetFilter? {
      hits := MapSet(text, pat, posTag);
    } else if pat.typ == "regex_context" && pat.RegexContextFilter? {
      hits := [];
    } else if pat.typ == "stanford_ner" && pat.NerFilter? {
      return Failure(MissingTagger);
    } else if pat.typ == "pos_matcher" && pat.PosFilter? {
      hits := MapPos(text, pat, posTag);
    } else if pat.typ == "match_all" {
      hits := MatchAll(text, pat);
    } else {
      return Failure(UnsupportedType(pat.typ));
    }
    r := Success(hits);
  }

  /**
   * `find_phi(text, patterns)`: the patterns' hits concatenated in pattern
   * order; the first unsupported pattern raises and nothing is returned.
   */
  method FindPhi(text: string, patterns: seq<Filter>, posTag: seq<string> -> seq<(string, string)>,
                 finditer: (Pattern, string) -> seq<Match>) returns (r: Result<seq<CoordinateEntry>, ScanError>)
    ensures r == FindPhiSpec(text, patterns, posTag, finditer)
  {
    var result: seq<CoordinateEntry> := [];
    var i := 0;
    while i < |patterns|
      invariant 0 <= i <= |patterns|
      invariant Join(AllPatternHits(text, patterns, posTag, finditer), i) == Success(result)
    {
      var hits := DispatchPattern(text, patterns[i], posTag, finditer);
      ScanStep(text, patterns, posTag, finditer, i, result, hits);
      if hits.Failure? {
        return Failure(hits.error);
      }
      result := result + hits.value;
      i := i + 1;
    }
    r := Success(result);
  }

  /** One pass of the `find_phi` loop: a failure is final, a success extends the hits. */
  lemma ScanStep(text: string, patterns: seq<Filter>, posTag: seq<string> -> seq<(string, string)>,
                 finditer: (Pattern, string) -> seq<Match>, i: nat, acc: seq<CoordinateEntry>,
                 hits: Result<seq<CoordinateEntry>, ScanError>)
    requires i < |patterns| && Join(AllPatternHits(text, patterns, posTag, finditer), i) == Success(acc)
    requires hits == PatternHits(text, patterns[i], posTag, finditer)
    ensures hits.Failure? ==> FindPhiSpec(text, patterns, posTag, finditer) == Failure(hits.error)
    ensures hits.Success? ==> Join(AllPatternHits(text, patterns, posTag, finditer), i + 1) == Success(acc + hits.value)
  {
    JoinStep(AllPatternHits(text, patterns, posTag, finditer), i, acc);
  }

  /** `find_phi` returns iff every pattern is supported. */
  lemma FindPhiSucceeds(text: string, patterns: seq<Filter>, posTag: seq<string> -> seq<(string, string)>,
                        finditer: (Pattern, string) -> seq<Match>)
    ensures FindPhiSpec(text, patterns, posTag, finditer).Success? <==> forall i :: 0 <= i < |patterns| ==> Supported(patterns[i])
  {
    var rs := AllPatternHits(text, patterns, posTag, finditer);
    JoinSucceeds(rs, |patterns|);
    assert forall i :: 0 <= i < |patterns| ==> (rs[i].Success? <==> Supported(patterns[i]));
  }

  /** The exception `find_phi` raises is the one of the first unsupported pattern. */
  lemma FindPhiFirstFailure(text: string, patterns: seq<Filter>, posTag: seq<string> -> seq<(string, string)>,
                            finditer: (Pattern, string) -> seq<Match>) returns (i: nat)
    requires FindPhiSpec(text, patterns, posTag, finditer).Failure?
    ensures i < |patterns| && !Supported(patterns[i]) && forall j :: 0 <= j < i ==> Supported(patterns[j])
    ensures FindPhiSpec(text, patterns, posTag, finditer).error
      == if patterns[i].typ == "stanford_ner" && patterns[i].NerFilter? then MissingTagger else UnsupportedType(patterns[i].typ)
  {
    var rs := AllPatternHits(text, patterns, posTag, finditer);
    i := JoinFirstFailure(rs, |patterns|);
    assert forall j :: 0 <= j < i ==> rs[j].Success?;
    assert rs[i] == PatternHits(text, patterns[i], posTag, finditer);
  }

  /** Every hit of `find_phi` is a hit of one of its patterns. */
  lemma FindPhiSound(text: string, patterns: seq<Filter>, posTag: seq<string> -> seq<(string, string)>,
                     finditer: (Pattern, string) -> seq<Match>, e: CoordinateEntry) returns (i: nat)
    requires FindPhiSpec(text, patterns, posTag, finditer).Success?
    requires e in FindPhiSpec(text, patterns, posTag, finditer).value
    ensures i < |patterns| && PatternHits(text, patterns[i], posTag, finditer).Success?
    ensures e in PatternHits(text, patterns[i], posTag, finditer).value
  {
    var rs := AllPatternHits(text, patterns, posTag, finditer);
    i := JoinSound(rs, |patterns|, e);
    assert rs[i] == PatternHits(text, patterns[i], posTag, finditer);
  }

  /** Every hit of every pattern is a hit of `find_phi`, when it returns. */
  lemma FindPhiComplete(text: string, patterns: seq<Filter>, posTag: seq<string> -> seq<(string, string)>,
                        finditer: (Pattern, string) -> seq<Match>, i: nat, e: CoordinateEntry)
    requires i < |patterns| && FindPhiSpec(text, patterns, posTag, finditer).Success?
    requires PatternHits(text, patterns[i], posTag, finditer).Success?
    requires e in PatternHits(text, patterns[i], posTag, finditer).value
    ensures e in FindPhiSpec(text, patterns, posTag, finditer).value
  {
    var rs := AllPatternHits(text, patterns, posTag, finditer);
    assert rs[i] == PatternHits(text, patterns[i], posTag, finditer);
    JoinComplete(rs, |patterns|, i, e);
  }

  /** Every walker entry carries the walking filter. */
  lemma WalkFilter(keep: seq<bool>, tagged: seq<(string, string)>, f: Filter, e: CoordinateEntry)
    requires |tagged| == |keep| && e in Walk(keep, tagged, |tagged|, f)
    ensures e.filter == f
  {
    var i := WalkSound(keep, tagged, |tagged|, f, e);
  }

  /** Every hit of a pattern carries that pattern. */
  lemma PatternHitsFilter(text: string, f: Filter, posTag: seq<string> -> seq<(string, string)>,
                          finditer: (Pattern, string) -> seq<Match>, e: CoordinateEntry)
    requires PatternHits(text, f, posTag, finditer).Success? && e in PatternHits(text, f, posTag, finditer).value
    ensures e.filter == f
  {
    if (f.typ == "set" && f.SetFilter?) || (f.typ == "pos_matcher" && f.PosFilter? && !(f.typ == "set" && f.SetFilter?)) {
      var tagged := posTag(Clean(text));
      WalkFilter(Keeps(RuleOf(f), tagged), tagged, f, e);
    }
  }

  /**
   * Every hit of `find_phi` carries one of the patterns, and no hit comes
   * from a `regex_context` pattern: their pass is deferred and never run.
   */
  lemma FindPhiFilters(text: string, patterns: seq<Filter>, posTag: seq<string> -> seq<(string, string)>,
                       finditer: (Pattern, string) -> seq<Match>, e: CoordinateEntry)
    requires FindPhiSpec(text, patterns, posTag, finditer).Success?
    requires e in FindPhiSpec(text, patterns, posTag, finditer).value
    ensures e.filter in patterns
    ensures !(e.filter.typ == "regex_context" && e.filter.RegexContextFilter?)
  {
    var i := FindPhiSound(text, patterns, posTag, finditer, e);
    PatternHitsFilter(text, patterns[i], posTag, finditer, e);
  }

  /** A `match_all` pattern puts the whole text among the hits. */
  lemma FindPhiMatchAll(text: string, patterns: seq<Filter>, posTag: seq<string> -> seq<(string, string)>,
                        finditer: (Pattern, string) -> seq<Match>, i: nat)
    requires i < |patterns| && patterns[i].typ == "match_all"
    requires FindPhiSpec(text, patterns, posTag, finditer).Success?
    ensures CoordinateEntry(0, |text|, patterns[i]) in FindPhiSpec(text, patterns, posTag, finditer).value
  {
    FindPhiComplete(text, patterns, posTag, finditer, i, CoordinateEntry(0, |text|, patterns[i]));
  }
}
