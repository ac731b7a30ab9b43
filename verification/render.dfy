/**
 * The two renderers of a resolved document: the asterisk mask, which keeps
 * the include intervals verbatim and hides every other letter and digit, and
 * the i2b2 XML document, which lists each PHI entry as one tag.
 */
module Render {
  import opened Text
  import opened Records
  import opened CoordinateMaps

  // ---- transform_text_asterisk ----

  /** A character outside every kept interval: `[a-zA-Z0-9*]` becomes `*`, anything else stays. */
  function MaskChar(c: char): char {
    if IsAlnum(c) || c == '*' then '*' else c
  }

  /** Where the cursor goes after copying the interval `[i, stop)`: the next loop index not below `last_marker`. */
  function After(i: nat, stop: int): nat {
    if stop <= i then i + 1 else stop
  }

  /**
   * The output produced from loop index `i` on, when `i` is not skipped: an
   * interval stored at `i` is copied as `txt[i:stop]` and the cursor jumps to
   * `stop`; any other character is masked on its own.
   */
  function MaskFrom(txt: string, stopOf: map<int, int>, i: nat): string
    decreases |txt| - i
  {
    if i >= |txt| then []
    else if i in stopOf then Slice(txt, i, stopOf[i]) + MaskFrom(txt, stopOf, After(i, stopOf[i]))
    else [MaskChar(txt[i])] + MaskFrom(txt, stopOf, i + 1)
  }

  function Mask(txt: string, stopOf: map<int, int>): string {
    MaskFrom(txt, stopOf, 0)
  }

  /** The index the loop handles next: `i`, or `last_marker` while `i` is below it. */
  function Resume(i: nat, lastMarker: int): nat {
    if i < lastMarker then lastMarker else i
  }

  /** The pieces produced so far, followed by the output from loop index `next` on, make the whole mask. */
  predicate MaskedUpTo(contents: seq<string>, txt: string, stopOf: map<int, int>, next: nat) {
    Flatten(contents) + MaskFrom(txt, stopOf, next) == Mask(txt, stopOf)
  }

  /** A loop index that starts an interval: copy it and move the cursor to its stop. */
  lemma CopyStep(contents: seq<string>, txt: string, stopOf: map<int, int>, i: nat)
    requires i < |txt| && i in stopOf && MaskedUpTo(contents, txt, stopOf, i)
    ensures MaskedUpTo(contents + [Slice(txt, i, stopOf[i])], txt, stopOf, Resume(i + 1, stopOf[i]))
  {
    FlattenSnoc(contents, Slice(txt, i, stopOf[i]));
    AppendAssoc(Flatten(contents), Slice(txt, i, stopOf[i]), MaskFrom(txt, stopOf, Resume(i + 1, stopOf[i])));
  }

  /** A loop index that starts no interval: mask that character alone. */
  lemma CharStep(contents: seq<string>, txt: string, stopOf: map<int, int>, i: nat)
    requires i < |txt| && i !in stopOf && MaskedUpTo(contents, txt, stopOf, i)
    ensures MaskedUpTo(contents + [[MaskChar(txt[i])]], txt, stopOf, i + 1)
  {
    FlattenSnoc(contents, [MaskChar(txt[i])]);
    AppendAssoc(Flatten(contents), [MaskChar(txt[i])], MaskFrom(txt, stopOf, i + 1));
  }

  /** `transform_text_asterisk(txt, include_map)`. */
  method TransformTextAsterisk(txt: string, includeMap: CoordinateMap) returns (r: string)
    ensures r == Mask(txt, includeMap.State().stopOf)
  {
    var st := includeMap.State();
    var lastMarker := 0;
    var contents: seq<string> := [];
    for i := 0 to |txt|
      invariant MaskedUpTo(contents, txt, st.stopOf, Resume(i, lastMarker))
    {
      if i < lastMarker {
        continue;
      }
      if DoesExist(st, i) {
        var coords := GetCoords(st, i).value;
        CopyStep(contents, txt, st.stopOf, i);
        contents := contents + [Slice(txt, coords.0, coords.1)];
        lastMarker := coords.1;
      } else {
        CharStep(contents, txt, st.stopOf, i);
        if !(IsAlnum(txt[i]) || txt[i] == '*') {
          contents := contents + [[txt[i]]];
        } else {
          contents := contents + ["*"];
        }
      }
    }
    assert MaskFrom(txt, st.stopOf, Resume(|txt|, lastMarker)) == [];
    r := Flatten(contents);
  }

  /** Every stored interval is non-empty. */
  predicate Forward(stopOf: map<int, int>) {
    forall k :: k in stopOf ==> k < stopOf[k]
  }

  /**
   * Stored intervals nest or lie apart: an interval that starts inside another
   * one also ends inside it.
   */
  predicate Laminar(stopOf: map<int, int>) {
    forall a, b :: a in stopOf && b in stopOf && a < b < stopOf[a] ==> stopOf[b] <= stopOf[a]
  }

  /** Index `j` lies in an interval stored at or after `i`. */
  predicate KeptFrom(stopOf: map<int, int>, i: int, j: int) {
    exists k :: k in stopOf && i <= k <= j < stopOf[k]
  }

  /** With non-empty intervals the mask has the length of the text. */
  lemma {:induction false} MaskLength(txt: string, stopOf: map<int, int>, i: nat)
    requires i <= |txt| && Forward(stopOf)
    ensures |MaskFrom(txt, stopOf, i)| == |txt| - i
    decreases |txt| - i
  {
    if i < |txt| {
      if i in stopOf {
        var s := stopOf[i];
        if s <= |txt| {
          MaskLength(txt, stopOf, s);
        }
      } else {
        MaskLength(txt, stopOf, i + 1);
      }
    }
  }

  /** Past an interval stored at `i`, the intervals stored from `i` on and from its stop on keep the same indices. */
  lemma KeptPastInterval(stopOf: map<int, int>, i: int, j: int)
    requires Laminar(stopOf) && i in stopOf && i < stopOf[i] <= j
    ensures KeptFrom(stopOf, i, j) <==> KeptFrom(stopOf, stopOf[i], j)
  {
    if KeptFrom(stopOf, i, j) {
      var k :| k in stopOf && i <= k <= j < stopOf[k];
      assert stopOf[i] <= k <= j < stopOf[k];
    }
  }

  /** An index that starts no interval is never inside one stored there. */
  lemma KeptPastPlain(stopOf: map<int, int>, i: int, j: int)
    requires i !in stopOf && i <= j
    ensures KeptFrom(stopOf, i, j) <==> i < j && KeptFrom(stopOf, i + 1, j)
  {
    if KeptFrom(stopOf, i, j) {
      var k :| k in stopOf && i <= k <= j < stopOf[k];
      assert k != i;
    }
  }

  /** The character the mask shows at index `j` when the cursor starts at `i`. */
  function Shown(txt: string, stopOf: map<int, int>, i: int, j: int): char
    requires 0 <= j < |txt|
  {
    if KeptFrom(stopOf, i, j) then txt[j] else MaskChar(txt[j])
  }

  /** `out` is what the mask shows from index `i` on. */
  predicate MaskedAs(out: string, txt: string, stopOf: map<int, int>, i: nat)
    requires i <= |txt|
  {
    && |out| == |txt| - i
    && forall j :: i <= j < |txt| ==> out[j - i] == Shown(txt, stopOf, i, j)
  }

  predicate MaskedFrom(txt: string, stopOf: map<int, int>, i: nat)
    requires i <= |txt|
  {
    MaskedAs(MaskFrom(txt, stopOf, i), txt, stopOf, i)
  }

  lemma ShiftInterval(out: string, rest: string, txt: string, stopOf: map<int, int>, i: nat, e: nat)
    requires i < e <= |txt| && i in stopOf && Forward(stopOf) && Laminar(stopOf)
    requires e == if stopOf[i] <= |txt| then stopOf[i] else |txt|
    requires out == txt[i..e] + rest && MaskedAs(rest, txt, stopOf, e)
    ensures MaskedAs(out, txt, stopOf, i)
  {
    forall j | i <= j < |txt|
      ensures out[j - i] == Shown(txt, stopOf, i, j)
    {
      if j < e {
        assert i <= i <= j < stopOf[i];
        assert KeptFrom(stopOf, i, j);
        assert out[j - i] == txt[i..e][j - i] == txt[j];
      } else {
        KeptPastInterval(stopOf, i, j);
        assert Shown(txt, stopOf, i, j) == Shown(txt, stopOf, e, j);
        assert out[j - i] == rest[j - e];
      }
    }
  }

  lemma ShiftPlain(out: string, rest: string, txt: string, stopOf: map<int, int>, i: nat)
    requires i < |txt| && i !in stopOf
    requires out == [MaskChar(txt[i])] + rest && MaskedAs(rest, txt, stopOf, i + 1)
    ensures MaskedAs(out, txt, stopOf, i)
  {
    forall j | i <= j < |txt|
      ensures out[j - i] == Shown(txt, stopOf, i, j)
    {
      KeptPastPlain(stopOf, i, j);
      if j > i {
        assert Shown(txt, stopOf, i, j) == Shown(txt, stopOf, i + 1, j);
        assert out[j - i] == rest[j - (i + 1)];
      } else {
        assert !KeptFrom(stopOf, i, j);
      }
    }
  }

  lemma PointwiseInterval(txt: string, stopOf: map<int, int>, i: nat)
    requires i < |txt| && i in stopOf && Forward(stopOf) && Laminar(stopOf)
    requires stopOf[i] <= |txt| ==> MaskedFrom(txt, stopOf, stopOf[i])
    ensures MaskedFrom(txt, stopOf, i)
  {
    var s := stopOf[i];
    var e := if s <= |txt| then s else |txt|;
    var rest := MaskFrom(txt, stopOf, After(i, s));
    assert MaskFrom(txt, stopOf, i) == txt[i..e] + rest;
    if s > |txt| {
      assert rest == [];
    }
    ShiftInterval(MaskFrom(txt, stopOf, i), rest, txt, stopOf, i, e);
  }

  lemma PointwisePlain(txt: string, stopOf: map<int, int>, i: nat)
    requires i < |txt| && i !in stopOf && MaskedFrom(txt, stopOf, i + 1)
    ensures MaskedFrom(txt, stopOf, i)
  {
    assert MaskFrom(txt, stopOf, i) == [MaskChar(txt[i])] + MaskFrom(txt, stopOf, i + 1);
    ShiftPlain(MaskFrom(txt, stopOf, i), MaskFrom(txt, stopOf, i + 1), txt, stopOf, i);
  }

  /**
   * Over non-empty intervals that nest or lie apart, the mask keeps exactly the
   * characters of the intervals the cursor reaches, and masks every other one.
   */
  lemma {:induction false} MaskPointwise(txt: string, stopOf: map<int, int>, i: nat)
    requires i <= |txt| && Forward(stopOf) && Laminar(stopOf)
    ensures MaskedFrom(txt, stopOf, i)
    decreases |txt| - i
  {
    if i < |txt| {
      if i in stopOf {
        if stopOf[i] <= |txt| {
          MaskPointwise(txt, stopOf, stopOf[i]);
        }
        PointwiseInterval(txt, stopOf, i);
      } else {
        MaskPointwise(txt, stopOf, i + 1);
        PointwisePlain(txt, stopOf, i);
      }
    }
  }

  /**
   * The asterisk output over an include map of non-empty intervals that nest
   * or lie apart: the text's length, every index inside an interval that starts
   * in the text copied verbatim, and every other `[a-zA-Z0-9*]` character
   * replaced by `*`.
   */
  lemma AsteriskKeepsIncluded(txt: string, stopOf: map<int, int>)
    requires Forward(stopOf) && Laminar(stopOf)
    ensures |Mask(txt, stopOf)| == |txt|
    ensures forall j :: 0 <= j < |txt| ==>
      Mask(txt, stopOf)[j] == if KeptFrom(stopOf, 0, j) then txt[j] else MaskChar(txt[j])
  {
    MaskPointwise(txt, stopOf, 0);
    forall j | 0 <= j < |txt|
      ensures Mask(txt, stopOf)[j] == if KeptFrom(stopOf, 0, j) then txt[j] else MaskChar(txt[j])
    {
      assert Mask(txt, stopOf)[j] == MaskFrom(txt, stopOf, 0)[j - 0] == Shown(txt, stopOf, 0, j);
    }
  }

  /**
   * As written, an interval stored at `k` that does not end after `k` (an
   * empty match gives `stop == k`) copies nothing and moves the cursor past
   * `k`: the character at `k` is dropped from the output.
   */
  lemma EmptyIntervalDropsChar()
    ensures Mask("ab", map[0 := 0]) == "*"
    ensures |Mask("ab", map[0 := 0])| < |"ab"|
  {
    assert MaskFrom("ab", map[0 := 0], 2) == [];
    assert MaskFrom("ab", map[0 := 0], 1) == "*";
  }

  /**
   * The mask with the evident intent for such intervals: only an interval
   * that ends after its start is copied; at any other index the character is
   * masked on its own.
   */
  function SafeMaskFrom(txt: string, stopOf: map<int, int>, i: nat): string
    decreases |txt| - i
  {
    if i >= |txt| then []
    else if i in stopOf && i < stopOf[i] then Slice(txt, i, stopOf[i]) + SafeMaskFrom(txt, stopOf, stopOf[i])
    else [MaskChar(txt[i])] + SafeMaskFrom(txt, stopOf, i + 1)
  }

  /** The corrected mask has the length of the text, whatever the include map holds. */
  lemma {:induction false} SafeMaskLength(txt: string, stopOf: map<int, int>, i: nat)
    requires i <= |txt|
    ensures |SafeMaskFrom(txt, stopOf, i)| == |txt| - i
    decreases |txt| - i
  {
    if i < |txt| {
      if i in stopOf && i < stopOf[i] {
        if stopOf[i] <= |txt| {
          SafeMaskLength(txt, stopOf, stopOf[i]);
        }
      } else {
        SafeMaskLength(txt, stopOf, i + 1);
      }
    }
  }

  /** Over non-empty intervals the corrected mask is the mask as written. */
  lemma {:induction false} SafeMaskAgrees(txt: string, stopOf: map<int, int>, i: nat)
    requires Forward(stopOf)
    ensures SafeMaskFrom(txt, stopOf, i) == MaskFrom(txt, stopOf, i)
    decreases |txt| - i
  {
    if i < |txt| {
      if i in stopOf {
        SafeMaskAgrees(txt, stopOf, stopOf[i]);
      } else {
        SafeMaskAgrees(txt, stopOf, i + 1);
      }
    }
  }

  // ---- transform_text_i2b2 ----

  const Root := "Philter"
  const XmlDecl := "<?xml version=\"1.0\" ?>\n"
  const RootOpen := "<" + Root + ">\n"
  const TextOpen := "<TEXT><![CDATA["
  const TextClose := "]]></TEXT>\n"
  const TagsOpen := "<TAGS>\n"
  const TagsClose := "</TAGS>\n"
  const RootClose := "</" + Root + ">\n"

  /** Everything before the document text. */
  const Head := XmlDecl + RootOpen + TextOpen

  /** Between the document text and the first tag. */
  const Middle := TextClose + TagsOpen

  const Tail := TagsClose + RootClose

  // The literal text around a tag's attribute values.
  const IdAttr := " id=\"P"
  const StartAttr := "\" start=\""
  const EndAttr := "\" end=\""
  const TextAttr := "\" text=\""
  const TypeAttr := "\" TYPE=\""
  const TagClose := "\" comment=\"\" />"

  /** The tag of the `i`-th PHI entry up to its closing ` comment="" />`. */
  function TagHead(i: nat, phi: PhiEntry): string {
    "<" + phi.phiType + IdAttr + NatToString(i) + StartAttr + IntToString(phi.start)
    + EndAttr + IntToString(phi.stop) + TextAttr + phi.word + TypeAttr + phi.phiType
  }

  /** The tag of the `i`-th PHI entry, without its line break. */
  function TagLine(i: nat, phi: PhiEntry): string {
    TagHead(i, phi) + TagClose
  }

  /** Joining six pieces, grouped from the left. */
  lemma Flatten6(a0: string, a1: string, a2: string, a3: string, a4: string, a5: string)
    ensures Flatten([a0, a1, a2, a3, a4, a5]) == a0 + a1 + a2 + a3 + a4 + a5
  {
    var p := [a0, a1, a2, a3, a4, a5];
    FlattenPrefix(p, 0); FlattenPrefix(p, 1); FlattenPrefix(p, 2);
    FlattenPrefix(p, 3); FlattenPrefix(p, 4); FlattenPrefix(p, 5);
    assert p[..6] == p;
    assert Flatten(p[..0]) + a0 == a0;
  }

  // ---- reading a tag back ----

  /** `s.split(c)`: the pieces between the separators, empty ones included. */
  function SplitOn(s: string, c: char): (r: seq<string>)
    ensures |r| >= 1
  {
    if s == [] then [[]]
    else
      var r := SplitOn(s[..|s| - 1], c);
      if s[|s| - 1] == c then r + [[]] else r[..|r| - 1] + [r[|r| - 1] + [s[|s| - 1]]]
  }

  lemma {:induction false} SplitNoSep(f: string, c: char)
    requires c !in f
    ensures SplitOn(f, c) == [f]
  {
    if f != [] {
      SplitNoSep(f[..|f| - 1], c);
      assert f[..|f| - 1] + [f[|f| - 1]] == f;
    }
  }

  lemma {:induction false} SplitAfterSep(x: string, f: string, c: char)
    requires c !in f
    ensures SplitOn(x + [c] + f, c) == SplitOn(x, c) + [f]
    decreases |f|
  {
    var s := x + [c] + f;
    if f == [] {
      assert s[..|s| - 1] == x;
    } else {
      var g := f[..|f| - 1];
      assert s[..|s| - 1] == x + [c] + g;
      SplitAfterSep(x, g, c);
      assert g + [f[|f| - 1]] == f;
    }
  }

  /** A separator inside a literal between two separator-free parts. */
  lemma SepStep(h: string, l: string, a: string, b: string, n: string, c: char)
    requires l == a + [c] + b && c !in h && c !in a && c !in b && c !in n
    ensures SplitOn(h + l + n, c) == [h + a, b + n]
  {
    assert h + l + n == (h + a) + [c] + (b + n);
    SplitAfterSep(h + a, b + n, c);
    SplitNoSep(h + a, c);
  }

  /** An attribute literal `"name="` followed by its value adds the name and the value as pieces. */
  lemma AttrStep(x: string, l: string, a: string, v: string, c: char)
    requires l == [c] + a + [c] && c !in a && c !in v
    ensures SplitOn(x + l + v, c) == SplitOn(x, c) + [a, v]
  {
    assert x + l + v == (x + [c] + a) + [c] + v;
    SplitAfterSep(x + [c] + a, v, c);
    SplitAfterSep(x, a, c);
  }

  /** The closing literal `" comment="" />` adds three pieces. */
  lemma CloseStep(x: string, l: string, a: string, b: string, c: char)
    requires l == [c] + a + [c] + [c] + b && c !in a && c !in b
    ensures SplitOn(x + l, c) == SplitOn(x, c) + [a, [], b]
  {
    assert x + l == (x + [c] + a + [c]) + [c] + b;
    SplitAfterSep(x + [c] + a + [c], b, c);
    assert x + [c] + a + [c] == (x + [c] + a) + [c] + [];
    SplitAfterSep(x + [c] + a, [], c);
    SplitAfterSep(x, a, c);
  }

  /** What a reader recovers from one tag. */
  datatype TagData = TagData(id: nat, start: int, stop: int, text: string, phiType: string)

  predicate IsDigits(s: string) {
    forall k :: 0 <= k < |s| ==> '0' <= s[k] <= '9'
  }

  /** An optional minus sign, then at least one decimal digit. */
  predicate IsIntText(s: string) {
    |s| > 0 && forall k :: (if s[0] == '-' then 1 else 0) <= k < |s| ==> '0' <= s[k] <= '9'
  }

  /** Reads the fields back out of one tag line; `None` for a line of another shape. */
  function ReadTag(line: string): Option<TagData> {
    var p := SplitOn(line, '"');
    if |p| == 13 && |p[1]| > 0 && p[1][0] == 'P' && IsDigits(p[1][1..]) && IsIntText(p[3]) && IsIntText(p[5])
    then Some(TagData(ParseNat(p[1][1..]), ParseInt(p[3]), ParseInt(p[5]), p[7], p[9]))
    else None
  }

  /** A field value the i2b2 output can carry unescaped: no double quote and no line break. */
  predicate PlainField(s: string) {
    '"' !in s && '\n' !in s
  }

  lemma NoQuoteInNumber(x: int)
    ensures IsIntText(IntToString(x))
    ensures '"' !in IntToString(x) && '\n' !in IntToString(x)
  {
    IntToStringDigits(x);
    var t := IntToString(x);
    forall k | 0 <= k < |t| ensures t[k] != '"' && t[k] != '\n' {
      if k == 0 && x < 0 {
        assert t[k] == '-';
      }
    }
  }

  /** Where the double quotes sit in the literal text around the attribute values. */
  lemma QuotesInLiterals()
    ensures IdAttr == " id=" + ['"'] + "P"
    ensures StartAttr == ['"'] + " start=" + ['"']
    ensures EndAttr == ['"'] + " end=" + ['"']
    ensures TextAttr == ['"'] + " text=" + ['"']
    ensures TypeAttr == ['"'] + " TYPE=" + ['"']
    ensures TagClose == ['"'] + " comment=" + ['"'] + ['"'] + " />"
    ensures '"' !in " id=" && '"' !in "P" && '"' !in " start=" && '"' !in " end=" && '"' !in " text="
    ensures '"' !in " TYPE=" && '"' !in " comment=" && '"' !in " />" && '"' !in "<"
  {
  }

  /** The tag of a plain entry split at its double quotes: attribute names and values alternate. */
  lemma SplitTag(i: nat, phi: PhiEntry)
    requires PlainField(phi.word) && PlainField(phi.phiType)
    ensures SplitOn(TagLine(i, phi), '"')
         == ["<" + phi.phiType + " id=", "P" + NatToString(i)]
          + [" start=", IntToString(phi.start)] + [" end=", IntToString(phi.stop)]
          + [" text=", phi.word] + [" TYPE=", phi.phiType] + [" comment=", [], " />"]
  {
    var t := phi.phiType;
    var n := NatToString(i);
    NoQuoteInNumber(phi.start);
    NoQuoteInNumber(phi.stop);
    assert '"' !in n;
    QuotesInLiterals();
    var x0 := "<" + t + IdAttr + n;
    SepStep("<" + t, IdAttr, " id=", "P", n, '"');
    var x1 := x0 + StartAttr + IntToString(phi.start);
    AttrStep(x0, StartAttr, " start=", IntToString(phi.start), '"');
    var x2 := x1 + EndAttr + IntToString(phi.stop);
    AttrStep(x1, EndAttr, " end=", IntToString(phi.stop), '"');
    var x3 := x2 + TextAttr + phi.word;
    AttrStep(x2, TextAttr, " text=", phi.word, '"');
    AttrStep(x3, TypeAttr, " TYPE=", t, '"');
    CloseStep(TagHead(i, phi), TagClose, " comment=", " />", '"');
  }

  /** How `ReadTag` reads a line once its split is known. */
  lemma ReadSplit(line: string, n: string)
    requires |SplitOn(line, '"')| == 13 && SplitOn(line, '"')[1] == "P" + n && IsDigits(n)
    requires IsIntText(SplitOn(line, '"')[3]) && IsIntText(SplitOn(line, '"')[5])
    ensures ReadTag(line) == Some(TagData(ParseNat(n), ParseInt(SplitOn(line, '"')[3]),
      ParseInt(SplitOn(line, '"')[5]), SplitOn(line, '"')[7], SplitOn(line, '"')[9]))
  {
    assert ("P" + n)[1..] == n;
  }

  /** A tag of an entry with plain word and type reads back as that entry, under its index. */
  lemma TagRoundTrip(i: nat, phi: PhiEntry)
    requires PlainField(phi.word) && PlainField(phi.phiType)
    ensures ReadTag(TagLine(i, phi)) == Some(TagData(i, phi.start, phi.stop, phi.word, phi.phiType))
  {
    SplitTag(i, phi);
    var n := NatToString(i);
    NoQuoteInNumber(phi.start);
    NoQuoteInNumber(phi.stop);
    ReadSplit(TagLine(i, phi), n);
    NatToStringRoundTrip(i);
    IntToStringRoundTrip(phi.start);
    IntToStringRoundTrip(phi.stop);
  }


  // ---- the whole document ----

  /** The thirteen pieces the source appends for the `i`-th PHI entry, joined. */
  function Tag(i: nat, phi: PhiEntry): string {
    TagLine(i, phi) + "\n"
  }

  /** The tags of the first `n` PHI entries, in list order. */
  function Tags(phi: seq<PhiEntry>, n: nat): string
    requires n <= |phi|
  {
    if n == 0 then [] else Tags(phi, n - 1) + Tag(n - 1, phi[n - 1])
  }

  /** Everything before the tags. */
  function Prelude(text: string): string {
    Head + text + Middle
  }

  /** The i2b2 XML document of a tracker. */
  function I2b2(tagdata: DataTracker): string {
    Prelude(tagdata.text) + Tags(tagdata.phi, |tagdata.phi|) + Tail
  }

  /** `transform_text_i2b2(tagdata)`. */
  method TransformTextI2b2(tagdata: DataTracker) returns (r: string)
    ensures r == I2b2(tagdata)
  {
    var contents := Opening(tagdata.text);
    OpeningPieces(tagdata.text);
    contents := AppendTags(contents, tagdata.phi);
    ClosingStep(contents, Prelude(tagdata.text) + Tags(tagdata.phi, |tagdata.phi|));
    contents := contents + Closing;
    r := Flatten(contents);
  }

  /** The loop over `enumerate(tagdata.phi)`: one tag per entry, appended in list order. */
  method AppendTags(contents: seq<string>, phi: seq<PhiEntry>) returns (out: seq<string>)
    ensures Flatten(out) == Flatten(contents) + Tags(phi, |phi|)
  {
    out := contents;
    ghost var base := Flatten(contents);
    assert base + Tags(phi, 0) == base;
    var i := 0;
    while i < |phi|
      invariant i <= |phi|
      invariant Flatten(out) == base + Tags(phi, i)
    {
      TagStep(out, base, phi, i);
      out := out + [Tag(i, phi[i])];
      i := i + 1;
    }
  }

  lemma TagStep(contents: seq<string>, prelude: string, phi: seq<PhiEntry>, i: nat)
    requires i < |phi| && Flatten(contents) == prelude + Tags(phi, i)
    ensures Flatten(contents + [Tag(i, phi[i])]) == prelude + Tags(phi, i + 1)
  {
    FlattenSnoc(contents, Tag(i, phi[i]));
    AppendAssoc(prelude, Tags(phi, i), Tag(i, phi[i]));
  }

  lemma ClosingStep(contents: seq<string>, body: string)
    requires Flatten(contents) == body
    ensures Flatten(contents + Closing) == body + Tail
  {
    var closing := Closing;
    FlattenAppend(contents, closing);
    FlattenPrefix(closing, 0);
    FlattenPrefix(closing, 1);
    assert closing[..2] == closing;
    assert Flatten(closing[..0]) + closing[0] == closing[0];
  }

  /** The list the source starts from. */
  function Opening(text: string): seq<string> {
    [XmlDecl, RootOpen, TextOpen, text, TextClose, TagsOpen]
  }

  /** The two pieces the source appends after the tags. */
  const Closing := [TagsClose, RootClose]

  lemma OpeningPieces(text: string)
    ensures Flatten(Opening(text)) == Prelude(text)
  {
    Flatten6(XmlDecl, RootOpen, TextOpen, text, TextClose, TagsOpen);
    AppendAssoc(Head + text, TextClose, TagsOpen);
  }

  /** Reads every line of a tag block back; the empty piece after the final line break is not a tag. */
  function ReadTags(block: string): seq<Option<TagData>> {
    var ls := SplitOn(block, '\n');
    seq(|ls| - 1, k requires 0 <= k < |ls| - 1 => ReadTag(ls[k]))
  }

  /** The entries as a reader of the document should find them. */
  function Listed(phi: seq<PhiEntry>): seq<Option<TagData>> {
    seq(|phi|, k requires 0 <= k < |phi| => Some(TagData(k, phi[k].start, phi[k].stop, phi[k].word, phi[k].phiType)))
  }

  predicate AllPlain(phi: seq<PhiEntry>) {
    forall k :: 0 <= k < |phi| ==> PlainField(phi[k].word) && PlainField(phi[k].phiType)
  }

  /** The pieces `r` with `f` appended to the last one. */
  function Glue(r: seq<string>, f: string): seq<string>
    requires |r| >= 1
  {
    r[..|r| - 1] + [r[|r| - 1] + f]
  }

  lemma SplitSep(y: string, c: char)
    ensures SplitOn(y + [c], c) == SplitOn(y, c) + [[]]
  {
    assert (y + [c])[..|y|] == y;
  }

  /** Appending a character other than the separator extends the last piece. */
  lemma SplitSnoc(y: string, ch: char, c: char)
    requires ch != c
    ensures SplitOn(y + [ch], c) == Glue(SplitOn(y, c), [ch])
  {
    assert (y + [ch])[..|y|] == y;
  }

  lemma GlueTwice(r: seq<string>, g: string, h: string)
    requires |r| >= 1
    ensures Glue(Glue(r, g), h) == Glue(r, g + h)
  {
    var rg := Glue(r, g);
    assert rg[..|rg| - 1] == r[..|r| - 1];
    AppendAssoc(r[|r| - 1], g, h);
  }

  lemma GlueNothing(r: seq<string>)
    requires |r| >= 1
    ensures Glue(r, []) == r
  {
    assert r[|r| - 1] + [] == r[|r| - 1];
  }

  lemma {:induction false} SplitExtend(x: string, f: string, c: char)
    requires c !in f
    ensures SplitOn(x + f, c) == Glue(SplitOn(x, c), f)
    decreases |f|
  {
    if f == [] {
      assert x + f == x;
      GlueNothing(SplitOn(x, c));
    } else {
      var g := f[..|f| - 1];
      var last := f[|f| - 1];
      assert g + [last] == f;
      assert x + f == (x + g) + [last];
      SplitExtend(x, g, c);
      SplitSnoc(x + g, last, c);
      GlueTwice(SplitOn(x, c), g, [last]);
    }
  }

  lemma NoBreakInTag(i: nat, phi: PhiEntry)
    requires PlainField(phi.word) && PlainField(phi.phiType)
    ensures '\n' !in TagLine(i, phi)
  {
    NoQuoteInNumber(phi.start);
    NoQuoteInNumber(phi.stop);
  }

  /** The tag lines of the first `n` entries. */
  function TagLines(phi: seq<PhiEntry>, n: nat): seq<string>
    requires n <= |phi|
  {
    seq(n, k requires 0 <= k < n => TagLine(k, phi[k]))
  }

  /** Each line followed by a line break. */
  function Terminated(lines: seq<string>): string {
    if lines == [] then [] else Terminated(lines[..|lines| - 1]) + (lines[|lines| - 1] + "\n")
  }

  /** Lines without a line break, each terminated, split back into those lines and a final empty piece. */
  lemma {:induction false} TerminatedSplit(lines: seq<string>)
    requires forall k :: 0 <= k < |lines| ==> '\n' !in lines[k]
    ensures SplitOn(Terminated(lines), '\n') == lines + [[]]
  {
    if lines != [] {
      var init := lines[..|lines| - 1];
      var line := lines[|lines| - 1];
      var prev := Terminated(init);
      TerminatedSplit(init);
      SplitExtend(prev, line, '\n');
      assert (init + [[]])[..|init|] == init;
      assert [] + line == line;
      assert Glue(init + [[]], line) == init + [line];
      assert init + [line] == lines;
      AppendAssoc(prev, line, "\n");
      SplitSep(prev + line, '\n');
    }
  }

  lemma {:induction false} TagsTerminated(phi: seq<PhiEntry>, n: nat)
    requires n <= |phi|
    ensures Tags(phi, n) == Terminated(TagLines(phi, n))
  {
    if n > 0 {
      TagsTerminated(phi, n - 1);
      assert TagLines(phi, n)[..n - 1] == TagLines(phi, n - 1);
    }
  }

  /** The tag block splits at its line breaks into the tag lines, in entry order. */
  lemma TagsLines(phi: seq<PhiEntry>)
    requires AllPlain(phi)
    ensures SplitOn(Tags(phi, |phi|), '\n') == TagLines(phi, |phi|) + [[]]
  {
    TagsTerminated(phi, |phi|);
    forall k | 0 <= k < |phi| ensures '\n' !in TagLines(phi, |phi|)[k] {
      NoBreakInTag(k, phi[k]);
    }
    TerminatedSplit(TagLines(phi, |phi|));
  }

  /** The tags of a document with plain fields read back as its PHI list, entry for entry. */
  lemma TagsReadBack(phi: seq<PhiEntry>)
    requires AllPlain(phi)
    ensures ReadTags(Tags(phi, |phi|)) == Listed(phi)
  {
    TagsLines(phi);
    var lines := SplitOn(Tags(phi, |phi|), '\n');
    var r := ReadTags(Tags(phi, |phi|));
    assert |r| == |phi|;
    forall k | 0 <= k < |phi|
      ensures r[k] == Listed(phi)[k]
    {
      assert r[k] == ReadTag(lines[k]);
      assert lines[k] == TagLine(k, phi[k]);
      TagRoundTrip(k, phi[k]);
    }
  }

  lemma Frame(h: string, t: string, m: string, b: string, z: string)
    ensures |h + t + m + b + z| == |h| + |t| + |m| + |b| + |z|
    ensures (h + t + m + b + z)[..|h|] == h
    ensures (h + t + m + b + z)[|h|..|h| + |t|] == t
    ensures (h + t + m + b + z)[|h| + |t|..|h| + |t| + |m|] == m
    ensures (h + t + m + b + z)[|h| + |t| + |m|..|h| + |t| + |m| + |b|] == b
    ensures (h + t + m + b + z)[|h| + |t| + |m| + |b|..] == z
  {
  }

  /**
   * The layout of the i2b2 document: the fixed head, the text verbatim inside
   * the CDATA section, the closing of the text and opening of the tag list,
   * then the tag block, and the fixed closing.
   */
  lemma I2b2Frame(tagdata: DataTracker)
    ensures |I2b2(tagdata)| >= |Prelude(tagdata.text)| + |Tail|
    ensures I2b2(tagdata)[..|Head|] == Head
    ensures I2b2(tagdata)[|Head|..|Head| + |tagdata.text|] == tagdata.text
    ensures I2b2(tagdata)[|Head| + |tagdata.text|..|Prelude(tagdata.text)|] == Middle
    ensures I2b2(tagdata)[|Prelude(tagdata.text)|..|I2b2(tagdata)| - |Tail|] == Tags(tagdata.phi, |tagdata.phi|)
    ensures I2b2(tagdata)[|I2b2(tagdata)| - |Tail|..] == Tail
  {
    Frame(Head, tagdata.text, Middle, Tags(tagdata.phi, |tagdata.phi|), Tail);
  }

  /** The fixed parts of the document, spelled out. */
  lemma HeadSpelled()
    ensures Head == "<?xml version=\"1.0\" ?>\n<Philter>\n<TEXT><![CDATA["
  {
  }

  lemma MiddleSpelled()
    ensures Middle == "]]></TEXT>\n<TAGS>\n"
  {
  }

  lemma TailSpelled()
    ensures Tail == "</TAGS>\n</Philter>\n"
  {
  }

  /** Between the tag-list opening and the closing, a reader finds the PHI list, entry for entry. */
  lemma I2b2ReadBack(tagdata: DataTracker)
    requires AllPlain(tagdata.phi)
    ensures |I2b2(tagdata)| >= |Prelude(tagdata.text)| + |Tail|
    ensures ReadTags(I2b2(tagdata)[|Prelude(tagdata.text)|..|I2b2(tagdata)| - |Tail|]) == Listed(tagdata.phi)
  {
    I2b2Frame(tagdata);
    TagsReadBack(tagdata.phi);
  }
}
