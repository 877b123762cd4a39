/** The markup fragments of `create_char_span`, `create_dia_span`, `create_word_span`
    and the plain character span, and what a reader of the markup sees of them. */
module Emitter {
  import opened Strings

  // ---------------------------------------------------------------------------
  // Decimal rendering of indices (Python's f"{n}" for a non-negative int)
  // ---------------------------------------------------------------------------

  predicate IsDigits(s: string)
  {
    forall i :: 0 <= i < |s| ==> '0' <= s[i] <= '9'
  }

  function Digit(d: nat): (c: char)
    requires d < 10
    ensures '0' <= c <= '9'
  {
    ('0' as int + d) as char
  }

  function NatToString(n: nat): (s: string)
    decreases n
  {
    if n < 10 then [Digit(n)] else NatToString(n / 10) + [Digit(n % 10)]
  }

  /** The decimal text of an index is a non-empty run of digits. */
  lemma {:induction false} NatToStringDigits(n: nat)
    ensures 1 <= |NatToString(n)| && IsDigits(NatToString(n))
    decreases n
  {
    if n >= 10 {
      NatToStringDigits(n / 10);
    }
  }

  /** Reads a string of decimal digits back as a number. */
  function ParseNat(s: string): int
    decreases |s|
  {
    if s == [] then 0 else 10 * ParseNat(s[..|s| - 1]) + (s[|s| - 1] as int - '0' as int)
  }

  /** The decimal text of an index reads back as that index. */
  lemma {:induction false} ParseNatToString(n: nat)
    ensures ParseNat(NatToString(n)) == n
    decreases n
  {
    if n >= 10 {
      ParseNatToString(n / 10);
      var s := NatToString(n);
      assert s[..|s| - 1] == NatToString(n / 10);
    }
  }

  /** The key `f"{wd_idx}_{char_idx}"` of the per-word character table. */
  function LocalKey(wdIdx: nat, charIdx: nat): string
  {
    NatToString(wdIdx) + "_" + NatToString(charIdx)
  }

  /** Distinct (word, local index) pairs never share a key, so the table can be keyed
      by the pair itself. */
  lemma LocalKeyInjective(w1: nat, l1: nat, w2: nat, l2: nat)
    requires LocalKey(w1, l1) == LocalKey(w2, l2)
    ensures w1 == w2 && l1 == l2
  {
    var a1, b1 := NatToString(w1), NatToString(l1);
    var a2, b2 := NatToString(w2), NatToString(l2);
    NatToStringDigits(w1);
    NatToStringDigits(w2);
    var key := LocalKey(w1, l1);
    assert key == a1 + "_" + b1 && key == a2 + "_" + b2;
    assert key[|a1|] == '_' && key[|a2|] == '_';
    assert |a1| == |a2|;
    assert a1 == key[..|a1|] == a2;
    assert b1 == key[|a1| + 1..] == b2;
    ParseNatToString(w1);
    ParseNatToString(w2);
    ParseNatToString(l1);
    ParseNatToString(l2);
  }

  // ---------------------------------------------------------------------------
  // The fragments
  // ---------------------------------------------------------------------------

  // The literal pieces of the markup. The focus bindings are Alpine.js attributes whose
  // expressions compare an index with the editor store's active character or word.
  const SpanOpen: string := "<span "
  const SpanClose: string := "</span>"
  const AttrOpen: string := "=\""
  const AttrClose: string := "\""
  const DataCharIdx: string := "data-char-idx"
  const DataDiaIdx: string := "data-dia-idx"
  const DataGlobalDiaIdx: string := "data-global-dia-idx"
  const DataWdIdx: string := "data-wd-idx"
  const DataDia: string := "data-dia"
  const ClassName: string := "class"
  const CharClass: string := "char"
  const CharFocusHead: string := ":class=\"{'char-focus': "
  const DiaFocusHead: string := ":class=\"{ 'char': true, 'char-focus': "
  const WordFocusHead: string := ":class=\"{ 'word': true, 'word-focus': "
  const ActiveCharTest: string := "$store.editor.activeCharId == '"
  const WordModeTest: string := "$store.editor.navigationMode === 'word'"
  const ActiveWordTest: string := " && $store.editor.activeWordId == '"
  const CharFocusOpen: string := CharFocusHead + ActiveCharTest
  const DiaFocusOpen: string := DiaFocusHead + ActiveCharTest
  const WordFocusOpen: string := WordFocusHead + WordModeTest + ActiveWordTest
  const FocusClose: string := "' }\""

  /** `name="value"` */
  function Attr(name: string, value: string): string
  {
    name + AttrOpen + value + AttrClose
  }

  /** `<span attrs>content</span>` */
  function Span(attrs: string, content: string): string
  {
    SpanOpen + attrs + ">" + content + SpanClose
  }

  /** The focus binding on a base character, keyed by its global index. */
  function CharFocusBinding(globalDiaIdx: nat): string
  {
    CharFocusOpen + NatToString(globalDiaIdx) + FocusClose
  }

  /** The binding on a diacritic fragment, keyed by the same global index. */
  function DiaFocusBinding(globalDiaIdx: nat): string
  {
    DiaFocusOpen + NatToString(globalDiaIdx) + FocusClose
  }

  /** The binding on a word container, keyed by the word index. */
  function WordFocusBinding(wdIdx: nat): string
  {
    WordFocusOpen + NatToString(wdIdx) + FocusClose
  }

  /** `create_char_span` */
  function CharSpan(ch: char, charIdx: nat, globalDiaIdx: nat, wordId: nat): string
  {
    Span(Attr(DataCharIdx, NatToString(charIdx)) + " "
         + Attr(DataGlobalDiaIdx, NatToString(globalDiaIdx)) + " "
         + Attr(ClassName, CharClass) + " "
         + Attr(DataWdIdx, NatToString(wordId)) + " "
         + CharFocusBinding(globalDiaIdx),
         [ch])
  }

  /** `create_dia_span` */
  function DiaSpan(diacritics: string, charIdx: nat, globalDiaIdx: nat, wordId: nat): string
  {
    Span(Attr(DataDiaIdx, NatToString(charIdx)) + " "
         + Attr(DataGlobalDiaIdx, NatToString(globalDiaIdx)) + " "
         + Attr(DataDia, diacritics) + " "
         + Attr(DataWdIdx, NatToString(wordId)) + " "
         + DiaFocusBinding(globalDiaIdx),
         diacritics)
  }

  /** The span of a unit that gets no index: its base character only. */
  function PlainSpan(ch: char): string
  {
    Span(Attr(ClassName, CharClass), [ch])
  }

  /** `create_word_span`: the fragments of one word, concatenated, in one container. */
  function WordSpan(htmlChars: seq<string>, wdIdx: nat): string
  {
    Span(Attr(DataWdIdx, NatToString(wdIdx)) + " " + WordFocusBinding(wdIdx), Concat(htmlChars))
  }

  // ---------------------------------------------------------------------------
  // Visible text: everything outside `<...>`
  // ---------------------------------------------------------------------------

  /** The characters of `s` that lie outside tags, starting inside a tag when `inTag`. */
  function TextOf(s: string, inTag: bool): string
    decreases |s|
  {
    if s == [] then []
    else if inTag then TextOf(s[1..], s[0] != '>')
    else if s[0] == '<' then TextOf(s[1..], true)
    else [s[0]] + TextOf(s[1..], false)
  }

  /** Whether reading `s` from state `inTag` ends inside a tag. */
  function After(s: string, inTag: bool): bool
    decreases |s|
  {
    if s == [] then inTag
    else if inTag then After(s[1..], s[0] != '>')
    else After(s[1..], s[0] == '<')
  }

  function VisibleText(markup: string): string
  {
    TextOf(markup, false)
  }

  /** Reading `s` from outside a tag ends outside a tag: every `<` is followed by a `>`.
      This says nothing about whether each `<span` has its `</span>`. */
  predicate Closed(s: string)
  {
    !After(s, false)
  }

  lemma {:induction false} TextOfAppend(a: string, b: string, inTag: bool)
    ensures TextOf(a + b, inTag) == TextOf(a, inTag) + TextOf(b, After(a, inTag))
    ensures After(a + b, inTag) == After(b, After(a, inTag))
    decreases |a|
  {
    if a == [] {
      assert a + b == b;
    } else {
      assert (a + b)[0] == a[0];
      assert (a + b)[1..] == a[1..] + b;
      var next := if inTag then a[0] != '>' else a[0] == '<';
      TextOfAppend(a[1..], b, next);
    }
  }

  /** Inside a tag, nothing shows until the closing `>`. */
  lemma {:induction false} InsideTag(s: string)
    requires '>' !in s
    ensures TextOf(s, true) == [] && After(s, true)
    decreases |s|
  {
    if s != [] {
      assert s[0] != '>';
      InsideTag(s[1..]);
    }
  }

  /** Text without `<` shows as it is. */
  lemma {:induction false} OutsideTag(s: string)
    requires '<' !in s
    ensures TextOf(s, false) == s && Closed(s)
    decreases |s|
  {
    if s != [] {
      assert s[0] != '<';
      OutsideTag(s[1..]);
    }
  }

  /** A whole tag `<body>` shows nothing and ends outside any tag. */
  lemma TagText(body: string)
    requires '>' !in body
    ensures TextOf("<" + body + ">", false) == [] && Closed("<" + body + ">")
  {
    var t := "<" + body + ">";
    assert t[0] == '<' && t[1..] == body + ">";
    InsideTag(body);
    TextOfAppend(body, ">", true);
  }

  /** A span shows its content, provided its attributes hold no `>`. */
  lemma SpanText(attrs: string, content: string)
    requires '>' !in attrs && Closed(content)
    ensures VisibleText(Span(attrs, content)) == VisibleText(content)
    ensures Closed(Span(attrs, content))
  {
    var open := "<" + ("span " + attrs) + ">";
    var close := "<" + "/span" + ">";
    assert Span(attrs, content) == open + (content + close);
    TagText("span " + attrs);
    TagText("/span");
    TextOfAppend(content, close, false);
    TextOfAppend(open, content + close, false);
  }

  lemma NoGtInNumber(n: nat)
    ensures '>' !in NatToString(n)
  {
    NatToStringDigits(n);
  }

  /** No literal piece of the bindings holds a `>`. */
  lemma NoGtInHeads()
    ensures '>' !in CharFocusHead && '>' !in DiaFocusHead && '>' !in WordFocusHead
  {
  }

  lemma NoGtInCharTest()
    ensures '>' !in ActiveCharTest && '>' !in FocusClose
  {
  }

  lemma NoGtInWordTests()
    ensures '>' !in WordModeTest && '>' !in ActiveWordTest
  {
  }

  /** No `>` in either part means none in the whole. A fact of sequences, not of the
      source: it lets the proofs about the spans avoid unfolding their text. */
  lemma NoGtInAppend(a: string, b: string)
    requires '>' !in a && '>' !in b
    ensures '>' !in a + b
  {
  }

  /** None of the bindings can close a tag early. */
  lemma NoGtInBindings(n: nat)
    ensures '>' !in CharFocusBinding(n)
    ensures '>' !in DiaFocusBinding(n)
    ensures '>' !in WordFocusBinding(n)
  {
    NoGtInNumber(n);
    NoGtInHeads();
    NoGtInCharTest();
    NoGtInWordTests();
    var num := NatToString(n);
    NoGtInAppend(CharFocusHead, ActiveCharTest);
    NoGtInAppend(CharFocusOpen, num);
    NoGtInAppend(CharFocusOpen + num, FocusClose);
    NoGtInAppend(DiaFocusHead, ActiveCharTest);
    NoGtInAppend(DiaFocusOpen, num);
    NoGtInAppend(DiaFocusOpen + num, FocusClose);
    NoGtInAppend(WordFocusHead, WordModeTest);
    NoGtInAppend(WordFocusHead + WordModeTest, ActiveWordTest);
    NoGtInAppend(WordFocusOpen, num);
    NoGtInAppend(WordFocusOpen + num, FocusClose);
  }

  /** A letter's span shows the letter. */
  lemma CharSpanText(ch: char, charIdx: nat, globalDiaIdx: nat, wordId: nat)
    requires ch != '<'
    ensures VisibleText(CharSpan(ch, charIdx, globalDiaIdx, wordId)) == [ch]
    ensures Closed(CharSpan(ch, charIdx, globalDiaIdx, wordId))
  {
    NoGtInNumber(charIdx);
    NoGtInNumber(globalDiaIdx);
    NoGtInNumber(wordId);
    NoGtInBindings(globalDiaIdx);
    OutsideTag([ch]);
    SpanText(Attr(DataCharIdx, NatToString(charIdx)) + " "
             + Attr(DataGlobalDiaIdx, NatToString(globalDiaIdx)) + " "
             + Attr(ClassName, CharClass) + " "
             + Attr(DataWdIdx, NatToString(wordId)) + " "
             + CharFocusBinding(globalDiaIdx), [ch]);
  }

  /** A diacritic span shows the diacritics; they also stand in its `data-dia`
      attribute, so they must not close the tag early. */
  lemma DiaSpanText(diacritics: string, charIdx: nat, globalDiaIdx: nat, wordId: nat)
    requires '<' !in diacritics && '>' !in diacritics
    ensures VisibleText(DiaSpan(diacritics, charIdx, globalDiaIdx, wordId)) == diacritics
    ensures Closed(DiaSpan(diacritics, charIdx, globalDiaIdx, wordId))
  {
    NoGtInNumber(charIdx);
    NoGtInNumber(globalDiaIdx);
    NoGtInNumber(wordId);
    NoGtInBindings(globalDiaIdx);
    OutsideTag(diacritics);
    SpanText(Attr(DataDiaIdx, NatToString(charIdx)) + " "
             + Attr(DataGlobalDiaIdx, NatToString(globalDiaIdx)) + " "
             + Attr(DataDia, diacritics) + " "
             + Attr(DataWdIdx, NatToString(wordId)) + " "
             + DiaFocusBinding(globalDiaIdx), diacritics);
  }

  /** A plain span shows its character. */
  lemma PlainSpanText(ch: char)
    requires ch != '<'
    ensures VisibleText(PlainSpan(ch)) == [ch] && Closed(PlainSpan(ch))
  {
    OutsideTag([ch]);
    SpanText(Attr(ClassName, CharClass), [ch]);
  }

  /** Concatenated closed fragments show their texts concatenated. */
  lemma {:induction false} ConcatText(frags: seq<string>)
    requires forall k :: 0 <= k < |frags| ==> Closed(frags[k])
    ensures VisibleText(Concat(frags)) == Concat(seq(|frags|, k requires 0 <= k < |frags| => VisibleText(frags[k])))
    ensures Closed(Concat(frags))
    decreases |frags|
  {
    if frags != [] {
      ConcatText(frags[1..]);
      TextOfAppend(frags[0], Concat(frags[1..]), false);
      var texts := seq(|frags|, k requires 0 <= k < |frags| => VisibleText(frags[k]));
      assert texts[1..] == seq(|frags| - 1, k requires 0 <= k < |frags| - 1 => VisibleText(frags[1..][k]));
    }
  }

  /** A word container shows the texts of its fragments, one after the other. */
  lemma WordSpanText(htmlChars: seq<string>, wdIdx: nat)
    requires forall k :: 0 <= k < |htmlChars| ==> Closed(htmlChars[k])
    ensures VisibleText(WordSpan(htmlChars, wdIdx))
         == Concat(seq(|htmlChars|, k requires 0 <= k < |htmlChars| => VisibleText(htmlChars[k])))
    ensures Closed(WordSpan(htmlChars, wdIdx))
  {
    NoGtInBindings(wdIdx);
    ConcatText(htmlChars);
    SpanText(Attr(DataWdIdx, NatToString(wdIdx)) + " " + WordFocusBinding(wdIdx), Concat(htmlChars));
  }

  /** Closed parts joined by single spaces show their texts joined by single spaces. */
  lemma {:induction false} JoinText(parts: seq<string>)
    requires forall k :: 0 <= k < |parts| ==> Closed(parts[k])
    ensures VisibleText(JoinWith(parts, " "))
         == JoinWith(seq(|parts|, k requires 0 <= k < |parts| => VisibleText(parts[k])), " ")
    ensures Closed(JoinWith(parts, " "))
    decreases |parts|
  {
    var texts := seq(|parts|, k requires 0 <= k < |parts| => VisibleText(parts[k]));
    if |parts| > 1 {
      JoinText(parts[1..]);
      OutsideTag(" ");
      var rest := JoinWith(parts[1..], " ");
      assert JoinWith(parts, " ") == parts[0] + (" " + rest);
      TextOfAppend(" ", rest, false);
      TextOfAppend(parts[0], " " + rest, false);
      assert texts[1..] == seq(|parts| - 1, k requires 0 <= k < |parts| - 1 => VisibleText(parts[1..][k]));
    }
  }
}
