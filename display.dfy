/** What the markup shows: its visible text, word by word and for the whole document. A
    letter shows with its diacritics, any other unit shows its base character only, and
    diacritics before a word's first base character show nowhere. */
module Display {
  import opened Strings
  import opened Segmenter
  import opened Words
  import opened Emitter
  import opened Indexer

  /** The visible text of a unit's fragment. */
  function Shown(u: Unit, alpha: set<char>): string
  {
    if u.base in alpha then UnitText(u) else [u.base]
  }

  /** The visible text of a word's container: what its units show, in order. */
  function Kept(word: string, cc: CharClasses): string
  {
    var units := Split(word, cc.dia);
    Concat(seq(|units|, k requires 0 <= k < |units| => Shown(units[k], cc.alpha)))
  }

  /** Markup `f` shows `text` and ends outside any tag. */
  predicate Shows(f: string, text: string)
  {
    Closed(f) && VisibleText(f) == text
  }

  /** A unit's fragment shows the unit as `Shown` says and ends outside any tag. */
  lemma FragmentText(u: Unit, charIdx: nat, globalDiaIdx: nat, wdIdx: nat, alpha: set<char>)
    requires u.base != '<' && '<' !in u.marks && '>' !in u.marks
    ensures Shows(Fragment(u, charIdx, globalDiaIdx, wdIdx, alpha), Shown(u, alpha))
  {
    if u.base in alpha {
      var a := CharSpan(u.base, charIdx, globalDiaIdx, wdIdx);
      var b := DiaSpan(u.marks, charIdx, globalDiaIdx, wdIdx);
      CharSpanText(u.base, charIdx, globalDiaIdx, wdIdx);
      DiaSpanText(u.marks, charIdx, globalDiaIdx, wdIdx);
      TextOfAppend(a, b, false);
      FragmentOfLetter(u, charIdx, globalDiaIdx, wdIdx, alpha);
    } else {
      PlainSpanText(u.base);
    }
  }

  /** Parts that each show their text keep doing so with one more such part after them. */
  lemma ShowsSnoc(prev: seq<string>, last: string, texts: seq<string>, cur: seq<string>)
    requires cur == prev + [last] && |texts| == |cur|
    requires forall k :: 0 <= k < |prev| ==> Shows(prev[k], texts[k])
    requires Shows(last, texts[|prev|])
    ensures forall k :: 0 <= k < |cur| ==> Shows(cur[k], texts[k])
  {
  }

  /** The last of the first `n` fragments of a word shows its unit and ends outside any
      tag. */
  lemma LastFragmentText(units: seq<Unit>, n: nat, wdIdx: nat, globalStart: nat, alpha: set<char>)
    requires 0 < n <= |units|
    requires units[n - 1].base != '<' && '<' !in units[n - 1].marks && '>' !in units[n - 1].marks
    ensures Shows(Fragments(units, n, wdIdx, globalStart, alpha)[n - 1], Shown(units[n - 1], alpha))
  {
    var c := |Letters(units[..n - 1], alpha)|;
    FragmentText(units[n - 1], c, globalStart + c, wdIdx, alpha);
  }

  /** Each of the first `n` fragments of a word shows its unit and ends outside any tag. */
  lemma {:induction false} FragmentsText(units: seq<Unit>, n: nat, wdIdx: nat, globalStart: nat, alpha: set<char>)
    requires n <= |units|
    requires forall k :: 0 <= k < n ==> units[k].base != '<' && '<' !in units[k].marks && '>' !in units[k].marks
    ensures forall k :: 0 <= k < n ==> Shows(Fragments(units, n, wdIdx, globalStart, alpha)[k], Shown(units[k], alpha))
    decreases n
  {
    if n > 0 {
      var frags := Fragments(units, n, wdIdx, globalStart, alpha);
      FragmentsText(units, n - 1, wdIdx, globalStart, alpha);
      LastFragmentText(units, n, wdIdx, globalStart, alpha);
      ShowsSnoc(Fragments(units, n - 1, wdIdx, globalStart, alpha), frags[n - 1],
                seq(n, k requires 0 <= k < n => Shown(units[k], alpha)), frags);
    }
  }

  /** Whether `word` can go into the markup unescaped: it holds no `<`, and no `>` that
      would be a diacritic and so stand inside a `data-dia` attribute. */
  predicate Embeddable(word: string, dia: set<char>)
  {
    '<' !in word && ('>' !in word || '>' !in dia)
  }

  /** An embeddable word splits into units with no `<` and no `>` among their diacritics. */
  lemma UnitsWithoutBrackets(word: string, dia: set<char>)
    requires Embeddable(word, dia)
    ensures forall k :: 0 <= k < |Split(word, dia)| ==>
      Split(word, dia)[k].base != '<' && '<' !in Split(word, dia)[k].marks && '>' !in Split(word, dia)[k].marks
  {
    var units := Split(word, dia);
    SplitWithin(word, dia);
    forall k | 0 <= k < |units|
      ensures units[k].base != '<' && '<' !in units[k].marks && '>' !in units[k].marks
    {
      assert WellFormed(units[k], dia) && Within(units[k], word);
    }
  }

  /** Parts that show `texts`, one by one, show the sequence `texts`. */
  lemma ShownTexts(parts: seq<string>, texts: seq<string>)
    requires |parts| == |texts|
    requires forall k :: 0 <= k < |parts| ==> VisibleText(parts[k]) == texts[k]
    ensures seq(|parts|, k requires 0 <= k < |parts| => VisibleText(parts[k])) == texts
  {
  }

  /** A word's container shows what its units show. */
  lemma WordText(words: seq<string>, w: nat, cc: CharClasses)
    requires w < |words| && Embeddable(words[w], cc.dia)
    ensures VisibleText(WordSpan(WordFragments(words, w, cc), w)) == Kept(words[w], cc)
    ensures Closed(WordSpan(WordFragments(words, w, cc), w))
  {
    var units := Split(words[w], cc.dia);
    var frags := WordFragments(words, w, cc);
    assert |frags| == |units|;
    UnitsWithoutBrackets(words[w], cc.dia);
    FragmentsText(units, |units|, w, Offset(LettersOf(words, cc), w), cc.alpha);
    WordSpanText(frags, w);
    ShownTexts(frags, seq(|units|, k requires 0 <= k < |units| => Shown(units[k], cc.alpha)));
  }

  /** The last of the first `n` containers shows what its word keeps. */
  lemma LastContainerText(words: seq<string>, n: nat, cc: CharClasses)
    requires 0 < n <= |words| && Embeddable(words[n - 1], cc.dia)
    ensures Shows(Containers(words, n, cc)[n - 1], Kept(words[n - 1], cc))
  {
    WordText(words, n - 1, cc);
  }

  /** Each of the first `n` containers shows what its word keeps and ends outside any tag. */
  lemma {:induction false} ContainersText(words: seq<string>, n: nat, cc: CharClasses)
    requires n <= |words|
    requires forall w :: 0 <= w < n ==> Embeddable(words[w], cc.dia)
    ensures forall k :: 0 <= k < n ==> Shows(Containers(words, n, cc)[k], Kept(words[k], cc))
    decreases n
  {
    if n > 0 {
      var parts := Containers(words, n, cc);
      ContainersText(words, n - 1, cc);
      LastContainerText(words, n, cc);
      ShowsSnoc(Containers(words, n - 1, cc), parts[n - 1],
                seq(n, k requires 0 <= k < n => Kept(words[k], cc)), parts);
    }
  }

  /** The document shows what each word keeps, the words separated by single spaces,
      provided every token is embeddable (the text is put into the markup unescaped). */
  lemma MarkupText(words: seq<string>, cc: CharClasses)
    requires forall w :: 0 <= w < |words| ==> Embeddable(words[w], cc.dia)
    ensures VisibleText(Markup(words, cc))
         == JoinWith(seq(|words|, w requires 0 <= w < |words| => Kept(words[w], cc)), " ")
    ensures Closed(Markup(words, cc))
  {
    var parts := Containers(words, |words|, cc);
    ContainersText(words, |words|, cc);
    JoinText(parts);
    ShownTexts(parts, seq(|words|, w requires 0 <= w < |words| => Kept(words[w], cc)));
  }

  /** Written back out, a word's units are the word. */
  lemma {:induction false} ConcatUnits(units: seq<Unit>)
    ensures Concat(seq(|units|, k requires 0 <= k < |units| => UnitText(units[k]))) == Flatten(units)
    decreases |units|
  {
    if units != [] {
      var texts := seq(|units|, k requires 0 <= k < |units| => UnitText(units[k]));
      ConcatUnits(units[1..]);
      assert texts[1..] == seq(|units| - 1, k requires 0 <= k < |units| - 1 => UnitText(units[1..][k]));
    }
  }

  /** A word that starts with a base character and carries diacritics only on letters
      shows exactly as written. */
  lemma KeptWhole(word: string, cc: CharClasses)
    requires word == [] || word[0] !in cc.dia
    requires forall k :: 0 <= k < |Split(word, cc.dia)| ==>
      Split(word, cc.dia)[k].marks != [] ==> Split(word, cc.dia)[k].base in cc.alpha
    ensures Kept(word, cc) == word
  {
    var units := Split(word, cc.dia);
    forall k | 0 <= k < |units| ensures Shown(units[k], cc.alpha) == UnitText(units[k]) {
      if units[k].base !in cc.alpha {
        assert units[k].marks == [];
      }
    }
    assert seq(|units|, k requires 0 <= k < |units| => Shown(units[k], cc.alpha))
        == seq(|units|, k requires 0 <= k < |units| => UnitText(units[k]));
    ConcatUnits(units);
    SplitCoversWord(word, cc.dia);
  }

  /** The visible text of the markup returned for `text`: its tokens as each one shows,
      separated by single spaces; with `KeptWhole`, exactly the tokens when every token
      starts with a base character and carries diacritics only on letters. */
  lemma TextShows(text: string, cc: CharClasses)
    requires Embeddable(text, cc.dia)
    ensures var words := Tokens(text, cc.space); var r := TextToHtml(text, cc);
      r.Ok? ==> VisibleText(r.spans.html)
                == JoinWith(seq(|words|, w requires 0 <= w < |words| => Kept(words[w], cc)), " ")
  {
    var words := Tokens(text, cc.space);
    forall w | 0 <= w < |words| ensures Embeddable(words[w], cc.dia) {
      assert forall i :: 0 <= i < |words[w]| ==> words[w][i] in text;
    }
    MarkupText(words, cc);
  }
}
