/** The markup and the tables carry the same numbers: the span pair emitted for a letter
    is built from exactly the character, diacritics and indices of the record stored
    for it, as the source builds both from the same `char_idx`, `global_dia_idx` and
    `wd_idx`. */
module Crossref {
  import opened Segmenter
  import opened Words
  import opened Emitter
  import opened Indexer
  import opened Tables

  /** The letters among the first `m` units are the first letters of the word. */
  lemma {:induction false} LettersPrefix(units: seq<Unit>, m: nat, alpha: set<char>)
    requires m <= |units|
    ensures |Letters(units[..m], alpha)| <= |Letters(units, alpha)|
    ensures Letters(units[..m], alpha) == Letters(units, alpha)[..|Letters(units[..m], alpha)|]
    decreases |units|
  {
    if m == |units| {
      assert units[..m] == units;
    } else {
      var init := units[..|units| - 1];
      assert init[..m] == units[..m];
      LettersPrefix(init, m, alpha);
      var ls := Letters(init, alpha);
      var n := |Letters(units[..m], alpha)|;
      assert Letters(units, alpha)[..n] == ls[..n];
    }
  }

  /** A letter unit is the letter numbered by how many letters come before it. */
  lemma LettersAt(units: seq<Unit>, k: nat, alpha: set<char>)
    requires k < |units| && units[k].base in alpha
    ensures |Letters(units[..k], alpha)| < |Letters(units, alpha)|
    ensures Letters(units, alpha)[|Letters(units[..k], alpha)|] == units[k]
  {
    LettersSnoc(units, k, alpha);
    LettersPrefix(units, k + 1, alpha);
    var l := |Letters(units[..k], alpha)|;
    assert Letters(units[..k + 1], alpha)[l] == units[k];
  }

  /** The letter numbered `l` is unit `k` for some `k`, with `l` letters before it. */
  function LetterUnit(units: seq<Unit>, l: nat, alpha: set<char>): (k: nat)
    requires l < |Letters(units, alpha)|
    ensures k < |units| && units[k].base in alpha && |Letters(units[..k], alpha)| == l
    decreases |units|
  {
    var init := units[..|units| - 1];
    if l < |Letters(init, alpha)| then
      var k := LetterUnit(init, l, alpha);
      assert units[..k] == init[..k];
      k
    else
      assert units[..|units| - 1] == init;
      |units| - 1
  }

  /** Appending an element leaves the existing prefixes alone. A fact of sequences, not
      of the source: it is stated over plain `seq<string>` so that the proofs using it
      need not unfold the span texts, which keeps the solver's cost down. */
  lemma PrefixOfSnoc(s: seq<string>, x: string, m: nat)
    requires m <= |s|
    ensures (s + [x])[..m] == s[..m]
  {
  }

  /** The first `m` fragments do not depend on the units after them. */
  lemma {:induction false} FragmentsPrefix(units: seq<Unit>, m: nat, n: nat, wdIdx: nat, globalStart: nat, alpha: set<char>)
    requires m <= n <= |units|
    ensures Fragments(units, n, wdIdx, globalStart, alpha)[..m] == Fragments(units, m, wdIdx, globalStart, alpha)
    decreases n
  {
    if m < n {
      FragmentsPrefix(units, m, n - 1, wdIdx, globalStart, alpha);
      FragmentsStep(units, n - 1, wdIdx, globalStart, alpha);
      var c := |Letters(units[..n - 1], alpha)|;
      PrefixOfSnoc(Fragments(units, n - 1, wdIdx, globalStart, alpha), Fragment(units[n - 1], c, globalStart + c, wdIdx, alpha), m);
    } else {
      assert Fragments(units, n, wdIdx, globalStart, alpha)[..m] == Fragments(units, n, wdIdx, globalStart, alpha);
    }
  }

  /** The character span followed by the diacritic span that a record describes. */
  function SpanPair(r: CharRecord): string
  {
    CharSpan(r.ch, r.localCharIdx, r.globalDiaIdx, r.wdIdx) + DiaSpan(r.dia, r.localCharIdx, r.globalDiaIdx, r.wdIdx)
  }

  /** Equal texts chain. A fact of equality, not of the source: chaining through it keeps
      the solver from unfolding the span texts on either side. */
  lemma SameText(a: string, b: string, c: string)
    requires a == b && b == c
    ensures a == c
  {
  }

  /** Equal sequences of texts have equal elements. A fact of sequences, not of the
      source, used for the same reason as `SameText`. */
  lemma SameElement(s: seq<string>, t: seq<string>, k: nat)
    requires s == t && k < |s|
    ensures s[k] == t[k]
  {
  }

  /** Fragment `k` of a word is the fragment of unit `k`, numbered by the letters before
      it. */
  lemma FragmentAt(units: seq<Unit>, k: nat, wdIdx: nat, globalStart: nat, alpha: set<char>)
    requires k < |units|
    ensures Fragments(units, |units|, wdIdx, globalStart, alpha)[k]
      == Fragment(units[k], |Letters(units[..k], alpha)|, globalStart + |Letters(units[..k], alpha)|, wdIdx, alpha)
  {
    FragmentsPrefix(units, k + 1, |units|, wdIdx, globalStart, alpha);
    FragmentsStep(units, k, wdIdx, globalStart, alpha);
    var all := Fragments(units, |units|, wdIdx, globalStart, alpha);
    assert all[k] == all[..k + 1][k] == Fragments(units, k + 1, wdIdx, globalStart, alpha)[k];
  }

  /** The fragment of a letter unit is the span pair of any record that holds the
      unit's character and diacritics and the unit's word, local and global indices. */
  lemma LetterFragmentAt(units: seq<Unit>, k: nat, wdIdx: nat, globalStart: nat, alpha: set<char>, r: CharRecord)
    requires k < |units| && units[k].base in alpha
    requires r.ch == units[k].base && r.dia == units[k].marks && r.wdIdx == wdIdx
    requires r.localCharIdx == |Letters(units[..k], alpha)|
    requires r.globalDiaIdx == globalStart + |Letters(units[..k], alpha)|
    ensures Fragments(units, |units|, wdIdx, globalStart, alpha)[k] == SpanPair(r)
  {
    FragmentAt(units, k, wdIdx, globalStart, alpha);
    FragmentOfLetter(units[k], r.localCharIdx, r.globalDiaIdx, wdIdx, alpha);
  }

  /** The fragment of a letter unit is the span pair of the record that the tables hold
      for that letter. */
  lemma FragmentOfRecord(words: seq<string>, w: nat, k: nat, cc: CharClasses)
    requires w < |words| && k < |Split(words[w], cc.dia)| && Split(words[w], cc.dia)[k].base in cc.alpha
    ensures |Letters(Split(words[w], cc.dia)[..k], cc.alpha)| < |LettersOf(words, cc)[w]|
    ensures LettersOf(words, cc)[w][|Letters(Split(words[w], cc.dia)[..k], cc.alpha)|] == Split(words[w], cc.dia)[k]
    ensures WordFragments(words, w, cc)[k]
      == SpanPair(RecordAt(LettersOf(words, cc), w, |Letters(Split(words[w], cc.dia)[..k], cc.alpha)|))
  {
    var units := Split(words[w], cc.dia);
    var lets := LettersOf(words, cc);
    assert lets[w] == Letters(units, cc.alpha);
    LettersAt(units, k, cc.alpha);
    var start := Offset(lets, w);
    var l := |Letters(units[..k], cc.alpha)|;
    assert WordFragments(words, w, cc) == Fragments(units, |units|, w, start, cc.alpha);
    SameElement(WordFragments(words, w, cc), Fragments(units, |units|, w, start, cc.alpha), k);
    LetterFragmentAt(units, k, w, start, cc.alpha, RecordAt(lets, w, l));
    SameText(WordFragments(words, w, cc)[k], Fragments(units, |units|, w, start, cc.alpha)[k], SpanPair(RecordAt(lets, w, l)));
  }

  /** The first `m` containers do not depend on the words after them. */
  lemma {:induction false} ContainersPrefix(words: seq<string>, m: nat, n: nat, cc: CharClasses)
    requires m <= n <= |words|
    ensures Containers(words, n, cc)[..m] == Containers(words, m, cc)
    decreases n
  {
    if m < n {
      ContainersPrefix(words, m, n - 1, cc);
      PrefixOfSnoc(Containers(words, n - 1, cc), WordSpan(WordFragments(words, n - 1, cc), n - 1), m);
    } else {
      assert Containers(words, n, cc)[..m] == Containers(words, n, cc);
    }
  }

  /** Container `w` of the markup wraps the fragments of word `w`. */
  lemma ContainerAt(words: seq<string>, w: nat, cc: CharClasses)
    requires w < |words|
    ensures Containers(words, |words|, cc)[w] == WordSpan(WordFragments(words, w, cc), w)
  {
    ContainersPrefix(words, w + 1, |words|, cc);
    var all := Containers(words, |words|, cc);
    assert all[w] == all[..w + 1][w] == Containers(words, w + 1, cc)[w];
  }

  /** Every record of the global table has its span pair among the fragments of its
      word's container. */
  ghost predicate RecordsShown(m: map<nat, CharRecord>, words: seq<string>, cc: CharClasses)
  {
    forall g :: g in m ==>
      var rec := m[g];
      rec.wdIdx < |words|
      && exists k :: (0 <= k < |WordFragments(words, rec.wdIdx, cc)| && WordFragments(words, rec.wdIdx, cc)[k] == SpanPair(rec))
  }

  /** Every letter's fragment is the span pair of some record of the global table. */
  ghost predicate LettersRecorded(m: map<nat, CharRecord>, words: seq<string>, cc: CharClasses)
  {
    forall w, k :: 0 <= w < |words| && 0 <= k < |Split(words[w], cc.dia)| && Split(words[w], cc.dia)[k].base in cc.alpha ==>
      exists g :: g in m && WordFragments(words, w, cc)[k] == SpanPair(m[g])
  }

  /** The record under global index `g` is shown by a fragment of its own word. */
  lemma RecordHasFragment(m: map<nat, CharRecord>, words: seq<string>, cc: CharClasses, g: nat)
    requires GlobalTable(m, LettersOf(words, cc), |words|, 0) && g in m
    ensures m[g].wdIdx < |words|
    ensures exists k :: 0 <= k < |WordFragments(words, m[g].wdIdx, cc)| && WordFragments(words, m[g].wdIdx, cc)[k] == SpanPair(m[g])
  {
    var lets := LettersOf(words, cc);
    GlobalTableEntry(m, lets, g);
    var w, l := m[g].wdIdx, m[g].localCharIdx;
    var units := Split(words[w], cc.dia);
    assert lets[w] == Letters(units, cc.alpha);
    var k := LetterUnit(units, l, cc.alpha);
    FragmentOfRecord(words, w, k, cc);
  }

  /** The fragment of a letter unit is shown for a record of the global table. */
  lemma FragmentHasRecord(m: map<nat, CharRecord>, words: seq<string>, cc: CharClasses, w: nat, k: nat)
    requires GlobalTable(m, LettersOf(words, cc), |words|, 0)
    requires w < |words| && k < |Split(words[w], cc.dia)| && Split(words[w], cc.dia)[k].base in cc.alpha
    ensures exists g :: g in m && WordFragments(words, w, cc)[k] == SpanPair(m[g])
  {
    var lets := LettersOf(words, cc);
    FragmentOfRecord(words, w, k, cc);
    var l := |Letters(Split(words[w], cc.dia)[..k], cc.alpha)|;
    assert Before(lets, w, l, |lets|, 0);
  }

  /** A finished global table's records are all shown in the markup. */
  lemma RecordsShownIndexed(m: map<nat, CharRecord>, words: seq<string>, cc: CharClasses)
    requires GlobalTable(m, LettersOf(words, cc), |words|, 0)
    ensures RecordsShown(m, words, cc)
  {
    forall g | g in m
      ensures m[g].wdIdx < |words|
      ensures exists k :: (0 <= k < |WordFragments(words, m[g].wdIdx, cc)| && WordFragments(words, m[g].wdIdx, cc)[k] == SpanPair(m[g]))
    {
      RecordHasFragment(m, words, cc, g);
    }
  }

  /** A finished global table holds a record for every letter's fragment. */
  lemma LettersRecordedIndexed(m: map<nat, CharRecord>, words: seq<string>, cc: CharClasses)
    requires GlobalTable(m, LettersOf(words, cc), |words|, 0)
    ensures LettersRecorded(m, words, cc)
  {
    forall w, k | 0 <= w < |words| && 0 <= k < |Split(words[w], cc.dia)| && Split(words[w], cc.dia)[k].base in cc.alpha
      ensures exists g :: g in m && WordFragments(words, w, cc)[k] == SpanPair(m[g])
    {
      FragmentHasRecord(m, words, cc, w, k);
    }
  }

  /** For any text, the markup's word containers are built from the words' fragments,
      and the letters' span pairs and the global table's records describe each other. */
  lemma TextMarkupMatchesTables(text: string, cc: CharClasses)
    ensures var words := Tokens(text, cc.space); var r := TextToHtml(text, cc);
      r.Ok? ==>
        && r.spans.html == Markup(words, cc)
        && (forall w :: 0 <= w < |words| ==> Containers(words, |words|, cc)[w] == WordSpan(WordFragments(words, w, cc), w))
        && RecordsShown(r.spans.charDictGlobal, words, cc)
        && LettersRecorded(r.spans.charDictGlobal, words, cc)
  {
    var words := Tokens(text, cc.space);
    TextToHtmlProduces(text, cc);
    forall w | 0 <= w < |words| ensures Containers(words, |words|, cc)[w] == WordSpan(WordFragments(words, w, cc), w) {
      ContainerAt(words, w, cc);
    }
    if TextToHtml(text, cc).Ok? {
      var m := TextToHtml(text, cc).spans.charDictGlobal;
      RecordsShownIndexed(m, words, cc);
      LettersRecordedIndexed(m, words, cc);
    }
  }
}
