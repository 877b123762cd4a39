/** `text_to_html_spans`: one pass over the words and their units that numbers every
    letter twice (within its word and across the document), records it in two tables,
    and assembles the markup. */
module Indexer {
  import opened Strings
  import opened Segmenter
  import opened Words
  import opened Emitter

  /** The character classes the engine is parameterised by: the alphabet
      (`list_ar_alpha`), the diacritics (`set_ar_dia`) and the whitespace `str.split`
      separates on. */
  datatype CharClasses = CharClasses(alpha: set<char>, dia: set<char>, space: set<char>)

  /** An entry of `wd_dict`. */
  datatype WordRecord = WordRecord(isWord: bool, wordDiaCount: nat, word: string)

  /** An entry of `char_dict_global` and `char_dict_local`. */
  datatype CharRecord = CharRecord(
    ch: char,
    dia: string,
    inWord: bool,
    hasDia: bool,
    wdIdx: nat,
    localCharIdx: nat,
    globalDiaIdx: nat)

  /** The six values `text_to_html_spans` returns. The per-word table is keyed by the
      pair (word index, local index); Emitter.LocalKeyInjective shows that the
      source's string key `f"{wd_idx}_{char_idx}"` tells pairs apart just as well. */
  datatype Spans = Spans(
    html: string,
    tokensCount: nat,
    totalDiacritics: nat,
    wdDict: map<nat, WordRecord>,
    charDictGlobal: map<nat, CharRecord>,
    charDictLocal: map<(nat, nat), CharRecord>)

  /** `UnboundTotal` is the UnboundLocalError raised when the loop never assigns
      `total_diacritics`. */
  datatype Result = Ok(spans: Spans) | UnboundTotal

  datatype Option<T> = None | Some(value: T)

  /** `char_has_dia`: despite its name it looks only at the character. */
  function CharHasDia(ch: char, dia: string, alpha: set<char>): bool
  {
    ch in alpha
  }

  /** The diacritics never matter, so the guard `char_is_alpha and has_dia` is alphabet
      membership alone; a letter without diacritics qualifies too. */
  lemma CharHasDiaIgnoresDia(ch: char, dia1: string, dia2: string, alpha: set<char>)
    ensures CharHasDia(ch, dia1, alpha) == CharHasDia(ch, dia2, alpha)
    ensures (ch in alpha && CharHasDia(ch, dia1, alpha)) <==> ch in alpha
  {
  }

  // ---------------------------------------------------------------------------
  // Reference definitions of what the pass computes
  // ---------------------------------------------------------------------------

  /** The units whose base is a letter, in order
      (`[i for i in list_chars_span if i[0] in list_ar_alpha]`). */
  function Letters(units: seq<Unit>, alpha: set<char>): (ls: seq<Unit>)
    ensures |ls| <= |units|
    decreases |units|
  {
    if units == [] then []
    else
      var last := units[|units| - 1];
      Letters(units[..|units| - 1], alpha) + (if last.base in alpha then [last] else [])
  }

  /** Taking one more unit adds it to the letters when it is one and changes nothing
      otherwise. */
  lemma LettersSnoc(units: seq<Unit>, j: nat, alpha: set<char>)
    requires j < |units|
    ensures units[j].base in alpha ==> Letters(units[..j + 1], alpha) == Letters(units[..j], alpha) + [units[j]]
    ensures units[j].base !in alpha ==> Letters(units[..j + 1], alpha) == Letters(units[..j], alpha)
  {
    assert units[..j + 1][..j] == units[..j];
    var ls := Letters(units[..j], alpha);
    assert ls + [] == ls;
  }

  /** The letters of a word, in order: the units of its split whose base is in the
      alphabet. */
  function WordLetters(word: string, cc: CharClasses): seq<Unit>
  {
    Letters(Split(word, cc.dia), cc.alpha)
  }

  /** `wd_dia_count`: how many units of the word have a letter as base. */
  function WordDiaCount(word: string, cc: CharClasses): nat
  {
    |WordLetters(word, cc)|
  }

  /** The letters of every token, token by token. */
  function LettersOf(words: seq<string>, cc: CharClasses): (lets: seq<seq<Unit>>)
    ensures |lets| == |words|
  {
    seq(|words|, w requires 0 <= w < |words| => WordLetters(words[w], cc))
  }

  /** How many letters the first `n` words hold: the global index of the first letter
      of word `n`. */
  function Offset(lets: seq<seq<Unit>>, n: nat): nat
    requires n <= |lets|
    decreases n
  {
    if n == 0 then 0 else Offset(lets, n - 1) + |lets[n - 1]|
  }

  lemma {:induction false} OffsetMonotone(lets: seq<seq<Unit>>, m: nat, n: nat)
    requires m <= n <= |lets|
    ensures Offset(lets, m) <= Offset(lets, n)
    decreases n - m
  {
    if m < n {
      OffsetMonotone(lets, m, n - 1);
    }
  }

  /** The `wd_dict` entry of a word. */
  function WordRecordOf(word: string, cc: CharClasses): WordRecord
  {
    var count := WordDiaCount(word, cc);
    WordRecord(count > 0, count, word)
  }

  /** The `char_data` entry of a letter. */
  function Record(u: Unit, isWord: bool, wdIdx: nat, charIdx: nat, globalDiaIdx: nat): CharRecord
  {
    CharRecord(u.base, u.marks, isWord, true, wdIdx, charIdx, globalDiaIdx)
  }

  /** The record of the `l`-th letter of word `w`. */
  function RecordAt(lets: seq<seq<Unit>>, w: nat, l: nat): CharRecord
    requires w < |lets| && l < |lets[w]|
  {
    Record(lets[w][l], |lets[w]| > 0, w, l, Offset(lets, w) + l)
  }

  /** The fragment emitted for a unit whose letter, if it is one, has local index
      `charIdx` and global index `globalDiaIdx`: a letter gets its character span and its
      diacritic span, anything else a plain span of its base character. */
  function Fragment(u: Unit, charIdx: nat, globalDiaIdx: nat, wdIdx: nat, alpha: set<char>): string
  {
    if u.base in alpha && CharHasDia(u.base, u.marks, alpha) then
      CharSpan(u.base, charIdx, globalDiaIdx, wdIdx) + DiaSpan(u.marks, charIdx, globalDiaIdx, wdIdx)
    else
      PlainSpan(u.base)
  }

  lemma FragmentOfLetter(u: Unit, charIdx: nat, globalDiaIdx: nat, wdIdx: nat, alpha: set<char>)
    requires u.base in alpha
    ensures Fragment(u, charIdx, globalDiaIdx, wdIdx, alpha)
      == CharSpan(u.base, charIdx, globalDiaIdx, wdIdx) + DiaSpan(u.marks, charIdx, globalDiaIdx, wdIdx)
  {
  }

  /** The fragments of the first `n` units of a word whose first letter has global
      index `globalStart`: each letter takes as local index the number of letters before
      it, and its global index that far from `globalStart`. */
  function Fragments(units: seq<Unit>, n: nat, wdIdx: nat, globalStart: nat, alpha: set<char>)
    : (fs: seq<string>)
    requires n <= |units|
    ensures |fs| == n
    decreases n
  {
    if n == 0 then []
    else
      var c := |Letters(units[..n - 1], alpha)|;
      Fragments(units, n - 1, wdIdx, globalStart, alpha) + [Fragment(units[n - 1], c, globalStart + c, wdIdx, alpha)]
  }

  lemma FragmentsStep(units: seq<Unit>, j: nat, wdIdx: nat, globalStart: nat, alpha: set<char>)
    requires j < |units|
    ensures Fragments(units, j + 1, wdIdx, globalStart, alpha)
      == Fragments(units, j, wdIdx, globalStart, alpha)
         + [Fragment(units[j], |Letters(units[..j], alpha)|, globalStart + |Letters(units[..j], alpha)|, wdIdx, alpha)]
  {
  }

  /** The fragments of word `w`, in unit order. */
  function WordFragments(words: seq<string>, w: nat, cc: CharClasses): seq<string>
    requires w < |words|
  {
    var units := Split(words[w], cc.dia);
    Fragments(units, |units|, w, Offset(LettersOf(words, cc), w), cc.alpha)
  }

  /** The word containers of the first `n` words, in order. */
  function Containers(words: seq<string>, n: nat, cc: CharClasses): (cs: seq<string>)
    requires n <= |words|
    ensures |cs| == n
    decreases n
  {
    if n == 0 then []
    else Containers(words, n - 1, cc) + [WordSpan(WordFragments(words, n - 1, cc), n - 1)]
  }

  /** The document markup: one word container per token, joined by single spaces. */
  function Markup(words: seq<string>, cc: CharClasses): string
  {
    JoinWith(Containers(words, |words|, cc), " ")
  }

  /** The `wd_dict` built for the first `n` words. */
  function WordIndex(words: seq<string>, n: nat, cc: CharClasses): map<nat, WordRecord>
    requires n <= |words|
    decreases n
  {
    if n == 0 then map[] else WordIndex(words, n - 1, cc)[n - 1 := WordRecordOf(words[n - 1], cc)]
  }

  /** `m` after the first `l` of a word's letters have been entered by global index, the
      word being number `w` and its first letter having global index `globalStart`. */
  function GlobalExtend(m: map<nat, CharRecord>, letters: seq<Unit>, isWord: bool, w: nat, globalStart: nat, l: nat)
    : map<nat, CharRecord>
    requires l <= |letters|
    decreases l
  {
    if l == 0 then m
    else
      GlobalExtend(m, letters, isWord, w, globalStart, l - 1)
        [globalStart + l - 1 := Record(letters[l - 1], isWord, w, l - 1, globalStart + l - 1)]
  }

  /** `m` after the first `l` of a word's letters have been entered by (word, local)
      pair. */
  function LocalExtend(m: map<(nat, nat), CharRecord>, letters: seq<Unit>, isWord: bool, w: nat, globalStart: nat, l: nat)
    : map<(nat, nat), CharRecord>
    requires l <= |letters|
    decreases l
  {
    if l == 0 then m
    else
      LocalExtend(m, letters, isWord, w, globalStart, l - 1)
        [(w, l - 1) := Record(letters[l - 1], isWord, w, l - 1, globalStart + l - 1)]
  }

  /** Entering the first `l` letters reads no letter after them. */
  lemma {:induction false} GlobalExtendPrefix(
    m: map<nat, CharRecord>, letters: seq<Unit>, u: Unit, isWord: bool, w: nat, globalStart: nat, l: nat)
    requires l <= |letters|
    ensures GlobalExtend(m, letters + [u], isWord, w, globalStart, l) == GlobalExtend(m, letters, isWord, w, globalStart, l)
  {
    if l > 0 {
      GlobalExtendPrefix(m, letters, u, isWord, w, globalStart, l - 1);
    }
  }

  lemma {:induction false} LocalExtendPrefix(
    m: map<(nat, nat), CharRecord>, letters: seq<Unit>, u: Unit, isWord: bool, w: nat, globalStart: nat, l: nat)
    requires l <= |letters|
    ensures LocalExtend(m, letters + [u], isWord, w, globalStart, l) == LocalExtend(m, letters, isWord, w, globalStart, l)
  {
    if l > 0 {
      LocalExtendPrefix(m, letters, u, isWord, w, globalStart, l - 1);
    }
  }

  /** One more letter is one more entry, at the next global index. */
  lemma GlobalExtendSnoc(m: map<nat, CharRecord>, letters: seq<Unit>, u: Unit, isWord: bool, w: nat, globalStart: nat)
    ensures GlobalExtend(m, letters + [u], isWord, w, globalStart, |letters| + 1)
      == GlobalExtend(m, letters, isWord, w, globalStart, |letters|)
           [globalStart + |letters| := Record(u, isWord, w, |letters|, globalStart + |letters|)]
  {
    GlobalExtendPrefix(m, letters, u, isWord, w, globalStart, |letters|);
  }

  /** One more letter is one more entry, under the next (word, local) pair. */
  lemma LocalExtendSnoc(m: map<(nat, nat), CharRecord>, letters: seq<Unit>, u: Unit, isWord: bool, w: nat, globalStart: nat)
    ensures LocalExtend(m, letters + [u], isWord, w, globalStart, |letters| + 1)
      == LocalExtend(m, letters, isWord, w, globalStart, |letters|)
           [(w, |letters|) := Record(u, isWord, w, |letters|, globalStart + |letters|)]
  {
    LocalExtendPrefix(m, letters, u, isWord, w, globalStart, |letters|);
  }

  lemma TablesStep(
    globalIn: map<nat, CharRecord>, localIn: map<(nat, nat), CharRecord>, done: seq<Unit>, u: Unit,
    isWord: bool, w: nat, globalStart: nat, alpha: set<char>,
    charIdx: nat, globalDiaIdx: nat,
    g0: map<nat, CharRecord>, l0: map<(nat, nat), CharRecord>, g1: map<nat, CharRecord>, l1: map<(nat, nat), CharRecord>)
    requires charIdx == |done| && globalDiaIdx == globalStart + charIdx
    requires g0 == GlobalExtend(globalIn, done, isWord, w, globalStart, charIdx)
    requires l0 == LocalExtend(localIn, done, isWord, w, globalStart, charIdx)
    requires u.base in alpha ==>
      && g1 == g0[globalDiaIdx := Record(u, isWord, w, charIdx, globalDiaIdx)]
      && l1 == l0[(w, charIdx) := Record(u, isWord, w, charIdx, globalDiaIdx)]
    requires u.base !in alpha ==> g1 == g0 && l1 == l0
    ensures var done' := if u.base in alpha then done + [u] else done;
      && g1 == GlobalExtend(globalIn, done', isWord, w, globalStart, |done'|)
      && l1 == LocalExtend(localIn, done', isWord, w, globalStart, |done'|)
  {
    if u.base in alpha {
      GlobalExtendSnoc(globalIn, done, u, isWord, w, globalStart);
      LocalExtendSnoc(localIn, done, u, isWord, w, globalStart);
    }
  }

  /** The `char_dict_global` built for the first `n` words. */
  function GlobalIndex(lets: seq<seq<Unit>>, n: nat): map<nat, CharRecord>
    requires n <= |lets|
    decreases n
  {
    if n == 0 then map[]
    else
      var letters := lets[n - 1];
      GlobalExtend(GlobalIndex(lets, n - 1), letters, |letters| > 0, n - 1, Offset(lets, n - 1), |letters|)
  }

  /** The `char_dict_local` built for the first `n` words. */
  function LocalIndex(lets: seq<seq<Unit>>, n: nat): map<(nat, nat), CharRecord>
    requires n <= |lets|
    decreases n
  {
    if n == 0 then map[]
    else
      var letters := lets[n - 1];
      LocalExtend(LocalIndex(lets, n - 1), letters, |letters| > 0, n - 1, Offset(lets, n - 1), |letters|)
  }

  /** What the pass returns for `text`. */
  function TextToHtml(text: string, cc: CharClasses): Result
  {
    var words := Tokens(text, cc.space);
    var lets := LettersOf(words, cc);
    if words == [] then UnboundTotal
    else Ok(Spans(Markup(words, cc), |words|, Offset(lets, |lets|), WordIndex(words, |words|, cc),
                  GlobalIndex(lets, |lets|), LocalIndex(lets, |lets|)))
  }

  // ---------------------------------------------------------------------------
  // What the tables mean
  // ---------------------------------------------------------------------------

  /** Letter `l'` of word `w'` comes before letter `l` of word `w` in document order. */
  predicate Before(lets: seq<seq<Unit>>, w': nat, l': nat, w: nat, l: nat)
    requires w <= |lets|
  {
    (w' < w && l' < |lets[w']|) || (w' == w && l' < l)
  }

  /** A position (`w`, `l`) in the document: letter `l` of word `w`, or the end. */
  predicate Position(lets: seq<seq<Unit>>, w: nat, l: nat)
  {
    w <= |lets| && (if w < |lets| then l <= |lets[w]| else l == 0)
  }

  /** `m` maps the global index of every letter before position (`w`, `l`), and nothing
      else, to that letter's record. */
  ghost predicate GlobalTable(m: map<nat, CharRecord>, lets: seq<seq<Unit>>, w: nat, l: nat)
    requires Position(lets, w, l)
  {
    && (forall g: nat :: g in m <==> g < Offset(lets, w) + l)
    && (forall w': nat, l': nat :: Before(lets, w', l', w, l) ==>
          Offset(lets, w') + l' in m && m[Offset(lets, w') + l'] == RecordAt(lets, w', l'))
    && |m| == Offset(lets, w) + l
  }

  /** `m` maps the (word, local index) pair of every letter before position (`w`, `l`),
      and nothing else, to that letter's record. */
  ghost predicate LocalTable(m: map<(nat, nat), CharRecord>, lets: seq<seq<Unit>>, w: nat, l: nat)
    requires Position(lets, w, l)
  {
    && (forall w': nat, l': nat :: (w', l') in m <==> Before(lets, w', l', w, l))
    && (forall w': nat, l': nat :: (w', l') in m ==> m[(w', l')] == RecordAt(lets, w', l'))
    && |m| == Offset(lets, w) + l
  }

  /** What the returned values are, for the tokens `words`. */
  ghost predicate Indexed(s: Spans, words: seq<string>, cc: CharClasses)
  {
    var lets := LettersOf(words, cc);
    && s.tokensCount == |words|
    && s.totalDiacritics == Offset(lets, |lets|)
    && s.html == Markup(words, cc)
    && (forall w: nat :: w in s.wdDict <==> w < |words|)
    && (forall w: nat :: w in s.wdDict ==> s.wdDict[w] == WordRecordOf(words[w], cc))
    && GlobalTable(s.charDictGlobal, lets, |lets|, 0)
    && LocalTable(s.charDictLocal, lets, |lets|, 0)
  }

  /** The outcome of `text_to_html_spans(text)`: an error exactly when there are no
      tokens, and otherwise the tables and markup of the tokens. */
  ghost predicate Produces(text: string, cc: CharClasses, r: Result)
  {
    var words := Tokens(text, cc.space);
    && (r.UnboundTotal? <==> words == [])
    && (r.Ok? ==> Indexed(r.spans, words, cc))
  }

  lemma {:induction false} WordIndexTable(words: seq<string>, n: nat, cc: CharClasses)
    requires n <= |words|
    ensures forall w: nat :: w in WordIndex(words, n, cc) <==> w < n
    ensures forall w: nat :: w in WordIndex(words, n, cc) ==> WordIndex(words, n, cc)[w] == WordRecordOf(words[w], cc)
    decreases n
  {
    if n > 0 {
      WordIndexTable(words, n - 1, cc);
      var m0 := WordIndex(words, n - 1, cc);
      var m := m0[n - 1 := WordRecordOf(words[n - 1], cc)];
      assert WordIndex(words, n, cc) == m;
      forall w: nat ensures w in m <==> w < n {
        assert w in m <==> w in m0 || w == n - 1;
      }
      forall w: nat | w in m ensures m[w] == WordRecordOf(words[w], cc) {
        if w != n - 1 {
          assert m[w] == m0[w];
        }
      }
    }
  }

  lemma {:induction false} GlobalIndexTable(lets: seq<seq<Unit>>, n: nat)
    requires n <= |lets|
    ensures GlobalTable(GlobalIndex(lets, n), lets, n, 0)
    decreases n, 0
  {
    if n > 0 {
      var c := |lets[n - 1]|;
      GlobalExtendTable(lets, n - 1, c);
      forall w': nat, l': nat | Before(lets, w', l', n, 0)
        ensures Before(lets, w', l', n - 1, c)
      {
      }
    }
  }

  lemma {:induction false} GlobalExtendTable(lets: seq<seq<Unit>>, w: nat, l: nat)
    requires w < |lets| && l <= |lets[w]|
    ensures GlobalTable(GlobalExtend(GlobalIndex(lets, w), lets[w], |lets[w]| > 0, w, Offset(lets, w), l), lets, w, l)
    decreases w, 1, l
  {
    if l == 0 {
      GlobalIndexTable(lets, w);
    } else {
      GlobalExtendTable(lets, w, l - 1);
      var m0 := GlobalExtend(GlobalIndex(lets, w), lets[w], |lets[w]| > 0, w, Offset(lets, w), l - 1);
      var k := Offset(lets, w) + l - 1;
      var m := m0[k := RecordAt(lets, w, l - 1)];
      assert k !in m0;
      assert |m| == |m0| + 1;
      forall w': nat, l': nat | Before(lets, w', l', w, l)
        ensures Offset(lets, w') + l' in m && m[Offset(lets, w') + l'] == RecordAt(lets, w', l')
      {
        if w' != w || l' != l - 1 {
          assert Before(lets, w', l', w, l - 1);
        }
      }
    }
  }

  lemma {:induction false} LocalIndexTable(lets: seq<seq<Unit>>, n: nat)
    requires n <= |lets|
    ensures LocalTable(LocalIndex(lets, n), lets, n, 0)
    decreases n, 0
  {
    if n > 0 {
      var c := |lets[n - 1]|;
      LocalExtendTable(lets, n - 1, c);
      forall w': nat, l': nat
        ensures Before(lets, w', l', n, 0) <==> Before(lets, w', l', n - 1, c)
      {
      }
    }
  }

  lemma {:induction false} LocalExtendTable(lets: seq<seq<Unit>>, w: nat, l: nat)
    requires w < |lets| && l <= |lets[w]|
    ensures LocalTable(LocalExtend(LocalIndex(lets, w), lets[w], |lets[w]| > 0, w, Offset(lets, w), l), lets, w, l)
    decreases w, 1, l
  {
    if l == 0 {
      LocalIndexTable(lets, w);
    } else {
      LocalExtendTable(lets, w, l - 1);
      var m0 := LocalExtend(LocalIndex(lets, w), lets[w], |lets[w]| > 0, w, Offset(lets, w), l - 1);
      var m := m0[(w, l - 1) := RecordAt(lets, w, l - 1)];
      assert (w, l - 1) !in m0;
      assert |m| == |m0| + 1;
      forall w': nat, l': nat
        ensures (w', l') in m <==> Before(lets, w', l', w, l)
      {
        assert Before(lets, w', l', w, l) <==> Before(lets, w', l', w, l - 1) || (w', l') == (w, l - 1);
      }
    }
  }

  /** The reference outcome is what `text_to_html_spans` promises. */
  lemma TextToHtmlProduces(text: string, cc: CharClasses)
    ensures Produces(text, cc, TextToHtml(text, cc))
  {
    var words := Tokens(text, cc.space);
    var lets := LettersOf(words, cc);
    if words != [] {
      WordIndexTable(words, |words|, cc);
      GlobalIndexTable(lets, |lets|);
      LocalIndexTable(lets, |lets|);
    }
  }

  // ---------------------------------------------------------------------------
  // The pass
  // ---------------------------------------------------------------------------

  method TextToHtmlSpans(text: string, cc: CharClasses) returns (r: Result)
    ensures r == TextToHtml(text, cc)
  {
    var listWords := Tokens(text, cc.space);
    ghost var lets := LettersOf(listWords, cc);
    var tokensCount := |listWords|;
    var htmlContent: seq<string> := [];
    var globalDiaIdx: nat := 0;
    var wdDict: map<nat, WordRecord> := map[];
    var charDictGlobal: map<nat, CharRecord> := map[];
    var charDictLocal: map<(nat, nat), CharRecord> := map[];
    var totalDiacritics: Option<nat> := None;

    for wdIdx := 0 to |listWords|
      invariant globalDiaIdx == Offset(lets, wdIdx)
      invariant totalDiacritics == if wdIdx == 0 then None else Some(globalDiaIdx)
      invariant htmlContent == Containers(listWords, wdIdx, cc)
      invariant wdDict == WordIndex(listWords, wdIdx, cc)
      invariant charDictGlobal == GlobalIndex(lets, wdIdx)
      invariant charDictLocal == LocalIndex(lets, wdIdx)
    {
      htmlContent, globalDiaIdx, wdDict, charDictGlobal, charDictLocal :=
        IndexWord(listWords, wdIdx, cc, lets, htmlContent, globalDiaIdx, wdDict, charDictGlobal, charDictLocal);
      totalDiacritics := Some(globalDiaIdx);
    }

    if totalDiacritics.None? {
      return UnboundTotal;
    }
    return Ok(Spans(JoinWith(htmlContent, " "), tokensCount, totalDiacritics.value,
                    wdDict, charDictGlobal, charDictLocal));
  }

  /** The body of the outer loop, for word `wdIdx`: its `wd_dict` entry, its letters
      entered in both tables from the running global index on, and its container
      appended to the markup. Each accumulator goes from its value for the first
      `wdIdx` words to its value for the first `wdIdx + 1`. */
  method IndexWord(
    listWords: seq<string>, wdIdx: nat, cc: CharClasses, ghost lets: seq<seq<Unit>>,
    htmlContent: seq<string>, globalDiaIdx: nat, wdDict: map<nat, WordRecord>,
    charDictGlobal: map<nat, CharRecord>, charDictLocal: map<(nat, nat), CharRecord>)
    returns (htmlContent': seq<string>, globalDiaIdx': nat, wdDict': map<nat, WordRecord>,
             charDictGlobal': map<nat, CharRecord>, charDictLocal': map<(nat, nat), CharRecord>)
    requires wdIdx < |listWords| && lets == LettersOf(listWords, cc)
    requires globalDiaIdx == Offset(lets, wdIdx)
    requires htmlContent == Containers(listWords, wdIdx, cc)
    requires wdDict == WordIndex(listWords, wdIdx, cc)
    requires charDictGlobal == GlobalIndex(lets, wdIdx)
    requires charDictLocal == LocalIndex(lets, wdIdx)
    ensures globalDiaIdx' == Offset(lets, wdIdx + 1)
    ensures htmlContent' == Containers(listWords, wdIdx + 1, cc)
    ensures wdDict' == WordIndex(listWords, wdIdx + 1, cc)
    ensures charDictGlobal' == GlobalIndex(lets, wdIdx + 1)
    ensures charDictLocal' == LocalIndex(lets, wdIdx + 1)
  {
    var word := listWords[wdIdx];
    var listCharsSpan := Split(word, cc.dia);
    var wdDiaCount := |Letters(listCharsSpan, cc.alpha)|;
    var isWord := wdDiaCount > 0;
    wdDict' := wdDict[wdIdx := WordRecord(isWord, wdDiaCount, word)];
    assert lets[wdIdx] == Letters(listCharsSpan, cc.alpha);
    var htmlChars;
    htmlChars, globalDiaIdx', charDictGlobal', charDictLocal' :=
      IndexUnits(wdIdx, listCharsSpan, isWord, cc.alpha, globalDiaIdx, charDictGlobal, charDictLocal);
    htmlContent' := htmlContent + [WordSpan(htmlChars, wdIdx)];
  }

  /** The inner loop of the pass, over the units of word `wdIdx`: every letter gets the
      next local and global index, a record in both tables and a character span followed
      by a diacritic span; anything else gets a plain span. */
  method IndexUnits(
    wdIdx: nat, listCharsSpan: seq<Unit>, isWord: bool, alpha: set<char>,
    globalStart: nat, globalIn: map<nat, CharRecord>, localIn: map<(nat, nat), CharRecord>)
    returns (htmlChars: seq<string>, globalDiaIdx: nat,
             charDictGlobal: map<nat, CharRecord>, charDictLocal: map<(nat, nat), CharRecord>)
    ensures globalDiaIdx == globalStart + |Letters(listCharsSpan, alpha)|
    ensures htmlChars == Fragments(listCharsSpan, |listCharsSpan|, wdIdx, globalStart, alpha)
    ensures charDictGlobal
      == GlobalExtend(globalIn, Letters(listCharsSpan, alpha), isWord, wdIdx, globalStart, |Letters(listCharsSpan, alpha)|)
    ensures charDictLocal
      == LocalExtend(localIn, Letters(listCharsSpan, alpha), isWord, wdIdx, globalStart, |Letters(listCharsSpan, alpha)|)
  {
    htmlChars, globalDiaIdx, charDictGlobal, charDictLocal := [], globalStart, globalIn, localIn;
    var charIdx: nat := 0;
    ghost var done: seq<Unit> := [];
    for j := 0 to |listCharsSpan|
      invariant done == Letters(listCharsSpan[..j], alpha)
      invariant charIdx == |done| && globalDiaIdx == globalStart + charIdx
      invariant htmlChars == Fragments(listCharsSpan, j, wdIdx, globalStart, alpha)
      invariant charDictGlobal == GlobalExtend(globalIn, done, isWord, wdIdx, globalStart, charIdx)
      invariant charDictLocal == LocalExtend(localIn, done, isWord, wdIdx, globalStart, charIdx)
    {
      var u := listCharsSpan[j];
      LettersSnoc(listCharsSpan, j, alpha);
      FragmentsStep(listCharsSpan, j, wdIdx, globalStart, alpha);
      ghost var g0, l0, c0, gi0 := charDictGlobal, charDictLocal, charIdx, globalDiaIdx;
      var fragment;
      fragment, charIdx, globalDiaIdx, charDictGlobal, charDictLocal :=
        IndexUnit(u, isWord, wdIdx, alpha, charIdx, globalDiaIdx, charDictGlobal, charDictLocal);
      TablesStep(globalIn, localIn, done, u, isWord, wdIdx, globalStart, alpha, c0, gi0, g0, l0, charDictGlobal, charDictLocal);
      done := if u.base in alpha then done + [u] else done;
      htmlChars := htmlChars + [fragment];
    }
    assert listCharsSpan[..|listCharsSpan|] == listCharsSpan;
  }

  /** One unit of the inner loop: a letter gets a character span followed by a
      diacritic span and a record under its global index and under its (word, local)
      pair, and moves both indices on; anything else gets a plain span and changes
      nothing. */
  method IndexUnit(
    u: Unit, isWord: bool, wdIdx: nat, alpha: set<char>, charIdx: nat, globalDiaIdx: nat,
    globalIn: map<nat, CharRecord>, localIn: map<(nat, nat), CharRecord>)
    returns (fragment: string, charIdx': nat, globalDiaIdx': nat,
             charDictGlobal: map<nat, CharRecord>, charDictLocal: map<(nat, nat), CharRecord>)
    ensures fragment == Fragment(u, charIdx, globalDiaIdx, wdIdx, alpha)
    ensures u.base in alpha ==>
      && charIdx' == charIdx + 1 && globalDiaIdx' == globalDiaIdx + 1
      && charDictGlobal == globalIn[globalDiaIdx := Record(u, isWord, wdIdx, charIdx, globalDiaIdx)]
      && charDictLocal == localIn[(wdIdx, charIdx) := Record(u, isWord, wdIdx, charIdx, globalDiaIdx)]
    ensures u.base !in alpha ==>
      charIdx' == charIdx && globalDiaIdx' == globalDiaIdx && charDictGlobal == globalIn && charDictLocal == localIn
  {
    var ch, diacritics := u.base, u.marks;
    var charIsAlpha := ch in alpha;
    var hasDia := CharHasDia(ch, diacritics, alpha);
    charIdx', globalDiaIdx', charDictGlobal, charDictLocal := charIdx, globalDiaIdx, globalIn, localIn;
    if charIsAlpha && hasDia {
      var charSpan := CharSpan(ch, charIdx, globalDiaIdx, wdIdx);
      var diaSpan := DiaSpan(diacritics, charIdx, globalDiaIdx, wdIdx);
      var charData := CharRecord(ch, diacritics, isWord, true, wdIdx, charIdx, globalDiaIdx);
      charDictGlobal := charDictGlobal[globalDiaIdx := charData];
      charDictLocal := charDictLocal[(wdIdx, charIdx) := charData];
      fragment := charSpan + diaSpan;
      charIdx' := charIdx + 1;
      globalDiaIdx' := globalDiaIdx + 1;
    } else {
      fragment := PlainSpan(ch);
    }
  }
}
