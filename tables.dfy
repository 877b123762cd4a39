/** What the tables returned by `text_to_html_spans` say about each other and about the
    words: every letter is listed once in each table under keys that agree with its
    record, the global numbering follows document order, and the flags in the records
    are fixed by construction. */
module Tables {
  import opened Segmenter
  import opened Words
  import opened Indexer

  /** The letters of the first `n` words are numbered 0, 1, ... in order: global index
      `g` below their count belongs to exactly one letter, here found. */
  function Locate(lets: seq<seq<Unit>>, n: nat, g: nat): (p: (nat, nat))
    requires n <= |lets| && g < Offset(lets, n)
    ensures p.0 < n && p.1 < |lets[p.0]| && Offset(lets, p.0) + p.1 == g
    decreases n
  {
    if g < Offset(lets, n - 1) then Locate(lets, n - 1, g) else (n - 1, g - Offset(lets, n - 1))
  }

  /** The global index `Offset(w) + l` orders letters as the text does: by word, then by
      position within the word. */
  lemma DocumentOrder(lets: seq<seq<Unit>>, w1: nat, l1: nat, w2: nat, l2: nat)
    requires w1 < |lets| && l1 < |lets[w1]| && w2 < |lets| && l2 < |lets[w2]|
    ensures (w1 < w2 || (w1 == w2 && l1 < l2)) <==> Offset(lets, w1) + l1 < Offset(lets, w2) + l2
  {
    if w1 < w2 {
      OffsetMonotone(lets, w1 + 1, w2);
    } else if w2 < w1 {
      OffsetMonotone(lets, w2 + 1, w1);
    }
  }

  /** Every unit counted as a letter has a letter as base and is a unit of the word. */
  lemma {:induction false} LettersAreLetters(units: seq<Unit>, alpha: set<char>)
    ensures forall k :: 0 <= k < |Letters(units, alpha)| ==>
      Letters(units, alpha)[k].base in alpha && Letters(units, alpha)[k] in units
    decreases |units|
  {
    if units != [] {
      var init := units[..|units| - 1];
      LettersAreLetters(init, alpha);
      assert forall u :: u in init ==> u in units;
    }
  }

  /** A word has letters exactly when one of its units has a letter as base. */
  lemma {:induction false} LettersExist(units: seq<Unit>, alpha: set<char>)
    ensures |Letters(units, alpha)| > 0 <==> exists k :: 0 <= k < |units| && units[k].base in alpha
    decreases |units|
  {
    if units != [] {
      var init := units[..|units| - 1];
      LettersExist(init, alpha);
      if exists k :: 0 <= k < |init| && init[k].base in alpha {
        var k :| 0 <= k < |init| && init[k].base in alpha;
        assert units[k] == init[k];
      }
      if exists k :: 0 <= k < |units| && units[k].base in alpha {
        var k :| 0 <= k < |units| && units[k].base in alpha;
        if k < |init| {
          assert init[k] == units[k];
        }
      }
    }
  }

  /** In a complete global table, the record under `g` is that of the letter whose
      place maps to `g`. */
  lemma GlobalTableEntry(m: map<nat, CharRecord>, lets: seq<seq<Unit>>, g: nat)
    requires GlobalTable(m, lets, |lets|, 0) && g in m
    ensures && m[g].wdIdx < |lets| && m[g].localCharIdx < |lets[m[g].wdIdx]|
            && Offset(lets, m[g].wdIdx) + m[g].localCharIdx == g
            && m[g] == RecordAt(lets, m[g].wdIdx, m[g].localCharIdx)
  {
    var p := Locate(lets, |lets|, g);
    assert Before(lets, p.0, p.1, |lets|, 0);
  }

  /** In complete tables, the record under a pair is that letter's record, and the
      same record stands under the letter's global index. */
  lemma LocalTableEntry(m: map<(nat, nat), CharRecord>, gm: map<nat, CharRecord>, lets: seq<seq<Unit>>, key: (nat, nat))
    requires LocalTable(m, lets, |lets|, 0) && GlobalTable(gm, lets, |lets|, 0) && key in m
    ensures && key.0 < |lets| && key.1 < |lets[key.0]|
            && m[key] == RecordAt(lets, key.0, key.1)
            && Offset(lets, key.0) + key.1 in gm
            && gm[Offset(lets, key.0) + key.1] == RecordAt(lets, key.0, key.1)
  {
    assert Before(lets, key.0, key.1, |lets|, 0);
  }

  /** The record kept under global index `g`. */
  lemma GlobalEntry(s: Spans, words: seq<string>, cc: CharClasses, g: nat)
    requires Indexed(s, words, cc) && g in s.charDictGlobal
    ensures var rec := s.charDictGlobal[g]; var lets := LettersOf(words, cc);
      && rec.wdIdx < |lets| && rec.localCharIdx < |lets[rec.wdIdx]|
      && Offset(lets, rec.wdIdx) + rec.localCharIdx == g
      && rec == RecordAt(lets, rec.wdIdx, rec.localCharIdx)
  {
    GlobalTableEntry(s.charDictGlobal, LettersOf(words, cc), g);
  }

  /** The record kept under the pair `key`. */
  lemma LocalEntry(s: Spans, words: seq<string>, cc: CharClasses, key: (nat, nat))
    requires Indexed(s, words, cc) && key in s.charDictLocal
    ensures var lets := LettersOf(words, cc);
      && key.0 < |lets| && key.1 < |lets[key.0]|
      && s.charDictLocal[key] == RecordAt(lets, key.0, key.1)
      && Offset(lets, key.0) + key.1 in s.charDictGlobal
      && s.charDictGlobal[Offset(lets, key.0) + key.1] == RecordAt(lets, key.0, key.1)
  {
    LocalTableEntry(s.charDictLocal, s.charDictGlobal, LettersOf(words, cc), key);
  }

  /** The two tables list the same records, each under the keys the record itself
      names, and there are as many as `total_diacritics` says. */
  ghost predicate TablesAgree(s: Spans)
  {
    && (forall g: nat :: g in s.charDictGlobal <==> g < s.totalDiacritics)
    && |s.charDictGlobal| == |s.charDictLocal| == s.totalDiacritics
    && (forall g :: g in s.charDictGlobal ==>
          var rec := s.charDictGlobal[g];
          rec.globalDiaIdx == g
          && (rec.wdIdx, rec.localCharIdx) in s.charDictLocal
          && s.charDictLocal[(rec.wdIdx, rec.localCharIdx)] == rec)
    && (forall key :: key in s.charDictLocal ==>
          var rec := s.charDictLocal[key];
          (rec.wdIdx, rec.localCharIdx) == key
          && rec.globalDiaIdx in s.charDictGlobal
          && s.charDictGlobal[rec.globalDiaIdx] == rec)
  }

  lemma TablesAgreeIndexed(s: Spans, words: seq<string>, cc: CharClasses)
    requires Indexed(s, words, cc)
    ensures TablesAgree(s)
  {
    forall g | g in s.charDictGlobal
      ensures var rec := s.charDictGlobal[g];
        rec.globalDiaIdx == g
        && (rec.wdIdx, rec.localCharIdx) in s.charDictLocal
        && s.charDictLocal[(rec.wdIdx, rec.localCharIdx)] == rec
    {
      GlobalEntry(s, words, cc, g);
      var rec := s.charDictGlobal[g];
      var lets := LettersOf(words, cc);
      assert Before(lets, rec.wdIdx, rec.localCharIdx, |lets|, 0);
    }
    forall key | key in s.charDictLocal
      ensures var rec := s.charDictLocal[key];
        (rec.wdIdx, rec.localCharIdx) == key
        && rec.globalDiaIdx in s.charDictGlobal
        && s.charDictGlobal[rec.globalDiaIdx] == rec
    {
      LocalEntry(s, words, cc, key);
    }
  }

  /** Both tables returned for `text` list the same letters and agree on them. */
  lemma TextTablesAgree(text: string, cc: CharClasses)
    ensures TextToHtml(text, cc).Ok? ==> TablesAgree(TextToHtml(text, cc).spans)
  {
    TextToHtmlProduces(text, cc);
    if TextToHtml(text, cc).Ok? {
      TablesAgreeIndexed(TextToHtml(text, cc).spans, Tokens(text, cc.space), cc);
    }
  }

  /** Letter `a` comes before letter `b` in the text. */
  predicate Precedes(a: CharRecord, b: CharRecord)
  {
    a.wdIdx < b.wdIdx || (a.wdIdx == b.wdIdx && a.localCharIdx < b.localCharIdx)
  }

  /** Global indices run in document order. */
  ghost predicate InDocumentOrder(s: Spans)
  {
    forall g1, g2 :: g1 in s.charDictGlobal && g2 in s.charDictGlobal ==>
      (g1 < g2 <==> Precedes(s.charDictGlobal[g1], s.charDictGlobal[g2]))
  }

  lemma DocumentOrderIndexed(s: Spans, words: seq<string>, cc: CharClasses)
    requires Indexed(s, words, cc)
    ensures InDocumentOrder(s)
  {
    var lets := LettersOf(words, cc);
    forall g1, g2 | g1 in s.charDictGlobal && g2 in s.charDictGlobal
      ensures g1 < g2 <==> Precedes(s.charDictGlobal[g1], s.charDictGlobal[g2])
    {
      GlobalEntry(s, words, cc, g1);
      GlobalEntry(s, words, cc, g2);
      var r1, r2 := s.charDictGlobal[g1], s.charDictGlobal[g2];
      DocumentOrder(lets, r1.wdIdx, r1.localCharIdx, r2.wdIdx, r2.localCharIdx);
    }
  }

  /** The global numbering of the letters returned for `text` follows the text. */
  lemma TextInDocumentOrder(text: string, cc: CharClasses)
    ensures TextToHtml(text, cc).Ok? ==> InDocumentOrder(TextToHtml(text, cc).spans)
  {
    TextToHtmlProduces(text, cc);
    if TextToHtml(text, cc).Ok? {
      DocumentOrderIndexed(TextToHtml(text, cc).spans, Tokens(text, cc.space), cc);
    }
  }

  /** What every record and every word entry says: a record is always flagged as
      having diacritics and as lying in a word (a letter makes its word count as one),
      its character is a letter and, with its diacritics, one unit of its word; and
      every letter a word entry counts has its record. */
  ghost predicate RecordsDescribeWords(s: Spans, cc: CharClasses)
  {
    && (forall g :: g in s.charDictGlobal ==>
          var rec := s.charDictGlobal[g];
          && rec.hasDia && rec.inWord && rec.ch in cc.alpha
          && rec.wdIdx in s.wdDict && s.wdDict[rec.wdIdx].isWord
          && rec.localCharIdx < s.wdDict[rec.wdIdx].wordDiaCount
          && Unit(rec.ch, rec.dia) in Split(s.wdDict[rec.wdIdx].word, cc.dia))
    && (forall w, l :: w in s.wdDict && 0 <= l < s.wdDict[w].wordDiaCount ==> (w, l) in s.charDictLocal)
  }

  lemma RecordsIndexed(s: Spans, words: seq<string>, cc: CharClasses)
    requires Indexed(s, words, cc)
    ensures RecordsDescribeWords(s, cc)
  {
    var lets := LettersOf(words, cc);
    forall g | g in s.charDictGlobal
      ensures var rec := s.charDictGlobal[g];
        && rec.hasDia && rec.inWord && rec.ch in cc.alpha
        && rec.wdIdx in s.wdDict && s.wdDict[rec.wdIdx].isWord
        && rec.localCharIdx < s.wdDict[rec.wdIdx].wordDiaCount
        && Unit(rec.ch, rec.dia) in Split(s.wdDict[rec.wdIdx].word, cc.dia)
    {
      GlobalEntry(s, words, cc, g);
      var rec := s.charDictGlobal[g];
      var w := rec.wdIdx;
      LettersAreLetters(Split(words[w], cc.dia), cc.alpha);
      assert lets[w] == Letters(Split(words[w], cc.dia), cc.alpha);
      assert lets[w][rec.localCharIdx] == Unit(rec.ch, rec.dia);
    }
    forall w, l | w in s.wdDict && 0 <= l < s.wdDict[w].wordDiaCount
      ensures (w, l) in s.charDictLocal
    {
      assert Before(lets, w, l, |lets|, 0);
    }
  }

  /** The records returned for `text` describe its words. */
  lemma TextRecordsDescribeWords(text: string, cc: CharClasses)
    ensures TextToHtml(text, cc).Ok? ==> RecordsDescribeWords(TextToHtml(text, cc).spans, cc)
  {
    TextToHtmlProduces(text, cc);
    if TextToHtml(text, cc).Ok? {
      RecordsIndexed(TextToHtml(text, cc).spans, Tokens(text, cc.space), cc);
    }
  }

  /** A word counts as a word exactly when one of its units has a letter as base. */
  lemma IsWordIff(word: string, cc: CharClasses)
    ensures WordRecordOf(word, cc).isWord
      <==> exists k :: 0 <= k < |Split(word, cc.dia)| && Split(word, cc.dia)[k].base in cc.alpha
  {
    LettersExist(Split(word, cc.dia), cc.alpha);
    assert WordRecordOf(word, cc).isWord == (|Letters(Split(word, cc.dia), cc.alpha)| > 0);
  }

  /** `text_to_html_spans` fails, with `total_diacritics` never assigned, exactly when
      the text is empty or all whitespace. */
  lemma EmptyInputFails(text: string, cc: CharClasses)
    ensures TextToHtml(text, cc).UnboundTotal? <==> forall i :: 0 <= i < |text| ==> text[i] in cc.space
  {
    NoTokensIffBlank(text, cc.space);
  }

  /** When no letter is also a diacritic, a word counts as a word exactly when one of its
      characters is a letter. */
  lemma IsWordIffHasLetter(word: string, cc: CharClasses)
    requires cc.alpha !! cc.dia
    ensures WordRecordOf(word, cc).isWord <==> exists i :: 0 <= i < |word| && word[i] in cc.alpha
  {
    var units := Split(word, cc.dia);
    IsWordIff(word, cc);
    if exists i :: 0 <= i < |word| && word[i] in cc.alpha {
      var i :| 0 <= i < |word| && word[i] in cc.alpha;
      SplitKeepsBases(word, cc.dia, i);
    }
    if exists k :: 0 <= k < |units| && units[k].base in cc.alpha {
      var k :| 0 <= k < |units| && units[k].base in cc.alpha;
      SplitWithin(word, cc.dia);
      assert units[k].base in word;
      var i :| 0 <= i < |word| && word[i] == units[k].base;
    }
  }
}
