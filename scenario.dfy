/** The word "أَبٌ" (alef with hamza and fatha, beh with dammatan), worked through the
    pass as the repository's unit test does. */
module Scenario {
  import opened Strings
  import opened Segmenter
  import opened Words
  import opened Indexer

  const Alef: char := 'أ'
  const Fatha: char := 'َ'
  const Beh: char := 'ب'
  const Dammatan: char := 'ٌ'

  /** Character classes in which the two letters are letters and the two marks are
      diacritics, and none of the four is whitespace. */
  predicate ArabicClasses(cc: CharClasses)
  {
    && Alef in cc.alpha && Beh in cc.alpha
    && Fatha in cc.dia && Dammatan in cc.dia
    && Alef !in cc.dia && Beh !in cc.dia
    && Alef !in cc.space && Fatha !in cc.space && Beh !in cc.space && Dammatan !in cc.space
  }

  function Sample(): string
  {
    [Alef, Fatha, Beh, Dammatan]
  }

  /** The sample is one token. */
  lemma SampleTokens(cc: CharClasses)
    requires ArabicClasses(cc)
    ensures Tokens(Sample(), cc.space) == [Sample()]
  {
    var text := Sample();
    RunOfPrefix(text, [], cc.space, false);
    assert text + [] == text;
  }

  /** The sample is its two units written out. */
  lemma SampleUnits()
    ensures Flatten([Unit(Alef, [Fatha]), Unit(Beh, [Dammatan])]) == Sample()
  {
    var u1, u2 := Unit(Alef, [Fatha]), Unit(Beh, [Dammatan]);
    FlattenCons(u2, []);
    FlattenCons(u1, [u2]);
    assert [u1] + [u2] == [u1, u2];
  }

  /** The sample splits into two units, both letters. */
  lemma SampleLetters(cc: CharClasses)
    requires ArabicClasses(cc)
    ensures LettersOf([Sample()], cc) == [[Unit(Alef, [Fatha]), Unit(Beh, [Dammatan])]]
  {
    var units := [Unit(Alef, [Fatha]), Unit(Beh, [Dammatan])];
    SampleUnits();
    SplitFlatten(units, cc.dia);
    assert Split(Sample(), cc.dia) == units;
    assert units[..1] == [units[0]];
    assert Letters(units, cc.alpha) == units;
  }

  /** One token, two letters each with its diacritic, numbered 0 and 1 in both tables. */
  lemma SimpleWord(cc: CharClasses)
    requires ArabicClasses(cc)
    ensures var r := TextToHtml(Sample(), cc);
      && r.Ok?
      && r.spans.tokensCount == 1
      && r.spans.totalDiacritics == 2
      && r.spans.wdDict == map[0 := WordRecord(true, 2, Sample())]
      && r.spans.charDictGlobal == map[0 := CharRecord(Alef, [Fatha], true, true, 0, 0, 0),
                                       1 := CharRecord(Beh, [Dammatan], true, true, 0, 1, 1)]
      && r.spans.charDictLocal == map[(0, 0) := CharRecord(Alef, [Fatha], true, true, 0, 0, 0),
                                      (0, 1) := CharRecord(Beh, [Dammatan], true, true, 0, 1, 1)]
  {
    SampleTokens(cc);
    SampleLetters(cc);
  }
}
