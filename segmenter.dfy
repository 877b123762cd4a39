/** Splitting one word into (base character, diacritics) units, as `split_arabic_text`
    does with `findall` over the pattern "one non-diacritic, then any diacritics". */
module Segmenter {
  import opened Strings

  /** One match: a base code point and the diacritics attached to it (possibly none). */
  datatype Unit = Unit(base: char, marks: string)

  /** What every match of the pattern looks like. */
  predicate WellFormed(u: Unit, dia: set<char>)
  {
    u.base !in dia && forall i :: 0 <= i < |u.marks| ==> u.marks[i] in dia
  }

  /** Every character of `u` occurs in `word`. */
  predicate Within(u: Unit, word: string)
  {
    u.base in word && forall i :: 0 <= i < |u.marks| ==> u.marks[i] in word
  }

  /** The left-to-right scan of `findall`: a diacritic where a match must start matches
      nothing and is skipped; a base character starts a match that takes the whole run
      of diacritics after it. */
  function Split(word: string, dia: set<char>): (units: seq<Unit>)
    ensures forall k :: 0 <= k < |units| ==> WellFormed(units[k], dia)
    decreases |word|
  {
    if word == [] then []
    else if word[0] in dia then Split(word[1..], dia)
    else
      var n := Run(word[1..], dia, true);
      [Unit(word[0], word[1..1 + n])] + Split(word[1 + n..], dia)
  }

  /** Units take their characters from the word and from nowhere else. */
  lemma {:induction false} SplitWithin(word: string, dia: set<char>)
    ensures forall k :: 0 <= k < |Split(word, dia)| ==> Within(Split(word, dia)[k], word)
    decreases |word|
  {
    if word == [] {
    } else if word[0] in dia {
      SplitWithin(word[1..], dia);
      forall c | c in word[1..] ensures c in word { }
    } else {
      var n := Run(word[1..], dia, true);
      var tail := word[1 + n..];
      SplitWithin(tail, dia);
      var u := Unit(word[0], word[1..1 + n]);
      assert Split(word, dia) == [u] + Split(tail, dia);
      forall i | 0 <= i < |u.marks| ensures u.marks[i] in word {
        assert u.marks[i] == word[1 + i];
      }
      forall c | c in tail ensures c in word { }
    }
  }

  /** The characters of a unit, in order. */
  function UnitText(u: Unit): string
  {
    [u.base] + u.marks
  }

  /** The units written back out one after the other. */
  function Flatten(units: seq<Unit>): string
    decreases |units|
  {
    if units == [] then [] else UnitText(units[0]) + Flatten(units[1..])
  }

  /** `s` without its leading run of diacritics. */
  function StripLeadingMarks(s: string, dia: set<char>): (r: string)
    ensures r == [] || r[0] !in dia
    decreases |s|
  {
    if s != [] && s[0] in dia then StripLeadingMarks(s[1..], dia) else s
  }

  /** A word that starts with a base character: its first unit, written out, is the
      front of the word, and what follows it does not start with a diacritic. */
  lemma FirstUnit(word: string, dia: set<char>)
    requires word != [] && word[0] !in dia
    ensures var n := Run(word[1..], dia, true);
      && word == UnitText(Unit(word[0], word[1..1 + n])) + word[1 + n..]
      && (word[1 + n..] == [] || word[1 + n..][0] !in dia)
  {
    var n := Run(word[1..], dia, true);
    var tail := word[1 + n..];
    if tail != [] {
      assert tail[0] == word[1..][n];
    }
    assert word == [word[0]] + word[1..1 + n] + tail;
  }

  lemma FlattenCons(u: Unit, units: seq<Unit>)
    ensures Flatten([u] + units) == UnitText(u) + Flatten(units)
  {
    assert ([u] + units)[1..] == units;
  }

  /** The units cover the word exactly, except the diacritics at its very start. */
  lemma {:induction false} SplitCoversWord(word: string, dia: set<char>)
    ensures Flatten(Split(word, dia)) == StripLeadingMarks(word, dia)
    decreases |word|
  {
    if word == [] {
    } else if word[0] in dia {
      SplitCoversWord(word[1..], dia);
    } else {
      var n := Run(word[1..], dia, true);
      var tail := word[1 + n..];
      SplitCoversWord(tail, dia);
      var u := Unit(word[0], word[1..1 + n]);
      FirstUnit(word, dia);
      FlattenCons(u, Split(tail, dia));
    }
  }

  /** Leading diacritics match nothing: they are dropped from the result. */
  lemma {:induction false} LeadingMarksDropped(marks: string, word: string, dia: set<char>)
    requires forall i :: 0 <= i < |marks| ==> marks[i] in dia
    ensures Split(marks + word, dia) == Split(word, dia)
    decreases |marks|
  {
    if marks == [] {
      assert marks + word == word;
    } else {
      assert (marks + word)[0] == marks[0];
      assert (marks + word)[1..] == marks[1..] + word;
      assert Split(marks + word, dia) == Split((marks + word)[1..], dia);
      LeadingMarksDropped(marks[1..], word, dia);
    }
  }

  /** A well-formed unit written out before text that does not start with a diacritic
      is matched back as that unit. */
  lemma SplitCons(u: Unit, rest: string, dia: set<char>)
    requires WellFormed(u, dia)
    requires rest == [] || rest[0] !in dia
    ensures Split(UnitText(u) + rest, dia) == [u] + Split(rest, dia)
  {
    var t := u.marks + rest;
    var s := UnitText(u) + rest;
    assert s == [u.base] + t;
    assert s[0] == u.base && s[1..] == t;
    RunOfPrefix(u.marks, rest, dia, true);
    var n := |u.marks|;
    assert t[..n] == u.marks && t[n..] == rest;
    assert s[1..1 + n] == t[..n] && s[1 + n..] == t[n..];
  }

  /** Splitting is the inverse of writing well-formed units back out. */
  lemma {:induction false} SplitFlatten(units: seq<Unit>, dia: set<char>)
    requires forall k :: 0 <= k < |units| ==> WellFormed(units[k], dia)
    ensures Split(Flatten(units), dia) == units
    decreases |units|
  {
    if units != [] {
      var tail := Flatten(units[1..]);
      SplitFlatten(units[1..], dia);
      assert tail == [] || tail[0] !in dia by {
        if tail != [] {
          assert tail[0] == units[1].base;
        }
      }
      SplitCons(units[0], tail, dia);
      assert [units[0]] + units[1..] == units;
    }
  }

  /** Number of base (non-diacritic) characters in `s`. */
  function BaseCount(s: string, dia: set<char>): nat
    decreases |s|
  {
    if s == [] then 0 else (if s[0] in dia then 0 else 1) + BaseCount(s[1..], dia)
  }

  /** Every base character starts exactly one unit. */
  lemma {:induction false} SplitCount(word: string, dia: set<char>)
    ensures |Split(word, dia)| == BaseCount(word, dia)
    decreases |word|
  {
    if word == [] {
    } else if word[0] in dia {
      SplitCount(word[1..], dia);
    } else {
      var n := Run(word[1..], dia, true);
      SplitCount(word[1 + n..], dia);
      MarksCountNothing(word[1..], n, dia);
      assert word[1..][n..] == word[1 + n..];
    }
  }

  /** A run of diacritics adds no base characters. */
  lemma {:induction false} MarksCountNothing(s: string, n: nat, dia: set<char>)
    requires n <= |s|
    requires forall i :: 0 <= i < n ==> s[i] in dia
    ensures BaseCount(s, dia) == BaseCount(s[n..], dia)
    decreases n
  {
    if n > 0 {
      MarksCountNothing(s[1..], n - 1, dia);
      assert s[1..][n - 1..] == s[n..];
    }
  }

  /** Every base character of the word starts a unit of its own. */
  lemma {:induction false} SplitKeepsBases(word: string, dia: set<char>, i: nat)
    requires i < |word| && word[i] !in dia
    ensures exists k :: 0 <= k < |Split(word, dia)| && Split(word, dia)[k].base == word[i]
    decreases |word|
  {
    if word[0] in dia {
      assert word[i] == word[1..][i - 1];
      SplitKeepsBases(word[1..], dia, i - 1);
      assert Split(word, dia) == Split(word[1..], dia);
    } else if i > 0 {
      var n := Run(word[1..], dia, true);
      var tail := word[1 + n..];
      assert word[i] == word[1..][i - 1];
      SplitKeepsBases(tail, dia, i - 1 - n);
      var k :| 0 <= k < |Split(tail, dia)| && Split(tail, dia)[k].base == word[i];
      assert Split(word, dia)[k + 1] == Split(tail, dia)[k];
    } else {
      assert Split(word, dia)[0].base == word[0];
    }
  }
}
