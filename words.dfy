/** Splitting the text into whitespace-separated tokens, as Python's `str.split()` with
    no argument does: runs of whitespace separate tokens, and whitespace at either end
    produces no empty token. */
module Words {
  import opened Strings

  /** A token is non-empty and holds no whitespace. */
  predicate IsToken(t: string, space: set<char>)
  {
    t != [] && forall i :: 0 <= i < |t| ==> t[i] !in space
  }

  function Tokens(text: string, space: set<char>): (ts: seq<string>)
    ensures forall k :: 0 <= k < |ts| ==> IsToken(ts[k], space)
    ensures forall k, i :: 0 <= k < |ts| && 0 <= i < |ts[k]| ==> ts[k][i] in text
    decreases |text|
  {
    if text == [] then []
    else if text[0] in space then
      var rest := Tokens(text[1..], space);
      assert forall c :: c in text[1..] ==> c in text;
      rest
    else
      var n := Run(text, space, false);
      var rest := Tokens(text[n..], space);
      assert forall c :: c in text[n..] ==> c in text;
      assert forall i :: 0 <= i < n ==> text[..n][i] == text[i];
      [text[..n]] + rest
  }

  /** The text yields no token exactly when it is all whitespace (or empty). */
  lemma {:induction false} NoTokensIffBlank(text: string, space: set<char>)
    ensures Tokens(text, space) == [] <==> forall i :: 0 <= i < |text| ==> text[i] in space
    decreases |text|
  {
    if text != [] && text[0] in space {
      NoTokensIffBlank(text[1..], space);
      assert forall i :: 1 <= i < |text| ==> text[i] == text[1..][i - 1];
    }
  }

  /** Joining tokens with single spaces and splitting again gives the tokens back. */
  lemma {:induction false} TokensOfJoin(ts: seq<string>, space: set<char>)
    requires ' ' in space
    requires forall k :: 0 <= k < |ts| ==> IsToken(ts[k], space)
    ensures Tokens(JoinWith(ts, " "), space) == ts
    decreases |ts|
  {
    if ts == [] {
    } else if |ts| == 1 {
      RunOfPrefix(ts[0], [], space, false);
      assert ts[0] + [] == ts[0];
      assert ts[0][|ts[0]|..] == [];
    } else {
      var t := ts[0];
      var rest := JoinWith(ts[1..], " ");
      TokensOfJoin(ts[1..], space);
      var s := JoinWith(ts, " ");
      assert s == t + (" " + rest);
      RunOfPrefix(t, " " + rest, space, false);
      assert s[..|t|] == t;
      assert s[|t|..] == " " + rest;
      assert (" " + rest)[1..] == rest;
      assert Tokens(" " + rest, space) == Tokens(rest, space);
    }
  }

  /** The characters of `s` that are not whitespace, in order. */
  function NonSpace(s: string, space: set<char>): string
    decreases |s|
  {
    if s == [] then []
    else if s[0] in space then NonSpace(s[1..], space)
    else [s[0]] + NonSpace(s[1..], space)
  }

  /** A leading run of `n` non-whitespace characters is kept whole. */
  lemma {:induction false} NonSpaceOfRun(s: string, space: set<char>, n: nat)
    requires n <= |s| && forall i :: 0 <= i < n ==> s[i] !in space
    ensures NonSpace(s, space) == s[..n] + NonSpace(s[n..], space)
    decreases n
  {
    if n > 0 {
      NonSpaceOfRun(s[1..], space, n - 1);
      assert s[1..][..n - 1] == s[1..n];
      assert s[1..][n - 1..] == s[n..];
      assert [s[0]] + s[1..n] == s[..n];
    } else {
      assert s[..0] == [] && s[0..] == s;
    }
  }

  /** Writing the tokens out one after the other gives every non-whitespace character
      of the text, in order: splitting drops the whitespace and nothing else. */
  lemma {:induction false} TokensCover(text: string, space: set<char>)
    ensures Concat(Tokens(text, space)) == NonSpace(text, space)
    decreases |text|
  {
    if text == [] {
    } else if text[0] in space {
      TokensCover(text[1..], space);
    } else {
      var n := Run(text, space, false);
      var rest := Tokens(text[n..], space);
      TokensCover(text[n..], space);
      NonSpaceOfRun(text, space, n);
      var ts := [text[..n]] + rest;
      assert ts[0] == text[..n] && ts[1..] == rest;
    }
  }

  /** A gap between tokens: whitespace only, possibly empty. */
  predicate Blank(g: string, space: set<char>)
  {
    forall i :: 0 <= i < |g| ==> g[i] in space
  }

  /** `gaps[0] + ts[0] + gaps[1] + ... + ts[n-1] + gaps[n]`. */
  function Interleave(gaps: seq<string>, ts: seq<string>): string
    requires |gaps| == |ts| + 1
  {
    gaps[0] + Tail(gaps[1..], ts)
  }

  /** `ts[0] + gs[0] + ... + ts[n-1] + gs[n-1]`: each token followed by its gap. */
  function Tail(gs: seq<string>, ts: seq<string>): string
    requires |gs| == |ts|
    decreases |ts|
  {
    if ts == [] then [] else ts[0] + gs[0] + Tail(gs[1..], ts[1..])
  }

  /** With at least one token, the first gap and token come first, then the rest. */
  lemma InterleaveCons(gaps: seq<string>, ts: seq<string>)
    requires |gaps| == |ts| + 1 && ts != []
    ensures Interleave(gaps, ts) == gaps[0] + (ts[0] + Interleave(gaps[1..], ts[1..]))
  {
    var rest := Tail(gaps[1..][1..], ts[1..]);
    assert Tail(gaps[1..], ts) == ts[0] + gaps[1] + rest;
    assert Interleave(gaps[1..], ts[1..]) == gaps[1] + rest;
    assert gaps[0] + (ts[0] + gaps[1] + rest) == gaps[0] + (ts[0] + (gaps[1] + rest));
  }

  /** Leading whitespace produces no token. */
  lemma {:induction false} TokensAfterBlank(g: string, s: string, space: set<char>)
    requires Blank(g, space)
    ensures Tokens(g + s, space) == Tokens(s, space)
    decreases |g|
  {
    if g != [] {
      TokensAfterBlank(g[1..], s, space);
      assert (g + s)[0] == g[0];
      assert (g + s)[1..] == g[1..] + s;
    } else {
      assert g + s == s;
    }
  }

  /** A token followed by the end of the text or by whitespace is the first token. */
  lemma TokensOfFirst(t: string, rest: string, space: set<char>)
    requires IsToken(t, space) && (rest == [] || rest[0] in space)
    ensures Tokens(t + rest, space) == [t] + Tokens(rest, space)
  {
    RunOfPrefix(t, rest, space, false);
    var s := t + rest;
    assert s[0] == t[0];
    assert s[..|t|] == t;
    assert s[|t|..] == rest;
  }

  /** Tokens separated by any non-empty runs of whitespace, with any whitespace at the
      ends, split back into exactly those tokens. Every text has this form, with its
      maximal runs of non-whitespace as the tokens, so this fixes `Tokens` on every
      input. */
  lemma {:induction false} TokensOfSpaced(gaps: seq<string>, ts: seq<string>, space: set<char>)
    requires |gaps| == |ts| + 1
    requires forall k :: 0 <= k < |ts| ==> IsToken(ts[k], space)
    requires forall j :: 0 <= j < |gaps| ==> Blank(gaps[j], space)
    requires forall j :: 0 < j < |ts| ==> gaps[j] != []
    ensures Tokens(Interleave(gaps, ts), space) == ts
    decreases |ts|
  {
    if ts == [] {
      TokensAfterBlank(gaps[0], [], space);
      assert Interleave(gaps, ts) == gaps[0] + [];
    } else {
      var rest := Interleave(gaps[1..], ts[1..]);
      TokensOfSpaced(gaps[1..], ts[1..], space);
      if |ts| > 1 {
        assert gaps[1..][0] == gaps[1];
        assert rest[0] == gaps[1][0];
      } else {
        assert rest == gaps[1];
      }
      TokensOfFirst(ts[0], rest, space);
      InterleaveCons(gaps, ts);
      TokensAfterBlank(gaps[0], ts[0] + rest, space);
    }
  }

  /** The whitespace around and between the tokens of `text`: blank, and non-empty
      between two tokens. */
  function Gaps(text: string, space: set<char>): (gs: seq<string>)
    ensures |gs| == |Tokens(text, space)| + 1
    ensures forall j :: 0 <= j < |gs| ==> Blank(gs[j], space)
    ensures forall j :: 0 < j < |Tokens(text, space)| ==> gs[j] != []
    ensures text != [] && text[0] in space ==> gs[0] != []
    decreases |text|
  {
    if text == [] then [[]]
    else if text[0] in space then
      var g := Gaps(text[1..], space);
      assert Blank([text[0]] + g[0], space);
      [[text[0]] + g[0]] + g[1..]
    else
      var n := Run(text, space, false);
      assert Tokens(text, space) == [text[..n]] + Tokens(text[n..], space);
      [[]] + Gaps(text[n..], space)
  }

  /** The gaps interleaved with the tokens give the text back, so every text is tokens
      separated by non-empty runs of whitespace, and `TokensOfSpaced` applies to it. */
  lemma {:induction false} GapsInterleave(text: string, space: set<char>)
    ensures Interleave(Gaps(text, space), Tokens(text, space)) == text
    decreases |text|
  {
    if text == [] {
    } else if text[0] in space {
      var g := Gaps(text[1..], space);
      GapsInterleave(text[1..], space);
      InterleaveFirstGap([text[0]], g, Tokens(text[1..], space));
      assert [text[0]] + text[1..] == text;
    } else {
      var n := Run(text, space, false);
      GapsInterleave(text[n..], space);
      assert Tokens(text, space) == [text[..n]] + Tokens(text[n..], space);
      assert Gaps(text, space) == [[]] + Gaps(text[n..], space);
      InterleaveFirstToken(text[..n], Gaps(text[n..], space), Tokens(text[n..], space));
      assert text[..n] + text[n..] == text;
    }
  }

  /** Putting text in front of the first gap puts it in front of the whole. */
  lemma InterleaveFirstGap(a: string, gaps: seq<string>, ts: seq<string>)
    requires |gaps| == |ts| + 1
    ensures Interleave([a + gaps[0]] + gaps[1..], ts) == a + Interleave(gaps, ts)
  {
    var gs := [a + gaps[0]] + gaps[1..];
    assert gs[1..] == gaps[1..];
    assert (a + gaps[0]) + Tail(gaps[1..], ts) == a + (gaps[0] + Tail(gaps[1..], ts));
  }

  /** An empty first gap followed by token `t` puts `t` in front of the rest. */
  lemma InterleaveFirstToken(t: string, gaps: seq<string>, ts: seq<string>)
    requires |gaps| == |ts| + 1
    ensures Interleave([[]] + gaps, [t] + ts) == t + Interleave(gaps, ts)
  {
    var gs, us := [[]] + gaps, [t] + ts;
    assert gs[1..] == gaps;
    assert us[0] == t && us[1..] == ts;
    assert Tail(gaps, us) == t + gaps[0] + Tail(gaps[1..], ts);
    assert [] + (t + gaps[0] + Tail(gaps[1..], ts)) == t + (gaps[0] + Tail(gaps[1..], ts));
  }
}
