/** Splitting a string at a separator, and joining words with one separator between them. */
module Splitting {
  /** The maximal separator-free pieces of `s`, built up a character at a time. */
  function Words(s: string, c: char): (ws: seq<string>)
    ensures s != "" && s[|s| - 1] != c ==> ws != []
    ensures forall w :: w in ws ==> w != "" && c !in w
  {
    if s == "" then []
    else
      var (most, x) := (s[..|s| - 1], s[|s| - 1]);
      var ws := Words(most, c);
      if x == c then ws
      else if most == "" || most[|most| - 1] == c then ws + [[x]]
      else
        assert ws[|ws| - 1] in ws;
        ws[..|ws| - 1] + [ws[|ws| - 1] + [x]]
  }

  function Join(ws: seq<string>, c: char): string {
    if ws == [] then ""
    else if |ws| == 1 then ws[0]
    else Join(ws[..|ws| - 1], c) + [c] + ws[|ws| - 1]
  }

  function Count(s: string, c: char): nat {
    if s == "" then 0 else Count(s[..|s| - 1], c) + if s[|s| - 1] == c then 1 else 0
  }

  /** No leading, trailing or doubled separator. */
  predicate Canonical(s: string, c: char) {
    && (s != "" ==> s[0] != c && s[|s| - 1] != c)
    && forall i :: 0 <= i < |s| - 1 ==> s[i] != c || s[i + 1] != c
  }

  predicate AreWords(ws: seq<string>, c: char) {
    forall w :: w in ws ==> w != "" && c !in w
  }

  lemma PrefixAreWords(ws: seq<string>, n: nat, c: char)
    requires AreWords(ws, c) && n <= |ws|
    ensures AreWords(ws[..n], c)
  {
    assert forall w :: w in ws[..n] ==> w in ws;
  }

  lemma WordsNext(s: string, x: char, c: char)
    ensures var ws := Words(s, c);
            Words(s + [x], c) ==
            if x == c then ws
            else if s == "" || s[|s| - 1] == c then ws + [[x]]
            else ws[..|ws| - 1] + [ws[|ws| - 1] + [x]]
  {
    assert (s + [x])[..|s|] == s;
  }

  /** A separator splits: with the next two lemmas, this fixes what the words of any string are. */
  lemma {:induction false} WordsSplit(a: string, b: string, c: char)
    ensures Words(a + [c] + b, c) == Words(a, c) + Words(b, c)
  {
    hide Words;
    if b == "" {
      WordsNext(a, c, c);
      WordsOfNothing(c);
      assert a + [c] + b == a + [c];
    } else {
      var (most, x) := (b[..|b| - 1], b[|b| - 1]);
      var ac := a + [c] + most;
      WordsSplit(a, most, c);
      assert a + [c] + b == ac + [x] && b == most + [x];
      WordsNext(ac, x, c);
      WordsNext(most, x, c);
      assert ac[|ac| - 1] == if most == "" then c else most[|most| - 1];
      WordsOfNothing(c);
    }
  }

  lemma {:induction false} WordsOfWord(w: string, c: char)
    requires w != "" && c !in w
    ensures Words(w, c) == [w]
  {
    var (most, x) := (w[..|w| - 1], w[|w| - 1]);
    assert w == most + [x];
    WordsNext(most, x, c);
    if most == "" {
      assert w == [x];
    } else {
      WordsOfWord(most, c);
    }
  }

  lemma WordsOfNothing(c: char)
    ensures Words("", c) == []
  {
  }

  lemma JoinMore(ws: seq<string>, w: string, c: char)
    ensures Join(ws + [w], c) == if ws == [] then w else Join(ws, c) + [c] + w
  {
    assert (ws + [w])[..|ws|] == ws;
  }

  /** Splitting what was joined gives the words back. */
  lemma {:induction false} WordsJoin(ws: seq<string>, c: char)
    requires AreWords(ws, c)
    ensures Words(Join(ws, c), c) == ws
  {
    if ws != [] {
      var (most, w) := (ws[..|ws| - 1], ws[|ws| - 1]);
      assert ws == most + [w] && w in ws;
      WordsOfWord(w, c);
      JoinMore(most, w, c);
      PrefixAreWords(ws, |ws| - 1, c);
      if most != [] {
        WordsJoin(most, c);
        WordsSplit(Join(most, c), w, c);
      }
    }
  }

  lemma {:induction false} JoinIsCanonical(ws: seq<string>, c: char)
    requires AreWords(ws, c)
    ensures Canonical(Join(ws, c), c)
    ensures ws != [] ==> Join(ws, c) != "" && Count(Join(ws, c), c) == |ws| - 1
  {
    if ws != [] {
      hide Canonical, Count;
      var (most, w) := (ws[..|ws| - 1], ws[|ws| - 1]);
      assert ws == most + [w] && w in ws;
      JoinMore(most, w, c);
      CountNone(w, c);
      PrefixAreWords(ws, |ws| - 1, c);
      if most != [] {
        JoinIsCanonical(most, c);
        CanonicalMore(Join(most, c), w, c);
      } else {
        CanonicalWord(w, c);
      }
    }
  }

  lemma CanonicalWord(w: string, c: char)
    requires c !in w
    ensures Canonical(w, c)
  {
  }

  lemma CanonicalMore(t: string, w: string, c: char)
    requires Canonical(t, c) && t != "" && w != "" && c !in w
    ensures Canonical(t + [c] + w, c) && Count(t + [c] + w, c) == Count(t, c) + 1
  {
    CountAppend(t, [c], c);
    CountAppend(t + [c], w, c);
    CountNone(w, c);
    assert [c][..0] == [];
  }

  lemma {:induction false} CountNone(s: string, c: char)
    requires c !in s
    ensures Count(s, c) == 0
  {
    if s != "" {
      CountNone(s[..|s| - 1], c);
    }
  }

  lemma {:induction false} CountIsMultiplicity(s: string, c: char)
    ensures Count(s, c) == multiset(s)[c]
  {
    if s != "" {
      var most := s[..|s| - 1];
      assert s == most + [s[|s| - 1]];
      CountIsMultiplicity(most, c);
    }
  }

  lemma {:induction false} CountAppend(a: string, b: string, c: char)
    ensures Count(a + b, c) == Count(a, c) + Count(b, c)
  {
    if b == "" {
      assert a + b == a;
    } else {
      assert (a + b)[..|a + b| - 1] == a + b[..|b| - 1];
      CountAppend(a, b[..|b| - 1], c);
    }
  }

  /** A string without leading or doubled separators is its words joined, but for a trailing separator. */
  lemma {:induction false} JoinWords(s: string, c: char)
    requires s != "" ==> s[0] != c
    requires forall i :: 0 <= i < |s| - 1 ==> s[i] != c || s[i + 1] != c
    ensures if s != "" && s[|s| - 1] == c then Join(Words(s, c), c) + [c] == s && Words(s, c) != []
            else Join(Words(s, c), c) == s
  {
    if s != "" {
      var (most, x) := (s[..|s| - 1], s[|s| - 1]);
      assert s == most + [x];
      JoinWords(most, c);
      var ws := Words(most, c);
      WordsNext(most, x, c);
      if x != c {
        if most == "" || most[|most| - 1] == c {
          JoinMore(ws, [x], c);
          assert most == "" ==> ws == [];
        } else {
          JoinExtended(ws, x, c);
        }
      }
    }
  }

  lemma JoinExtended(ws: seq<string>, x: char, c: char)
    requires ws != []
    ensures Join(ws[..|ws| - 1] + [ws[|ws| - 1] + [x]], c) == Join(ws, c) + [x]
  {
    var (most, w) := (ws[..|ws| - 1], ws[|ws| - 1]);
    assert ws == most + [w];
    JoinMore(most, w, c);
    JoinMore(most, w + [x], c);
  }

  // ---------- the canonical form ----------

  function Formatted(s: string, c: char): string {
    Join(Words(s, c), c)
  }

  /** Formatting yields the one canonical string with the same words. */
  lemma FormattedIsCanonicalForm(s: string, c: char)
    ensures Canonical(Formatted(s, c), c) && Words(Formatted(s, c), c) == Words(s, c)
    ensures var t := Formatted(s, c);
            && (t != "" ==> t[0] != c && t[|t| - 1] != c)
            && forall i :: 0 <= i < |t| - 1 ==> t[i] != c || t[i + 1] != c
    ensures forall t: string :: Canonical(t, c) && Words(t, c) == Words(s, c) ==> t == Formatted(s, c)
  {
    JoinIsCanonical(Words(s, c), c);
    WordsJoin(Words(s, c), c);
    forall t: string | Canonical(t, c) && Words(t, c) == Words(s, c)
      ensures t == Formatted(s, c)
    {
      JoinWords(t, c);
    }
  }

  /** The canonical strings are exactly those that formatting leaves alone; formatted strings are among them. */
  lemma FixedPoints(s: string, c: char)
    ensures Formatted(s, c) == s <==> Canonical(s, c)
    ensures Formatted(Formatted(s, c), c) == Formatted(s, c)
  {
    FormattedIsCanonicalForm(s, c);
    if Canonical(s, c) {
      JoinWords(s, c);
    }
  }

  /** The number of words is one more than the number of separators in the canonical form. */
  lemma WordCount(s: string, c: char)
    ensures Formatted(s, c) == "" <==> Words(s, c) == []
    ensures Words(s, c) != [] ==> |Words(s, c)| == Count(Formatted(s, c), c) + 1
  {
    JoinIsCanonical(Words(s, c), c);
  }

  lemma {:induction false} WordsLack(s: string, c: char, x: char)
    requires x !in s
    ensures forall w :: w in Words(s, c) ==> x !in w
  {
    if s != "" {
      WordsLack(s[..|s| - 1], c, x);
    }
  }

  lemma {:induction false} JoinLacks(ws: seq<string>, c: char, x: char)
    requires forall w :: w in ws ==> x !in w
    requires x == c ==> |ws| <= 1
    ensures x !in Join(ws, c)
  {
    if |ws| > 1 {
      JoinLacks(ws[..|ws| - 1], c, x);
    }
  }

  /** Formatting brings no character that is not in the string. */
  lemma FormattedLacks(s: string, c: char, x: char)
    requires x !in s
    ensures x !in Formatted(s, c)
  {
    WordsLack(s, c, x);
    if x == c && s != "" {
      WordsOfWord(s, c);
    }
    JoinLacks(Words(s, c), c, x);
  }
}
