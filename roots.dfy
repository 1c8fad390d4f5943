/** The root vocabulary: the set of words the analyzer accepts as singular
    roots, derived once from the whole word list and the irregular table. */
module RootBuilder {
  import opened Text
  import opened Nouns

  /** `c` is a suffix-stripped form of some word of `words`: `words` holds
      `c + "s"`, `c + "es"`, or (when `c` ends in "y") `c` with "y" turned into "ies". */
  predicate StrippedFrom(c: string, words: set<string>)
  {
    c + "s" in words || c + "es" in words
    || (EndsWith(c, "y") && c[..|c| - 1] + "ies" in words)
  }

  /** Which strings are roots of a word list: the irregular roots, and the
      words of the list that do not end in "s" or are a stripped form of
      another word of the list. */
  predicate IsRoot(c: string, words: set<string>)
  {
    c in IrregularRoots() || (c in words && (!EndsWith(c, "s") || StrippedFrom(c, words)))
  }

  /** The root vocabulary of a word list. It holds every word not ending in
      "s" and every irregular root, and nothing that is neither a word of the
      list nor an irregular root; over a list of tokens it holds tokens only. */
  function CandidateRoots(words: set<string>): (r: set<string>)
    ensures forall w :: w in words && !EndsWith(w, "s") ==> w in r
    ensures IrregularRoots() <= r
    ensures r <= words + IrregularRoots()
    ensures (forall w :: w in words ==> IsToken(w)) ==> forall c :: c in r ==> IsToken(c)
  {
    IrregularsWellFormed();
    set c | c in words + IrregularRoots() && IsRoot(c, words)
  }

  /** The words of `ws` that do not end in "s" (the first loop). */
  ghost function NotEndingInS(ws: seq<string>): set<string>
  {
    set w | w in ws && !EndsWith(w, "s")
  }

  /** The candidates one word contributes in the second loop: each suffix
      it ends with, stripped, when the stripped form is a word of `all`. */
  ghost function StripsOf(w: string, all: set<string>): set<string>
  {
    Replaced(w, "ies", "y", all) + Replaced(w, "es", "", all) + Replaced(w, "s", "", all)
  }

  /** `w` with `suffix` replaced by `repl`, when `w` ends with `suffix` and the
      result is a word of `all`. */
  ghost function Replaced(w: string, suffix: string, repl: string, all: set<string>): set<string>
  {
    if EndsWith(w, suffix) && w[..|w| - |suffix|] + repl in all then {w[..|w| - |suffix|] + repl} else {}
  }

  /** The candidates the second loop collects from the words of `ws`. */
  ghost function StripsOfAll(ws: seq<string>, all: set<string>): set<string>
  {
    if ws == [] then {} else StripsOfAll(ws[..|ws| - 1], all) + StripsOf(ws[|ws| - 1], all)
  }

  /** `w` ends with `suffix` and loses it to give `c` exactly when `w` is
      `c` followed by `suffix`. */
  lemma StripSuffix(w: string, suffix: string, c: string)
    ensures (EndsWith(w, suffix) && w[..|w| - |suffix|] == c) <==> w == c + suffix
  {
    if EndsWith(w, suffix) {
      assert w == w[..|w| - |suffix|] + suffix;
    }
    if w == c + suffix {
      assert w[..|w| - |suffix|] == c;
    }
  }

  /** The "ies" strip: `w` ends in "ies" and gives `c` when "ies" becomes "y"
      exactly when `c` ends in "y" and `w` is `c` with that "y" spelled "ies". */
  lemma StripIes(w: string, c: string)
    ensures (EndsWith(w, "ies") && w[..|w| - 3] + "y" == c) <==>
      (EndsWith(c, "y") && w == c[..|c| - 1] + "ies")
  {
    if EndsWith(c, "y") {
      StripSuffix(c, "y", c[..|c| - 1]);
      StripSuffix(w, "ies", c[..|c| - 1]);
    }
    if EndsWith(w, "ies") && w[..|w| - 3] + "y" == c {
      StripSuffix(c, "y", w[..|w| - 3]);
      StripSuffix(w, "ies", w[..|w| - 3]);
    }
  }

  /** Stripping a suffix from `w` gives `c` exactly when `w` is `c` with that
      suffix appended. */
  lemma StripsOfMember(w: string, all: set<string>, c: string)
    ensures c in StripsOf(w, all) <==>
      c in all && (w == c + "s" || w == c + "es" || (EndsWith(c, "y") && w == c[..|c| - 1] + "ies"))
  {
    assert c in Replaced(w, "ies", "y", all) <==>
      c in all && EndsWith(c, "y") && w == c[..|c| - 1] + "ies" by {
      StripIes(w, c);
    }
    assert c in Replaced(w, "es", "", all) <==> c in all && w == c + "es" by {
      StripSuffix(w, "es", c);
      if |w| >= 2 {
        assert w[..|w| - 2] + "" == w[..|w| - 2];
      }
    }
    assert c in Replaced(w, "s", "", all) <==> c in all && w == c + "s" by {
      StripSuffix(w, "s", c);
      if |w| >= 1 {
        assert w[..|w| - 1] + "" == w[..|w| - 1];
      }
    }
  }

  /** What the second loop collects from `ws`: the words of `all` that are a
      stripped form of some word of `ws`. */
  lemma {:induction false} StripsOfAllMember(ws: seq<string>, all: set<string>, c: string)
    ensures c in StripsOfAll(ws, all) <==>
      c in all && (c + "s" in ws || c + "es" in ws || (EndsWith(c, "y") && c[..|c| - 1] + "ies" in ws))
  {
    if ws != [] {
      var init, last := ws[..|ws| - 1], ws[|ws| - 1];
      assert ws == init + [last];
      StripsOfAllMember(init, all, c);
      StripsOfMember(last, all, c);
    }
  }

  /** The three passes together collect exactly the root vocabulary. */
  lemma ThreePasses(ws: seq<string>, all: set<string>)
    requires all == set w | w in ws
    ensures NotEndingInS(ws) + StripsOfAll(ws, all) + IrregularRoots() == CandidateRoots(all)
  {
    forall c
      ensures c in NotEndingInS(ws) + StripsOfAll(ws, all) + IrregularRoots() <==> c in CandidateRoots(all)
    {
      StripsOfAllMember(ws, all, c);
    }
  }

  /** Builds the root vocabulary of a word list in three passes: one over
      the list adding the words not ending in "s", one over the list adding
      the stripped forms found in the list, one over the irregular table
      adding its roots. */
  method BuildCandidateRoots(allWords: seq<string>) returns (roots: set<string>)
    ensures roots == CandidateRoots(set w | w in allWords)
  {
    var allSet := set w | w in allWords;
    roots := AddUnsuffixed(allWords, {});
    roots := AddStripped(allWords, allSet, roots);
    roots := AddIrregularRoots(roots);
    ThreePasses(allWords, allSet);
  }

  /** First pass: every word not ending in "s" becomes a root. */
  method AddUnsuffixed(allWords: seq<string>, roots0: set<string>) returns (roots: set<string>)
    ensures roots == roots0 + NotEndingInS(allWords)
  {
    roots := roots0;
    for i := 0 to |allWords|
      invariant roots == roots0 + NotEndingInS(allWords[..i])
    {
      var w := allWords[i];
      assert allWords[..i + 1] == allWords[..i] + [w];
      if !EndsWith(w, "s") {
        roots := roots + {w};
      }
    }
    assert allWords[..|allWords|] == allWords;
  }

  /** Second pass: for each word, the "ies", "es" and "s" strips that are
      themselves words of `allSet` become roots; all that apply are added. */
  method AddStripped(allWords: seq<string>, allSet: set<string>, roots0: set<string>) returns (roots: set<string>)
    ensures roots == roots0 + StripsOfAll(allWords, allSet)
  {
    roots := roots0;
    for i := 0 to |allWords|
      invariant roots == roots0 + StripsOfAll(allWords[..i], allSet)
    {
      roots := AddStripsOf(allWords[i], allSet, roots);
      assert allWords[..i + 1][..i] == allWords[..i];
    }
    assert allWords[..|allWords|] == allWords;
  }

  /** The body of the second pass for one word: each of the three suffix
      tests is made, and every stripped form found in `allSet` is added. */
  method AddStripsOf(w: string, allSet: set<string>, roots0: set<string>) returns (roots: set<string>)
    ensures roots == roots0 + StripsOf(w, allSet)
  {
    roots := roots0;
    if EndsWith(w, "ies") {
      var cand := w[..|w| - 3] + "y";
      if cand in allSet {
        roots := roots + {cand};
      }
    }
    assert roots == roots0 + Replaced(w, "ies", "y", allSet);
    if EndsWith(w, "es") {
      var cand := w[..|w| - 2];
      assert cand + "" == cand;
      if cand in allSet {
        roots := roots + {cand};
      }
    }
    assert roots == roots0 + Replaced(w, "ies", "y", allSet) + Replaced(w, "es", "", allSet);
    if EndsWith(w, "s") {
      var cand := w[..|w| - 1];
      assert cand + "" == cand;
      if cand in allSet {
        roots := roots + {cand};
      }
    }
  }

  /** Third pass: every root of the irregular table is added. */
  method AddIrregularRoots(roots0: set<string>) returns (roots: set<string>)
    ensures roots == roots0 + IrregularRoots()
  {
    roots := roots0;
    var rest := Irregulars.Keys;
    while rest != {}
      invariant rest <= Irregulars.Keys
      invariant roots == roots0 + (set k | k in Irregulars && k !in rest :: Irregulars[k].root)
      decreases rest
    {
      var surface :| surface in rest;
      roots := roots + {Irregulars[surface].root};
      rest := rest - {surface};
    }
  }
}
