/** Classification of one word as a singular or plural noun, against a root
    vocabulary and the irregular table. The rules are tried in order and the
    first one whose suffix matches decides: there is no fallthrough. */
module Analyzer {
  import opened Text
  import opened Nouns

  /** Classifies the word `w` against `roots`: it is lowercased and stripped,
      a result that does not match `^[a-z]+$` is Invalid, and a token is
      classified by AnalyzeToken. */
  function AnalyzeWord(w: string, roots: set<string>): (r: Analysis)
    ensures !IsToken(Normalize(w)) ==> r == Invalid
    ensures IsToken(Normalize(w)) ==> r == AnalyzeToken(Normalize(w), roots)
  {
    var t := Normalize(w);
    if !IsToken(t) then Invalid else AnalyzeToken(t, roots)
  }

  /** Classifies a token: an irregular form takes its table entry whatever
      the roots hold, otherwise a token that is a root is singular, otherwise
      the suffix rules decide. */
  function AnalyzeToken(t: string, roots: set<string>): (r: Analysis)
    requires IsToken(t)
    ensures t in Irregulars ==> r == Tag(Irregulars[t].root, Irregulars[t].number)
    ensures r == Tag(t, SG) <==> t !in Irregulars && t in roots
    ensures r.Tag? && r.number == SG ==> r.root == t
    ensures r.Tag? ==> IsToken(r.root)
    ensures t !in Irregulars && t !in roots && !EndsWith(t, "s") ==> r == Invalid
  {
    IrregularsWellFormed();
    if t in Irregulars then Tag(Irregulars[t].root, Irregulars[t].number)
    else if t in roots then Tag(t, SG)
    else SuffixRules(t, roots)
  }

  /** Rules 3 to 5, tried in this order, the first whose suffix matches
      deciding: "ies" (stem+"y" after a non-vowel), "es" (after a sibilant),
      "s" (not after a sibilant, and after a vowel when the stem ends in "y").
      A word with none of these suffixes is Invalid. Any tag is a plural of a
      token root that is in `roots` and shorter than the word. */
  function SuffixRules(t: string, roots: set<string>): (r: Analysis)
    requires IsToken(t)
    ensures r.Tag? ==> r.number == PL && IsToken(r.root) && r.root in roots && |r.root| < |t|
    ensures !EndsWith(t, "s") ==> r == Invalid
  {
    if EndsWith(t, "ies") then
      var stem := t[..|t| - 3];
      if stem == [] then Invalid
      else
        var candidate := stem + "y";
        assert IsToken(candidate) by { TokenPrefix(t, |stem|); }
        if stem[|stem| - 1] !in Vowels && candidate in roots then Tag(candidate, PL)
        else Invalid
    else if EndsWith(t, "es") then
      var candidate := t[..|t| - 2];
      if candidate == [] then Invalid
      else
        assert IsToken(candidate) by { TokenPrefix(t, |candidate|); }
        if Sibilant(candidate) && candidate in roots then Tag(candidate, PL)
        else Invalid
    else if EndsWith(t, "s") then
      var candidate := t[..|t| - 1];
      if candidate == [] then Invalid
      else
        assert IsToken(candidate) by { TokenPrefix(t, |candidate|); }
        if Sibilant(candidate) then Invalid
        else if EndsWith(candidate, "y") then
          if |candidate| >= 2 && candidate[|candidate| - 2] in Vowels && candidate in roots
          then Tag(candidate, PL)
          else Invalid
        else if candidate in roots then Tag(candidate, PL)
        else Invalid
    else Invalid
  }

  /** A non-empty prefix of a token is a token. */
  lemma TokenPrefix(t: string, n: nat)
    requires IsToken(t) && 0 < n <= |t|
    ensures IsToken(t[..n])
  {
  }

  /** Rule 3 alone decides a token ending in "ies". */
  lemma SuffixRulesOnIes(t: string, roots: set<string>)
    requires IsToken(t) && EndsWith(t, "ies")
    ensures var stem := t[..|t| - 3];
      SuffixRules(t, roots) ==
        if |stem| > 0 && stem[|stem| - 1] !in Vowels && stem + "y" in roots then Tag(stem + "y", PL)
        else Invalid
  {
  }

  /** Rule 4 alone decides a token ending in "es" but not "ies". */
  lemma SuffixRulesOnEs(t: string, roots: set<string>)
    requires IsToken(t) && EndsWith(t, "es") && !EndsWith(t, "ies")
    ensures var stem := t[..|t| - 2];
      SuffixRules(t, roots) ==
        if |stem| > 0 && Sibilant(stem) && stem in roots then Tag(stem, PL) else Invalid
  {
  }

  /** Rule 5 alone decides a token ending in "s" but not "es". */
  lemma SuffixRulesOnS(t: string, roots: set<string>)
    requires IsToken(t) && EndsWith(t, "s") && !EndsWith(t, "es")
    ensures var stem := t[..|t| - 1];
      SuffixRules(t, roots) ==
        if |stem| > 0 && !Sibilant(stem) && stem in roots
           && (EndsWith(stem, "y") ==> |stem| >= 2 && stem[|stem| - 2] in Vowels)
        then Tag(stem, PL)
        else Invalid
  {
    assert !EndsWith(t, "ies");
  }

  /** The one string, besides the word itself, whose membership in the roots
      the analysis of token `t` consults: the stem of the first suffix rule
      `t` matches ("ies" -> "y", then "es", then "s"). */
  function Candidate(t: string): string
  {
    if EndsWith(t, "ies") then t[..|t| - 3] + "y"
    else if EndsWith(t, "es") then t[..|t| - 2]
    else if EndsWith(t, "s") then t[..|t| - 1]
    else t
  }

  /** No fallthrough: the result depends on the roots only through whether
      they hold the word and the stem of the first matching suffix rule. A
      shorter or longer strip being a root changes nothing. */
  lemma {:induction false} OnlyCandidateConsulted(w: string, roots1: set<string>, roots2: set<string>)
    requires Normalize(w) in roots1 <==> Normalize(w) in roots2
    requires Candidate(Normalize(w)) in roots1 <==> Candidate(Normalize(w)) in roots2
    ensures AnalyzeWord(w, roots1) == AnalyzeWord(w, roots2)
  {
    var t := Normalize(w);
    if IsToken(t) && t !in Irregulars && t !in roots1 {
      if EndsWith(t, "ies") {
        SuffixRulesOnIes(t, roots1);
        SuffixRulesOnIes(t, roots2);
      } else if EndsWith(t, "es") {
        SuffixRulesOnEs(t, roots1);
        SuffixRulesOnEs(t, roots2);
      } else if EndsWith(t, "s") {
        SuffixRulesOnS(t, roots1);
        SuffixRulesOnS(t, roots2);
      }
    }
  }

  /** A tag from the suffix rules names a root whose regular plural is the
      word: "ies" after consonant+"y", "es" after a sibilant, "s" otherwise. */
  lemma SuffixRulesSound(t: string, roots: set<string>)
    requires IsToken(t) && SuffixRules(t, roots).Tag?
    ensures t == PluralOf(SuffixRules(t, roots).root)
  {
    if EndsWith(t, "ies") {
      IesPluralSound(t, roots);
    } else if EndsWith(t, "es") {
      EsPluralSound(t, roots);
    } else {
      SPluralSound(t, roots);
    }
  }

  /** A tag from rule 3 names a consonant+"y" root spelled "ies" in the word. */
  lemma IesPluralSound(t: string, roots: set<string>)
    requires IsToken(t) && EndsWith(t, "ies") && SuffixRules(t, roots).Tag?
    ensures t == PluralOf(SuffixRules(t, roots).root)
  {
    SuffixRulesOnIes(t, roots);
    var stem := t[..|t| - 3];
    var root := stem + "y";
    assert ConsonantY(root);
    assert root[..|root| - 1] == stem;
    EndsWithSplit(t, "ies");
  }

  /** A tag from rule 4 names a sibilant root followed by "es" in the word. */
  lemma EsPluralSound(t: string, roots: set<string>)
    requires IsToken(t) && EndsWith(t, "es") && !EndsWith(t, "ies") && SuffixRules(t, roots).Tag?
    ensures t == PluralOf(SuffixRules(t, roots).root)
  {
    SuffixRulesOnEs(t, roots);
    var root := t[..|t| - 2];
    assert !ConsonantY(root) by {
      assert EndsWith(root, "ch") ==> root[|root| - 1] == 'h';
      assert EndsWith(root, "sh") ==> root[|root| - 1] == 'h';
    }
    EndsWithSplit(t, "es");
  }

  /** A tag from rule 5 names a root, neither sibilant nor consonant+"y",
      followed by "s" in the word. */
  lemma SPluralSound(t: string, roots: set<string>)
    requires IsToken(t) && !EndsWith(t, "es") && SuffixRules(t, roots).Tag?
    ensures t == PluralOf(SuffixRules(t, roots).root)
  {
    SuffixRulesOnS(t, roots);
    var root := t[..|t| - 1];
    assert !Sibilant(root) && !ConsonantY(root);
    EndsWithSplit(t, "s");
  }

  /** Every plural tag reconstructs the word: it is the word's irregular
      entry, or its root is in the roots and the word (not itself a root) is
      that root's regular plural. */
  lemma PluralSound(w: string, roots: set<string>, root: string)
    requires AnalyzeWord(w, roots) == Tag(root, PL)
    ensures Normalize(w) in Irregulars ==> Irregulars[Normalize(w)] == Entry(root, PL)
    ensures Normalize(w) !in Irregulars ==>
      Normalize(w) !in roots && root in roots && IsToken(root) && Normalize(w) == PluralOf(root)
  {
    IrregularsWellFormed();
    var t := Normalize(w);
    if t !in Irregulars {
      SuffixRulesSound(t, roots);
    }
  }

  /** The suffix rules give back the root of a regular plural exactly when
      the root is in `roots`, does not end in "e", and is not the bare "y".
      ("cakes" strips to "cak" under the "es" rule, "pies" to "py" under the
      "ies" rule, and "ys" is refused by the vowel-before-"y" check.) */
  lemma SuffixRulesComplete(root: string, roots: set<string>)
    requires IsToken(root)
    ensures SuffixRules(PluralOf(root), roots) == Tag(root, PL) <==>
      root in roots && root[|root| - 1] != 'e' && root != "y"
  {
    if ConsonantY(root) {
      IesPluralRecognised(root, roots);
    } else if Sibilant(root) {
      EsPluralRecognised(root, roots);
    } else {
      SPluralRecognised(root, roots);
    }
  }

  /** A consonant+"y" root is recognised in its "ies" plural when it is a root. */
  lemma IesPluralRecognised(root: string, roots: set<string>)
    requires IsToken(root) && ConsonantY(root)
    ensures SuffixRules(PluralOf(root), roots) == Tag(root, PL) <==> root in roots
  {
    var t := PluralOf(root);
    var stem := root[..|root| - 1];
    assert t == stem + "ies";
    assert EndsWith(t, "ies") && t[..|t| - 3] == stem;
    assert stem + "y" == root;
  }

  /** A sibilant root is recognised in its "es" plural when it is a root. */
  lemma EsPluralRecognised(root: string, roots: set<string>)
    requires IsToken(root) && !ConsonantY(root) && Sibilant(root)
    ensures SuffixRules(PluralOf(root), roots) == Tag(root, PL) <==> root in roots
  {
    var t := PluralOf(root);
    var last := root[|root| - 1];
    assert last == 'h' || last == 's' || last == 'z' || last == 'x' by {
      assert EndsWith(root, "ch") ==> root[|root| - 1] == 'h';
      assert EndsWith(root, "sh") ==> root[|root| - 1] == 'h';
    }
    assert t == root + "es";
    assert EndsWith(t, "es") && t[..|t| - 2] == root;
    assert !EndsWith(t, "ies");
  }

  /** Any other root is recognised in its "s" plural when it is a root, does
      not end in "e" (the "es" rule takes the word first) and is not "y". */
  lemma SPluralRecognised(root: string, roots: set<string>)
    requires IsToken(root) && !ConsonantY(root) && !Sibilant(root)
    ensures SuffixRules(PluralOf(root), roots) == Tag(root, PL) <==>
      root in roots && root[|root| - 1] != 'e' && root != "y"
  {
    var t := PluralOf(root);
    assert t == root + "s";
    if root[|root| - 1] == 'e' {
      EFinalPluralRefused(root, roots);
    } else {
      assert IsToken(t) && t[..|t| - 1] == root;
      assert !EndsWith(t, "es");
      SuffixRulesOnS(t, roots);
    }
  }

  /** A root ending in "e" is never recovered from root+"s": the word ends in
      "es", so the "ies" or "es" rule takes it and looks for a shorter stem. */
  lemma EFinalPluralRefused(root: string, roots: set<string>)
    requires IsToken(root) && root[|root| - 1] == 'e'
    ensures SuffixRules(root + "s", roots) != Tag(root, PL)
  {
    var t := root + "s";
    assert IsToken(t) by {
      forall i | 0 <= i < |t| ensures IsLowerLetter(t[i]) {
        if i < |root| {
          assert t[i] == root[i];
        }
      }
    }
    assert t[|t| - 2..] == "es";
    if EndsWith(t, "ies") {
      SuffixRulesOnIes(t, roots);
      assert |t[..|t| - 3] + "y"| < |root|;
    } else {
      SuffixRulesOnEs(t, roots);
      assert |t[..|t| - 2]| < |root|;
    }
  }

  /** Which regular plurals the analyzer recognises: for a root token whose
      regular plural is not itself a root, the plural analyses back to that
      root exactly when the root does not end in "e" and is not "y". */
  lemma PluralRecognised(root: string, roots: set<string>)
    requires IsToken(root) && root in roots && PluralOf(root) !in roots
    ensures AnalyzeWord(PluralOf(root), roots) == Tag(root, PL) <==>
      root[|root| - 1] != 'e' && root != "y"
  {
    NotIrregular(PluralOf(root));
    SuffixRulesComplete(root, roots);
  }

  /** The "ies" rule alone decides a word ending in "ies": it is the plural of
      stem+"y" when the stem is non-empty, ends in a non-vowel and stem+"y"
      is a root; otherwise Invalid, whatever else the roots hold. */
  lemma IesRule(w: string, roots: set<string>)
    requires IsToken(Normalize(w)) && Normalize(w) !in roots && EndsWith(Normalize(w), "ies")
    ensures var t := Normalize(w); var stem := t[..|t| - 3];
      AnalyzeWord(w, roots) ==
        if |stem| > 0 && stem[|stem| - 1] !in Vowels && stem + "y" in roots then Tag(stem + "y", PL)
        else Invalid
  {
    var t := Normalize(w);
    NotIrregular(t);
    SuffixRulesOnIes(t, roots);
  }

  /** The "es" rule alone decides a word ending in "es" but not "ies": it is
      the plural of its stem when the stem is a sibilant root; otherwise Invalid. */
  lemma EsRule(w: string, roots: set<string>)
    requires IsToken(Normalize(w)) && Normalize(w) !in roots
    requires EndsWith(Normalize(w), "es") && !EndsWith(Normalize(w), "ies")
    ensures var t := Normalize(w); var stem := t[..|t| - 2];
      AnalyzeWord(w, roots) ==
        if |stem| > 0 && Sibilant(stem) && stem in roots then Tag(stem, PL) else Invalid
  {
    var t := Normalize(w);
    assert EndsWith(t, "s");
    NotIrregular(t);
    SuffixRulesOnEs(t, roots);
  }

  /** The "s" rule decides a word ending in "s" but not "es": a sibilant stem
      is refused, a stem ending in "y" needs a vowel before the "y", and the
      stem must be a root. */
  lemma SRule(w: string, roots: set<string>)
    requires IsToken(Normalize(w)) && Normalize(w) !in roots
    requires EndsWith(Normalize(w), "s") && !EndsWith(Normalize(w), "es")
    ensures var t := Normalize(w); var stem := t[..|t| - 1];
      AnalyzeWord(w, roots) ==
        if |stem| > 0 && !Sibilant(stem) && stem in roots
           && (EndsWith(stem, "y") ==> |stem| >= 2 && stem[|stem| - 2] in Vowels)
        then Tag(stem, PL)
        else Invalid
  {
    var t := Normalize(w);
    NotIrregular(t);
    SuffixRulesOnS(t, roots);
  }

  /** Irregular forms win over everything else: "children" is "child+N+PL"
      whatever the roots hold, even when "children" is itself a root. */
  lemma ChildrenIsIrregular(roots: set<string>)
    ensures AnalyzeWord("children", roots) == Tag("child", PL)
    ensures Render(AnalyzeWord("children", roots)) == "child+N+PL"
  {
    var t := "children";
    assert IsToken(t) by {
      forall i | 0 <= i < |t| ensures IsLowerLetter(t[i]) { }
    }
    assert Irregulars[t] == Entry("child", PL);
  }

  /** After a sibilant only "-es" is accepted: a sibilant token followed by
      a bare "s" is Invalid unless that word is itself a root. */
  lemma SibilantPlusSIsInvalid(stem: string, roots: set<string>)
    requires IsToken(stem) && Sibilant(stem) && stem + "s" !in roots
    ensures AnalyzeWord(stem + "s", roots) == Invalid
  {
    var t := stem + "s";
    assert stem[|stem| - 1] != 'e' by {
      assert EndsWith(stem, "ch") ==> stem[|stem| - 1] == 'h';
      assert EndsWith(stem, "sh") ==> stem[|stem| - 1] == 'h';
    }
    assert IsToken(t) by {
      forall i | 0 <= i < |t| ensures IsLowerLetter(t[i]) {
        if i < |stem| {
          assert t[i] == stem[i];
        }
      }
    }
    assert EndsWith(t, "s") && t[..|t| - 1] == stem;
    assert !EndsWith(t, "es") by {
      assert t[|t| - 2] == stem[|stem| - 1];
    }
    NotIrregular(t);
    SuffixRulesOnS(t, roots);
  }

  /** A token followed by a bare "s" is Invalid when neither it nor the
      whole word is a root (and the token does not end in "e", which would
      send the word to the "es" rule). */
  lemma UnknownStemIsInvalid(stem: string, roots: set<string>)
    requires IsToken(stem) && stem[|stem| - 1] != 'e'
    requires stem !in roots && stem + "s" !in roots
    ensures AnalyzeWord(stem + "s", roots) == Invalid
  {
    var t := stem + "s";
    assert IsToken(t) by {
      forall i | 0 <= i < |t| ensures IsLowerLetter(t[i]) {
        if i < |stem| {
          assert t[i] == stem[i];
        }
      }
    }
    assert EndsWith(t, "s") && t[..|t| - 1] == stem;
    assert !EndsWith(t, "es") by {
      assert t[|t| - 2] == stem[|stem| - 1];
    }
    NotIrregular(t);
    SuffixRulesOnS(t, roots);
  }

  /** "foxs" is refused even when "fox" is a root. */
  lemma FoxsIsInvalid(roots: set<string>)
    requires "foxs" !in roots
    ensures AnalyzeWord("foxs", roots) == Invalid
  {
    var stem := "fox";
    assert IsToken(stem) by {
      forall i | 0 <= i < |stem| ensures IsLowerLetter(stem[i]) { }
    }
    assert Sibilant(stem);
    assert stem + "s" == "foxs";
    SibilantPlusSIsInvalid(stem, roots);
  }

  /** The input is lowercased and stripped before analysis: a word in any
      case, padded with whitespace, analyses as its lowercase form. */
  lemma CaseAndPaddingIgnored(pre: string, s: string, post: string, roots: set<string>)
    requires forall i :: 0 <= i < |pre| ==> IsSpace(pre[i])
    requires forall i :: 0 <= i < |post| ==> IsSpace(post[i])
    requires |s| > 0 && forall i :: 0 <= i < |s| ==> IsAsciiLetter(s[i])
    ensures AnalyzeWord(pre + s + post, roots) == AnalyzeWord(Lower(s), roots)
  {
    NormalizePadded(pre, s, post);
  }

  /** A word holding a character that is neither whitespace nor a letter
      once lowercased (a digit, a hyphen, an accented letter) is Invalid:
      stripping cannot remove it, so the token pattern fails. */
  lemma NonLetterIsInvalid(w: string, roots: set<string>, i: nat)
    requires i < |w| && !IsSpace(w[i]) && !IsLowerLetter(LowerChar(w[i]))
    ensures AnalyzeWord(w, roots) == Invalid
  {
    NonLetterSurvives(w, i);
  }

  /** A word made of whitespace only strips to the empty string: Invalid. */
  lemma BlankIsInvalid(w: string, roots: set<string>)
    requires forall i :: 0 <= i < |w| ==> IsSpace(w[i])
    ensures AnalyzeWord(w, roots) == Invalid
  {
    BlankNormalizesToEmpty(w);
  }
}
