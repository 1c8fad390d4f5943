/** The two components together: the roots are built once from the whole
    word list, then every word is analysed against them. */
module Corpus {
  import opened Text
  import opened Nouns
  import opened RootBuilder
  import opened Analyzer

  /** A word of the list that does not end in "s" and is not irregular is a
      root of the list, so it analyses as singular. */
  lemma CorpusWordSingular(words: set<string>, w: string)
    requires w in words && IsToken(w) && !EndsWith(w, "s") && w !in Irregulars
    ensures AnalyzeWord(w, CandidateRoots(words)) == Tag(w, SG)
  {
  }

  /** A plural tag over a word list's roots names a word of the list, or an
      irregular root, and the analysed word is its plural. */
  lemma CorpusPluralRoot(words: set<string>, w: string, root: string)
    requires AnalyzeWord(w, CandidateRoots(words)) == Tag(root, PL)
    ensures root in words || root in IrregularRoots()
    ensures Normalize(w) in Irregulars || Normalize(w) == PluralOf(root)
  {
    PluralSound(w, CandidateRoots(words), root);
    if Normalize(w) in Irregulars {
      assert root == Irregulars[Normalize(w)].root;
    }
  }

  /** In a word list where no word ends in "ss" or "ses", no word ending in
      "s" is a root: it could only be one by losing an "s" or an "es" from
      another word of the list, or by being irregular. */
  lemma NoRootEndsInS(words: set<string>, c: string)
    requires forall w :: w in words ==> !EndsWith(w, "ss") && !EndsWith(w, "ses")
    requires EndsWith(c, "s")
    ensures c !in CandidateRoots(words)
  {
    assert c !in IrregularRoots() by {
      if c in IrregularRoots() {
        IrregularRootsNotEndingInS(c);
      }
    }
    assert EndsWith(c + "s", "ss") by {
      assert (c + "s")[|c| - 1..] == "ss";
    }
    assert EndsWith(c + "es", "ses") by {
      assert (c + "es")[|c| - 1..] == "ses";
    }
    assert !EndsWith(c, "y");
    assert !IsRoot(c, words);
  }

  /** A word list with singulars and their plurals of each regular kind. */
  const Sample: set<string> := {"fox", "foxes", "boy", "boys", "try", "tries", "watch", "watches", "bus"}

  /** No word of `Sample` ends in "ss" or "ses". */
  lemma SampleHasNoDoubleS()
    ensures forall w :: w in Sample ==> !EndsWith(w, "ss") && !EndsWith(w, "ses")
  {
    forall w | w in Sample ensures !EndsWith(w, "ss") && !EndsWith(w, "ses") {
      assert w[|w| - 2] != 's';
    }
  }

  /** The roots of `Sample` hold its four words without a final "s" and none
      of its words ending in "s", not even "bus". */
  lemma SampleRoots(c: string)
    ensures c in {"fox", "boy", "try", "watch"} ==> c in CandidateRoots(Sample)
    ensures EndsWith(c, "s") ==> c !in CandidateRoots(Sample)
  {
    if EndsWith(c, "s") {
      SampleHasNoDoubleS();
      NoRootEndsInS(Sample, c);
    }
  }

  /** The singulars of `Sample`. */
  predicate SampleSingular(root: string)
  {
    root in {"fox", "boy", "try", "watch"}
  }

  lemma SampleSingularShape(root: string)
    requires SampleSingular(root)
    ensures IsToken(root) && root[|root| - 1] != 'e' && root != "y" && root !in Irregulars
  {
    forall i | 0 <= i < |root| ensures IsLowerLetter(root[i]) { }
  }

  /** Each singular of `Sample` is a root and analyses as singular, and its
      regular plural analyses back to it. */
  lemma SamplePlural(root: string)
    requires SampleSingular(root)
    ensures AnalyzeWord(root, CandidateRoots(Sample)) == Tag(root, SG)
    ensures AnalyzeWord(PluralOf(root), CandidateRoots(Sample)) == Tag(root, PL)
  {
    SampleSingularShape(root);
    SampleRoots(root);
    SampleRoots(PluralOf(root));
    RootAndPlural(root, CandidateRoots(Sample));
  }

  /** A regular root other than "y", not ending in "e", whose plural is not itself a root:
      the root analyses as singular and its plural as plural of it. */
  lemma RootAndPlural(root: string, roots: set<string>)
    requires IsToken(root) && root[|root| - 1] != 'e' && root != "y" && root !in Irregulars
    requires root in roots && PluralOf(root) !in roots
    ensures AnalyzeWord(root, roots) == Tag(root, SG)
    ensures AnalyzeWord(PluralOf(root), roots) == Tag(root, PL)
  {
    PluralRecognised(root, roots);
  }

  /** The regular plurals of the singulars of `Sample`, one of each kind. */
  lemma SampleSpellings()
    ensures PluralOf("fox") == "foxes" && PluralOf("try") == "tries"
    ensures PluralOf("boy") == "boys" && PluralOf("watch") == "watches"
  {
    SibilantSpellings();
    YSpellings();
  }

  /** "fox" and "watch" end in sibilants and take "-es". */
  lemma SibilantSpellings()
    ensures PluralOf("fox") == "foxes" && PluralOf("watch") == "watches"
  {
    var fox, watch := "fox", "watch";
    assert !ConsonantY(fox) && Sibilant(fox);
    assert !ConsonantY(watch) && Sibilant(watch);
  }

  /** "try" has a consonant before its "y" and takes "-ies"; "boy" a vowel,
      and takes "-s". */
  lemma YSpellings()
    ensures PluralOf("try") == "tries" && PluralOf("boy") == "boys"
  {
    var try, boy := "try", "boy";
    VowelDecidesYPlural(try);
    assert try[..2] == "tr";
    VowelDecidesYPlural(boy);
  }

  /** The plurals of `Sample`, each spelled by its own rule, analyse back to
      their singulars. */
  lemma SampleAnalyses()
    ensures AnalyzeWord("foxes", CandidateRoots(Sample)) == Tag("fox", PL)
    ensures AnalyzeWord("tries", CandidateRoots(Sample)) == Tag("try", PL)
    ensures AnalyzeWord("boys", CandidateRoots(Sample)) == Tag("boy", PL)
    ensures AnalyzeWord("watches", CandidateRoots(Sample)) == Tag("watch", PL)
  {
    SampleSpellings();
    SamplePlural("fox");
    SamplePlural("try");
    SamplePlural("boy");
    SamplePlural("watch");
  }

  /** "foxs" is refused over `Sample`, though "fox" is one of its roots. */
  lemma SampleFoxs()
    ensures AnalyzeWord("foxs", CandidateRoots(Sample)) == Invalid
  {
    SampleRoots("foxs");
    FoxsIsInvalid(CandidateRoots(Sample));
  }

  /** "busss" is refused over `Sample`: its stem "buss" is a sibilant, which
      takes "-es" only. */
  lemma SampleBusss()
    ensures AnalyzeWord("busss", CandidateRoots(Sample)) == Invalid
  {
    var buss := "buss";
    assert IsToken(buss) by {
      forall i | 0 <= i < |buss| ensures IsLowerLetter(buss[i]) { }
    }
    assert Sibilant(buss) && buss + "s" == "busss";
    SampleRoots(buss + "s");
    SibilantPlusSIsInvalid(buss, CandidateRoots(Sample));
  }

  /** "bus" is refused over `Sample`, although it is a singular noun: it ends
      in "s", so it is not a root, and its stem "bu" is not a root either. */
  lemma SampleBus()
    ensures AnalyzeWord("bus", CandidateRoots(Sample)) == Invalid
  {
    var bu := "bu";
    assert IsToken(bu) by {
      forall i | 0 <= i < |bu| ensures IsLowerLetter(bu[i]) { }
    }
    assert bu + "s" == "bus";
    SampleRoots(bu + "s");
    SampleBuNotRoot();
    UnknownStemIsInvalid(bu, CandidateRoots(Sample));
  }

  /** "bu" is neither a word of `Sample` nor an irregular root. */
  lemma SampleBuNotRoot()
    ensures "bu" !in CandidateRoots(Sample)
  {
    IrregularRootsListed();
    assert "bu" !in Sample;
    assert "bu" !in IrregularRoots();
  }
}
