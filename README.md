# English noun-number analyzer, modelled in Dafny

The analyzer tags English nouns as singular or plural. It has two parts.

- It builds a root vocabulary from a word list.
  - Every word not ending in "s" is a root.
  - Every word of the list that another word of the list turns into by losing "ies" for "y", by losing "es", or by losing "s" is a root.
  - Every root of the nine-entry irregular table is a root.
- It classifies one word against that vocabulary.
  - The word is lowercased and stripped of whitespace.
  - Anything that is not a lowercase ASCII token is `Invalid Word`.
  - An irregular surface form takes its table entry.
  - A root is `root+N+SG`.
  - Otherwise the first of the "ies", "es" and "s" suffix rules whose suffix matches decides the result: `root+N+PL` or `Invalid Word`. No later rule is tried.

The Dafny modules follow that structure:

- `Text` (text.dfy) models the `lower().strip()` normalisation and the token pattern `^[a-z]+$`.
- `Nouns` (nouns.dfy) holds the irregular table, the vowel set, the tag datatype and its rendering. It also holds `PluralOf`, the regular English plural that the three suffix rules undo. It is the reference definition the classifier is proved against.
- `RootBuilder` (roots.dfy) has two parts:
  - `CandidateRoots`, a set-valued specification of the vocabulary.
  - `BuildCandidateRoots`, an imperative method with three loops: over the list adding the words not ending in "s", over the list adding the stripped forms found in it, and over the irregular table adding its roots. It is proved to compute exactly `CandidateRoots`.
- `Analyzer` (analyzer.dfy) is the classifier, `AnalyzeWord`, with its soundness, completeness and no-fallthrough lemmas.
- `Corpus` (corpus.dfy) combines the builder and the classifier. It includes the nine-word sample corpus: fox, foxes, boy, boys, try, tries, watch, watches, bus.

## Model

| member | source | states |
|---|---|---|
| Nouns.IrregularsWellFormed | Assignment_02/Q_2.py:6-17 | Every surface form and every root of the irregular table is a token, every entry is plural, and no surface form ends in "s" |
| Nouns.IrregularRootsListed | Assignment_02/Q_2.py:6-17 | The irregular roots are exactly child, man, woman, person, mouse, goose, tooth, foot and ox |
| Nouns.NotIrregular | Assignment_02/Q_2.py:6-17 | A word ending in "s" is never an irregular surface form, so the suffix rules are the only ones that can apply to it |
| Nouns.VowelDecidesYPlural | Assignment_02/Q_2.py:19 | For a root ending in "y" after another letter, the vowel set alone decides the plural spelling: "ies" after a non-vowel (the test at line 81), a bare "s" after a vowel (the test at line 109) |
| Nouns.PluralOf | Assignment_02/Q_2.py:74-120 | The regular plural a suffix rule undoes ends in "s", is longer than its root, and is a token when the root is |
| Nouns.Render | Assignment_02/Q_2.py:63-71 | The tag strings, also built at lines 83, 94, 111 and 118: a tag contains "+" and "Invalid Word" does not; a tag starts with its root, followed by "+" and four more characters |
| Nouns.RenderInjective | Assignment_02/Q_2.py:63-71 | Distinct analyses render to distinct tag strings, so `root+N+SG`, `root+N+PL` and `Invalid Word` lose no information |
| Text.Normalize | Assignment_02/Q_2.py:61 | A token is its own normal form |
| Text.IsToken | Assignment_02/Q_2.py:21 | The token pattern `^[a-z]+$`, checked at line 62: a token holds no whitespace and no character that lowercasing changes |
| Text.Lower | Assignment_02/Q_2.py:61 | Lowercasing keeps the length, and the result is a token exactly when the word is non-empty and every character is an ASCII letter of either case or the Kelvin sign |
| Text.NormalizePadded | Assignment_02/Q_2.py:61 | ASCII letters padded with whitespace normalise to their lowercase form, which is a token |
| Text.NonLetterSurvives | Assignment_02/Q_2.py:61-62 | A character that is neither whitespace nor lowercased to a letter survives `lower().strip()`, so the normal form is not a token |
| Text.BlankNormalizesToEmpty | Assignment_02/Q_2.py:61-62 | A word of whitespace only normalises to the empty string |
| RootBuilder.CandidateRoots | Assignment_02/Q_2.py:31-57 | The vocabulary holds every word not ending in "s" and every irregular root. It holds nothing but words of the list and irregular roots. Over a list of tokens it holds tokens only |
| RootBuilder.BuildCandidateRoots | Assignment_02/Q_2.py:31-57 | The three passes over the list compute exactly `CandidateRoots` of the list's set of words |
| RootBuilder.AddUnsuffixed | Assignment_02/Q_2.py:35-37 | The first pass adds exactly the words not ending in "s" |
| RootBuilder.AddStripped | Assignment_02/Q_2.py:39-51 | The second pass adds, for every word, each stripped form found in the list |
| RootBuilder.AddStripsOf | Assignment_02/Q_2.py:40-51 | For one word, the three independent suffix tests add exactly its stripped forms that are words of the list; all that apply fire |
| RootBuilder.AddIrregularRoots | Assignment_02/Q_2.py:54-55 | The third pass adds exactly the irregular roots |
| RootBuilder.StripsOfAllMember | Assignment_02/Q_2.py:39-51 | A string is collected by the second pass exactly when it is a word of the list and the list holds it followed by "s" or by "es", or, for a string ending in "y", the string with that "y" spelled "ies" |
| RootBuilder.ThreePasses | Assignment_02/Q_2.py:31-57 | The union of what the three passes add equals the vocabulary specification |
| Analyzer.AnalyzeWord | Assignment_02/Q_2.py:60-63 | A word whose normal form is not a token is `Invalid Word`; a token is classified on its normal form |
| Analyzer.AnalyzeToken | Assignment_02/Q_2.py:65-71 | An irregular form takes its table entry whatever the roots hold. A token is tagged singular exactly when it is a root and not irregular, and then it is its own root. A token that is not a root, not irregular and does not end in "s" is `Invalid Word` |
| Analyzer.SuffixRules | Assignment_02/Q_2.py:74-123 | Any tag from the suffix rules is plural, and its root is a token, is in the roots and is shorter than the word. A word without a final "s" is `Invalid Word` |
| Analyzer.OnlyCandidateConsulted | Assignment_02/Q_2.py:74-120 | No fallthrough: the result depends on the roots only through whether they hold the word and the stem of the first matching suffix rule |
| Analyzer.SuffixRulesSound | Assignment_02/Q_2.py:74-120 | A tag from the suffix rules names a root whose regular plural is the word |
| Analyzer.IesPluralSound | Assignment_02/Q_2.py:74-84 | A tag from the "ies" rule names a consonant+"y" root whose "ies" plural is the word |
| Analyzer.EsPluralSound | Assignment_02/Q_2.py:87-95 | A tag from the "es" rule names a sibilant root followed by "es" |
| Analyzer.SPluralSound | Assignment_02/Q_2.py:98-120 | A tag from the "s" rule names a root that is neither sibilant nor consonant+"y", followed by "s" |
| Analyzer.PluralSound | Assignment_02/Q_2.py:60-120 | A plural tag is the word's irregular entry. Otherwise the word is not a root, and its root is a token in the roots whose regular plural is the word |
| Analyzer.SuffixRulesComplete | Assignment_02/Q_2.py:74-120 | The suffix rules give back a root from its regular plural exactly when the root is in the roots, does not end in "e", and is not "y" |
| Analyzer.IesPluralRecognised | Assignment_02/Q_2.py:74-84 | The "ies" plural of a consonant+"y" root is recognised exactly when the root is in the roots |
| Analyzer.EsPluralRecognised | Assignment_02/Q_2.py:87-95 | The "es" plural of a sibilant root is recognised exactly when the root is in the roots |
| Analyzer.SPluralRecognised | Assignment_02/Q_2.py:87-120 | The "s" plural of any other root is recognised exactly when the root is in the roots, does not end in "e" (the "es" rule takes such words first), and is not "y" |
| Analyzer.EFinalPluralRefused | Assignment_02/Q_2.py:74-95 | root+"s" for a root ending in "e" is never analysed back to that root: the "ies" or "es" rule takes the word first and looks for a shorter stem |
| Analyzer.PluralRecognised | Assignment_02/Q_2.py:60-120 | For a root whose plural is not itself a root, the plural analyses back to the root exactly when the root does not end in "e" and is not "y" |
| Analyzer.IesRule | Assignment_02/Q_2.py:74-84 | A word ending in "ies" is decided by that rule alone: plural of stem+"y" when the stem is non-empty, ends in a non-vowel and stem+"y" is a root; otherwise invalid |
| Analyzer.EsRule | Assignment_02/Q_2.py:87-95 | A word ending in "es" but not "ies" is decided by that rule alone: plural of its stem when the stem is a sibilant root; otherwise invalid |
| Analyzer.SRule | Assignment_02/Q_2.py:98-120 | A word ending in "s" but not "es": a sibilant stem is refused, a "y" stem needs a vowel before the "y", and the stem must be a root |
| Analyzer.ChildrenIsIrregular | Assignment_02/Q_2.py:65-67 | "children" is "child+N+PL" whatever the roots hold |
| Analyzer.SibilantPlusSIsInvalid | Assignment_02/Q_2.py:104-105 | A sibilant token followed by a bare "s" is invalid unless it is itself a root |
| Analyzer.UnknownStemIsInvalid | Assignment_02/Q_2.py:98-120 | A token not ending in "e", followed by a bare "s", is invalid when neither it nor the whole word is a root |
| Analyzer.FoxsIsInvalid | Assignment_02/Q_2.py:104-105 | "foxs" is invalid whenever it is not itself a root |
| Analyzer.CaseAndPaddingIgnored | Assignment_02/Q_2.py:61-63 | Letters in any case with surrounding whitespace analyse as their lowercase form |
| Analyzer.NonLetterIsInvalid | Assignment_02/Q_2.py:61-63 | A word holding a character that is neither whitespace nor a letter after lowercasing is invalid |
| Analyzer.BlankIsInvalid | Assignment_02/Q_2.py:61-63 | An empty or all-whitespace word is invalid |
| Corpus.CorpusWordSingular | Assignment_02/Q_2.py:70-71 | A corpus word not ending in "s" and not irregular analyses as `w+N+SG` against the corpus's roots |
| Corpus.CorpusPluralRoot | Assignment_02/Q_2.py:131-136 | A plural tag over a corpus's roots names a corpus word or an irregular root, and the word is irregular or that root's regular plural |
| Corpus.NoRootEndsInS | Assignment_02/Q_2.py:31-57 | In a list with no word ending in "ss" or "ses", no string ending in "s" is a root |
| Corpus.SampleRoots | Assignment_02/Q_2.py:31-57 | Over the sample corpus, fox, boy, try and watch are roots and no string ending in "s" is one, not even "bus" |
| Corpus.RootAndPlural | Assignment_02/Q_2.py:65-120 | A non-irregular root other than "y", not ending in "e", whose plural is not a root, analyses as singular, and its plural analyses as plural of it |
| Corpus.SamplePlural | Assignment_02/Q_2.py:131-136 | Over the sample corpus, each of fox, boy, try and watch is singular and its plural analyses back to it |
| Corpus.SampleSpellings | Assignment_02/Q_2.py:74-95 | The regular plurals of fox, try, boy and watch are foxes, tries, boys and watches |
| Corpus.SampleAnalyses | Assignment_02/Q_2.py:145-148 | Over the sample corpus, foxes, tries, boys and watches analyse to fox+N+PL, try+N+PL, boy+N+PL and watch+N+PL |
| Corpus.SampleFoxs | Assignment_02/Q_2.py:145-148 | Over the sample corpus, "foxs" is invalid |
| Corpus.SampleBusss | Assignment_02/Q_2.py:145-148 | Over the sample corpus, "busss" is invalid |
| Corpus.SampleBus | Assignment_02/Q_2.py:145-148 | Over the sample corpus, "bus" is invalid: it ends in "s", so it is not a root, and "bu" is not a root either |

## Left out

- `load_words`, `process_corpus` and the command-line entry point are not modelled. They read and write files, sort, print, and parse arguments. `Corpus` models only their use of the core: roots are built once from the whole list, then every word is analysed against them.
- `Render` gives the tag text, but the output line `"{w} = {tag}"` is not modelled.
- Text.Normalize: lowercasing covers ASCII `A`-`Z` and the Kelvin sign, the one other character Python lowercases to an ASCII letter. Every other character is kept unchanged. Such a character can never be part of a token, so every verdict agrees with Python's `lower()`. The lowered string itself can differ from Python's: Python lowercases "İ" to two characters.
- Stripping uses the character set of Python's `str.isspace`.
- The regular expression engine is not modelled. `IsToken` states the pattern `^[a-z]+$` directly. The `$`-before-final-newline case cannot arise because stripping has already removed any final newline.
- RootBuilder.BuildCandidateRoots takes the word list as a sequence and returns a mathematical set. Python's hash-set iteration order is not modelled because nothing depends on it. The third pass picks irregular entries in an arbitrary order.
- Idempotence (classifying a word twice gives the same tag) needs no lemma: `AnalyzeWord` is a function.
- The plurals of roots ending in "e" (cake → cakes, horse → horses) and of the root "y" are never recognised. The "es" rule takes "cakes" first and looks for "cak". This follows from the documented first-match rule and is stated by `PluralRecognised`. It is not listed as a defect.
