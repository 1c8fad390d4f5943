/** The analyzer's fixed vocabulary: the irregular-noun table, the vowel set,
    the sibilant endings, and the tag a classification renders to. */
module Nouns {
  import opened Text

  /** The number marker of a tag. */
  datatype Number = SG | PL
  {
    function Name(): string
    {
      match this
      case SG => "SG"
      case PL => "PL"
    }
  }

  /** One entry of the irregular table: the root a surface form belongs to. */
  datatype Entry = Entry(root: string, number: Number)

  /** Outcome of classifying a word: the sentinel, or a noun tag. */
  datatype Analysis = Invalid | Tag(root: string, number: Number)

  /** Surface form -> (root, number) for the nine irregular plurals. */
  const Irregulars: map<string, Entry> := map[
    "children" := Entry("child", PL),
    "men" := Entry("man", PL),
    "women" := Entry("woman", PL),
    "people" := Entry("person", PL),
    "mice" := Entry("mouse", PL),
    "geese" := Entry("goose", PL),
    "teeth" := Entry("tooth", PL),
    "feet" := Entry("foot", PL),
    "oxen" := Entry("ox", PL)
  ]

  const Vowels: set<char> := {'a', 'e', 'i', 'o', 'u'}

  /** Every root the irregular table names. */
  function IrregularRoots(): set<string>
  {
    set k | k in Irregulars :: Irregulars[k].root
  }

  /** The irregular table holds tokens only, every entry is plural, and no
      surface form ends in "s" (so no regular rule could also claim it). */
  lemma IrregularsWellFormed()
    ensures forall k :: k in Irregulars ==>
      IsToken(k) && IsToken(Irregulars[k].root) && Irregulars[k].number == PL && !EndsWith(k, "s")
  {
    forall k | k in Irregulars
      ensures IsToken(k) && IsToken(Irregulars[k].root) && Irregulars[k].number == PL && !EndsWith(k, "s")
    {
      IrregularEntry(k);
    }
  }

  lemma IrregularEntry(k: string)
    requires k in Irregulars
    ensures IsToken(k) && IsToken(Irregulars[k].root) && Irregulars[k].number == PL && !EndsWith(k, "s")
  {
    assert k in {"children", "men", "women", "people", "mice", "geese", "teeth", "feet", "oxen"};
    SurfaceShape(k);
    assert Irregulars[k].root in {"child", "man", "woman", "person", "mouse", "goose", "tooth", "foot", "ox"};
    RootShape(Irregulars[k].root);
  }

  /** Each surface form of the table is a token not ending in "s". */
  lemma SurfaceShape(k: string)
    requires k in {"children", "men", "women", "people", "mice", "geese", "teeth", "feet", "oxen"}
    ensures IsToken(k) && !EndsWith(k, "s")
  {
    assert k[|k| - 1] != 's';
    forall i | 0 <= i < |k| ensures IsLowerLetter(k[i]) { }
  }

  /** Each root of the table is a token. */
  lemma RootShape(r: string)
    requires r in {"child", "man", "woman", "person", "mouse", "goose", "tooth", "foot", "ox"}
    ensures IsToken(r)
  {
    forall i | 0 <= i < |r| ensures IsLowerLetter(r[i]) { }
  }

  /** The irregular roots, listed. */
  lemma IrregularRootsListed()
    ensures IrregularRoots() == {"child", "man", "woman", "person", "mouse", "goose", "tooth", "foot", "ox"}
  {
    assert Irregulars.Keys == {"children", "men", "women", "people", "mice", "geese", "teeth", "feet", "oxen"};
  }

  /** No irregular root ends in "s". */
  lemma IrregularRootsNotEndingInS(r: string)
    requires r in IrregularRoots()
    ensures !EndsWith(r, "s")
  {
    IrregularRootsListed();
    assert r[|r| - 1] != 's';
  }

  /** No irregular surface form ends in "s". */
  lemma NotIrregular(t: string)
    requires EndsWith(t, "s")
    ensures t !in Irregulars
  {
    IrregularsWellFormed();
  }

  /** A word whose plural takes "-es": it ends in "ch", "sh", "s", "z" or "x". */
  predicate Sibilant(s: string)
  {
    EndsWith(s, "ch") || EndsWith(s, "sh") || (|s| > 0 && s[|s| - 1] in {'s', 'z', 'x'})
  }

  /** A root ending in "y" after a non-vowel, whose plural is spelled "-ies". */
  predicate ConsonantY(s: string)
  {
    |s| >= 2 && s[|s| - 1] == 'y' && s[|s| - 2] !in Vowels
  }

  /** For a root ending in "y" after another letter, the vowel set alone
      decides which rule spells its plural: "ies" after a non-vowel, a bare
      "s" after a vowel. */
  lemma VowelDecidesYPlural(root: string)
    requires |root| >= 2 && EndsWith(root, "y")
    ensures EndsWith(PluralOf(root), "ies") <==> root[|root| - 2] !in Vowels
    ensures root[|root| - 2] in Vowels ==> PluralOf(root) == root + "s"
  {
    var p := PluralOf(root);
    if root[|root| - 2] in Vowels {
      assert !ConsonantY(root);
      assert !Sibilant(root) by {
        assert root[|root| - 1] == 'y';
      }
      assert p == root + "s";
      assert p[|p| - 3] == root[|root| - 2];
    } else {
      assert ConsonantY(root);
      assert p[|p| - 3..] == "ies";
    }
  }

  /** The regular plural of a root, as the three suffix rules spell it:
      consonant+"y" -> "ies", sibilant -> "+es", anything else -> "+s". */
  function PluralOf(root: string): (p: string)
    ensures EndsWith(p, "s") && |p| > |root|
    ensures IsToken(root) ==> IsToken(p)
  {
    if ConsonantY(root) then root[..|root| - 1] + "ies"
    else if Sibilant(root) then root + "es"
    else root + "s"
  }

  /** The text written for an analysis: `root+N+SG`, `root+N+PL` or `Invalid Word`. */
  function Render(a: Analysis): (r: string)
    ensures a.Tag? <==> '+' in r
    ensures a.Tag? ==> |r| == |a.root| + 5 && r[..|a.root|] == a.root && r[|a.root|] == '+'
  {
    match a
    case Invalid => "Invalid Word"
    case Tag(root, n) => root + "+N+" + n.Name()
  }

  /** Distinct analyses render to distinct text, so the rendered tag loses
      nothing: its root and number can be read back. */
  lemma RenderInjective(a: Analysis, b: Analysis)
    ensures Render(a) == Render(b) ==> a == b
  {
    if Render(a) == Render(b) && a.Tag? && b.Tag? {
      var s := Render(a);
      assert |a.root| == |b.root|;
      assert a.root == s[..|a.root|] == b.root;
      assert a.number.Name() == s[|a.root| + 3..];
      assert b.number.Name() == s[|a.root| + 3..];
    }
  }
}
