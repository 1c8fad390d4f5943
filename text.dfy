/** String helpers the analyzer relies on: suffix tests, the token pattern
    `^[a-z]+$`, and the `lower().strip()` normalisation applied to each input. */
module Text {

  /** `s` ends with `suffix`, as Python's `str.endswith` with a single suffix. */
  predicate EndsWith(s: string, suffix: string)
  {
    |suffix| <= |s| && s[|s| - |suffix|..] == suffix
  }

  /** A string ending with `suffix` is its prefix followed by `suffix`. */
  lemma EndsWithSplit(s: string, suffix: string)
    requires EndsWith(s, suffix)
    ensures s == s[..|s| - |suffix|] + suffix
  {
  }

  /** A lowercase ASCII letter, the character class `[a-z]`. */
  predicate IsLowerLetter(c: char)
  {
    'a' <= c <= 'z'
  }

  /** A token: the whole string matches `^[a-z]+$`. It holds no whitespace
      and no character that lowercasing changes, so normalisation keeps it. */
  predicate IsToken(s: string)
    ensures IsToken(s) ==> forall i :: 0 <= i < |s| ==> !IsSpace(s[i]) && LowerChar(s[i]) == s[i]
  {
    |s| > 0 && forall i :: 0 <= i < |s| ==> IsLowerLetter(s[i])
  }

  /** The characters Python's `str.isspace` accepts (and `str.strip` removes). */
  predicate IsSpace(c: char)
  {
    c == ' ' || '\t' <= c <= '\r' || '\U{1C}' <= c <= '\U{1F}'
    || c == '\U{85}' || c == '\U{A0}' || c == '\U{1680}'
    || '\U{2000}' <= c <= '\U{200A}' || c == '\U{2028}' || c == '\U{2029}'
    || c == '\U{202F}' || c == '\U{205F}' || c == '\U{3000}'
  }

  /** Lowercasing of one character: ASCII `A`..`Z`, and the Kelvin sign, the one
      other character whose lowercase form is an ASCII letter. Every other
      character is kept as it is. */
  function LowerChar(c: char): (d: char)
    ensures IsLowerLetter(d) <==> IsLowerLetter(c) || 'A' <= c <= 'Z' || c == '\U{212A}'
    ensures IsSpace(d) <==> IsSpace(c)
  {
    if 'A' <= c <= 'Z' then (c as int + 32) as char
    else if c == '\U{212A}' then 'k'
    else c
  }

  /** Python's `str.lower()` as far as tokens are concerned: the lowered
      string is a token exactly when every character is an ASCII letter of
      either case or the Kelvin sign. */
  function Lower(s: string): (r: string)
    ensures |r| == |s|
    ensures forall i :: 0 <= i < |s| ==> r[i] == LowerChar(s[i])
    ensures IsToken(r) <==> |s| > 0 && forall i :: 0 <= i < |s| ==> IsAsciiLetter(s[i]) || s[i] == '\U{212A}'
  {
    seq(|s|, i requires 0 <= i < |s| => LowerChar(s[i]))
  }

  /** Python's `lstrip()`: drops the longest all-whitespace prefix. */
  function TrimStart(s: string): (r: string)
    ensures |r| <= |s| && r == s[|s| - |r|..]
    ensures forall i :: 0 <= i < |s| - |r| ==> IsSpace(s[i])
    ensures |r| > 0 ==> !IsSpace(r[0])
  {
    if |s| > 0 && IsSpace(s[0]) then TrimStart(s[1..]) else s
  }

  /** Python's `rstrip()`: drops the longest all-whitespace suffix. */
  function TrimEnd(s: string): (r: string)
    ensures |r| <= |s| && r == s[..|r|]
    ensures forall i :: |r| <= i < |s| ==> IsSpace(s[i])
    ensures |r| > 0 ==> !IsSpace(r[|r| - 1])
  {
    if |s| > 0 && IsSpace(s[|s| - 1]) then TrimEnd(s[..|s| - 1]) else s
  }

  /** Python's `strip()`. */
  function Strip(s: string): string
  {
    TrimEnd(TrimStart(s))
  }

  /** `w.lower().strip()`: the form of an input word the analyzer examines.
      A token is its own normal form. */
  function Normalize(w: string): (t: string)
    ensures IsToken(w) ==> t == w
  {
    var low := Lower(w);
    assert IsToken(w) ==> low == w;
    Strip(low)
  }

  /** An ASCII letter, either case. */
  predicate IsAsciiLetter(c: char)
  {
    'a' <= c <= 'z' || 'A' <= c <= 'Z'
  }

  /** Whitespace around a word and the case of its letters do not matter:
      a run of ASCII letters, padded with whitespace on either side,
      normalises to its lowercase form, which is a token. */
  lemma NormalizePadded(pre: string, s: string, post: string)
    requires forall i :: 0 <= i < |pre| ==> IsSpace(pre[i])
    requires forall i :: 0 <= i < |post| ==> IsSpace(post[i])
    requires |s| > 0 && forall i :: 0 <= i < |s| ==> IsAsciiLetter(s[i])
    ensures Normalize(pre + s + post) == Lower(s) && IsToken(Lower(s))
  {
    var ls := Lower(s);
    assert IsToken(ls) by {
      forall i | 0 <= i < |ls| ensures IsLowerLetter(ls[i]) {
        assert ls[i] == LowerChar(s[i]);
      }
    }
    assert Lower(pre + s + post) == pre + (ls + post) by {
      var x := pre + s + post;
      forall i | 0 <= i < |x| ensures Lower(x)[i] == (pre + (ls + post))[i] {
        if i < |pre| {
          assert x[i] == pre[i];
        } else if i < |pre| + |s| {
          assert x[i] == s[i - |pre|];
        } else {
          assert x[i] == post[i - |pre| - |s|];
        }
      }
    }
    TrimStartDropsSpaces(pre, ls + post);
    TrimEndDropsSpaces(ls, post);
  }

  /** A character that is not whitespace and does not lowercase to a letter
      survives normalisation, so the normal form is not a token. */
  lemma NonLetterSurvives(w: string, i: nat)
    requires i < |w| && !IsSpace(w[i]) && !IsLowerLetter(LowerChar(w[i]))
    ensures !IsToken(Normalize(w))
  {
    var low := Lower(w);
    var front := TrimStart(low);
    var t := TrimEnd(front);
    assert Normalize(w) == t;
    var d := |low| - |front|;
    assert !IsSpace(low[i]);
    assert d <= i;
    assert front[i - d] == low[i];
    assert i - d < |t|;
    assert t[i - d] == low[i];
    assert !IsLowerLetter(t[i - d]);
  }

  /** A word of whitespace only normalises to the empty string. */
  lemma BlankNormalizesToEmpty(w: string)
    requires forall i :: 0 <= i < |w| ==> IsSpace(w[i])
    ensures Normalize(w) == []
  {
    var low := Lower(w);
    assert forall i :: 0 <= i < |low| ==> IsSpace(low[i]);
    assert TrimStart(low) == [];
  }

  lemma {:induction false} TrimStartDropsSpaces(pre: string, s: string)
    requires forall i :: 0 <= i < |pre| ==> IsSpace(pre[i])
    requires |s| > 0 && !IsSpace(s[0])
    ensures TrimStart(pre + s) == s
  {
    if pre != [] {
      assert (pre + s)[1..] == pre[1..] + s;
      TrimStartDropsSpaces(pre[1..], s);
    }
  }

  lemma {:induction false} TrimEndDropsSpaces(s: string, post: string)
    requires forall i :: 0 <= i < |post| ==> IsSpace(post[i])
    requires |s| > 0 && !IsSpace(s[|s| - 1])
    ensures TrimEnd(s + post) == s
  {
    if post != [] {
      assert (s + post)[..|s + post| - 1] == s + post[..|post| - 1];
      TrimEndDropsSpaces(s, post[..|post| - 1]);
    } else {
      assert s + post == s;
    }
  }
}
