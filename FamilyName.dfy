/** The default family of a font name: Swift's `split(separator: "-")`, which
    omits empty pieces, followed by `.first ?? ""`. */
module FamilyName {
  import opened Wrappers

  /** The separator between a font's family and its style suffix. */
  const Hyphen: char := '-'

  /** The longest prefix of `s` that holds no `sep`. */
  function Word(s: seq<char>, sep: char): (w: seq<char>)
    ensures |w| <= |s| && w == s[..|w|]
    ensures sep !in w
    ensures |w| < |s| ==> s[|w|] == sep
  {
    if s == [] || s[0] == sep then [] else [s[0]] + Word(s[1..], sep)
  }

  /** Swift's `split(separator:)` with its default `omittingEmptySubsequences:
      true`. Its contract states that every piece is non-empty and free of
      `sep`; `FirstPieceIsFirstRun` pins down the first piece, the only one
      `defaultFamily` uses. */
  function Split(s: seq<char>, sep: char): (pieces: seq<seq<char>>)
    ensures forall i :: 0 <= i < |pieces| ==> pieces[i] != [] && sep !in pieces[i]
    decreases |s|
  {
    if s == [] then []
    else if s[0] == sep then Split(s[1..], sep)
    else
      var w := Word(s, sep);
      [w] + Split(s[|w|..], sep)
  }

  /** The pieces glued back together, with nothing between them. */
  function Concat(pieces: seq<seq<char>>): seq<char>
  {
    if pieces == [] then [] else pieces[0] + Concat(pieces[1..])
  }

  /** `s` with every `sep` deleted. */
  function Without(s: seq<char>, sep: char): seq<char>
  {
    if s == [] then [] else (if s[0] == sep then [] else [s[0]]) + Without(s[1..], sep)
  }

  /** The number of `sep` characters at the front of `s`. */
  function LeadingCount(s: seq<char>, sep: char): (k: nat)
    ensures k <= |s|
    ensures forall i :: 0 <= i < k ==> s[i] == sep
    ensures k < |s| ==> s[k] != sep
  {
    if s != [] && s[0] == sep then 1 + LeadingCount(s[1..], sep) else 0
  }

  /** `name.defaultFamily`: the first piece of the split, or the empty string.
      That is the first maximal run of non-hyphen characters of `name`: it
      starts right after the leading hyphens, holds no hyphen, and ends at a
      hyphen or at the end of `name`. It is empty exactly when `name` has no
      character other than a hyphen. */
  function DefaultFamily(name: seq<char>): (family: seq<char>)
    ensures var k := LeadingCount(name, Hyphen);
            && k + |family| <= |name|
            && family == name[k..k + |family|]
            && Hyphen !in family
            && (k + |family| < |name| ==> name[k + |family|] == Hyphen)
            && (family == [] <==> forall i :: 0 <= i < |name| ==> name[i] == Hyphen)
  {
    FirstPieceIsFirstRun(name, Hyphen);
    var pieces := Split(name, Hyphen);
    (if pieces == [] then None else Some(pieces[0])).GetOr("")
  }

  lemma {:induction false} WithoutAppend(a: seq<char>, b: seq<char>, sep: char)
    ensures Without(a + b, sep) == Without(a, sep) + Without(b, sep)
  {
    if a == [] {
      assert a + b == b;
    } else {
      assert (a + b)[1..] == a[1..] + b;
      WithoutAppend(a[1..], b, sep);
    }
  }

  lemma {:induction false} WithoutAbsent(s: seq<char>, sep: char)
    requires sep !in s
    ensures Without(s, sep) == s
  {
    if s != [] {
      WithoutAbsent(s[1..], sep);
    }
  }

  /** Splitting loses exactly the separators: the pieces, concatenated, are
      the input with every separator deleted. */
  lemma {:induction false} SplitLosesOnlySeparators(s: seq<char>, sep: char)
    ensures Concat(Split(s, sep)) == Without(s, sep)
    decreases |s|
  {
    if s == [] {
    } else if s[0] == sep {
      SplitLosesOnlySeparators(s[1..], sep);
    } else {
      var w := Word(s, sep);
      var rest := s[|w|..];
      SplitLosesOnlySeparators(rest, sep);
      assert s == w + rest;
      WithoutAppend(w, rest, sep);
      WithoutAbsent(w, sep);
      assert ([w] + Split(rest, sep))[1..] == Split(rest, sep);
    }
  }

  /** The split is empty exactly when the input is made of separators only. */
  lemma {:induction false} SplitEmptyIff(s: seq<char>, sep: char)
    ensures Split(s, sep) == [] <==> forall i :: 0 <= i < |s| ==> s[i] == sep
    decreases |s|
  {
    if s != [] && s[0] == sep {
      SplitEmptyIff(s[1..], sep);
      if forall i :: 0 <= i < |s| - 1 ==> s[1..][i] == sep {
        forall i | 0 <= i < |s| ensures s[i] == sep {
          if i > 0 { assert s[1..][i - 1] == s[i]; }
        }
      }
    }
  }

  /** Reference definition: the first piece of the split is the word that
      starts after the leading separators. */
  lemma {:induction false} FirstPieceAfterLeading(s: seq<char>, sep: char)
    requires Split(s, sep) != []
    ensures Split(s, sep)[0] == Word(s[LeadingCount(s, sep)..], sep)
    decreases |s|
  {
    if s[0] == sep {
      FirstPieceAfterLeading(s[1..], sep);
      assert s[1..][LeadingCount(s[1..], sep)..] == s[LeadingCount(s, sep)..];
    }
  }

  /** The first piece of the split (or the empty sequence when there is none)
      is the first maximal run of `s` free of `sep`; it is empty exactly when
      `s` holds nothing but separators. */
  lemma FirstPieceIsFirstRun(s: seq<char>, sep: char)
    ensures var k := LeadingCount(s, sep);
            var first := if Split(s, sep) == [] then [] else Split(s, sep)[0];
            && k + |first| <= |s|
            && first == s[k..k + |first|]
            && sep !in first
            && (k + |first| < |s| ==> s[k + |first|] == sep)
            && (first == [] <==> forall i :: 0 <= i < |s| ==> s[i] == sep)
  {
    var k := LeadingCount(s, sep);
    SplitEmptyIff(s, sep);
    if Split(s, sep) != [] {
      FirstPieceAfterLeading(s, sep);
      var w := Word(s[k..], sep);
      assert s[k..][..|w|] == s[k..k + |w|];
      assert k + |w| < |s| ==> s[k..][|w|] == s[k + |w|];
    } else {
      assert k == |s|;
    }
  }

  /** A name without a hyphen is its own family. */
  lemma NoHyphenIsOwnFamily(name: seq<char>)
    requires Hyphen !in name
    ensures DefaultFamily(name) == name
  {
    assert LeadingCount(name, Hyphen) == 0;
  }

  /** When the first hyphen of `name` sits at `k > 0`, the family is the text
      before it. */
  lemma FamilyBeforeFirstHyphen(name: seq<char>, k: nat)
    requires 0 < k < |name| && name[k] == Hyphen
    requires forall i :: 0 <= i < k ==> name[i] != Hyphen
    ensures DefaultFamily(name) == name[..k]
  {
    var family := DefaultFamily(name);
    assert LeadingCount(name, Hyphen) == 0;
  }

  /** Leading hyphens are skipped, unlike "the text before the first hyphen". */
  lemma LeadingHyphenSkipped(name: seq<char>)
    ensures DefaultFamily([Hyphen] + name) == DefaultFamily(name)
  {
    assert ([Hyphen] + name)[1..] == name;
  }

  /** A name built as family, hyphen, style has that family back, whatever
      the style. */
  lemma FamilyOfStyledName(family: seq<char>, style: seq<char>)
    requires family != [] && Hyphen !in family
    ensures DefaultFamily(family + [Hyphen] + style) == family
  {
    var name := family + [Hyphen] + style;
    assert name[|family|] == Hyphen;
    assert forall i :: 0 <= i < |family| ==> name[i] == family[i];
    FamilyBeforeFirstHyphen(name, |family|);
    assert name[..|family|] == family;
  }

  lemma OpenDyslexicFamily()
    ensures DefaultFamily("OpenDyslexic-Regular") == "OpenDyslexic"
  {
    assert "OpenDyslexic" + [Hyphen] + "Regular" == "OpenDyslexic-Regular";
    FamilyOfStyledName("OpenDyslexic", "Regular");
  }

  lemma LeadingHyphenExample()
    ensures DefaultFamily("-Bold") == "Bold"
  {
    LeadingHyphenSkipped("Bold");
    assert [Hyphen] + "Bold" == "-Bold";
    NoHyphenIsOwnFamily("Bold");
  }

  lemma OnlyHyphensExample()
    ensures DefaultFamily("---") == ""
    ensures DefaultFamily("") == ""
  {
    assert forall i :: 0 <= i < |"---"| ==> "---"[i] == Hyphen;
  }
}
