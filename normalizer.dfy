/** The Arabic normaliser applied to both the reference phrase and the
    transcript before they are compared (normalize_arabic in backend.py).

    normalize_arabic runs four regular-expression substitutions and then a
    strip:
      1. delete every code point in U+064B..U+065F and the tatweel U+0640;
      2. replace alef with hamza above, alef with hamza below and alef with
         madda by bare alef;
      3. replace teh marbuta by the Latin letter 'h';
      4. replace alef maksura by the Latin letter 'y';
      5. strip leading and trailing whitespace, as Python's str.strip does.
    Each substitution works one code point at a time, so steps 2-4 are one
    pass of a per-character map. */
module ArabicNormalizer {

  const Tatweel: char := '\U{0640}'
  const Alef: char := '\U{0627}'
  const AlefHamzaAbove: char := '\U{0623}'
  const AlefHamzaBelow: char := '\U{0625}'
  const AlefMadda: char := '\U{0622}'
  const TehMarbuta: char := '\U{0629}'
  const AlefMaksura: char := '\U{0649}'

  /** Python's str.isspace: the code points whose bidirectional class is
      WS, B or S, or whose general category is Zs. */
  predicate IsSpace(c: char) {
    || ('\t' <= c <= '\r')
    || ('\U{1C}' <= c <= '\U{1F}')
    || c == ' '
    || c == '\U{85}'
    || c == '\U{A0}'
    || c == '\U{1680}'
    || ('\U{2000}' <= c <= '\U{200A}')
    || c == '\U{2028}'
    || c == '\U{2029}'
    || c == '\U{202F}'
    || c == '\U{205F}'
    || c == '\U{3000}'
  }

  /** The characters the first substitution deletes: the tashkeel block
      U+064B..U+065F and the tatweel. */
  predicate IsMark(c: char) {
    ('\U{064B}' <= c <= '\U{065F}') || c == Tatweel
  }

  /** The letters the folding substitutions replace. */
  predicate IsVariant(c: char) {
    c == AlefHamzaAbove || c == AlefHamzaBelow || c == AlefMadda || c == TehMarbuta || c == AlefMaksura
  }

  predicate NoMarks(s: string) {
    forall i | 0 <= i < |s| :: !IsMark(s[i])
  }

  predicate NoVariants(s: string) {
    forall i | 0 <= i < |s| :: !IsVariant(s[i])
  }

  predicate AllSpace(s: string) {
    forall i | 0 <= i < |s| :: IsSpace(s[i])
  }

  /** Neither the first nor the last character is whitespace. */
  predicate Trimmed(s: string) {
    s == [] || (!IsSpace(s[0]) && !IsSpace(s[|s| - 1]))
  }

  /** The strings the normaliser leaves as they are. */
  predicate IsCanonical(s: string) {
    NoMarks(s) && NoVariants(s) && Trimmed(s)
  }

  // ---------------------------------------------------------------------
  // Step 1: deleting the marks

  function StripMarks(s: string): (r: string)
    ensures |r| <= |s|
    ensures NoMarks(r)
    ensures NoMarks(s) ==> r == s
  {
    if s == [] then []
    else (if IsMark(s[0]) then [] else [s[0]]) + StripMarks(s[1..])
  }

  /** Deletion works character by character: it distributes over
      concatenation, so every kept character stays in its order. */
  lemma {:induction false} StripMarksAppend(a: string, b: string)
    ensures StripMarks(a + b) == StripMarks(a) + StripMarks(b)
  {
    if a == [] {
      assert a + b == b;
    } else {
      var head := if IsMark(a[0]) then [] else [a[0]];
      var ab := a + b;
      assert ab[0] == a[0];
      assert ab[1..] == a[1..] + b;
      StripMarksAppend(a[1..], b);
      calc {
        StripMarks(ab);
        head + StripMarks(a[1..] + b);
        head + (StripMarks(a[1..]) + StripMarks(b));
        (head + StripMarks(a[1..])) + StripMarks(b);
      }
    }
  }

  /** A single character is deleted exactly when it is a mark. */
  lemma StripMarksChar(c: char)
    ensures StripMarks([c]) == if IsMark(c) then [] else [c]
  {
    assert [c][1..] == [];
  }

  /** Deletion keeps every non-mark character exactly as often as the input
      has it. */
  lemma {:induction false} StripMarksCounts(s: string, c: char)
    requires !IsMark(c)
    ensures multiset(StripMarks(s))[c] == multiset(s)[c]
  {
    if s != [] {
      StripMarksCounts(s[1..], c);
      assert s == [s[0]] + s[1..];
      assert multiset(s) == multiset([s[0]]) + multiset(s[1..]);
    }
  }

  // ---------------------------------------------------------------------
  // Steps 2-4: folding the letter variants

  function FoldChar(c: char): (d: char)
    ensures !IsVariant(d)
    ensures IsMark(d) == IsMark(c)
    ensures IsSpace(d) == IsSpace(c)
    ensures !IsVariant(c) ==> d == c
  {
    if c == AlefHamzaAbove || c == AlefHamzaBelow || c == AlefMadda then Alef
    else if c == TehMarbuta then 'h'
    else if c == AlefMaksura then 'y'
    else c
  }

  function FoldLetters(s: string): (r: string)
    ensures |r| == |s|
    ensures forall i | 0 <= i < |s| :: r[i] == FoldChar(s[i])
  {
    if s == [] then [] else [FoldChar(s[0])] + FoldLetters(s[1..])
  }

  /** Folding substitutes letter for letter: the result has no variant left,
      has a mark exactly where the input has one, and leaves a string without
      variants unchanged. */
  lemma FoldLettersSpec(s: string)
    ensures NoVariants(FoldLetters(s))
    ensures NoMarks(FoldLetters(s)) == NoMarks(s)
    ensures NoVariants(s) ==> FoldLetters(s) == s
  {
    var r := FoldLetters(s);
    if !NoMarks(s) {
      var i :| 0 <= i < |s| && IsMark(s[i]);
      assert IsMark(r[i]);
    }
  }

  lemma FoldLettersAppend(a: string, b: string)
    ensures FoldLetters(a + b) == FoldLetters(a) + FoldLetters(b)
  {
    var l, r := FoldLetters(a + b), FoldLetters(a) + FoldLetters(b);
    assert |l| == |r|;
    forall i | 0 <= i < |l| ensures l[i] == r[i] {
      if i < |a| {
        assert (a + b)[i] == a[i];
      } else {
        assert (a + b)[i] == b[i - |a|];
      }
    }
  }

  // ---------------------------------------------------------------------
  // Step 5: str.strip()

  /** The number of whitespace characters at the start of s. */
  function LeadingSpaces(s: string): (n: nat)
    ensures n <= |s|
    ensures forall i | 0 <= i < n :: IsSpace(s[i])
    ensures n < |s| ==> !IsSpace(s[n])
  {
    if s == [] || !IsSpace(s[0]) then 0 else 1 + LeadingSpaces(s[1..])
  }

  /** The number of whitespace characters at the end of s. */
  function TrailingSpaces(s: string): (n: nat)
    ensures n <= |s|
    ensures forall i | |s| - n <= i < |s| :: IsSpace(s[i])
    ensures n < |s| ==> !IsSpace(s[|s| - 1 - n])
  {
    if s == [] || !IsSpace(s[|s| - 1]) then 0 else 1 + TrailingSpaces(s[..|s| - 1])
  }

  /** Strip whitespace on both ends. The result is the slice of s that
      starts after its leading whitespace; everything outside that slice is
      whitespace, and the slice neither starts nor ends with whitespace. */
  function Trim(s: string): (r: string)
    ensures |r| <= |s|
    ensures LeadingSpaces(s) + |r| <= |s| && r == s[LeadingSpaces(s)..LeadingSpaces(s) + |r|]
    ensures forall i | LeadingSpaces(s) + |r| <= i < |s| :: IsSpace(s[i])
    ensures Trimmed(r)
  {
    var t := s[LeadingSpaces(s)..];
    t[..|t| - TrailingSpaces(t)]
  }

  lemma LeadingSpacesOf(p: string, m: string)
    requires AllSpace(p) && (m == [] || !IsSpace(m[0]))
    ensures LeadingSpaces(p + m) == |p|
  {
    var s := p + m;
    assert forall i | 0 <= i < |p| :: s[i] == p[i];
    assert |p| < |s| ==> s[|p|] == m[0];
  }

  lemma TrailingSpacesOf(m: string, q: string)
    requires AllSpace(q) && (m == [] || !IsSpace(m[|m| - 1]))
    ensures TrailingSpaces(m + q) == |q|
  {
    var s := m + q;
    assert forall i | |m| <= i < |s| :: s[i] == q[i - |m|];
    assert |q| < |s| ==> s[|s| - 1 - |q|] == m[|m| - 1];
  }

  /** Strip is determined by its three properties: whatever the whitespace
      around a string without edge whitespace, strip returns that string. */
  lemma TrimUnique(p: string, m: string, q: string)
    requires AllSpace(p) && AllSpace(q) && Trimmed(m)
    ensures Trim(p + m + q) == m
  {
    var s := p + m + q;
    if m == [] {
      assert s == p + q;
      assert AllSpace(s);
    } else {
      assert s == p + (m + q);
      LeadingSpacesOf(p, m + q);
      assert s[|p|..] == m + q;
      TrailingSpacesOf(m, q);
      assert (m + q)[..|m|] == m;
    }
  }

  lemma TrimIdempotent(s: string)
    ensures Trim(Trim(s)) == Trim(s)
  {
    var r := Trim(s);
    assert [] + r + [] == r;
    TrimUnique([], r, []);
  }

  /** Strip keeps a property that holds of every character. */
  lemma TrimKeepsCharacters(s: string)
    ensures NoMarks(s) ==> NoMarks(Trim(s))
    ensures NoVariants(s) ==> NoVariants(Trim(s))
  {
    var r, l := Trim(s), LeadingSpaces(s);
    forall i | 0 <= i < |r| ensures r[i] == s[l + i] {
    }
  }

  // ---------------------------------------------------------------------
  // normalize_arabic

  function Normalize(s: string): (r: string)
    ensures s == "" ==> r == ""
    ensures |r| <= |s|
    ensures IsCanonical(r)
  {
    if s == "" then ""
    else
      var stripped := StripMarks(s);
      var folded := FoldLetters(stripped);
      FoldLettersSpec(stripped);
      TrimKeepsCharacters(folded);
      Trim(folded)
  }

  /** The canonical strings are exactly the fixed points of the normaliser. */
  lemma NormalizeFixedPoints(s: string)
    ensures Normalize(s) == s <==> IsCanonical(s)
  {
    if IsCanonical(s) && s != "" {
      FoldLettersSpec(s);
      assert [] + s + [] == s;
      TrimUnique([], s, []);
    }
  }

  lemma NormalizeIdempotent(s: string)
    ensures Normalize(Normalize(s)) == Normalize(s)
  {
    NormalizeFixedPoints(Normalize(s));
  }

  /** Deleting a mark anywhere in the input leaves the normal form
      unchanged. */
  lemma NormalizeIgnoresMark(x: string, d: char, y: string)
    requires IsMark(d)
    ensures Normalize(x + [d] + y) == Normalize(x + y)
  {
    StripMarksAppend(x + [d], y);
    StripMarksAppend(x, [d]);
    StripMarksChar(d);
    StripMarksAppend(x, y);
    assert StripMarks(x + [d] + y) == StripMarks(x + y);
    if x + y == "" {
      assert StripMarks(x + [d] + y) == "";
    }
  }

  /** Two letters that fold to the same character are interchangeable. */
  lemma NormalizeFoldsVariant(x: string, c: char, c': char, y: string)
    requires !IsMark(c) && !IsMark(c') && FoldChar(c) == FoldChar(c')
    ensures Normalize(x + [c] + y) == Normalize(x + [c'] + y)
  {
    StripMarksAppend(x + [c], y);
    StripMarksAppend(x, [c]);
    StripMarksChar(c);
    StripMarksAppend(x + [c'], y);
    StripMarksAppend(x, [c']);
    StripMarksChar(c');
    var sx, sy := StripMarks(x), StripMarks(y);
    FoldLettersAppend(sx + [c], sy);
    FoldLettersAppend(sx, [c]);
    FoldLettersAppend(sx + [c'], sy);
    FoldLettersAppend(sx, [c']);
    assert FoldLetters([c]) == FoldLetters([c']);
  }

  /** Each alef variant normalises like bare alef. */
  lemma AlefVariantsFold(x: string, y: string)
    ensures Normalize(x + [AlefHamzaAbove] + y) == Normalize(x + [Alef] + y)
    ensures Normalize(x + [AlefHamzaBelow] + y) == Normalize(x + [Alef] + y)
    ensures Normalize(x + [AlefMadda] + y) == Normalize(x + [Alef] + y)
  {
    NormalizeFoldsVariant(x, AlefHamzaAbove, Alef, y);
    NormalizeFoldsVariant(x, AlefHamzaBelow, Alef, y);
    NormalizeFoldsVariant(x, AlefMadda, Alef, y);
  }

  /** The Latin placeholders collide with real Latin letters: teh marbuta
      normalises like 'h' and alef maksura like 'y'. */
  lemma PlaceholdersCollide(x: string, y: string)
    ensures Normalize(x + [TehMarbuta] + y) == Normalize(x + "h" + y)
    ensures Normalize(x + [AlefMaksura] + y) == Normalize(x + "y" + y)
  {
    NormalizeFoldsVariant(x, TehMarbuta, 'h', y);
    NormalizeFoldsVariant(x, AlefMaksura, 'y', y);
  }
}
