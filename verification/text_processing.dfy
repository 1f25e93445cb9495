/**
 * Text normalisation and whole-word term search (app/utils/textProcessing.ts),
 * together with the `\b…\b` matcher that the key-term highlighter reuses.
 *
 * `normalizeText` is three passes: lower-case, delete a fixed punctuation set,
 * then replace every run of two or more `\s` characters by one space.
 * `findTermInText` builds the regular expression `\b<term>\b` from the
 * normalised term without escaping it; the model therefore asks that the
 * normalised term hold no regular-expression metacharacter, so that the
 * expression is a literal between two word boundaries.
 */
module TextProcessing {
  import opened Types
  import opened Ascii

  /** The character class `[.,\/#!$%\^&\*;:{}=\-_`~()]` written out. */
  predicate IsStripped(c: char) {
    || c == '.' || c == ',' || c == '/' || c == '#' || c == '!' || c == '$' || c == '%'
    || c == '^' || c == '&' || c == '*' || c == ';' || c == ':' || c == '{' || c == '}'
    || c == '=' || c == '-' || c == '_' || c == '`' || c == '~' || c == '(' || c == ')'
  }

  predicate NoStripped(s: string) {
    forall i :: 0 <= i < |s| ==> !IsStripped(s[i])
  }

  /** No two adjacent `\s` characters. */
  predicate NoDoubleSpace(s: string) {
    forall i :: 0 <= i < |s| - 1 ==> !(IsSpace(s[i]) && IsSpace(s[i + 1]))
  }

  /** The characters of `s` that are not `\s`, in order. */
  function NonSpace(s: string): string {
    if s == [] then []
    else (if IsSpace(s[0]) then [] else [s[0]]) + NonSpace(s[1..])
  }

  // ---------------------------------------------------------------------
  // normalizeText
  // ---------------------------------------------------------------------

  /** `.replace(/[.,\/#!$%\^&\*;:{}=\-_`~()]/g, "")` */
  function StripPunctuation(s: string): (r: string)
    ensures |r| <= |s|
    ensures NoStripped(r)
    ensures forall c :: c in r <==> c in s && !IsStripped(c)
    ensures NoStripped(s) ==> r == s
  {
    if s == [] then []
    else
      assert s == [s[0]] + s[1..];
      (if IsStripped(s[0]) then [] else [s[0]]) + StripPunctuation(s[1..])
  }

  /** The length of the run of `\s` characters that starts `s`. */
  function LeadingSpaces(s: string): (n: nat)
    ensures n <= |s|
    ensures forall i :: 0 <= i < n ==> IsSpace(s[i])
    ensures n < |s| ==> !IsSpace(s[n])
  {
    if s == [] || !IsSpace(s[0]) then 0 else 1 + LeadingSpaces(s[1..])
  }

  /**
   * `.replace(/\s{2,}/g, " ")`: scanning from the left, each maximal run of
   * two or more `\s` characters becomes one space; a lone `\s` character is
   * kept as it is.
   */
  function CollapseWhitespace(s: string): (r: string)
    ensures |r| <= |s|
    ensures NoDoubleSpace(r)
    ensures |s| > 0 ==> |r| > 0 && (IsSpace(r[0]) <==> IsSpace(s[0]))
    ensures forall c :: c in r ==> c == ' ' || c in s
    decreases |s|
  {
    if s == [] then []
    else if IsSpace(s[0]) then
      var n := LeadingSpaces(s);
      var rest := CollapseWhitespace(s[n..]);
      assert forall c :: c in s[n..] ==> c in s;
      (if n >= 2 then " " else s[..1]) + rest
    else
      var rest := CollapseWhitespace(s[1..]);
      assert forall c :: c in s[1..] ==> c in s;
      s[..1] + rest
  }

  /**
   * Removing the punctuation is a filter: it works character by character,
   * so a concatenation is stripped part by part, and a single character is
   * kept exactly when it is outside the punctuation set.
   */
  lemma {:induction false} StripPunctuationIsFilter(a: string, b: string)
    ensures StripPunctuation(a + b) == StripPunctuation(a) + StripPunctuation(b)
    ensures |a| == 1 ==> StripPunctuation(a) == (if IsStripped(a[0]) then [] else a)
    decreases |a|
  {
    if a == [] {
      assert a + b == b;
    } else {
      var head := if IsStripped(a[0]) then [] else [a[0]];
      var sa, sb := StripPunctuation(a[1..]), StripPunctuation(b);
      StripPunctuationIsFilter(a[1..], b);
      SplitHead(a, b);
      StripPunctuationCons(a[0], a[1..] + b);
      StripPunctuationCons(a[0], a[1..]);
      ConcatAssoc(head, sa, sb);
      if |a| == 1 {
        assert a[1..] == [];
      }
    }
  }

  lemma ConcatAssoc(x: string, y: string, z: string)
    ensures x + (y + z) == (x + y) + z
  {
  }

  lemma SplitHead(a: string, b: string)
    requires a != []
    ensures a == [a[0]] + a[1..] && a + b == [a[0]] + (a[1..] + b)
  {
  }

  lemma StripPunctuationCons(c: char, s: string)
    ensures StripPunctuation([c] + s) == (if IsStripped(c) then [] else [c]) + StripPunctuation(s)
  {
    assert ([c] + s)[0] == c;
    assert ([c] + s)[1..] == s;
  }

  /** A split that is not inside a `\s` run does not change the run at the front. */
  lemma {:induction false} LeadingSpacesAppend(a: string, b: string)
    requires a != [] && (b == [] || !IsSpace(a[|a| - 1]) || !IsSpace(b[0]))
    ensures LeadingSpaces(a + b) == LeadingSpaces(a)
    decreases |a|
  {
    assert (a + b)[0] == a[0];
    if IsSpace(a[0]) {
      if |a| == 1 {
        assert (a + b)[1..] == b;
      } else {
        assert (a + b)[1..] == a[1..] + b;
        LeadingSpacesAppend(a[1..], b);
      }
    }
  }

  /**
   * The collapse works run by run: text split anywhere except inside a run
   * of `\s` characters is collapsed part by part.
   */
  lemma {:induction false} CollapseAppend(a: string, b: string)
    requires a == [] || b == [] || !IsSpace(a[|a| - 1]) || !IsSpace(b[0])
    ensures CollapseWhitespace(a + b) == CollapseWhitespace(a) + CollapseWhitespace(b)
    decreases |a|
  {
    if a == [] {
      assert a + b == b;
    } else {
      var n := if IsSpace(a[0]) then LeadingSpaces(a) else 1;
      var head := if IsSpace(a[0]) && n >= 2 then " " else a[..1];
      if IsSpace(a[0]) {
        LeadingSpacesAppend(a, b);
      }
      SplitAt(a, b, n);
      calc {
        CollapseWhitespace(a + b);
        { CollapseUnfold(a + b); }
        head + CollapseWhitespace(a[n..] + b);
        { CollapseAppend(a[n..], b); }
        head + (CollapseWhitespace(a[n..]) + CollapseWhitespace(b));
        { ConcatAssoc(head, CollapseWhitespace(a[n..]), CollapseWhitespace(b)); }
        (head + CollapseWhitespace(a[n..])) + CollapseWhitespace(b);
        { CollapseUnfold(a); }
        CollapseWhitespace(a) + CollapseWhitespace(b);
      }
    }
  }

  /** One step of the collapse: the first run or character, then the rest. */
  lemma CollapseUnfold(s: string)
    requires s != []
    ensures var n := if IsSpace(s[0]) then LeadingSpaces(s) else 1;
      && 1 <= n <= |s|
      && CollapseWhitespace(s) == (if IsSpace(s[0]) && n >= 2 then " " else s[..1]) + CollapseWhitespace(s[n..])
  {
  }

  /** Dropping a prefix of `a` keeps the split between `a` and `b` outside a run. */
  lemma SplitAt(a: string, b: string, n: nat)
    requires 1 <= n <= |a|
    requires b == [] || !IsSpace(a[|a| - 1]) || !IsSpace(b[0])
    ensures (a + b)[0] == a[0] && (a + b)[..1] == a[..1] && (a + b)[n..] == a[n..] + b
    ensures a[n..] == [] || b == [] || !IsSpace(a[n..][|a[n..]| - 1]) || !IsSpace(b[0])
  {
    if a[n..] != [] {
      assert a[n..][|a[n..]| - 1] == a[|a| - 1];
    }
  }

  /** A run of two or more `\s` characters becomes a single space. */
  lemma CollapseRun(w: string)
    requires |w| >= 2 && forall i :: 0 <= i < |w| ==> IsSpace(w[i])
    ensures CollapseWhitespace(w) == " "
  {
    assert LeadingSpaces(w) == |w|;
    assert w[|w|..] == [];
  }

  /** `normalizeText(text)` */
  function NormalizeText(s: string): (r: string)
    ensures |r| <= |s|
    ensures NoUpper(r)
    ensures NoStripped(r)
    ensures NoDoubleSpace(r)
  {
    var r := CollapseWhitespace(StripPunctuation(Lower(s)));
    NormalizedCharacters(s, r);
    r
  }

  lemma NormalizedCharacters(s: string, r: string)
    requires r == CollapseWhitespace(StripPunctuation(Lower(s)))
    ensures NoUpper(r) && NoStripped(r)
  {
    var lowered := Lower(s);
    var stripped := StripPunctuation(lowered);
    LowerCharacterisation(s);
    assert !IsStripped(' ') && !IsUpper(' ');
    forall i | 0 <= i < |r|
      ensures !IsUpper(r[i]) && !IsStripped(r[i])
    {
      assert r[i] in r;
      if r[i] != ' ' {
        assert r[i] in stripped;
        assert r[i] in lowered;
      }
    }
  }

  lemma {:induction false} NonSpaceAppend(a: string, b: string)
    ensures NonSpace(a + b) == NonSpace(a) + NonSpace(b)
    decreases |a|
  {
    if a != [] {
      assert (a + b)[0] == a[0];
      assert (a + b)[1..] == a[1..] + b;
      NonSpaceAppend(a[1..], b);
      var head: string := if IsSpace(a[0]) then [] else [a[0]];
      calc {
        NonSpace(a + b);
        head + NonSpace(a[1..] + b);
        head + (NonSpace(a[1..]) + NonSpace(b));
        (head + NonSpace(a[1..])) + NonSpace(b);
      }
    } else {
      assert a + b == b;
    }
  }

  lemma {:induction false} NonSpaceOfSpaces(s: string, n: nat)
    requires n <= |s|
    requires forall i :: 0 <= i < n ==> IsSpace(s[i])
    ensures NonSpace(s) == NonSpace(s[n..])
    decreases n
  {
    if n > 0 {
      assert s[1..][n - 1..] == s[n..];
      NonSpaceOfSpaces(s[1..], n - 1);
    }
  }

  /** Collapsing whitespace never adds, drops or reorders a visible character. */
  lemma {:induction false} CollapseKeepsNonSpace(s: string)
    ensures NonSpace(CollapseWhitespace(s)) == NonSpace(s)
    decreases |s|
  {
    if s != [] {
      if IsSpace(s[0]) {
        var n := LeadingSpaces(s);
        var head: string := if n >= 2 then " " else s[..1];
        assert CollapseWhitespace(s) == head + CollapseWhitespace(s[n..]);
        NonSpaceAppend(head, CollapseWhitespace(s[n..]));
        assert NonSpace(head) == [] by {
          assert head[1..] == [];
        }
        CollapseKeepsNonSpace(s[n..]);
        NonSpaceOfSpaces(s, n);
      } else {
        assert CollapseWhitespace(s) == s[..1] + CollapseWhitespace(s[1..]);
        NonSpaceAppend(s[..1], CollapseWhitespace(s[1..]));
        CollapseKeepsNonSpace(s[1..]);
      }
    }
  }

  /** Text without adjacent whitespace is left as it is. */
  lemma {:induction false} CollapseFixesSingleSpaces(s: string)
    requires NoDoubleSpace(s)
    ensures CollapseWhitespace(s) == s
    decreases |s|
  {
    if s != [] {
      assert NoDoubleSpace(s[1..]) by {
        forall i | 0 <= i < |s[1..]| - 1
          ensures !(IsSpace(s[1..][i]) && IsSpace(s[1..][i + 1]))
        {
          assert s[1..][i] == s[i + 1] && s[1..][i + 1] == s[i + 2];
        }
      }
      CollapseFixesSingleSpaces(s[1..]);
      if IsSpace(s[0]) {
        assert LeadingSpaces(s) == 1 by {
          assert |s| > 1 ==> !IsSpace(s[1]);
        }
        assert s[1..] == s[LeadingSpaces(s)..];
      }
      assert s == s[..1] + s[1..];
    }
  }

  /** Text that is already lower-case, punctuation-free and single-spaced is its own normal form. */
  lemma NormalizeFixesNormalForms(s: string)
    requires NoUpper(s) && NoStripped(s) && NoDoubleSpace(s)
    ensures NormalizeText(s) == s
  {
    LowerCharacterisation(s);
    assert StripPunctuation(s) == s;
    CollapseFixesSingleSpaces(s);
  }

  /** Normalising twice is normalising once. */
  lemma NormalizeIdempotent(s: string)
    ensures NormalizeText(NormalizeText(s)) == NormalizeText(s)
  {
    NormalizeFixesNormalForms(NormalizeText(s));
  }

  /**
   * The visible characters of the normalised text are exactly those of the
   * lower-cased input with the punctuation set removed: normalisation drops
   * nothing else and reorders nothing.
   */
  lemma NormalizeKeepsWords(s: string)
    ensures NonSpace(NormalizeText(s)) == NonSpace(StripPunctuation(Lower(s)))
  {
    CollapseKeepsNonSpace(StripPunctuation(Lower(s)));
  }

  // ---------------------------------------------------------------------
  // \b<pattern>\b matching
  // ---------------------------------------------------------------------

  /** `\b` holds at position `i` of `x` (0 <= i <= |x|). */
  predicate Boundary(x: string, i: nat)
    requires i <= |x|
  {
    (i > 0 && IsWordChar(x[i - 1])) != (i < |x| && IsWordChar(x[i]))
  }

  /** The literal `p`, bracketed by `\b` on both sides, matches `x` at `i`. */
  predicate WordMatchAt(x: string, p: string, i: nat) {
    && i + |p| <= |x|
    && Boundary(x, i)
    && x[i..i + |p|] == p
    && Boundary(x, i + |p|)
  }

  ghost predicate OccursAsWord(x: string, p: string) {
    exists i: nat :: WordMatchAt(x, p, i)
  }

  /** A position at or after `from` where `\b<p>\b` matches `x`: the leftmost one (see below). */
  function FirstWordMatch(x: string, p: string, from: nat): (r: Option<nat>)
    ensures r.Some? ==> from <= r.value && WordMatchAt(x, p, r.value)
    decreases |x| + 1 - from
  {
    if from + |p| > |x| then None
    else if WordMatchAt(x, p, from) then Some(from)
    else FirstWordMatch(x, p, from + 1)
  }

  /** The search finds the leftmost match, and finds nothing only when there is none. */
  lemma {:induction false} FirstWordMatchLeftmost(x: string, p: string, from: nat)
    ensures FirstWordMatch(x, p, from).Some? ==>
      forall j: nat :: from <= j < FirstWordMatch(x, p, from).value ==> !WordMatchAt(x, p, j)
    ensures FirstWordMatch(x, p, from).None? ==> forall j: nat :: from <= j ==> !WordMatchAt(x, p, j)
    decreases |x| + 1 - from
  {
    if from + |p| <= |x| && !WordMatchAt(x, p, from) {
      FirstWordMatchLeftmost(x, p, from + 1);
    }
  }

  /** The characters the regular-expression syntax gives a meaning to. */
  predicate IsRegexMeta(c: char) {
    || c == '\\' || c == '^' || c == '$' || c == '.' || c == '*' || c == '+' || c == '?'
    || c == '(' || c == ')' || c == '[' || c == ']' || c == '{' || c == '}' || c == '|'
  }

  /** `p` placed in a regular expression source matches itself literally. */
  predicate IsLiteralPattern(p: string) {
    forall i :: 0 <= i < |p| ==> !IsRegexMeta(p[i])
  }

  // ---------------------------------------------------------------------
  // findTermInText
  // ---------------------------------------------------------------------

  /** `findTermInText(term, text)` */
  function FindTermInText(term: string, text: string): (found: bool)
    requires IsLiteralPattern(NormalizeText(term))
    ensures found <==> OccursAsWord(NormalizeText(text), NormalizeText(term))
  {
    FirstWordMatchLeftmost(NormalizeText(text), NormalizeText(term), 0);
    FirstWordMatch(NormalizeText(text), NormalizeText(term), 0).Some?
  }

  /** Searching the normalised forms gives the same answer as searching the originals. */
  lemma FindTermDependsOnNormalForms(term: string, text: string)
    requires IsLiteralPattern(NormalizeText(term))
    ensures NormalizeText(NormalizeText(term)) == NormalizeText(term)
    ensures FindTermInText(term, text) == FindTermInText(NormalizeText(term), NormalizeText(text))
  {
    NormalizeIdempotent(term);
    NormalizeIdempotent(text);
  }

  /** The search ignores letter case in both the term and the text. */
  lemma FindTermIgnoresCase(term: string, text: string)
    requires IsLiteralPattern(NormalizeText(term))
    ensures NormalizeText(Upper(term)) == NormalizeText(term)
    ensures FindTermInText(Upper(term), Upper(text)) == FindTermInText(term, text)
  {
    LowerAbsorbsCase(term);
    LowerAbsorbsCase(text);
  }

  /** A term whose normal form starts and ends with a word character is found in itself. */
  lemma TermFoundInItself(term: string)
    requires IsLiteralPattern(NormalizeText(term))
    requires |NormalizeText(term)| > 0
    requires IsWordChar(NormalizeText(term)[0])
    requires IsWordChar(NormalizeText(term)[|NormalizeText(term)| - 1])
    ensures FindTermInText(term, term)
  {
    var p := NormalizeText(term);
    assert p[0..|p|] == p;
    assert WordMatchAt(p, p, 0);
  }

  predicate AllWordChars(s: string) {
    forall i :: 0 <= i < |s| ==> IsWordChar(s[i])
  }

  /**
   * A term is not found where it occurs only strictly inside a longer word:
   * when the normalised text is one word and the normalised term a shorter
   * non-empty word, no position has a word boundary on both sides.
   */
  lemma NotFoundInsideLongerWord(term: string, text: string)
    requires IsLiteralPattern(NormalizeText(term))
    requires AllWordChars(NormalizeText(text))
    requires 0 < |NormalizeText(term)| < |NormalizeText(text)|
    ensures !FindTermInText(term, text)
  {
    var p, x := NormalizeText(term), NormalizeText(text);
    forall i: nat
      ensures !WordMatchAt(x, p, i)
    {
      if i + |p| <= |x| {
        if i > 0 {
          assert IsWordChar(x[i - 1]) && IsWordChar(x[i]);
          assert !Boundary(x, i);
        } else {
          assert IsWordChar(x[|p| - 1]) && IsWordChar(x[|p|]);
          assert !Boundary(x, |p|);
        }
      }
    }
  }

  /** Lower-case letters are neither stripped, nor metacharacters, nor whitespace. */
  lemma LowerLetterIsPlain(c: char)
    requires IsLower(c)
    ensures !IsUpper(c) && !IsStripped(c) && !IsRegexMeta(c) && !IsSpace(c) && IsWordChar(c)
  {
  }

  /** A run of lower-case letters is its own normal form and a literal pattern. */
  lemma LowerWordIsNormal(s: string)
    requires forall i :: 0 <= i < |s| ==> IsLower(s[i])
    ensures NormalizeText(s) == s && AllWordChars(s) && IsLiteralPattern(s)
  {
    forall i | 0 <= i < |s|
      ensures !IsUpper(s[i]) && !IsStripped(s[i]) && !IsRegexMeta(s[i]) && !IsSpace(s[i]) && IsWordChar(s[i])
    {
      LowerLetterIsPlain(s[i]);
    }
    NormalizeFixesNormalForms(s);
  }

  /**
   * For words of lower-case letters: a shorter word is never found inside a
   * longer one (so `cat` is not found in `concatenate`).
   */
  lemma LowerWordNotFoundInside(term: string, text: string)
    requires forall i :: 0 <= i < |term| ==> IsLower(term[i])
    requires forall i :: 0 <= i < |text| ==> IsLower(text[i])
    requires 0 < |term| < |text|
    ensures IsLiteralPattern(NormalizeText(term)) && !FindTermInText(term, text)
  {
    LowerWordIsNormal(term);
    LowerWordIsNormal(text);
    NotFoundInsideLongerWord(term, text);
  }
}
