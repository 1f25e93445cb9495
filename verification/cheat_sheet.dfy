/**
 * The key-term highlighter of the cheat-sheet view
 * (`highlightMatchingTerms` in app/components/CheatSheet.tsx).
 *
 * The terms are copied and stably sorted by decreasing length; each term is
 * then tried in four case variants, and every whole-word occurrence of a
 * variant is wrapped in a highlighting `<span>` by a global regular-expression
 * replace. The wrapped text is fed to the next variant, so a variant that
 * repeats an earlier one wraps the same word again.
 */
module CheatSheet {
  import opened Types
  import opened Ascii
  import opened TextProcessing

  /** A replacement template `<open>$&<close>`: the match between two pieces of markup. */
  datatype Markup = Markup(open: string, close: string)

  /** The highlighter's template `<span class="font-semibold text-blue-300">$&</span>`. */
  function Highlight(): Markup { Markup("<span class=\"font-semibold text-blue-300\">", "</span>") }

  function Wrap(m: Markup, matched: string): string {
    m.open + matched + m.close
  }

  /**
   * Tags that can be told apart from the text and from each other: both
   * start with `<`, and they differ at their second character.
   */
  predicate Erasable(m: Markup) {
    && |m.open| >= 2 && |m.close| >= 2
    && m.open[0] == '<' && m.close[0] == '<'
    && m.open[1] != m.close[1]
  }

  lemma HighlightErasable()
    ensures Erasable(Highlight())
    ensures Highlight().open[|Highlight().open| - 1] == '>'
  {
  }

  // ---------------------------------------------------------------------
  // [...keyTerms].sort((a, b) => b.term.length - a.term.length)
  // ---------------------------------------------------------------------

  predicate LongestFirst(ts: seq<KeyTerm>) {
    forall i, j :: 0 <= i < j < |ts| ==> |ts[i].term| >= |ts[j].term|
  }

  /** The terms of `ts` whose length is `n`, in their order in `ts`. */
  function OfLength(ts: seq<KeyTerm>, n: nat): seq<KeyTerm> {
    if ts == [] then []
    else (if |ts[0].term| == n then [ts[0]] else []) + OfLength(ts[1..], n)
  }

  lemma OfLengthCons(a: KeyTerm, rest: seq<KeyTerm>)
    ensures forall n: nat :: OfLength([a] + rest, n) == (if |a.term| == n then [a] else []) + OfLength(rest, n)
  {
    assert ([a] + rest)[1..] == rest;
  }

  lemma LongestFirstCons(a: KeyTerm, rest: seq<KeyTerm>)
    requires LongestFirst(rest)
    requires rest != [] ==> |rest[0].term| <= |a.term|
    ensures LongestFirst([a] + rest)
  {
    var r := [a] + rest;
    forall i, j | 0 <= i < j < |r|
      ensures |r[i].term| >= |r[j].term|
    {
      if i == 0 {
        assert |rest[0].term| >= |rest[j - 1].term|;
      } else {
        assert r[i] == rest[i - 1] && r[j] == rest[j - 1];
      }
    }
  }

  /** Places `t` before the first term that is no longer than it. */
  function InsertByLength(t: KeyTerm, sorted: seq<KeyTerm>): (r: seq<KeyTerm>)
    ensures |r| == |sorted| + 1
    ensures r[0] == t || (sorted != [] && r[0] == sorted[0])
  {
    if sorted == [] || |sorted[0].term| <= |t.term| then [t] + sorted
    else [sorted[0]] + InsertByLength(t, sorted[1..])
  }

  /** Insertion keeps a longest-first sequence longest-first. */
  lemma {:induction false} InsertKeepsOrder(t: KeyTerm, sorted: seq<KeyTerm>)
    requires LongestFirst(sorted)
    ensures LongestFirst(InsertByLength(t, sorted))
  {
    if sorted == [] || |sorted[0].term| <= |t.term| {
      LongestFirstCons(t, sorted);
    } else {
      var rest := InsertByLength(t, sorted[1..]);
      assert LongestFirst(sorted[1..]);
      InsertKeepsOrder(t, sorted[1..]);
      LongestFirstCons(sorted[0], rest);
    }
  }

  /** Insertion adds exactly `t`. */
  lemma {:induction false} InsertAddsOne(t: KeyTerm, sorted: seq<KeyTerm>)
    ensures multiset(InsertByLength(t, sorted)) == multiset(sorted) + multiset{t}
  {
    if sorted == [] || |sorted[0].term| <= |t.term| {
    } else {
      InsertAddsOne(t, sorted[1..]);
      assert sorted == [sorted[0]] + sorted[1..];
    }
  }

  /**
   * Insertion puts `t` before every term of its own length; as the sort
   * inserts the earlier input terms last, equal terms keep their input order.
   */
  lemma {:induction false} InsertIsStable(t: KeyTerm, sorted: seq<KeyTerm>)
    ensures forall n: nat :: OfLength(InsertByLength(t, sorted), n) == (if |t.term| == n then [t] else []) + OfLength(sorted, n)
  {
    if sorted == [] {
      OfLengthCons(t, sorted);
    } else if |sorted[0].term| <= |t.term| {
      OfLengthCons(t, sorted);
    } else {
      InsertIsStable(t, sorted[1..]);
      OfLengthCons(sorted[0], InsertByLength(t, sorted[1..]));
      OfLengthCons(sorted[0], sorted[1..]);
      assert sorted == [sorted[0]] + sorted[1..];
    }
  }

  /**
   * The stable sort by decreasing term length: a permutation of the input,
   * longest terms first, and terms of equal length in their input order.
   */
  function SortByLength(ts: seq<KeyTerm>): (r: seq<KeyTerm>)
    ensures multiset(r) == multiset(ts)
    ensures LongestFirst(r)
    ensures forall n: nat :: OfLength(r, n) == OfLength(ts, n)
  {
    if ts == [] then []
    else
      var sortedRest := SortByLength(ts[1..]);
      SortStep(ts[0], ts[1..], sortedRest);
      assert ts == [ts[0]] + ts[1..];
      InsertByLength(ts[0], sortedRest)
  }

  /** Inserting the first term into the sorted rest sorts the whole sequence. */
  lemma SortStep(t: KeyTerm, rest: seq<KeyTerm>, sortedRest: seq<KeyTerm>)
    requires multiset(sortedRest) == multiset(rest) && LongestFirst(sortedRest)
    requires forall n: nat :: OfLength(sortedRest, n) == OfLength(rest, n)
    ensures multiset(InsertByLength(t, sortedRest)) == multiset([t] + rest)
    ensures LongestFirst(InsertByLength(t, sortedRest))
    ensures forall n: nat :: OfLength(InsertByLength(t, sortedRest), n) == OfLength([t] + rest, n)
  {
    InsertKeepsOrder(t, sortedRest);
    InsertAddsOne(t, sortedRest);
    InsertIsStable(t, sortedRest);
    OfLengthCons(t, rest);
  }

  // ---------------------------------------------------------------------
  // Case variants
  // ---------------------------------------------------------------------

  /**
   * `term.charAt(0).toUpperCase() + term.slice(1).toLowerCase()`: the same
   * text up to letter case, with no lower-case letter in front and no
   * upper-case letter after it.
   */
  function Capitalize(term: string): (r: string)
    ensures SameUpToCase(r, term)
    ensures |term| > 0 ==> !IsLower(r[0]) && NoUpper(r[1..])
  {
    if term == [] then []
    else
      var r := [ToUpper(term[0])] + Lower(term[1..]);
      CapitalizeShape(term[0], term[1..], r);
      assert term == [term[0]] + term[1..];
      r
  }

  lemma CapitalizeShape(c: char, rest: string, r: string)
    requires r == [ToUpper(c)] + Lower(rest)
    ensures SameUpToCase(r, [c] + rest)
    ensures !IsLower(r[0]) && NoUpper(r[1..])
  {
    assert r[1..] == Lower(rest);
    LowerCharacterisation(rest);
    CapitalizeLowers(c, rest, r);
  }

  lemma CapitalizeLowers(c: char, rest: string, r: string)
    requires r == [ToUpper(c)] + Lower(rest)
    ensures Lower(r) == Lower([c] + rest)
  {
    LowerAbsorbsCase(rest);
    LowerAppend([ToUpper(c)], Lower(rest));
    LowerAppend([c], rest);
    assert Lower([ToUpper(c)]) == Lower([c]) by {
      assert ToLower(ToUpper(c)) == ToLower(c);
    }
  }

  /** The four variants, in the order they are tried. */
  function Variants(term: string): (vs: seq<string>)
    ensures |vs| == 4 && vs[0] == term
  {
    [term, Lower(term), Capitalize(term), Upper(term)]
  }

  /**
   * The variants are the term as written, lower-case, capitalised and
   * upper-case: all four differ from the term in letter case only.
   */
  lemma VariantsDifferInCase(term: string)
    ensures forall i :: 0 <= i < 4 ==> SameUpToCase(Variants(term)[i], term)
    ensures NoUpper(Variants(term)[1]) && Variants(term)[3] == Upper(term)
    ensures |term| > 0 ==> !IsLower(Variants(term)[2][0]) && NoUpper(Variants(term)[2][1..])
  {
    LowerVariant(term);
    UpperVariant(term);
    assert Variants(term) == [term, Lower(term), Capitalize(term), Upper(term)];
  }

  lemma LowerVariant(term: string)
    ensures SameUpToCase(Lower(term), term) && NoUpper(Lower(term))
  {
    LowerAbsorbsCase(term);
    LowerCharacterisation(term);
  }

  lemma UpperVariant(term: string)
    ensures SameUpToCase(Upper(term), term)
  {
    LowerAbsorbsCase(term);
  }

  /** A literal pattern stays literal when only its letter case changes. */
  lemma SameCaseStaysLiteral(v: string, term: string)
    requires IsLiteralPattern(term) && SameUpToCase(v, term)
    ensures IsLiteralPattern(v)
  {
    forall k | 0 <= k < |term|
      ensures !IsRegexMeta(v[k])
    {
      assert Lower(v)[k] == Lower(term)[k];
      if !IsUpper(v[k]) && !IsLower(v[k]) {
        assert v[k] == ToLower(v[k]) == ToLower(term[k]);
        assert !IsUpper(term[k]);
      }
    }
  }

  /** A term already in lower case, and only such a term, yields the same variant twice. */
  lemma VariantsRepeatForLowerCase(term: string)
    ensures NoUpper(term) <==> Variants(term)[1] == Variants(term)[0]
  {
    LowerCharacterisation(term);
  }

  // ---------------------------------------------------------------------
  // text.replace(new RegExp(`\b${variation}\b`, 'g'), wrap)
  // ---------------------------------------------------------------------

  /** Emitted text: what precedes a match, the wrapped match, then the rest. */
  function Emit(m: Markup, before: string, p: string, rest: string): string {
    before + Wrap(m, p) + rest
  }

  /**
   * The global replace from search position `search`, the text before `copy`
   * having been emitted already. After an empty match the search moves on by
   * one character, as `String.prototype.replace` does. The pattern is a
   * literal, so the matched text `$&` is the pattern itself.
   */
  function ReplaceFrom(m: Markup, x: string, p: string, search: nat, copy: nat): (r: string)
    requires copy <= search && copy <= |x|
    decreases |x| + 1 - search
  {
    match FirstWordMatch(x, p, search)
    case None => x[copy..]
    case Some(i) =>
      var next := if |p| == 0 then i + 1 else i + |p|;
      Emit(m, x[copy..i], p, ReplaceFrom(m, x, p, next, i + |p|))
  }

  /** The replace never drops text, and it adds some as soon as there is a match. */
  lemma {:induction false} ReplaceFromGrows(m: Markup, x: string, p: string, search: nat, copy: nat)
    requires copy <= search && copy <= |x| && m.open != []
    ensures |ReplaceFrom(m, x, p, search, copy)| >= |x| - copy
    ensures FirstWordMatch(x, p, search).Some? ==> |ReplaceFrom(m, x, p, search, copy)| > |x| - copy
    decreases |x| + 1 - search
  {
    match FirstWordMatch(x, p, search)
    case None =>
    case Some(i) =>
      var next := if |p| == 0 then i + 1 else i + |p|;
      ReplaceFromStepLength(m, x, p, search, copy, i);
      ReplaceFromGrows(m, x, p, next, i + |p|);
  }

  /** The length of one step of the global replace. */
  lemma ReplaceFromStepLength(m: Markup, x: string, p: string, search: nat, copy: nat, i: nat)
    requires copy <= search && copy <= |x|
    requires FirstWordMatch(x, p, search) == Some(i)
    ensures copy <= i && i + |p| <= |x|
    ensures |ReplaceFrom(m, x, p, search, copy)|
      == (i - copy) + |m.open| + |p| + |m.close| + |ReplaceFrom(m, x, p, if |p| == 0 then i + 1 else i + |p|, i + |p|)|
  {
    ReplaceFromStep(m, x, p, search, copy, i);
  }

  /** `x.replace(new RegExp(`\b${p}\b`, 'g'), '<span …>$&</span>')` */
  function ReplaceWholeWords(x: string, p: string): (r: string)
    requires IsLiteralPattern(p)
    ensures r == x <==> !OccursAsWord(x, p)
    ensures |r| >= |x| && (r != x ==> |r| > |x|)
  {
    var r := ReplaceFrom(Highlight(), x, p, 0, 0);
    FirstWordMatchLeftmost(x, p, 0);
    if FirstWordMatch(x, p, 0).None? then
      assert r == x[0..] == x;
      r
    else
      HighlightErasable();
      ReplaceFromGrows(Highlight(), x, p, 0, 0);
      r
  }

  /** Applies each variant in turn to the text. */
  function HighlightVariants(x: string, vs: seq<string>): (r: string)
    requires forall i :: 0 <= i < |vs| ==> IsLiteralPattern(vs[i])
    ensures |r| >= |x| && (|r| == |x| ==> r == x)
    ensures IsSubsequence(x, r)
    decreases |vs|
  {
    if vs == [] then
      SubsequenceRefl(x);
      x
    else
      var y := ReplaceWholeWords(x, vs[0]);
      var r := HighlightVariants(y, vs[1..]);
      ReplaceWholeWordsKeeps(x, vs[0]);
      SubsequenceTrans(x, y, r);
      r
  }

  /** Case mapping keeps a pattern free of metacharacters. */
  lemma VariantsAreLiteral(term: string)
    requires IsLiteralPattern(term)
    ensures forall i :: 0 <= i < 4 ==> IsLiteralPattern(Variants(term)[i])
  {
    VariantsDifferInCase(term);
    forall i | 0 <= i < 4
      ensures IsLiteralPattern(Variants(term)[i])
    {
      SameCaseStaysLiteral(Variants(term)[i], term);
    }
  }

  predicate LiteralTerms(ts: seq<KeyTerm>) {
    forall i :: 0 <= i < |ts| ==> IsLiteralPattern(ts[i].term)
  }

  /** Applies each term, in the given order, through its four variants. */
  function HighlightTerms(x: string, ts: seq<KeyTerm>): (r: string)
    requires LiteralTerms(ts)
    ensures |r| >= |x| && (|r| == |x| ==> r == x)
    ensures IsSubsequence(x, r)
    decreases |ts|
  {
    if ts == [] then
      SubsequenceRefl(x);
      x
    else
      VariantsAreLiteral(ts[0].term);
      var y := HighlightVariants(x, Variants(ts[0].term));
      var r := HighlightTerms(y, ts[1..]);
      SubsequenceTrans(x, y, r);
      r
  }

  /**
   * `highlightMatchingTerms(text, keyTerms)`, with `None` standing for a
   * `keyTerms` value that is not an array. Each term must be free of
   * regular-expression metacharacters.
   */
  function HighlightMatchingTerms(text: string, keyTerms: Option<seq<KeyTerm>>): (r: string)
    requires keyTerms.Some? ==> LiteralTerms(keyTerms.value)
    ensures keyTerms.None? || keyTerms.value == [] ==> r == text
    ensures |r| >= |text| && (|r| == |text| ==> r == text)
    ensures IsSubsequence(text, r)
  {
    match keyTerms
    case None =>
      SubsequenceRefl(text);
      text
    case Some(ts) =>
      var sorted := SortByLength(ts);
      assert LiteralTerms(sorted) by {
        forall i | 0 <= i < |sorted|
          ensures IsLiteralPattern(sorted[i].term)
        {
          assert sorted[i] in multiset(ts);
        }
      }
      HighlightTerms(text, sorted)
  }

  // ---------------------------------------------------------------------
  // Properties
  // ---------------------------------------------------------------------

  /** No variant of `t` occurs as a whole word in `x`. */
  ghost predicate NoVariantOccurs(x: string, t: KeyTerm) {
    forall i :: 0 <= i < 4 ==> !OccursAsWord(x, Variants(t.term)[i])
  }

  lemma {:induction false} VariantsUnchanged(x: string, vs: seq<string>)
    requires forall i :: 0 <= i < |vs| ==> IsLiteralPattern(vs[i])
    requires forall i :: 0 <= i < |vs| ==> !OccursAsWord(x, vs[i])
    ensures HighlightVariants(x, vs) == x
    decreases |vs|
  {
    if vs != [] {
      VariantsUnchanged(x, vs[1..]);
    }
  }

  lemma {:induction false} TermsUnchanged(x: string, ts: seq<KeyTerm>)
    requires LiteralTerms(ts)
    requires forall i :: 0 <= i < |ts| ==> NoVariantOccurs(x, ts[i])
    ensures HighlightTerms(x, ts) == x
    decreases |ts|
  {
    if ts != [] {
      VariantsAreLiteral(ts[0].term);
      VariantsUnchanged(x, Variants(ts[0].term));
      TermsUnchanged(x, ts[1..]);
    }
  }

  /** Text in which no variant of any term occurs as a whole word is returned unchanged. */
  lemma HighlightWithoutMatches(text: string, ts: seq<KeyTerm>)
    requires LiteralTerms(ts)
    requires forall i :: 0 <= i < |ts| ==> NoVariantOccurs(text, ts[i])
    ensures HighlightMatchingTerms(text, Some(ts)) == text
  {
    var sorted := SortByLength(ts);
    assert LiteralTerms(sorted) by {
      forall i | 0 <= i < |sorted|
        ensures IsLiteralPattern(sorted[i].term)
      {
        assert sorted[i] in multiset(ts);
      }
    }
    forall i | 0 <= i < |sorted|
      ensures NoVariantOccurs(text, sorted[i])
    {
      assert sorted[i] in multiset(ts);
      var j :| 0 <= j < |ts| && ts[j] == sorted[i];
    }
    TermsUnchanged(text, sorted);
  }

  /** One pass of the variants: the first variant, then the others. */
  lemma HighlightVariantsStep(x: string, vs: seq<string>)
    requires vs != [] && forall i :: 0 <= i < |vs| ==> IsLiteralPattern(vs[i])
    ensures HighlightVariants(x, vs) == HighlightVariants(ReplaceWholeWords(x, vs[0]), vs[1..])
  {
  }

  lemma LiteralTail(vs: seq<string>)
    requires vs != [] && forall i :: 0 <= i < |vs| ==> IsLiteralPattern(vs[i])
    ensures forall i :: 0 <= i < |vs| - 1 ==> IsLiteralPattern(vs[1..][i])
  {
    forall i | 0 <= i < |vs| - 1
      ensures IsLiteralPattern(vs[1..][i])
    {
      assert vs[1..][i] == vs[i + 1];
    }
  }

  /** A variant occurring as a whole word makes the pass over the variants grow the text. */
  lemma {:induction false} VariantsGrow(x: string, vs: seq<string>, k: nat)
    requires forall i :: 0 <= i < |vs| ==> IsLiteralPattern(vs[i])
    requires k < |vs| && OccursAsWord(x, vs[k])
    ensures |HighlightVariants(x, vs)| > |x|
    decreases |vs|, 1
  {
    var y := ReplaceWholeWords(x, vs[0]);
    HighlightVariantsStep(x, vs);
    if y != x {
      assert |y| > |x|;
    } else {
      VariantsGrowLater(x, vs, k);
    }
  }

  /** The first variant leaves the text alone, so the growth comes from a later one. */
  lemma {:induction false} VariantsGrowLater(x: string, vs: seq<string>, k: nat)
    requires forall i :: 0 <= i < |vs| ==> IsLiteralPattern(vs[i])
    requires k < |vs| && OccursAsWord(x, vs[k])
    requires ReplaceWholeWords(x, vs[0]) == x
    ensures |HighlightVariants(x, vs)| > |x|
    decreases |vs|, 0
  {
    HighlightVariantsStep(x, vs);
    assert k != 0;
    LiteralTail(vs);
    assert vs[1..][k - 1] == vs[k];
    VariantsGrow(x, vs[1..], k - 1);
  }

  /** A variant of some term occurring as a whole word makes the pass over the terms grow the text. */
  lemma {:induction false} TermsGrow(x: string, ts: seq<KeyTerm>, i: nat, k: nat)
    requires LiteralTerms(ts) && i < |ts| && k < 4
    requires OccursAsWord(x, Variants(ts[i].term)[k])
    ensures |HighlightTerms(x, ts)| > |x|
    decreases |ts|
  {
    VariantsAreLiteral(ts[0].term);
    var y := HighlightVariants(x, Variants(ts[0].term));
    if i == 0 {
      VariantsGrow(x, Variants(ts[0].term), k);
    } else if y == x {
      assert ts[1..][i - 1] == ts[i];
      TermsGrow(y, ts[1..], i - 1, k);
    }
  }

  /**
   * Text in which some variant of some term occurs as a whole word comes
   * back longer: the tags are really inserted.
   */
  lemma HighlightWithMatch(text: string, ts: seq<KeyTerm>, i: nat, k: nat)
    requires LiteralTerms(ts) && i < |ts| && k < 4
    requires OccursAsWord(text, Variants(ts[i].term)[k])
    ensures |HighlightMatchingTerms(text, Some(ts))| > |text|
  {
    var sorted := SortByLength(ts);
    assert LiteralTerms(sorted) by {
      forall n | 0 <= n < |sorted|
        ensures IsLiteralPattern(sorted[n].term)
      {
        assert sorted[n] in multiset(ts);
      }
    }
    assert ts[i] in multiset(sorted);
    var j :| 0 <= j < |sorted| && sorted[j] == ts[i];
    TermsGrow(text, sorted, j, k);
  }

  /** The text comes back unchanged exactly when no variant of any term occurs in it as a whole word. */
  lemma HighlightUnchangedIff(text: string, ts: seq<KeyTerm>)
    requires LiteralTerms(ts)
    ensures HighlightMatchingTerms(text, Some(ts)) == text <==>
      forall i :: 0 <= i < |ts| ==> NoVariantOccurs(text, ts[i])
  {
    if forall i :: 0 <= i < |ts| ==> NoVariantOccurs(text, ts[i]) {
      HighlightWithoutMatches(text, ts);
    } else {
      var i :| 0 <= i < |ts| && !NoVariantOccurs(text, ts[i]);
      var k :| 0 <= k < 4 && OccursAsWord(text, Variants(ts[i].term)[k]);
      HighlightWithMatch(text, ts, i, k);
    }
  }

  /** Removes every tag of `m`, keeping the text between them. */
  function StripTags(m: Markup, s: string): string
    decreases |s|
  {
    if s == [] then []
    else if m.open != [] && |m.open| <= |s| && s[..|m.open|] == m.open then StripTags(m, s[|m.open|..])
    else if m.close != [] && |m.close| <= |s| && s[..|m.close|] == m.close then StripTags(m, s[|m.close|..])
    else [s[0]] + StripTags(m, s[1..])
  }

  predicate NoTagStart(s: string) {
    forall i :: 0 <= i < |s| ==> s[i] != '<'
  }

  lemma {:induction false} StripTagsPlain(m: Markup, a: string, b: string)
    requires Erasable(m) && NoTagStart(a)
    ensures StripTags(m, a + b) == a + StripTags(m, b)
    decreases |a|
  {
    if a == [] {
      assert a + b == b;
    } else {
      var s := a + b;
      assert s[0] == a[0] != '<';
      assert !(|m.open| <= |s| && s[..|m.open|] == m.open) by {
        if |m.open| <= |s| {
          assert s[..|m.open|][0] == a[0];
        }
      }
      assert !(|m.close| <= |s| && s[..|m.close|] == m.close) by {
        if |m.close| <= |s| {
          assert s[..|m.close|][0] == a[0];
        }
      }
      assert s[1..] == a[1..] + b;
      StripTagsPlain(m, a[1..], b);
    }
  }

  /** A closing tag is not mistaken for an opening one. */
  lemma StripCloseTag(m: Markup, b: string)
    requires Erasable(m)
    ensures StripTags(m, m.close + b) == StripTags(m, b)
  {
    var s := m.close + b;
    assert s[1] == m.close[1] != m.open[1];
    assert !(|m.open| <= |s| && s[..|m.open|] == m.open) by {
      if |m.open| <= |s| {
        assert s[..|m.open|][1] == s[1];
      }
    }
    assert s[..|m.close|] == m.close;
    assert s[|m.close|..] == b;
  }

  lemma StripTagsWrap(m: Markup, w: string, b: string)
    requires Erasable(m) && NoTagStart(w)
    ensures StripTags(m, Wrap(m, w) + b) == w + StripTags(m, b)
  {
    var s := Wrap(m, w) + b;
    assert s == m.open + (w + (m.close + b));
    assert s[..|m.open|] == m.open;
    assert s[|m.open|..] == w + (m.close + b);
    assert StripTags(m, s) == StripTags(m, w + (m.close + b));
    StripTagsPlain(m, w, m.close + b);
    StripCloseTag(m, b);
  }

  lemma StripAroundWrap(m: Markup, a: string, w: string, rest: string)
    requires Erasable(m) && NoTagStart(a) && NoTagStart(w)
    ensures StripTags(m, a + Wrap(m, w) + rest) == a + w + StripTags(m, rest)
  {
    assert a + Wrap(m, w) + rest == a + (Wrap(m, w) + rest);
    StripTagsPlain(m, a, Wrap(m, w) + rest);
    StripTagsWrap(m, w, rest);
  }

  lemma NoTagStartSlice(s: string, lo: nat, hi: nat)
    requires NoTagStart(s) && lo <= hi <= |s|
    ensures NoTagStart(s[lo..hi])
  {
    assert forall k :: 0 <= k < hi - lo ==> s[lo..hi][k] == s[lo + k];
  }

  lemma SliceSplit(s: string, lo: nat, i: nat, j: nat)
    requires lo <= i <= j <= |s|
    ensures s[lo..i] + s[i..j] + s[j..] == s[lo..]
  {
  }

  /** One step of the global replace, at the match `i`. */
  lemma ReplaceFromStep(m: Markup, x: string, p: string, search: nat, copy: nat, i: nat)
    requires copy <= search && copy <= |x|
    requires FirstWordMatch(x, p, search) == Some(i)
    ensures copy <= i && i + |p| <= |x| && x[i..i + |p|] == p
    ensures ReplaceFrom(m, x, p, search, copy)
      == Emit(m, x[copy..i], p, ReplaceFrom(m, x, p, if |p| == 0 then i + 1 else i + |p|, i + |p|))
  {
    assert search <= i && WordMatchAt(x, p, i);
  }

  /**
   * Erasing the inserted tags gives back the text from `copy` on, provided the
   * text has no `<` of its own.
   */
  lemma {:induction false} ReplaceFromStrips(m: Markup, x: string, p: string, search: nat, copy: nat)
    requires copy <= search && copy <= |x|
    requires Erasable(m) && NoTagStart(x)
    ensures StripTags(m, ReplaceFrom(m, x, p, search, copy)) == x[copy..]
    decreases |x| + 1 - search, 1
  {
    match FirstWordMatch(x, p, search)
    case None =>
      assert ReplaceFrom(m, x, p, search, copy) == x[copy..];
      StripTail(m, x, copy);
    case Some(i) =>
      ReplaceFromStripsStep(m, x, p, search, copy, i);
  }

  /** Erasing the tags around one match, the rest of the replace stripping back too. */
  lemma {:induction false} ReplaceFromStripsStep(m: Markup, x: string, p: string, search: nat, copy: nat, i: nat)
    requires copy <= search && copy <= |x|
    requires Erasable(m) && NoTagStart(x)
    requires FirstWordMatch(x, p, search) == Some(i)
    ensures StripTags(m, ReplaceFrom(m, x, p, search, copy)) == x[copy..]
    decreases |x| + 1 - search, 0
  {
    ReplaceFromStep(m, x, p, search, copy, i);
    var next := if |p| == 0 then i + 1 else i + |p|;
    var rest := ReplaceFrom(m, x, p, next, i + |p|);
    ReplaceFromStrips(m, x, p, next, i + |p|);
    assert copy <= i && i + |p| <= |x|;
    assert x[i..i + |p|] == p;
    assert StripTags(m, rest) == x[i + |p|..];
    StripStep(m, x, p, copy, i, rest);
  }

  /** Text without a `<` of its own has no tags to erase. */
  lemma StripTail(m: Markup, x: string, copy: nat)
    requires copy <= |x| && Erasable(m) && NoTagStart(x)
    ensures StripTags(m, x[copy..]) == x[copy..]
  {
    NoTagStartSlice(x, copy, |x|);
    assert x[copy..|x|] == x[copy..];
    StripTagsPlain(m, x[copy..], []);
    assert x[copy..] + [] == x[copy..];
  }

  /** Erasing the tags of one wrapped match, given the rest of the text strips back. */
  lemma StripStep(m: Markup, x: string, p: string, copy: nat, i: nat, rest: string)
    requires copy <= i && i + |p| <= |x| && x[i..i + |p|] == p
    requires Erasable(m) && NoTagStart(x)
    requires StripTags(m, rest) == x[i + |p|..]
    ensures StripTags(m, Emit(m, x[copy..i], p, rest)) == x[copy..]
  {
    NoTagStartSlice(x, copy, i);
    NoTagStartSlice(x, i, i + |p|);
    StripAroundWrap(m, x[copy..i], x[i..i + |p|], rest);
    SliceSplit(x, copy, i, i + |p|);
  }

  /**
   * One replace pass only inserts tags: on text without a `<` of its own,
   * erasing the tags gives the text back.
   */
  lemma ReplaceWholeWordsStrips(x: string, p: string)
    requires IsLiteralPattern(p) && NoTagStart(x)
    ensures StripTags(Highlight(), ReplaceWholeWords(x, p)) == x
  {
    HighlightErasable();
    ReplaceFromStrips(Highlight(), x, p, 0, 0);
  }

  /**
   * The text before the first whole-word match is kept, and the match itself
   * is replaced by its wrapped form.
   */
  lemma FirstMatchWrapped(x: string, p: string, i: nat)
    requires IsLiteralPattern(p)
    requires FirstWordMatch(x, p, 0) == Some(i)
    ensures x[..i] + Wrap(Highlight(), p) <= ReplaceWholeWords(x, p)
  {
    ReplaceFromStep(Highlight(), x, p, 0, 0, i);
    var rest := ReplaceFrom(Highlight(), x, p, if |p| == 0 then i + 1 else i + |p|, i + |p|);
    assert x[0..i] == x[..i];
    assert ReplaceWholeWords(x, p) == (x[..i] + Wrap(Highlight(), p)) + rest;
  }

  /**
   * A wrapped whole-word match of a word-delimited pattern is still a
   * whole-word match inside its span, so a later identical variant finds it
   * again: this is how a term already in lower case is wrapped twice.
   */
  lemma WrappedMatchStillMatches(x: string, p: string, i: nat)
    requires IsLiteralPattern(p) && |p| > 0
    requires IsWordChar(p[0]) && IsWordChar(p[|p| - 1])
    requires FirstWordMatch(x, p, 0) == Some(i)
    ensures WordMatchAt(ReplaceWholeWords(x, p), p, i + |Highlight().open|)
    ensures ReplaceWholeWords(ReplaceWholeWords(x, p), p) != ReplaceWholeWords(x, p)
  {
    var m := Highlight();
    HighlightErasable();
    ReplaceFromStep(m, x, p, 0, 0, i);
    EmitKeepsWordMatch(m, x[0..i], p, ReplaceFrom(m, x, p, i + |p|, i + |p|));
    assert ReplaceWholeWords(x, p) == ReplaceFrom(m, x, p, 0, 0);
  }

  /** Markup that ends and starts with characters outside `\w` keeps a word match a word match. */
  lemma EmitKeepsWordMatch(m: Markup, before: string, p: string, rest: string)
    requires |p| > 0 && IsWordChar(p[0]) && IsWordChar(p[|p| - 1])
    requires m.open != [] && !IsWordChar(m.open[|m.open| - 1])
    requires m.close != [] && !IsWordChar(m.close[0])
    ensures WordMatchAt(Emit(m, before, p, rest), p, |before| + |m.open|)
  {
    var a := before + m.open;
    var b := m.close + rest;
    assert Emit(m, before, p, rest) == a + p + b;
    assert a[|a| - 1] == m.open[|m.open| - 1];
    assert b[0] == m.close[0];
    WordBetween(a, p, b);
  }

  /** A word-delimited pattern between two non-word characters matches as a whole word. */
  lemma WordBetween(a: string, p: string, b: string)
    requires |p| > 0 && IsWordChar(p[0]) && IsWordChar(p[|p| - 1])
    requires a != [] && !IsWordChar(a[|a| - 1])
    requires b != [] && !IsWordChar(b[0])
    ensures WordMatchAt(a + p + b, p, |a|)
  {
    var r := a + p + b;
    assert r[|a|..|a| + |p|] == p;
    assert r[|a| - 1] == a[|a| - 1] && r[|a|] == p[0];
    assert r[|a| + |p| - 1] == p[|p| - 1] && r[|a| + |p|] == b[0];
  }

  // ---------------------------------------------------------------------
  // Every match is replaced
  // ---------------------------------------------------------------------

  /** The number of positions from `from` on where `p` matches `x` as a whole word. */
  function MatchCount(x: string, p: string, from: nat): nat
    decreases |x| + 1 - from
  {
    if from + |p| > |x| then 0
    else (if WordMatchAt(x, p, from) then 1 else 0) + MatchCount(x, p, from + 1)
  }

  /** Positions without a match add nothing to the count. */
  lemma {:induction false} MatchCountSkip(x: string, p: string, from: nat, i: nat)
    requires from <= i
    requires forall j: nat :: from <= j < i ==> !WordMatchAt(x, p, j)
    ensures MatchCount(x, p, from) == MatchCount(x, p, i)
    decreases i - from
  {
    if from < i && from + |p| <= |x| {
      MatchCountSkip(x, p, from + 1, i);
    }
  }

  /** Whole-word matches of a word cannot overlap: a word has no boundary inside it. */
  lemma NoMatchInside(x: string, p: string, i: nat, j: nat)
    requires AllWordChars(p) && WordMatchAt(x, p, i) && i < j < i + |p|
    ensures !WordMatchAt(x, p, j)
  {
    assert x[j - 1] == x[i..i + |p|][j - 1 - i] == p[j - 1 - i];
    assert x[j] == x[i..i + |p|][j - i] == p[j - i];
  }

  lemma MatchCountAtMatch(x: string, p: string, i: nat)
    requires AllWordChars(p) && |p| > 0 && WordMatchAt(x, p, i)
    ensures MatchCount(x, p, i) == 1 + MatchCount(x, p, i + |p|)
  {
    forall j: nat | i + 1 <= j < i + |p|
      ensures !WordMatchAt(x, p, j)
    {
      NoMatchInside(x, p, i, j);
    }
    MatchCountSkip(x, p, i + 1, i + |p|);
  }

  /**
   * The replace from `copy` on adds the two tags once for every whole-word
   * match in that part of the text.
   */
  lemma {:induction false} ReplaceFromLength(m: Markup, x: string, p: string, copy: nat)
    requires AllWordChars(p) && |p| > 0 && copy <= |x|
    ensures |ReplaceFrom(m, x, p, copy, copy)| == |x| - copy + MatchCount(x, p, copy) * (|m.open| + |m.close|)
    decreases |x| + 1 - copy, 1
  {
    FirstWordMatchLeftmost(x, p, copy);
    match FirstWordMatch(x, p, copy)
    case None =>
      assert ReplaceFrom(m, x, p, copy, copy) == x[copy..];
      MatchCountSkip(x, p, copy, |x| + 1);
    case Some(i) =>
      ReplaceFromLengthStep(m, x, p, copy, i);
  }

  /** The leftmost match adds one pair of tags to the length of the rest. */
  lemma {:induction false} ReplaceFromLengthStep(m: Markup, x: string, p: string, copy: nat, i: nat)
    requires AllWordChars(p) && |p| > 0 && copy <= |x|
    requires FirstWordMatch(x, p, copy) == Some(i)
    ensures |ReplaceFrom(m, x, p, copy, copy)| == |x| - copy + MatchCount(x, p, copy) * (|m.open| + |m.close|)
    decreases |x| + 1 - copy, 0
  {
    FirstWordMatchLeftmost(x, p, copy);
    var next := i + |p|;
    ReplaceFromWordStep(m, x, p, copy, i, next);
    ReplaceFromLength(m, x, p, next);
    MatchCountSkip(x, p, copy, i);
    MatchCountAtMatch(x, p, i);
    LengthStep(|ReplaceFrom(m, x, p, copy, copy)|, |x|, copy, i, |p|, |m.open| + |m.close|,
      |ReplaceFrom(m, x, p, next, next)|, MatchCount(x, p, next), MatchCount(x, p, copy));
  }

  /** The arithmetic of one step: one more match, one more pair of tags. */
  lemma LengthStep(r: int, n: int, copy: int, i: int, p: int, k: int, rest: int, c: int, total: int)
    requires r == (i - copy) + k + p + rest
    requires rest == n - (i + p) + c * k
    requires total == 1 + c
    ensures r == n - copy + total * k
  {
  }

  /**
   * Reference for the global replace, written independently of the search:
   * walk the text left to right; where the pattern matches as a whole word,
   * emit it wrapped and continue after it, otherwise copy one character.
   */
  function WrapAll(m: Markup, x: string, p: string, pos: nat): string
    decreases (|x| as int) - pos
  {
    if pos >= |x| then []
    else if |p| > 0 && WordMatchAt(x, p, pos) then Wrap(m, p) + WrapAll(m, x, p, pos + |p|)
    else [x[pos]] + WrapAll(m, x, p, pos + 1)
  }

  /** Where nothing matches, the reference copies the text. */
  lemma {:induction false} WrapAllSkip(m: Markup, x: string, p: string, from: nat, to: nat)
    requires from <= to <= |x|
    requires forall j: nat :: from <= j < to ==> !WordMatchAt(x, p, j)
    ensures WrapAll(m, x, p, from) == x[from..to] + WrapAll(m, x, p, to)
    decreases (to as int) - from
  {
    if from < to {
      WrapAllSkip(m, x, p, from + 1, to);
      assert x[from..to] == [x[from]] + x[from + 1..to];
    }
  }

  /**
   * The global replace of a non-empty pattern is the reference: every
   * whole-word occurrence is wrapped in place and every other character is
   * kept where it was.
   */
  lemma {:induction false} ReplaceFromIsWrapAll(m: Markup, x: string, p: string, copy: nat)
    requires |p| > 0 && copy <= |x|
    ensures ReplaceFrom(m, x, p, copy, copy) == WrapAll(m, x, p, copy)
    decreases |x| + 1 - copy, 1
  {
    FirstWordMatchLeftmost(x, p, copy);
    match FirstWordMatch(x, p, copy)
    case None =>
      assert ReplaceFrom(m, x, p, copy, copy) == x[copy..];
      WrapAllSkip(m, x, p, copy, |x|);
    case Some(i) =>
      ReplaceFromIsWrapAllStep(m, x, p, copy, i);
  }

  lemma {:induction false} ReplaceFromIsWrapAllStep(m: Markup, x: string, p: string, copy: nat, i: nat)
    requires |p| > 0 && copy <= |x|
    requires FirstWordMatch(x, p, copy) == Some(i)
    ensures ReplaceFrom(m, x, p, copy, copy) == WrapAll(m, x, p, copy)
    decreases |x| + 1 - copy, 0
  {
    FirstWordMatchLeftmost(x, p, copy);
    var next := i + |p|;
    ReplaceFromWordStep(m, x, p, copy, i, next);
    ReplaceFromIsWrapAll(m, x, p, next);
    WrapAllSkip(m, x, p, copy, i);
    assert WrapAll(m, x, p, i) == Wrap(m, p) + WrapAll(m, x, p, next);
    ConcatAssoc(x[copy..i], Wrap(m, p), WrapAll(m, x, p, next));
  }

  lemma ConcatAssoc(a: string, b: string, c: string)
    ensures a + b + c == a + (b + c)
  {
  }

  /**
   * The replace is global: for a term made of word characters the result
   * is the reference walk above, so every whole-word occurrence is wrapped
   * in place, and it is longer than the text by one pair of tags per
   * occurrence.
   */
  lemma ReplaceWholeWordsWrapsEveryMatch(x: string, p: string)
    requires IsLiteralPattern(p) && AllWordChars(p) && |p| > 0
    ensures ReplaceWholeWords(x, p) == WrapAll(Highlight(), x, p, 0)
    ensures |ReplaceWholeWords(x, p)| == |x| + MatchCount(x, p, 0) * (|Highlight().open| + |Highlight().close|)
  {
    ReplaceFromLength(Highlight(), x, p, 0);
    ReplaceFromIsWrapAll(Highlight(), x, p, 0);
  }

  /** One step of the replace of a non-empty pattern, the search resuming at `next`. */
  lemma ReplaceFromWordStep(m: Markup, x: string, p: string, copy: nat, i: nat, next: nat)
    requires copy <= |x| && |p| > 0 && next == i + |p|
    requires FirstWordMatch(x, p, copy) == Some(i)
    ensures copy <= i && next <= |x| && x[i..next] == p
    ensures ReplaceFrom(m, x, p, copy, copy) == Emit(m, x[copy..i], p, ReplaceFrom(m, x, p, next, next))
  {
    assert (if |p| == 0 then i + 1 else i + |p|) == next;
    ReplaceFromStep(m, x, p, copy, copy, i);
  }

  // ---------------------------------------------------------------------
  // The text survives every pass
  // ---------------------------------------------------------------------

  /**
   * `a` is `b` with some characters left out: the characters of `a` occur in
   * `b` in the same order.
   */
  predicate IsSubsequence(a: string, b: string)
    decreases |b|
  {
    if b == [] then a == []
    else
      || (a != [] && a[|a| - 1] == b[|b| - 1] && IsSubsequence(a[..|a| - 1], b[..|b| - 1]))
      || IsSubsequence(a, b[..|b| - 1])
  }

  lemma {:induction false} SubsequenceEmpty(b: string)
    ensures IsSubsequence([], b)
    decreases |b|
  {
    if b != [] {
      SubsequenceEmpty(b[..|b| - 1]);
    }
  }

  lemma {:induction false} SubsequenceRefl(a: string)
    ensures IsSubsequence(a, a)
    decreases |a|
  {
    if a != [] {
      SubsequenceRefl(a[..|a| - 1]);
    }
  }

  /** Subsequences of two texts, put side by side, form a subsequence of the two texts side by side. */
  lemma {:induction false} SubsequenceAppend(a: string, b: string, c: string, d: string)
    requires IsSubsequence(a, b) && IsSubsequence(c, d)
    ensures IsSubsequence(a + c, b + d)
    decreases |d|
  {
    if d == [] {
      assert a + c == a && b + d == b;
    } else {
      var d' := d[..|d| - 1];
      assert (b + d)[..|b + d| - 1] == b + d';
      assert (b + d)[|b + d| - 1] == d[|d| - 1];
      if c != [] && c[|c| - 1] == d[|d| - 1] && IsSubsequence(c[..|c| - 1], d') {
        var c' := c[..|c| - 1];
        SubsequenceAppend(a, b, c', d');
        assert (a + c)[..|a + c| - 1] == a + c';
        assert (a + c)[|a + c| - 1] == c[|c| - 1];
      } else {
        SubsequenceAppend(a, b, c, d');
      }
    }
  }

  lemma {:induction false} SubsequenceTrans(a: string, b: string, c: string)
    requires IsSubsequence(a, b) && IsSubsequence(b, c)
    ensures IsSubsequence(a, c)
    decreases |c|
  {
    if c != [] {
      var c' := c[..|c| - 1];
      if b != [] && b[|b| - 1] == c[|c| - 1] && IsSubsequence(b[..|b| - 1], c') {
        var b' := b[..|b| - 1];
        if a != [] && a[|a| - 1] == b[|b| - 1] && IsSubsequence(a[..|a| - 1], b') {
          SubsequenceTrans(a[..|a| - 1], b', c');
        } else {
          SubsequenceTrans(a, b', c');
        }
      } else {
        SubsequenceTrans(a, b, c');
      }
    }
  }

  /** One wrapped match keeps the text it replaces, given the rest of the text survives. */
  lemma KeepStep(m: Markup, x: string, p: string, copy: nat, i: nat, rest: string)
    requires copy <= i && i + |p| <= |x| && x[i..i + |p|] == p
    requires IsSubsequence(x[i + |p|..], rest)
    ensures IsSubsequence(x[copy..], Emit(m, x[copy..i], p, rest))
  {
    var before := x[copy..i];
    SubsequenceRefl(before);
    SubsequenceRefl(p);
    SubsequenceEmpty(m.open);
    SubsequenceEmpty(m.close);
    SubsequenceAppend([], m.open, p, p);
    assert [] + p == p;
    SubsequenceAppend(p, m.open + p, [], m.close);
    assert p + [] == p;
    SubsequenceAppend(before, before, p, Wrap(m, p));
    SubsequenceAppend(before + p, before + Wrap(m, p), x[i + |p|..], rest);
    SliceSplit(x, copy, i, i + |p|);
  }

  /** The global replace keeps the text from `copy` on as a subsequence. */
  lemma {:induction false} ReplaceFromKeeps(m: Markup, x: string, p: string, search: nat, copy: nat)
    requires copy <= search && copy <= |x|
    ensures IsSubsequence(x[copy..], ReplaceFrom(m, x, p, search, copy))
    decreases |x| + 1 - search, 1
  {
    match FirstWordMatch(x, p, search)
    case None =>
      assert ReplaceFrom(m, x, p, search, copy) == x[copy..];
      SubsequenceRefl(x[copy..]);
    case Some(i) =>
      ReplaceFromKeepsStep(m, x, p, search, copy, i);
  }

  /** One match of the replace keeps the text, the rest of the replace keeping it too. */
  lemma {:induction false} ReplaceFromKeepsStep(m: Markup, x: string, p: string, search: nat, copy: nat, i: nat)
    requires copy <= search && copy <= |x|
    requires FirstWordMatch(x, p, search) == Some(i)
    ensures IsSubsequence(x[copy..], ReplaceFrom(m, x, p, search, copy))
    decreases |x| + 1 - search, 0
  {
    ReplaceFromStep(m, x, p, search, copy, i);
    var next := if |p| == 0 then i + 1 else i + |p|;
    ReplaceFromKeeps(m, x, p, next, i + |p|);
    assert copy <= i && i + |p| <= |x|;
    assert x[i..i + |p|] == p;
    assert IsSubsequence(x[i + |p|..], ReplaceFrom(m, x, p, next, i + |p|));
    KeepStep(m, x, p, copy, i, ReplaceFrom(m, x, p, next, i + |p|));
  }

  /** One replace pass only inserts text: the input is a subsequence of the result. */
  lemma ReplaceWholeWordsKeeps(x: string, p: string)
    requires IsLiteralPattern(p)
    ensures IsSubsequence(x, ReplaceWholeWords(x, p))
  {
    ReplaceFromKeeps(Highlight(), x, p, 0, 0);
    assert x[0..] == x;
  }
}
