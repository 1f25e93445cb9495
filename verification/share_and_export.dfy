/**
 * The two computable pieces of the share/export toolbar
 * (app/components/ShareAndExport.tsx): the plain-text rendering of a summary
 * that is copied to the clipboard, and the file name given to the exported
 * PDF.
 */
module ShareAndExport {
  import opened Types
  import opened Ascii

  // ---------------------------------------------------------------------
  // Decimal numerals (`${index + 1}`)
  // ---------------------------------------------------------------------

  function DigitChar(d: nat): (c: char)
    requires d < 10
    ensures IsDigit(c) && c as int - '0' as int == d
  {
    (d + '0' as int) as char
  }

  function DigitValue(c: char): nat
    requires IsDigit(c)
  {
    c as int - '0' as int
  }

  predicate AllDigits(s: string) {
    forall i :: 0 <= i < |s| ==> IsDigit(s[i])
  }

  /** The numeral JavaScript prints for a non-negative integer. */
  function Decimal(n: nat): (r: string)
    ensures |r| >= 1 && AllDigits(r)
    ensures |r| > 1 ==> r[0] != '0'
    decreases n
  {
    if n < 10 then [DigitChar(n)] else Decimal(n / 10) + [DigitChar(n % 10)]
  }

  /** The value of a numeral, most significant digit first. */
  function DecimalValue(s: string): nat
    requires AllDigits(s)
  {
    if s == [] then 0 else 10 * DecimalValue(s[..|s| - 1]) + DigitValue(s[|s| - 1])
  }

  /** Reading a numeral back gives the number it was printed from. */
  lemma {:induction false} DecimalRoundTrip(n: nat)
    ensures DecimalValue(Decimal(n)) == n
    decreases n
  {
    var r := Decimal(n);
    if n >= 10 {
      DecimalRoundTrip(n / 10);
      assert r[..|r| - 1] == Decimal(n / 10);
    }
  }

  // ---------------------------------------------------------------------
  // Array.prototype.join
  // ---------------------------------------------------------------------

  /** `parts.join(sep)` */
  function Join(parts: seq<string>, sep: string): string
    decreases |parts|
  {
    if |parts| == 0 then ""
    else if |parts| == 1 then parts[0]
    else parts[0] + sep + Join(parts[1..], sep)
  }

  /**
   * Joining keeps the parts in order: the join of a concatenation is the join
   * of the first list, the separator, then the join of the second.
   */
  lemma {:induction false} JoinAppend(a: seq<string>, b: seq<string>, sep: string)
    requires |a| > 0 && |b| > 0
    ensures Join(a + b, sep) == Join(a, sep) + sep + Join(b, sep)
    decreases |a|
  {
    if |a| == 1 {
      assert (a + b)[1..] == b;
    } else {
      assert (a + b)[1..] == a[1..] + b;
      JoinAppend(a[1..], b, sep);
    }
  }

  /** The length of a join: every part once, one separator between neighbours. */
  lemma {:induction false} JoinLength(parts: seq<string>, sep: string, total: nat)
    requires total == SumLengths(parts)
    ensures |parts| > 0 ==> |Join(parts, sep)| == total + (|parts| - 1) * |sep|
    ensures |parts| == 0 ==> Join(parts, sep) == ""
    decreases |parts|
  {
    if |parts| > 1 {
      JoinLength(parts[1..], sep, total - |parts[0]|);
    }
  }

  function SumLengths(parts: seq<string>): nat {
    if parts == [] then 0 else |parts[0]| + SumLengths(parts[1..])
  }

  // ---------------------------------------------------------------------
  // formatContentForClipboard
  // ---------------------------------------------------------------------

  lemma {:induction false} KeyTermEntriesAppend(a: seq<KeyTerm>, b: seq<KeyTerm>)
    ensures KeyTermEntries(a + b) == KeyTermEntries(a) + KeyTermEntries(b)
    decreases |a|
  {
    if a == [] {
      assert a + b == b;
    } else {
      assert (a + b)[0] == a[0] && (a + b)[1..] == a[1..] + b;
      KeyTermEntriesAppend(a[1..], b);
    }
  }

  /** One key term: the upper-cased term, then its explanation indented by two spaces. */
  function KeyTermEntry(t: KeyTerm): string {
    Upper(t.term) + "\n  " + t.explanation + "\n"
  }

  /** The concept at zero-based position `i`: numbered from one, title upper-cased, description indented by three. */
  function ConceptEntry(i: nat, c: MainConcept): string {
    Decimal(i + 1) + ". " + Upper(c.title) + "\n   " + c.description + "\n"
  }

  /** The key point at zero-based position `i`, numbered from one. */
  function PointEntry(i: nat, p: string): string {
    Decimal(i + 1) + ". " + p
  }

  function KeyTermEntries(ts: seq<KeyTerm>): (r: seq<string>)
    ensures |r| == |ts|
    ensures forall i :: 0 <= i < |ts| ==> r[i] == Upper(ts[i].term) + "\n  " + ts[i].explanation + "\n"
  {
    if ts == [] then [] else [KeyTermEntry(ts[0])] + KeyTermEntries(ts[1..])
  }

  /** The entries of `cs`, the first one numbered as position `start`. */
  function ConceptEntries(cs: seq<MainConcept>, start: nat): (r: seq<string>)
    ensures |r| == |cs|
    ensures forall i :: 0 <= i < |cs| ==>
      r[i] == Decimal(start + i + 1) + ". " + Upper(cs[i].title) + "\n   " + cs[i].description + "\n"
    decreases |cs|
  {
    if cs == [] then [] else [ConceptEntry(start, cs[0])] + ConceptEntries(cs[1..], start + 1)
  }

  /** The entries of `ps`, the first one numbered as position `start`. */
  function PointEntries(ps: seq<string>, start: nat): (r: seq<string>)
    ensures |r| == |ps|
    ensures forall i :: 0 <= i < |ps| ==> r[i] == Decimal(start + i + 1) + ". " + ps[i]
    decreases |ps|
  {
    if ps == [] then [] else [PointEntry(start, ps[0])] + PointEntries(ps[1..], start + 1)
  }

  const SummaryTitle: string := "\nDOCUMENT SUMMARY\n"
  const KeyTermsTitle: string := "\nKEY TERMS\n"
  const ConceptsTitle: string := "\nMAIN CONCEPTS\n"
  const PointsTitle: string := "\nKEY POINTS\n"

  const SummaryHeading: string := SummaryTitle + "===============\n\n"
  const KeyTermsHeading: string := "\n\n" + KeyTermsTitle + "=========\n"
  const ConceptsHeading: string := "\n\n" + ConceptsTitle + "============\n"
  const PointsHeading: string := "\n\n" + PointsTitle + "==========\n"

  function TermsText(c: ProcessedContent): string {
    Join(KeyTermEntries(c.keyTerms), "\n")
  }

  function ConceptsText(c: ProcessedContent): string {
    Join(ConceptEntries(c.mainConcepts, 0), "\n\n")
  }

  function PointsText(c: ProcessedContent): string {
    Join(PointEntries(c.keyPoints, 0), "\n\n")
  }

  /**
   * The shape of the clipboard text: four headings, each followed by its
   * section body, and a final line break.
   */
  function Layout(h1: string, b1: string, h2: string, b2: string,
                  h3: string, b3: string, h4: string, b4: string): string
  {
    h1 + b1 + h2 + b2 + h3 + b3 + h4 + b4 + "\n"
  }

  /** `formatContentForClipboard(content)` */
  function FormatContentForClipboard(c: ProcessedContent): (r: string)
    ensures |SummaryHeading + c.summary| <= |r|
    ensures r[..|SummaryHeading + c.summary|] == SummaryHeading + c.summary
    ensures c.keyPoints == [] ==> r[|r| - |PointsHeading + "\n"|..] == PointsHeading + "\n"
  {
    LayoutEnds(SummaryHeading, c.summary, KeyTermsHeading, TermsText(c),
      ConceptsHeading, ConceptsText(c), PointsHeading, PointsText(c));
    Layout(SummaryHeading, c.summary, KeyTermsHeading, TermsText(c),
      ConceptsHeading, ConceptsText(c), PointsHeading, PointsText(c))
  }

  lemma LayoutEnds(h1: string, b1: string, h2: string, b2: string,
                   h3: string, b3: string, h4: string, b4: string)
    ensures var r := Layout(h1, b1, h2, b2, h3, b3, h4, b4);
      && |h1 + b1| <= |r|
      && r[..|h1 + b1|] == h1 + b1
      && (b4 == [] ==> r[|r| - |h4 + "\n"|..] == h4 + "\n")
  {
    var r := Layout(h1, b1, h2, b2, h3, b3, h4, b4);
    var front := h1 + b1 + h2 + b2 + h3 + b3;
    assert r == front + h4 + b4 + "\n";
    assert r[..|h1 + b1|] == h1 + b1 by {
      forall k | 0 <= k < |h1 + b1|
        ensures r[k] == (h1 + b1)[k]
      {
        assert r[k] == front[k];
      }
    }
    if b4 == [] {
      assert r == front + (h4 + "\n");
    }
  }

  /**
   * Each heading is a two-character gap, a title and a rule: the titles then
   * occur in the layout in heading order.
   */
  lemma LayoutTitles(h1: string, b1: string, h2: string, b2: string,
                     h3: string, b3: string, h4: string, b4: string,
                     t2: string, r2: string, t3: string, r3: string, t4: string, r4: string)
    requires h2 == "\n\n" + t2 + r2 && h3 == "\n\n" + t3 + r3 && h4 == "\n\n" + t4 + r4
    ensures var r := Layout(h1, b1, h2, b2, h3, b3, h4, b4);
      && OccursAt(r, h1, 0)
      && OccursAt(r, t2, |h1 + b1| + 2)
      && OccursAt(r, t3, |h1 + b1 + h2 + b2| + 2)
      && OccursAt(r, t4, |h1 + b1 + h2 + b2 + h3 + b3| + 2)
  {
    var r := Layout(h1, b1, h2, b2, h3, b3, h4, b4);
    TitleAt(r, h1 + b1, t2, r2, h2);
    TitleAt(r, h1 + b1 + h2 + b2, t3, r3, h3);
    TitleAt(r, h1 + b1 + h2 + b2 + h3 + b3, t4, r4, h4);
    assert r[0..|h1|] == h1 by {
      forall k | 0 <= k < |h1|
        ensures r[k] == h1[k]
      {
        assert r[k] == (h1 + b1)[k];
      }
    }
  }

  /** `r` continues `front` with the heading `"\n\n" + t + rule`: `t` sits two past `front`. */
  lemma TitleAt(r: string, front: string, t: string, rule: string, h: string)
    requires h == "\n\n" + t + rule
    requires |front + h| <= |r| && r[..|front + h|] == front + h
    ensures OccursAt(r, t, |front| + 2)
  {
    forall k | 0 <= k < |t|
      ensures r[|front| + 2 + k] == t[k]
    {
      assert r[|front| + 2 + k] == (front + h)[|front| + 2 + k];
      assert (front + h)[|front| + 2 + k] == h[2 + k];
    }
  }

  /**
   * The four section headings appear in the fixed order DOCUMENT SUMMARY,
   * KEY TERMS, MAIN CONCEPTS, KEY POINTS, each on its own line.
   */
  lemma ClipboardSectionOrder(c: ProcessedContent) returns (i1: nat, i2: nat, i3: nat, i4: nat)
    ensures i1 < i2 < i3 < i4
    ensures OccursAt(FormatContentForClipboard(c), SummaryTitle, i1)
    ensures OccursAt(FormatContentForClipboard(c), KeyTermsTitle, i2)
    ensures OccursAt(FormatContentForClipboard(c), ConceptsTitle, i3)
    ensures OccursAt(FormatContentForClipboard(c), PointsTitle, i4)
  {
    LayoutTitles(SummaryHeading, c.summary, KeyTermsHeading, TermsText(c),
      ConceptsHeading, ConceptsText(c), PointsHeading, PointsText(c),
      KeyTermsTitle, "=========\n", ConceptsTitle, "============\n", PointsTitle, "==========\n");
    i1 := 0;
    i2 := |SummaryHeading + c.summary| + 2;
    i3 := |SummaryHeading + c.summary + KeyTermsHeading + TermsText(c)| + 2;
    i4 := |SummaryHeading + c.summary + KeyTermsHeading + TermsText(c) + ConceptsHeading + ConceptsText(c)| + 2;
    assert OccursAt(SummaryHeading, SummaryTitle, 0);
  }

  /** `a` is a prefix of `c` whenever it is a prefix of a prefix of `c`. */
  lemma PrefixTrans(a: string, b: string, c: string)
    requires a <= b && b <= c
    ensures a <= c
  {
    assert c[..|a|] == b[..|a|];
  }

  /** A piece that follows the prefix `p` of `r` occurs in `r` right after `p`. */
  lemma PieceAt(r: string, p: string, s: string)
    requires p + s <= r
    ensures OccursAt(r, s, |p|)
  {
    forall k | 0 <= k < |s|
      ensures r[|p| + k] == s[k]
    {
      assert r[|p| + k] == (p + s)[|p| + k];
    }
  }

  /**
   * The layout is its eight pieces back to back and a final line break: each
   * piece occurs right where the previous one ends.
   */
  lemma LayoutPieces(h1: string, b1: string, h2: string, b2: string,
                     h3: string, b3: string, h4: string, b4: string)
    ensures var r := Layout(h1, b1, h2, b2, h3, b3, h4, b4);
      && OccursAt(r, h1, 0)
      && OccursAt(r, b1, |h1|)
      && OccursAt(r, h2, |h1| + |b1|)
      && OccursAt(r, b2, |h1| + |b1| + |h2|)
      && OccursAt(r, h3, |h1| + |b1| + |h2| + |b2|)
      && OccursAt(r, b3, |h1| + |b1| + |h2| + |b2| + |h3|)
      && OccursAt(r, h4, |h1| + |b1| + |h2| + |b2| + |h3| + |b3|)
      && OccursAt(r, b4, |h1| + |b1| + |h2| + |b2| + |h3| + |b3| + |h4|)
      && |r| == |h1| + |b1| + |h2| + |b2| + |h3| + |b3| + |h4| + |b4| + 1
      && r[|r| - 1] == '\n'
  {
    var r := Layout(h1, b1, h2, b2, h3, b3, h4, b4);
    var q1 := h1;
    var q2 := q1 + b1;
    var q3 := q2 + h2;
    var q4 := q3 + b2;
    var q5 := q4 + h3;
    var q6 := q5 + b3;
    var q7 := q6 + h4;
    var q8 := q7 + b4;
    assert r == q8 + "\n";
    PrefixTrans(q7, q8, r);
    PrefixTrans(q6, q7, r);
    PrefixTrans(q5, q6, r);
    PrefixTrans(q4, q5, r);
    PrefixTrans(q3, q4, r);
    PrefixTrans(q2, q3, r);
    PrefixTrans(q1, q2, r);
    assert [] + h1 == h1;
    PieceAt(r, [], h1);
    PieceAt(r, q1, b1);
    PieceAt(r, q2, h2);
    PieceAt(r, q3, b2);
    PieceAt(r, q4, h3);
    PieceAt(r, q5, b3);
    PieceAt(r, q6, h4);
    PieceAt(r, q7, b4);
  }

  /**
   * Every section of the clipboard text holds its own entries. After the
   * summary heading and the summary, the joined key-term entries follow the KEY
   * TERMS heading, the joined concept entries follow the MAIN CONCEPTS
   * heading and the joined key points follow the KEY POINTS heading, each
   * section ending where the next heading starts, and the text ends with a
   * line break after the key points.
   */
  lemma ClipboardSections(c: ProcessedContent) returns (i2: nat, i3: nat, i4: nat)
    ensures i2 == |SummaryHeading| + |c.summary|
    ensures OccursAt(FormatContentForClipboard(c), KeyTermsHeading, i2)
    ensures OccursAt(FormatContentForClipboard(c), TermsText(c), i2 + |KeyTermsHeading|)
    ensures i3 == i2 + |KeyTermsHeading| + |TermsText(c)|
    ensures OccursAt(FormatContentForClipboard(c), ConceptsHeading, i3)
    ensures OccursAt(FormatContentForClipboard(c), ConceptsText(c), i3 + |ConceptsHeading|)
    ensures i4 == i3 + |ConceptsHeading| + |ConceptsText(c)|
    ensures OccursAt(FormatContentForClipboard(c), PointsHeading, i4)
    ensures OccursAt(FormatContentForClipboard(c), PointsText(c), i4 + |PointsHeading|)
    ensures |FormatContentForClipboard(c)| == i4 + |PointsHeading| + |PointsText(c)| + 1
    ensures FormatContentForClipboard(c)[|FormatContentForClipboard(c)| - 1] == '\n'
  {
    LayoutPieces(SummaryHeading, c.summary, KeyTermsHeading, TermsText(c),
      ConceptsHeading, ConceptsText(c), PointsHeading, PointsText(c));
    i2 := |SummaryHeading| + |c.summary|;
    i3 := i2 + |KeyTermsHeading| + |TermsText(c)|;
    i4 := i3 + |ConceptsHeading| + |ConceptsText(c)|;
  }

  /** The numerical findings are never rendered: changing them leaves the text unchanged. */
  lemma ClipboardOmitsNumericalData(c: ProcessedContent, data: seq<NumericalFinding>)
    ensures FormatContentForClipboard(c.(numericalData := data)) == FormatContentForClipboard(c)
  {
  }

  /** The key-term section lists the entries in input order, separated by one line break. */
  lemma KeyTermsInInputOrder(a: seq<KeyTerm>, b: seq<KeyTerm>)
    requires |a| > 0 && |b| > 0
    ensures Join(KeyTermEntries(a + b), "\n") == Join(KeyTermEntries(a), "\n") + "\n" + Join(KeyTermEntries(b), "\n")
  {
    KeyTermEntriesAppend(a, b);
    JoinAppend(KeyTermEntries(a), KeyTermEntries(b), "\n");
  }

  // ---------------------------------------------------------------------
  // Export file name: `${fileName.replace(/\.[^/.]+$/, '')}_summary.pdf`
  // ---------------------------------------------------------------------

  /**
   * `/\.[^/.]+$/` matches at `i`: a dot followed by at least one character,
   * none of which is a dot or a slash, up to the end of the name.
   */
  predicate ExtensionAt(name: string, i: nat) {
    && i + 1 < |name|
    && name[i] == '.'
    && forall j :: i < j < |name| ==> name[j] != '.' && name[j] != '/'
  }

  /** The pattern matches at one position at most. */
  lemma ExtensionUnique(name: string, i: nat, j: nat)
    requires ExtensionAt(name, i) && ExtensionAt(name, j)
    ensures i == j
  {
  }

  /**
   * Scanning `name[..k]` backwards, where nothing from `k` on is a dot or a
   * slash: the start of the extension, if any.
   */
  function FindExtension(name: string, k: nat): (r: Option<nat>)
    requires k <= |name|
    requires forall j :: k <= j < |name| ==> name[j] != '.' && name[j] != '/'
    ensures r.Some? ==> ExtensionAt(name, r.value)
    ensures r.None? ==> forall i: nat :: !ExtensionAt(name, i)
    decreases k
  {
    if k == 0 then None
    else if name[k - 1] == '/' then
      assert forall i: nat :: i < k - 1 ==> !ExtensionAt(name, i) by {
        forall i: nat | i < k - 1 ensures !ExtensionAt(name, i) {
          assert name[k - 1] == '/';
        }
      }
      None
    else if name[k - 1] == '.' then
      if k < |name| then Some(k - 1)
      else
        assert forall i: nat :: i < k - 1 ==> !ExtensionAt(name, i) by {
          forall i: nat | i < k - 1 ensures !ExtensionAt(name, i) {
            assert name[k - 1] == '.';
          }
        }
        None
    else FindExtension(name, k - 1)
  }

  /** `fileName.replace(/\.[^/.]+$/, '')` */
  function StripExtension(name: string): (r: string)
    ensures (exists i: nat :: ExtensionAt(name, i) && r == name[..i])
            || ((forall i: nat :: !ExtensionAt(name, i)) && r == name)
  {
    match FindExtension(name, |name|)
    case Some(i) => name[..i]
    case None => name
  }

  /** The name given to the exported PDF. */
  function ExportFileName(fileName: string): (r: string)
    ensures |r| >= 12 && r[|r| - 12..] == "_summary.pdf"
    ensures (exists i: nat :: ExtensionAt(fileName, i) && r == fileName[..i] + "_summary.pdf")
            || ((forall i: nat :: !ExtensionAt(fileName, i)) && r == fileName + "_summary.pdf")
  {
    StripExtension(fileName) + "_summary.pdf"
  }
}
