/**
 * The records shared across the application (app/types/index.ts), plus the
 * identity and stored-row shapes used by the analyze endpoint and the
 * summary list. `DocumentType` and `DocumentTypeConfig` are not modelled: no
 * operation here reads the document type, and the configuration only carries
 * display text and an icon component.
 */
module Types {

  datatype Option<+T> = None | Some(value: T)

  datatype KeyTerm = KeyTerm(term: string, explanation: string)

  datatype MainConcept = MainConcept(title: string, description: string)

  datatype NumericalFinding = NumericalFinding(value: string, context: string, significance: string)

  /** The analysis result the model is asked to produce and the UI renders. */
  datatype ProcessedContent = ProcessedContent(
    keyTerms: seq<KeyTerm>,
    mainConcepts: seq<MainConcept>,
    keyPoints: seq<string>,
    summary: string,
    numericalData: seq<NumericalFinding>)

  /** The authenticated user as the auth provider reports it. */
  datatype User = User(id: string)

  /**
   * A row of the `summaries` table as far as this application writes and
   * filters it: the owner columns (nullable), the document name and the
   * stored content. The database-generated `id` and `created_at` are not
   * modelled.
   */
  datatype SummaryRecord<C> = SummaryRecord(
    userId: Option<string>,
    anonymousId: Option<string>,
    documentName: string,
    content: C)

  /** `s` occurs in `r` starting at position `i`. */
  predicate OccursAt(r: string, s: string, i: nat) {
    i + |s| <= |r| && r[i..i + |s|] == s
  }
}
