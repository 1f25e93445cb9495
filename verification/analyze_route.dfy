/**
 * The `POST` handler of the analyze endpoint (app/api/analyze/route.ts) as a
 * pure function from the outcomes of its external calls to what it answers
 * and what it asks the outside world to do.
 *
 * The external calls are inputs: the text `pdf-parse` extracts, the model's
 * reply, `JSON.parse`, the incoming `anonymous_id` cookie, the id
 * `crypto.randomUUID` would produce, whether the server runs in production,
 * the authenticated user and the outcome of the insert. The result records
 * the HTTP status and JSON body, the prompt sent to the model, the cookie
 * set on the response and the row handed to the insert.
 */
module AnalyzeRoute {
  import opened Types

  // ---------------------------------------------------------------------
  // Inputs
  // ---------------------------------------------------------------------

  /** An uploaded `File`: its name, its media type and `file.text()`. */
  datatype UploadedFile = UploadedFile(name: string, mediaType: string, text: string)

  /**
   * `formData.get('file')`: no entry (`null`), a plain string entry, or a file.
   * Only an empty string and `null` are falsy.
   */
  datatype FileField = Absent | TextValue(value: string) | FileValue(file: UploadedFile)

  /**
   * `await req.formData()`: it either throws (with or without a message) or
   * yields the form. The `documentType` entry the client may send is kept
   * to show that the handler never reads it.
   */
  datatype FormRead =
    | ReadFailed(message: Option<string>)
    | Read(file: FileField, documentType: Option<string>)

  /** The model call: it throws, or answers with `choices[0].message.content`. */
  datatype ModelReply = CallFailed | Replied(content: Option<string>)

  /** What the insert into `summaries` reports; the handler ignores it. */
  datatype InsertResult = InsertOk | InsertFailed(message: string)

  /** The outcomes of every external call the handler makes. */
  datatype Externals<J> = Externals(
    pdfText: Option<string>,
    reply: ModelReply,
    parse: string -> Option<J>,
    cookie: Option<string>,
    freshId: string,
    production: bool,
    user: Option<User>,
    insertResult: InsertResult)

  // ---------------------------------------------------------------------
  // Outputs
  // ---------------------------------------------------------------------

  datatype Cookie = Cookie(
    name: string,
    value: string,
    httpOnly: bool,
    secure: bool,
    sameSite: string,
    maxAge: nat)

  /**
   * A response body: the parsed model output as it came, or the error
   * envelope. The envelope has exactly these five fields; in particular it
   * has no `numericalData`.
   */
  datatype Body<J> =
    | Content(value: J)
    | ErrorEnvelope(
        error: string,
        keyTerms: seq<KeyTerm>,
        mainConcepts: seq<MainConcept>,
        keyPoints: seq<string>,
        summary: string)

  datatype Response<J> = Response(
    status: nat,
    body: Body<J>,
    prompt: Option<string>,
    setCookie: Option<Cookie>,
    insert: Option<SummaryRecord<J>>)

  const NoFileMessage: string := "No file provided"
  const ProcessFailedMessage: string := "Failed to process document"
  const AnalyzeFailedMessage: string := "Failed to analyze document"

  const CookieName: string := "anonymous_id"
  const PdfType: string := "application/pdf"
  const PlainTextType: string := "text/plain"

  /** `60 * 60 * 24 * 365` seconds. */
  const OneYear: nat := 60 * 60 * 24 * 365

  /** The envelope every error exit answers with. */
  function Envelope<J>(message: string): (b: Body<J>)
    ensures b.ErrorEnvelope? && b.error == message
    ensures b.keyTerms == [] && b.mainConcepts == [] && b.keyPoints == [] && b.summary == []
  {
    ErrorEnvelope(message, [], [], [], "")
  }

  function Fail<J>(status: nat, message: string, prompt: Option<string>): Response<J> {
    Response(status, Envelope(message), prompt, None, None)
  }

  // ---------------------------------------------------------------------
  // Steps
  // ---------------------------------------------------------------------

  /**
   * The text the handler sends on: `pdf-parse`'s output for a PDF, the file's
   * text for plain text, and nothing (the handler throws) for any other
   * media type or for a string entry, whose `type` is undefined.
   */
  function ExtractText(field: FileField, pdfText: Option<string>): (t: Option<string>)
    ensures t.Some? ==> field.FileValue?
    ensures field.FileValue? && field.file.mediaType == PlainTextType ==> t == Some(field.file.text)
    ensures field.FileValue? && field.file.mediaType == PdfType ==> t == pdfText
    ensures field.FileValue? && field.file.mediaType != PdfType && field.file.mediaType != PlainTextType ==> t.None?
  {
    match field
    case FileValue(f) =>
      if f.mediaType == PdfType then pdfText
      else if f.mediaType == PlainTextType then Some(f.text)
      else None
    case _ => None
  }

  const Instructions: string :=
    "Analyze the following document and structure the information into these categories:\n"
    + "\n"
    + "1. Summary: A concise overview of the main points\n"
    + "2. Key Terms: Important terminology with explanations\n"
    + "3. Main Concepts: Core ideas and their descriptions\n"
    + "4. Key Points: Bullet points of crucial information\n"
    + "5. Numerical Data: Extract and explain significant statistics, dates, or measurements\n"
    + "\n"
    + "For numerical data, include:\n"
    + "- The actual value\n"
    + "- The context it appears in\n"
    + "- Its significance or implications\n"
    + "\n"
    + "Format the response as a JSON object with this structure:\n"
    + "{\n"
    + "  \"summary\": \"string\",\n"
    + "  \"keyTerms\": [{ \"term\": \"string\", \"explanation\": \"string\" }],\n"
    + "  \"mainConcepts\": [{ \"title\": \"string\", \"description\": \"string\" }],\n"
    + "  \"keyPoints\": [\"string\"],\n"
    + "  \"numericalData\": [{ \"value\": \"string\", \"context\": \"string\", \"significance\": \"string\" }]\n"
    + "}\n"
    + "\n"

  const ContentMarker: string := "Document content:\n"

  /** Everything in the prompt before the document text. */
  const PromptPreamble: string := Instructions + ContentMarker

  /** The prompt: the fixed instructions, the marker line, then the text verbatim. */
  function BuildPrompt(text: string): string {
    PromptPreamble + text
  }

  /** `s` without its prefix `pre`, if it starts with `pre`. */
  function DropPrefix(pre: string, s: string): (t: Option<string>)
    ensures t.Some? <==> pre <= s
    ensures t.Some? ==> pre + t.value == s
  {
    if |pre| <= |s| && s[..|pre|] == pre then Some(s[|pre|..]) else None
  }

  /** Dropping a prefix undoes prepending it. */
  lemma DropPrefixRoundTrip(pre: string, x: string)
    ensures DropPrefix(pre, pre + x) == Some(x)
  {
    assert (pre + x)[..|pre|] == pre;
    assert (pre + x)[|pre|..] == x;
  }

  /** The document text a prompt carries, if it is one. */
  function PromptDocument(prompt: string): Option<string> {
    DropPrefix(PromptPreamble, prompt)
  }

  lemma ConcatParts(a: string, b: string, c: string)
    ensures a <= a + b + c && (a + b + c)[|a|..] == b + c
  {
    assert (a + b + c)[..|a|] == a;
  }

  /**
   * The prompt starts with the instructions, continues with the marker line
   * and ends with the text unchanged, and the text is recovered from it: the
   * prompt depends on the text alone, and on all of it.
   */
  lemma PromptRoundTrip(text: string)
    ensures Instructions <= BuildPrompt(text)
    ensures BuildPrompt(text)[|Instructions|..] == ContentMarker + text
    ensures PromptDocument(BuildPrompt(text)) == Some(text)
  {
    ConcatParts(Instructions, ContentMarker, text);
    DropPrefixRoundTrip(PromptPreamble, text);
  }

  lemma PromptInjective(a: string, b: string)
    requires BuildPrompt(a) == BuildPrompt(b)
    ensures a == b
  {
    PromptRoundTrip(a);
    PromptRoundTrip(b);
  }

  /** The model's answer as the handler accepts it: present and non-empty. */
  function ReplyText(reply: ModelReply): (c: Option<string>)
    ensures c.Some? <==> reply.Replied? && reply.content.Some? && reply.content.value != ""
    ensures c.Some? ==> c.value == reply.content.value
  {
    match reply
    case CallFailed => None
    case Replied(None) => None
    case Replied(Some(s)) => if s == "" then None else Some(s)
  }

  /** The cookie issued to a visitor who has none. */
  function AnonymousCookie(id: string, production: bool): (c: Cookie)
    ensures c.name == CookieName && c.value == id
    ensures c.httpOnly && c.secure == production && c.sameSite == "strict"
    ensures c.maxAge == 31536000
  {
    Cookie(CookieName, id, true, production, "strict", OneYear)
  }

  /** An incoming cookie is used when it has a non-empty value. */
  predicate HasCookie(cookie: Option<string>) {
    cookie.Some? && cookie.value != ""
  }

  /** The anonymous id of the request: the incoming one, or the fresh one. */
  function AnonymousId(cookie: Option<string>, freshId: string): (id: string)
    ensures HasCookie(cookie) ==> id == cookie.value
    ensures !HasCookie(cookie) ==> id == freshId
  {
    if HasCookie(cookie) then cookie.value else freshId
  }

  /**
   * The row inserted for a document: `user_id` is the user's id (`null` when
   * there is no user or the id is empty), `anonymous_id` the anonymous id only
   * when there is no user.
   */
  function OwnedRecord<J>(user: Option<User>, anonymousId: string, name: string, content: J): (r: SummaryRecord<J>)
    ensures r.documentName == name && r.content == content
    ensures !(r.userId.Some? && r.anonymousId.Some?)
    ensures user.None? ==> r.userId.None? && r.anonymousId == Some(anonymousId)
    ensures user.Some? ==> r.anonymousId.None?
    ensures user.Some? && user.value.id != "" ==> r.userId == Some(user.value.id)
  {
    var userId := if user.Some? && user.value.id != "" then Some(user.value.id) else None;
    SummaryRecord(userId, if user.Some? then None else Some(anonymousId), name, content)
  }

  // ---------------------------------------------------------------------
  // The handler
  // ---------------------------------------------------------------------

  /** `POST(req)` */
  function Post<J>(form: FormRead, env: Externals<J>): (r: Response<J>)
    ensures r.status == 200 || r.status == 400 || r.status == 500
    ensures r.status == 200 <==> r.body.Content?
    ensures r.body.ErrorEnvelope? ==>
      r.body.keyTerms == [] && r.body.mainConcepts == [] && r.body.keyPoints == [] && r.body.summary == []
    ensures r.insert.Some? <==> r.status == 200
    ensures r.setCookie.Some? ==> r.status == 200
    ensures r.status == 500 <==> form.ReadFailed?
  {
    match form
    case ReadFailed(message) =>
      var m := if message.Some? && message.value != "" then message.value else AnalyzeFailedMessage;
      Fail(500, m, None)
    case Read(field, _) =>
      if field.Absent? || field == TextValue("") then Fail(400, NoFileMessage, None)
      else
        match ExtractText(field, env.pdfText)
        case None => Fail(400, ProcessFailedMessage, None)
        case Some(text) =>
          var prompt := BuildPrompt(text);
          match ReplyText(env.reply)
          case None => Fail(400, ProcessFailedMessage, Some(prompt))
          case Some(content) =>
            match env.parse(content)
            case None => Fail(400, ProcessFailedMessage, Some(prompt))
            case Some(parsed) =>
              var id := AnonymousId(env.cookie, env.freshId);
              var setCookie := if HasCookie(env.cookie) then None else Some(AnonymousCookie(env.freshId, env.production));
              var record := OwnedRecord(env.user, id, field.file.name, parsed);
              Response(200, Content(parsed), Some(prompt), setCookie, Some(record))
  }

  // ---------------------------------------------------------------------
  // Properties
  // ---------------------------------------------------------------------

  /** A request whose form cannot be read fails with 500 and the error's message, if it has one. */
  lemma ReadFailureIs500<J>(message: Option<string>, env: Externals<J>)
    ensures var r := Post(ReadFailed(message), env);
      && r.status == 500
      && r.body == ErrorEnvelope(if message.Some? && message.value != "" then message.value else AnalyzeFailedMessage, [], [], [], "")
      && r.prompt.None? && r.setCookie.None? && r.insert.None?
  {
  }

  /** No file, or an empty string in its place: 400 "No file provided", and nothing else happens. */
  lemma MissingFileIs400<J>(field: FileField, documentType: Option<string>, env: Externals<J>)
    requires field.Absent? || field == TextValue("")
    ensures var r := Post(Read(field, documentType), env);
      && r.status == 400
      && r.body == ErrorEnvelope(NoFileMessage, [], [], [], "")
      && r.prompt.None? && r.setCookie.None? && r.insert.None?
  {
  }

  /** A file of any other media type is rejected before the model is asked. */
  lemma UnsupportedTypeIs400<J>(file: UploadedFile, documentType: Option<string>, env: Externals<J>)
    requires file.mediaType != PdfType && file.mediaType != PlainTextType
    ensures var r := Post(Read(FileValue(file), documentType), env);
      && r.status == 400
      && r.body == ErrorEnvelope(ProcessFailedMessage, [], [], [], "")
      && r.prompt.None? && r.insert.None?
  {
  }

  /** Whenever the model is asked, the prompt ends with the extracted text verbatim. */
  lemma PromptCarriesText<J>(form: FormRead, env: Externals<J>)
    requires Post(form, env).prompt.Some?
    ensures form.Read?
    ensures ExtractText(form.file, env.pdfText).Some?
    ensures PromptDocument(Post(form, env).prompt.value) == ExtractText(form.file, env.pdfText)
  {
    var text := ExtractText(form.file, env.pdfText).value;
    PromptRoundTrip(text);
  }

  /** A missing or empty reply, or one that does not parse, is a 400 and nothing is stored. */
  lemma BadReplyIs400<J>(file: UploadedFile, documentType: Option<string>, env: Externals<J>)
    requires ExtractText(FileValue(file), env.pdfText).Some?
    requires ReplyText(env.reply).None? || env.parse(ReplyText(env.reply).value).None?
    ensures var r := Post(Read(FileValue(file), documentType), env);
      && r.status == 400
      && r.body == ErrorEnvelope(ProcessFailedMessage, [], [], [], "")
      && r.setCookie.None? && r.insert.None?
  {
  }

  /**
   * The exits in one statement: 200 exactly when a file of a supported type
   * was read, the model answered with non-empty text and that text parsed;
   * the body is then the parsed value itself, unchanged.
   */
  lemma SuccessCharacterisation<J>(form: FormRead, env: Externals<J>)
    ensures Post(form, env).status == 200 <==>
      && form.Read? && form.file.FileValue?
      && ExtractText(form.file, env.pdfText).Some?
      && ReplyText(env.reply).Some?
      && env.parse(ReplyText(env.reply).value).Some?
    ensures Post(form, env).status == 200 ==>
      Post(form, env).body == Content(env.parse(ReplyText(env.reply).value).value)
  {
  }

  /** An existing cookie is kept as it is and no cookie is set. */
  lemma CookieReused<J>(form: FormRead, env: Externals<J>)
    requires Post(form, env).status == 200 && HasCookie(env.cookie)
    ensures Post(form, env).setCookie.None?
    ensures env.user.None? ==> Post(form, env).insert.value.anonymousId == env.cookie
  {
  }

  /** Without a cookie the fresh id is set for a year, also for a signed-in user. */
  lemma CookieIssued<J>(form: FormRead, env: Externals<J>)
    requires Post(form, env).status == 200 && !HasCookie(env.cookie)
    ensures Post(form, env).setCookie == Some(Cookie("anonymous_id", env.freshId, true, env.production, "strict", 31536000))
    ensures env.user.None? ==> Post(form, env).insert.value.anonymousId == Some(env.freshId)
  {
  }

  /**
   * The stored row has at most one owner: the user when there is one with a
   * non-empty id, the anonymous id when there is no user. A signed-in user
   * whose id is empty leaves the row without an owner. The row carries the
   * file's name and the parsed content.
   */
  lemma SingleOwner<J>(form: FormRead, env: Externals<J>)
    requires Post(form, env).status == 200
    ensures var rec := Post(form, env).insert.value;
      && !(rec.userId.Some? && rec.anonymousId.Some?)
      && (env.user.Some? && env.user.value.id != "" ==> rec.userId == Some(env.user.value.id))
      && (env.user.Some? && env.user.value.id == "" ==> rec.userId.None? && rec.anonymousId.None?)
      && (env.user.None? ==> rec.userId.None? && rec.anonymousId == Some(AnonymousId(env.cookie, env.freshId)))
      && rec.documentName == form.file.file.name
      && Post(form, env).body == Content(rec.content)
  {
  }

  /** Whether the insert succeeded has no influence on anything the handler does. */
  lemma InsertOutcomeIgnored<J>(form: FormRead, env: Externals<J>, other: InsertResult)
    ensures Post(form, env.(insertResult := other)) == Post(form, env)
  {
  }

  /** The document-type field of the form is never read. */
  lemma DocumentTypeIgnored<J>(field: FileField, a: Option<string>, b: Option<string>, env: Externals<J>)
    ensures Post(Read(field, a), env) == Post(Read(field, b), env)
  {
  }
}
