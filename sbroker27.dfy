/**
 * The sBroker "v2.7" broker module: a document classifier that decides from
 * the first page whether a statement belongs to this format, and a parser
 * that, in the current state of the module, recognises nothing.
 */
module SBroker27 {
  import opened Wrappers
  import opened JsText

  /** One page of extracted text: its lines in order. */
  type Page = seq<string>

  /** The document sub-types this format distinguishes. Only purchases are declared. */
  datatype SubType = Buy

  /** The canonical transaction record; this module never builds one. */
  datatype Activity = Activity(
    broker: string,
    kind: SubType,
    date: string,
    datetime: string,
    isin: string,
    wkn: string,
    company: string,
    shares: real,
    price: real,
    amount: real,
    fee: real,
    tax: real)

  /** What `parsePages` hands back: the activities found, or none, and a status code. */
  datatype ParseOutcome = ParseOutcome(activities: Option<seq<Activity>>, status: int)

  const PdfExtension: string := "pdf"
  /** Issuer fingerprint: must appear on some line of the first page. */
  const IssuerFingerprint: string := "S Broker"
  /** Format-version fingerprint: must appear on some line of the first page. */
  const VersionFingerprint: string := "v2.7"
  /** Status meaning "document not recognized by this module". */
  const StatusNotRecognized: int := 5
  const StatusSuccess: int := 0

  /** The purchase signature. Not implemented yet: no page is a purchase. */
  predicate IsBuy(content: Page) {
    false
  }

  /** The sub-type of a first page, `None` standing for JavaScript's `undefined`. */
  function DocumentType(content: Page): (r: Option<SubType>)
    ensures r == Some(Buy) <==> IsBuy(content)
    ensures r == None <==> !IsBuy(content)
  {
    if IsBuy(content) then Some(Buy) else None
  }

  /**
   * Whether this module accepts the document. The first page is read only
   * when the extension is "pdf" (the conjunction short-circuits), so only
   * then must a first page exist.
   */
  predicate CanParseDocument(pages: seq<Page>, extension: string)
    requires extension == PdfExtension ==> |pages| > 0
  {
    && extension == PdfExtension
    && SomeLineIncludes(pages[0], IssuerFingerprint)
    && SomeLineIncludes(pages[0], VersionFingerprint)
    && DocumentType(pages[0]) != None
  }

  /** Parsing reports "not recognized" for every document. */
  function ParsePages(pages: seq<Page>): (r: ParseOutcome)
    ensures r.activities == None && r.status == StatusNotRecognized
  {
    ParseOutcome(None, StatusNotRecognized)
  }

  /** This module works on extracted text lines, not on images. */
  function ParsingIsTextBased(): (r: bool)
    ensures r
  {
    true
  }

  /**
   * A well-formed outcome: success carries at least one activity, and any
   * other status carries none.
   */
  predicate WellFormedOutcome(o: ParseOutcome) {
    if o.status == StatusSuccess then o.activities.Some? && |o.activities.value| > 0
    else o.activities == None
  }

  // ---------------------------------------------------------------------
  // Sub-type detection

  /** The purchase signature never fires. */
  lemma IsBuyNeverHolds(content: Page)
    ensures !IsBuy(content)
  {
  }

  /** Hence no first page has a sub-type. */
  lemma DocumentTypeAlwaysUndefined(content: Page)
    ensures DocumentType(content) == None
  {
    IsBuyNeverHolds(content);
  }

  // ---------------------------------------------------------------------
  // Classification

  /** The four conjuncts, stated with the reference definition of "some line contains". */
  ghost predicate AllConjunctsHold(pages: seq<Page>, extension: string)
    requires |pages| > 0
  {
    && extension == PdfExtension
    && (exists k :: 0 <= k < |pages[0]| && Occurs(pages[0][k], IssuerFingerprint))
    && (exists k :: 0 <= k < |pages[0]| && Occurs(pages[0][k], VersionFingerprint))
    && IsBuy(pages[0])
  }

  /** Acceptance is exactly the conjunction of file type, issuer, version and sub-type. */
  lemma CanParseIffAllConjuncts(pages: seq<Page>, extension: string)
    requires |pages| > 0
    ensures CanParseDocument(pages, extension) <==> AllConjunctsHold(pages, extension)
  {
    var first := pages[0];
    SomeLineIncludesIff(first, IssuerFingerprint);
    SomeLineIncludesIff(first, VersionFingerprint);
    forall k | 0 <= k < |first|
      ensures Includes(first[k], IssuerFingerprint) <==> Occurs(first[k], IssuerFingerprint)
      ensures Includes(first[k], VersionFingerprint) <==> Occurs(first[k], VersionFingerprint)
    {
      IncludesIffOccurs(first[k], IssuerFingerprint);
      IncludesIffOccurs(first[k], VersionFingerprint);
    }
  }

  /** Any extension other than exactly "pdf" is rejected, whatever (and however many) the pages. */
  lemma RejectsNonPdf(pages: seq<Page>, extension: string)
    requires extension != PdfExtension
    ensures !CanParseDocument(pages, extension)
  {
  }

  /** A first page on which no line contains the issuer fingerprint is rejected. */
  lemma RejectsWithoutIssuer(pages: seq<Page>, extension: string)
    requires |pages| > 0
    requires forall k :: 0 <= k < |pages[0]| ==> !Occurs(pages[0][k], IssuerFingerprint)
    ensures !CanParseDocument(pages, extension)
  {
    CanParseIffAllConjuncts(pages, extension);
  }

  /**
   * A first page on which no line contains the version fingerprint is
   * rejected, even when the issuer fingerprint is there.
   */
  lemma RejectsUnknownVersion(pages: seq<Page>, extension: string)
    requires |pages| > 0
    requires exists k :: 0 <= k < |pages[0]| && Occurs(pages[0][k], IssuerFingerprint)
    requires forall k :: 0 <= k < |pages[0]| ==> !Occurs(pages[0][k], VersionFingerprint)
    ensures !CanParseDocument(pages, extension)
  {
    CanParseIffAllConjuncts(pages, extension);
  }

  /** Only the first page and the extension matter: later pages can be anything. */
  lemma OnlyFirstPageMatters(pages: seq<Page>, other: seq<Page>, extension: string)
    requires |pages| > 0 && |other| > 0 && pages[0] == other[0]
    ensures CanParseDocument(pages, extension) == CanParseDocument(other, extension)
  {
  }

  /** With the stub sub-type detector the classifier rejects every document. */
  lemma NeverAccepts(pages: seq<Page>, extension: string)
    requires extension == PdfExtension ==> |pages| > 0
    ensures !CanParseDocument(pages, extension)
  {
    if extension == PdfExtension {
      DocumentTypeAlwaysUndefined(pages[0]);
    }
  }

  /** A genuine-looking first page carrying both fingerprints is still rejected. */
  lemma FingerprintsAloneDoNotSuffice()
    ensures SomeLineIncludes(["S Broker", "Wertpapier Abrechnung", "v2.7"], IssuerFingerprint)
    ensures SomeLineIncludes(["S Broker", "Wertpapier Abrechnung", "v2.7"], VersionFingerprint)
    ensures !CanParseDocument([["S Broker", "Wertpapier Abrechnung", "v2.7"]], PdfExtension)
  {
    var page: Page := ["S Broker", "Wertpapier Abrechnung", "v2.7"];
    assert StartsWith(page[0], IssuerFingerprint);
    assert StartsWith(page[2], VersionFingerprint);
    assert SomeLineIncludes(page[2..], VersionFingerprint);
    assert page[1..][1..] == page[2..];
  }

  /** An issuer match with a different version string fails the version fingerprint. */
  lemma OtherVersionNotRecognized()
    ensures SomeLineIncludes(["S Broker", "v2.6"], IssuerFingerprint)
    ensures !SomeLineIncludes(["S Broker", "v2.6"], VersionFingerprint)
  {
    var page: Page := ["S Broker", "v2.6"];
    assert StartsWith(page[0], IssuerFingerprint);
    MissingFirstCharNeverIncludes(page[0], VersionFingerprint);
    var line := page[1];
    assert !StartsWith(line, VersionFingerprint) by {
      assert line[3] != VersionFingerprint[3];
    }
    ShorterNeverIncludes(line[1..], VersionFingerprint);
    assert page[1..][1..] == [];
  }

  // ---------------------------------------------------------------------
  // Parsing

  /** The outcome of parsing is well formed and never a success. */
  lemma ParsePagesNotRecognized(pages: seq<Page>)
    ensures WellFormedOutcome(ParsePages(pages))
    ensures ParsePages(pages).status != StatusSuccess
  {
  }

  /**
   * Classifier and parser agree: parsing succeeds exactly on the documents
   * the classifier accepts (at present: none).
   */
  lemma ParseAgreesWithClassifier(pages: seq<Page>, extension: string)
    requires extension == PdfExtension ==> |pages| > 0
    ensures CanParseDocument(pages, extension) <==> ParsePages(pages).status == StatusSuccess
  {
    NeverAccepts(pages, extension);
  }
}
