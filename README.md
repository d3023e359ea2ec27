# sBroker v2.7 document classifier

A Dafny model of the sBroker "v2.7" broker module of the tresor-import
statement importer. A document arrives as pages of text lines, plus the
file's extension. The module has two jobs:

- decide, from the first page alone, whether the document is an sBroker v2.7
  statement (`canParseDocument`);
- turn it into activities (`parsePages`).

The classifier accepts only when four things hold:

- the extension is exactly `pdf`;
- some line of the first page contains `S Broker`;
- some line of the first page contains `v2.7`;
- the sub-type detector finds a sub-type.

The only sub-type is Buy, and its detector `isBuy` is still a stub that
always says no. So the classifier rejects every document. The parser always
returns "not recognized" (no activities, status 5). The model proves both
facts. It also proves each guard separately, so the properties keep their
meaning once `isBuy` is implemented.

Files:

- `wrappers.dfy`: `Option`, standing for JavaScript's `undefined`.
- `js_text.dfy`: the two JavaScript built-ins the classifier uses.
  `String.prototype.includes` and `Array.prototype.some` are written as
  left-to-right scans. Each is proved equal to an existential reference
  definition ("some position / some line").
- `sbroker27.dfy`: the module itself and its properties.

The tests next to the module expect `canParseDocument` to be true and
`parsePages` to return Buy activities with status 0. The code does not do
that yet. This model follows the code.

## Model

| member | source | states |
|---|---|---|
| JsText.IncludesIffOccurs | src/brokers/sbroker27.js:19-24 | `line.includes(fingerprint)` holds exactly when the fingerprint occurs at some position of the line |
| JsText.SomeLineIncludesIff | src/brokers/sbroker27.js:19-24 | `firstPageContent.some(line => line.includes(f))` holds exactly when some line of the page includes `f` |
| JsText.ShorterNeverIncludes | src/brokers/sbroker27.js:19-24 | a line shorter than the fingerprint never includes it |
| JsText.MissingFirstCharNeverIncludes | src/brokers/sbroker27.js:19-24 | a line lacking the fingerprint's first character never includes it |
| SBroker27.DocumentType | src/brokers/sbroker27.js:1-5 | the sub-type is `Buy` exactly when `isBuy` holds and `undefined` otherwise; no other tag is possible |
| SBroker27.IsBuyNeverHolds | src/brokers/sbroker27.js:7-9 | `isBuy` is false for every page |
| SBroker27.DocumentTypeAlwaysUndefined | src/brokers/sbroker27.js:1-9 | every first page gets no sub-type |
| SBroker27.CanParseIffAllConjuncts | src/brokers/sbroker27.js:11-27 | acceptance holds exactly when the extension is `pdf`, some first-page line contains `S Broker`, some contains `v2.7`, and `isBuy` holds |
| SBroker27.RejectsNonPdf | src/brokers/sbroker27.js:15-18 | any extension other than exactly `pdf` is rejected, with no demand that a first page exist |
| SBroker27.RejectsWithoutIssuer | src/brokers/sbroker27.js:19-21 | a first page with no line containing `S Broker` is rejected |
| SBroker27.RejectsUnknownVersion | src/brokers/sbroker27.js:22-24 | a first page with the issuer fingerprint but no line containing `v2.7` is rejected |
| SBroker27.OnlyFirstPageMatters | src/brokers/sbroker27.js:15-26 | two documents with the same first page get the same verdict, whatever their later pages |
| SBroker27.NeverAccepts | src/brokers/sbroker27.js:17-26 | with the stub `isBuy`, every document the function can be called on is rejected |
| SBroker27.FingerprintsAloneDoNotSuffice | src/brokers/sbroker27.js:17-26 | a first page carrying both fingerprints is still rejected, because no sub-type is found |
| SBroker27.OtherVersionNotRecognized | src/brokers/sbroker27.js:19-24 | a page with `S Broker` and `v2.6` passes the issuer test and fails the version test |
| SBroker27.ParsePages | src/brokers/sbroker27.js:29-34 | parsing returns no activities and status 5 for every document |
| SBroker27.ParsePagesNotRecognized | src/brokers/sbroker27.js:29-34 | the parse outcome is well formed (status 0 only with at least one activity) and never a success |
| SBroker27.ParseAgreesWithClassifier | src/brokers/sbroker27.js:11-34 | parsing succeeds exactly on the documents the classifier accepts |
| SBroker27.ParsingIsTextBased | src/brokers/sbroker27.js:36 | the module declares itself text based |

## Left out

- SBroker27.CanParseDocument requires `extension == "pdf" ==> |pages| > 0`. In JavaScript, an empty page list with extension `pdf` makes `pages[0]` undefined, and the call then throws a `TypeError`. The model does not represent that exception.
- Lines are modelled as strings only. The JSDoc also allows a line to be an array of strings, where `includes` would test for an equal element. Page data is always strings.
- The `Activity` record follows the fields that the module's tests expect. The record's declaring type file is not part of this model, and this module never builds an `Activity`.
- The registry that searches every broker module for a match lives in `src/index`, which is not part of this model.
- The Erste Bank module is not part of this model. Its tests only show expected outputs, and its decimal arithmetic comes from a foreign library.
- Fixture loading (`require` of JSON sample files) is I/O glue. It is not modelled.
