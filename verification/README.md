# Stock service: the controller's decision logic in Dafny

A model of the `/api/stock` REST controller of the universal-service backend
(`StockController`) and of the repository contract it relies on through the
pass-through `StockService`. Five handlers are modelled as pure functions
of the table before a request. The two reads return the HTTP response; the
three writes return the response and the table after it:

- list all stocks;
- get one stock;
- create a stock;
- update a stock;
- delete a stock.

The model has three parts:

- **Upload check** (`upload.dfy`, module `Upload`). A file is accepted only
  if its declared content type starts with `image/` and it has at most
  5 * 1024 * 1024 = 5242880 bytes. The type is tested first, and each
  rejection carries its own 400 message.
- **Detail sanitiser** (`text.dfy`, `sanitizer.dfy`, `sanitizer_examples.dfy`;
  modules `Text`, `Sanitizer`, `SanitizerExamples`). This is Java's
  `replaceAll` with the pattern `<script[^>]*>([\s\S]*?)</script>` and an
  empty replacement. It is written as a left-to-right scanner (`RemoveAll`),
  and every scanner step is proved to agree with a declarative description
  of what the regular expression matches (`IsMatch`):
  - a case-sensitive `<script`;
  - up to the FIRST `>` after it;
  - up to the end of the FIRST `</script>` after that `>`.

  The scan is a single pass: it resumes after each deleted block, and it is
  not idempotent.
- **Handlers over a map-based table** (`repository.dfy`, `controller.dfy`,
  `session.dfy`; modules `Repository`, `StockController`, `Session`).
  - The table is a `map<int, Stock>` plus the next id the identity
    generator hands out.
  - Responses are a status (200, 204, 400, 404) and a body: none, a message,
    one record, or a list.
  - Images are served as `data:image/jpeg;base64,` followed by the base64
    text of the bytes. The base64 encoder is a parameter.
  - `Session` runs sequences of requests. It proves that the table
    invariant holds in every reachable state, that ids are never reused,
    and that a deleted stock stays deleted.

Strings are `seq<char>`, and bytes are a `byte` newtype. A Java `double`
price is an opaque `real`; nothing computes with it.

## Model

All paths are in `src/main/java/com/example/universalservice/`; the table cites them in full.

| member | source | states |
|---|---|---|
| Upload.Validate | src/main/java/com/example/universalservice/controller/StockController.java:58-63 | A file is accepted exactly when its content type starts with `image/` and its size is at most 5 MiB. A non-image is refused with the invalid-type message whatever its size. An image over the limit is refused with the too-large message. |
| Upload.SizeLimitIsInclusive | src/main/java/com/example/universalservice/controller/StockController.java:61-63 | The limit is inclusive: an image of 5242880 bytes passes, and one of 5242881 bytes is refused as too large. |
| Upload.TypeCheckedFirst | src/main/java/com/example/universalservice/controller/StockController.java:58-62 | A file that is both a non-image and too large gets the invalid-type message, because the type test runs first. |
| Sanitizer.MatchEnd | src/main/java/com/example/universalservice/controller/StockController.java:66 | A match attempted at `p` ends no earlier than the shortest possible match and never past the end of the text. |
| Sanitizer.Sanitize | src/main/java/com/example/universalservice/controller/StockController.java:66 | The stored detail is never longer than the detail sent. |
| Sanitizer.MatchEndIff | src/main/java/com/example/universalservice/controller/StockController.java:66 | The scanner's match at `p` ends at `e` if and only if the pattern's declarative description holds: `<script`, then the first `>`, then the first `</script>` after it. |
| Sanitizer.MatchEndSuffix | src/main/java/com/example/universalservice/controller/StockController.java:66 | Whether and where a match starting at a position ends depends only on the text from a chosen earlier point on. |
| Sanitizer.RemoveAllPlainPrefix | src/main/java/com/example/universalservice/controller/StockController.java:66 | A prefix in which no match begins is copied to the output unchanged and in order. |
| Sanitizer.RemoveAllSkipsFrontMatch | src/main/java/com/example/universalservice/controller/StockController.java:66 | A match at the front is dropped whole, and scanning resumes right after it. |
| Sanitizer.RemoveAllLeftmost | src/main/java/com/example/universalservice/controller/StockController.java:66 | The output is the text before the leftmost match, followed by the rescan of the text after that match. The match itself is deleted. |
| Sanitizer.LeftmostMatchExists | src/main/java/com/example/universalservice/controller/StockController.java:66 | If any match exists, there is a leftmost one. |
| Sanitizer.RemoveAllShrinks | src/main/java/com/example/universalservice/controller/StockController.java:66 | Text containing a match loses at least the length of the shortest match. |
| Sanitizer.RemoveAllUnchangedIff | src/main/java/com/example/universalservice/controller/StockController.java:66 | Removal returns the text unchanged if and only if no match begins anywhere in it. |
| Sanitizer.RemoveAllWithoutOpen | src/main/java/com/example/universalservice/controller/StockController.java:66 | Text in which the opening literal never occurs is returned unchanged. |
| SanitizerExamples.SanitizeWithoutScriptTag | src/main/java/com/example/universalservice/controller/StockController.java:66 | A detail with no lower-case `<script` in it is stored exactly as sent. |
| SanitizerExamples.SanitizeUnchangedIff | src/main/java/com/example/universalservice/controller/StockController.java:88 | The stored detail equals the detail sent if and only if no script block occurs in it. |
| SanitizerExamples.SanitizeShrinks | src/main/java/com/example/universalservice/controller/StockController.java:66 | A detail containing a script block is stored at least 17 characters shorter, the length of `<script></script>`. |
| SanitizerExamples.SanitizeBlock | src/main/java/com/example/universalservice/controller/StockController.java:66 | In a text laid out as `pre`, `<script`, attributes without `>`, `>`, a body without `<`, `</script>`, `post`, where no `<` in `pre` is followed by `s`, the block is deleted. `pre` is kept as it is, and `post` is sanitised on its own. |
| SanitizerExamples.ExampleAlert | src/main/java/com/example/universalservice/controller/StockController.java:66 | `<script>alert(1)</script>Hello` is stored as `Hello`. |
| SanitizerExamples.ExampleUpperCaseSurvives | src/main/java/com/example/universalservice/controller/StockController.java:66 | Matching is case-sensitive: `<SCRIPT>alert(1)</SCRIPT>` is stored unchanged. |
| SanitizerExamples.ExampleAttributes | src/main/java/com/example/universalservice/controller/StockController.java:66 | The opening tag may carry attributes: `a<script src=x>b</script>c` is stored as `ac`. |
| SanitizerExamples.ExampleLazyClose | src/main/java/com/example/universalservice/controller/StockController.java:66 | The body is lazy and stops at the first closing tag: `<script>a</script>b</script>` is stored as `b</script>`. |
| SanitizerExamples.ExampleUnclosedKept | src/main/java/com/example/universalservice/controller/StockController.java:66 | An opening tag without a closing tag is not removed. |
| SanitizerExamples.ExampleScriptOnly | src/main/java/com/example/universalservice/controller/StockController.java:66 | A detail that is one whole block is stored as the empty string. |
| SanitizerExamples.ExampleNotIdempotent | src/main/java/com/example/universalservice/controller/StockController.java:66 | One pass can leave a block. `<<script></script>script>x</script>` is stored as `<script>x</script>`, which a second pass would remove. |
| Repository.FindById | src/main/java/com/example/universalservice/service/StockService.java:24-26 | The lookup finds a record exactly when the id is stored, and returns the record stored under it. |
| Repository.Insert | src/main/java/com/example/universalservice/service/StockService.java:20-22 | Saving a new record stores it under a fresh id. The table grows by exactly one row, keeps its invariant, and no other id changes. |
| Repository.Replace | src/main/java/com/example/universalservice/service/StockService.java:20-22 | Saving an existing record overwrites its row only. The ids and the next id are unchanged, and so is the invariant. |
| Repository.DeleteById | src/main/java/com/example/universalservice/service/StockService.java:28-30 | Afterwards the id is absent, whether or not it was stored before. Every other row and the next id are unchanged. |
| Repository.DeleteIdempotent | src/main/java/com/example/universalservice/service/StockService.java:28-30 | Deleting the same id twice leaves the same table as deleting it once. |
| Repository.InsertThenDelete | src/main/java/com/example/universalservice/service/StockService.java:20-30 | Deleting a record just inserted gives back the rows of the table before the insert. |
| StockController.Render | src/main/java/com/example/universalservice/controller/StockController.java:47-52 | A served record copies the id, price and detail. Its image is the JPEG data-URI prefix followed by the encoding of the bytes, and splitting off the prefix gives back that encoding. |
| StockController.RenderAll | src/main/java/com/example/universalservice/controller/StockController.java:29-37 | The list has one view per listed id, in the same order. Each view is exactly what a get of its id serves. |
| StockController.GetAllStocks | src/main/java/com/example/universalservice/controller/StockController.java:26-39 | The list answers 200 with one view per stored record. Every stored id appears exactly once, and each entry agrees with get by its id. |
| StockController.ListedOnce | src/main/java/com/example/universalservice/controller/StockController.java:28-37 | Rendering an enumeration of the table lists every stored id, and each only once. |
| StockController.GetStockById | src/main/java/com/example/universalservice/controller/StockController.java:41-54 | Get answers 200 exactly when the id is stored, with the rendered record. Otherwise it answers 404 with no body. |
| StockController.AddStock | src/main/java/com/example/universalservice/controller/StockController.java:56-69 | Create answers 200 exactly when the upload passes the check. A refused create answers 400 with the check's message and leaves the table unchanged. An accepted one adds exactly one record under a fresh id. That record holds the file's bytes, the price and the sanitised detail, and every other record is unchanged. |
| StockController.UpdateStock | src/main/java/com/example/universalservice/controller/StockController.java:71-91 | Update of an unknown id answers 404 and changes nothing. A non-empty replacement file that fails the check answers 400 and changes nothing. Otherwise it answers 200 and overwrites price and sanitised detail. The image is replaced only by a non-empty file, and no other record or id changes. |
| StockController.DeleteStock | src/main/java/com/example/universalservice/controller/StockController.java:93-97 | Delete always answers 204 with no body, with no existence check. It removes the id and leaves every other record as it was. |
| StockController.GetAfterAdd | src/main/java/com/example/universalservice/controller/StockController.java:57-68 | After an accepted create, a get of the new id serves the file's bytes as a data URI, the price, and the sanitised detail. |
| StockController.AddAcceptsEmptyImage | src/main/java/com/example/universalservice/controller/StockController.java:57-68 | Create does not test for an empty file: an image-typed upload with no bytes is accepted and stored. |
| StockController.ImageIgnoresContentType | src/main/java/com/example/universalservice/controller/StockController.java:58-66 | Two accepted uploads with the same bytes but different content types give the same answer and the same table. The declared type is not stored, so the image is always served as JPEG. |
| StockController.GetAfterUpdate | src/main/java/com/example/universalservice/controller/StockController.java:77-89 | After a successful update, a get serves the new price and the sanitised new detail. The image is the new one, or the old one when no non-empty file came. |
| StockController.UpdateWithoutFileKeepsImage | src/main/java/com/example/universalservice/controller/StockController.java:77-86 | An update without a file, or with an empty one, serves the same image as before. |
| StockController.GetAfterDelete | src/main/java/com/example/universalservice/controller/StockController.java:93-96 | After a delete, a get of that id answers 404. |
| StockController.DeleteStockIdempotent | src/main/java/com/example/universalservice/controller/StockController.java:93-96 | A repeated delete answers the same and leaves the same table. |
| Session.After | src/main/java/com/example/universalservice/controller/StockController.java:26-97 | Every request keeps the table invariant and never moves the id generator back. List and get leave the table as it was. |
| Session.Run | src/main/java/com/example/universalservice/controller/StockController.java:26-97 | Any sequence of requests keeps the table invariant and never moves the id generator back. |
| Session.IdsNeverReused | src/main/java/com/example/universalservice/controller/StockController.java:64-76 | An id that was handed out and is no longer stored is never stored again, whatever requests follow. |
| Session.DeletedStaysGone | src/main/java/com/example/universalservice/controller/StockController.java:93-96 | Once a handed-out id is deleted, a get of it answers 404 after any later sequence of requests. |
| Session.ReadsChangeNothing | src/main/java/com/example/universalservice/controller/StockController.java:26-54 | Any sequence of lists and gets leaves the table as it was. |
| Session.Reachable | src/main/java/com/example/universalservice/controller/StockController.java:26-97 | Every table reached from the empty one by any requests satisfies the invariant. |

## Left out

- Base64 encoding is a parameter `encode`, standing for an arbitrary pure function from bytes to text. Only the fixed `data:image/jpeg;base64,` prefix is controller logic.
- The order of `findAll` is a parameter `order`. It is required to list every stored id exactly once, because the repository promises no particular order.
- `StockController.AddStock` requires the table invariant `Valid`: every stored id is below the next id the generator hands out. The identity generator guarantees this in every reachable state, and `Session.Reachable` proves it for the model. The other handlers do not need it.
- A `null` content type, which makes `getContentType().startsWith` throw, is not modelled. Neither is an `IOException` from `getBytes()`. Both propagate as unhandled server errors. The model's content type is always a string, and the bytes are always readable.
- `getSize()` is modelled as the number of bytes in the file. `isEmpty()` is modelled as having none.
- Prices are opaque values, and no floating-point behaviour is modelled.
- Java strings are UTF-16 code units, while the model's are Dafny characters. All literals involved are ASCII. The only effect is on lengths of text containing characters outside the Basic Multilingual Plane.
- Spring wiring, routing, CORS and request binding are out of scope. Binding includes the 400 a missing required parameter would get.
- Ids are consecutive integers from 1. A database may leave gaps. The model's properties rely only on new ids being fresh.
- `deleteById` of an absent id is silent, following current Spring Data JPA. Older versions threw an exception that surfaced as a server error.
- Requests are served one at a time. Concurrent requests are not modelled.
- The `Stock` entity class and the repository interface are not part of this model. A record is its image, price and detail, and its id is the key it is stored under.
