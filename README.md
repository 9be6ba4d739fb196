# Patient Portal document router, modelled in Dafny

The backend of the Patient Portal is an Express router mounted at
`/documents`. It lists uploaded documents, accepts PDF uploads through the
multer middleware, serves a document for download or for inline viewing,
and deletes documents. Each document is one row of a `documents` table
(id, filename, filepath, size, created_at); the file itself lives in the
`uploads` directory under a name built from the upload time and the
client's original file name.

This project models that router:

- `download_names.dfy` (module `DownloadNames`): how GET `/documents/:id`
  names what it serves. It takes the `download` query value or the stored
  filename, applies Node's `path.basename`, and appends `.pdf` unless the
  name already ends in `.pdf`, compared without regard to case. It also
  covers the quote-free name placed in an inline `Content-Disposition`
  header, and Node's check of the characters allowed in a header value.
- `upload_rules.dfy` (module `UploadRules`): the multer file filter (MIME
  type exactly `application/pdf`), the 5 MiB size limit, and the stored
  name `Date.now() + '-' + originalname`. It proves that the decimal
  timestamp and the original name can both be read back from it.
- `document_store.dfy` (module `DocumentStore`): the table and the uploads
  directory as a class `Documents`. It has a `map` of rows keyed by id, a
  `set` of file names present on disk, and the next value of the id
  sequence. The four handlers are methods: `List`, `Upload`, `Get` and
  `Delete`. Two client methods compose them. `UploadThenFetch` shows an
  accepted upload can be fetched at once. `DeleteThenRetry` shows a deleted
  id answers 404 and leaves every later listing.
- `wrappers.dfy` (module `Wrappers`): the `Option` type.

Clocks are parameters: `now` stands for `Date.now()` and `createdAt` for
the database's `CURRENT_TIMESTAMP`. The outcome of `fs.unlink` is the
parameter `unlinked`. The database is an abstract table with no failures of
its own, except the two errors the router's inputs can provoke. An `:id`
the database cannot read as a 32-bit integer answers 500. An insert after
the id sequence is exhausted answers 500 and leaves the written file
behind.

Two behaviours of the code that shape the model:

- When pdf-lib cannot re-save the file, the route serves the raw file;
  there is no step that turns a non-PDF file into a PDF of its text
  (backend/routes/documents.js:107-117).
- 400 means only that the request had no file part
  (backend/routes/documents.js:44-46). A file with the wrong MIME type, or
  one over the size limit, makes multer raise an error, which takes
  Express's error path. The model records these as `Refused` and does not
  assign them a status.

Two more behaviours are modelled as the code is written:

- `req.query.download || doc.filename` falls back to the stored name when
  the query value is empty as well as when it is missing. A repeated or
  bracketed `download` parameter reaches `path.basename` as an array or
  object. It throws there, and the route answers 500.
- An inline name containing a character outside tab, printable ASCII and
  Latin-1 makes `res.setHeader` throw at line 100. The catch block throws
  again at line 112, so the route answers 500 whether pdf-lib succeeded or
  not.

## Model

| member | source | states |
|---|---|---|
| `DownloadNames.TrimTrailingSlashes` | backend/routes/documents.js:83 | the first step of `path.basename`: the result is a prefix of the path that does not end in '/', and everything cut off is '/' |
| `DownloadNames.LastSegment` | backend/routes/documents.js:83 | the second step of `path.basename`: the result is the longest suffix without '/'; it is preceded by a '/' whenever it is not the whole string |
| `DownloadNames.Basename` | backend/routes/documents.js:83 | the base name never contains a path separator |
| `DownloadNames.BasenameOfPlain` | backend/routes/documents.js:83 | a name with no '/' is its own base name |
| `DownloadNames.BasenameIdempotent` | backend/routes/documents.js:83 | taking the base name twice gives the same result as once |
| `DownloadNames.LowerChar` | backend/routes/documents.js:85 | `toLowerCase` on one character: the result is never an upper-case ASCII letter; a non-upper-case character is unchanged, and an upper-case letter becomes the lower-case letter at the same place in the alphabet |
| `DownloadNames.ToLower` | backend/routes/documents.js:85 | `toLowerCase` on a name: same length, each character lower-cased on its own |
| `DownloadNames.HasPdfExtension` | backend/routes/documents.js:85 | `toLowerCase().endsWith('.pdf')`: the name has at least four characters and its last four lower-case to '.', 'p', 'd', 'f' |
| `DownloadNames.WithPdfExtension` | backend/routes/documents.js:85-87 | the result always ends in ".pdf" in any case; it equals the input exactly when the input already did; otherwise it is the input followed by ".pdf" |
| `DownloadNames.NormalizeDownloadName` | backend/routes/documents.js:82-87 | the offered name ends in ".pdf" (case-insensitively), holds no '/', and is the base name with at most ".pdf" added to it |
| `DownloadNames.NormalizeIdempotent` | backend/routes/documents.js:82-87 | normalising an already normalised name returns it unchanged |
| `DownloadNames.NormalizeKeepsPdfNames` | backend/routes/documents.js:85-87 | a separator-free name already ending in ".pdf" in any case is offered unchanged, with no second suffix |
| `DownloadNames.DownloadName` | backend/routes/documents.js:82-83 | a non-empty `download` value is used, and a missing or empty one falls back to the stored filename; either way the result is normalised; a structured value gives no name (the route's 500) |
| `DownloadNames.StripQuotes` | backend/routes/documents.js:100 | the result has no '"', is no longer than the input, and keeps every other character as often as the input has it |
| `DownloadNames.StripQuotesAppend` | backend/routes/documents.js:100 | stripping quotes works piece by piece: stripping a concatenation is the concatenation of the stripped parts |
| `DownloadNames.StripQuotesIdempotent` | backend/routes/documents.js:100 | stripping quotes a second time changes nothing |
| `DownloadNames.StripQuotesKeepsNoSeparator` | backend/routes/documents.js:100 | a name without '/' stays without '/' once its quotes are gone |
| `DownloadNames.StripQuotesKeepsPdfExtension` | backend/routes/documents.js:85-100 | the inline header name of a ".pdf" name still ends in ".pdf" |
| `DownloadNames.PdfExtensionByTail` | backend/routes/documents.js:85 | whether a name has the ".pdf" extension depends only on its last four characters |
| `DownloadNames.InlineDisposition` | backend/routes/documents.js:100 | the inline header value is `inline; filename="`, then the quote-free name, then a closing '"'; no quote occurs between the two delimiting ones |
| `DownloadNames.InlineDispositionRoundTrip` | backend/routes/documents.js:100 | the inline header value holds exactly the quote-free name between `filename="` and the closing quote, so the name cannot end the quoted string early |
| `DownloadNames.InlineDispositionValid` | backend/routes/documents.js:99-100 | Node accepts the inline header value exactly when it accepts every character of the quote-free name |
| `UploadRules.Screen` | backend/routes/documents.js:19-31 | a file is accepted iff its MIME type is exactly "application/pdf" and it is at most 5*1024*1024 bytes; the MIME check decides first |
| `UploadRules.DecimalString` | backend/routes/documents.js:14 | the printed timestamp is a non-empty string of decimal digits without a leading zero |
| `UploadRules.DecimalRoundTrip` | backend/routes/documents.js:14 | reading the printed timestamp back gives the timestamp |
| `UploadRules.UniqueName` | backend/routes/documents.js:14 | the stored name ends with the original name, has at least the timestamp and a '-' before it, and holds no '/' when the original name holds none |
| `UploadRules.StoredPath` | backend/routes/documents.js:9-16 | the path multer records starts with the `uploads/` directory, and for an original name without '/' its base name is exactly the unique name, which is what get and delete look up |
| `UploadRules.UniqueNameShape` | backend/routes/documents.js:14 | the stored name is the timestamp's digits, then '-', then the original name, so it ends with the original name |
| `UploadRules.UniqueNameRoundTrip` | backend/routes/documents.js:14 | the first '-' of a stored name follows the timestamp, so the upload time and the original name (dashes included) are recovered from it |
| `DocumentStore.Readable` | backend/routes/documents.js:68-70 | the database reads `:id` as a 32-bit integer (also at backend/routes/documents.js:134): a readable parameter is a number, and every id the sequence can issue is readable |
| `DocumentStore.InsertNewestFirst` | backend/routes/documents.js:35 | inserting a row into a newest-first sequence keeps it newest first and adds exactly that row |
| `DocumentStore.NewestFirstOrdersAll` | backend/routes/documents.js:35 | in a newest-first listing every row is at least as new as every row after it |
| `DocumentStore.ListingHasOneRowPerRecord` | backend/routes/documents.js:35-36 | a listing has exactly as many rows as the table |
| `DocumentStore.ListingOmitsRemoved` | backend/routes/documents.js:143 | once a row is deleted, no listing shows a record with its id |
| `DocumentStore.ListingKeepsOthers` | backend/routes/documents.js:143 | deleting one row leaves every other row in the listing |
| `DocumentStore.Documents.constructor` | backend/db.js:20-27 | an empty table, no stored files, and an id sequence starting at 1 |
| `DocumentStore.Documents.List` | backend/routes/documents.js:33-36 | answers 200 with every row exactly once, ordered by created_at descending |
| `DocumentStore.Documents.Upload` | backend/routes/documents.js:9-59 | no file gives 400 and changes nothing; a refused file changes nothing; an accepted file is written as timestamp-name and inserted as one new row under a fresh id holding the original name, stored path and size (201), leaving every other row as it was; with the id sequence exhausted the file stays on disk and no row is added (500) |
| `DocumentStore.Documents.Get` | backend/routes/documents.js:67-127 | an unreadable id gives 500; a missing record gives 404; a record whose file is absent gives 404; otherwise the document is served under the normalised name, inline with quotes stripped when `inline` is "true", as an attachment otherwise; an unparsable `download` value or a header Node refuses gives 500 |
| `DocumentStore.Documents.Delete` | backend/routes/documents.js:129-157 | an unreadable id gives 500 and a missing record 404, both changing nothing; otherwise the row is removed and 200 returned whether or not the file could be unlinked, and no other row changes |
| `DocumentStore.UploadThenFetch` | backend/routes/documents.js:43-105 | an accepted upload is at once served as an attachment under its normalised original name |
| `DocumentStore.DeleteThenRetry` | backend/routes/documents.js:129-151 | after deleting an existing id, with or without a successful unlink, get and delete on it answer 404 and the listing no longer shows it |

## Left out

- The served bytes: `PDFDocument.load`/`save` from pdf-lib and the raw-file fallback (backend/routes/documents.js:89-117) work on a binary format in a library outside this model. A served document is only its disposition and name.
- DocumentStore.Documents.Get: says nothing about the response body or the Content-Type and Content-Length headers. It also leaves out how Express's `res.attachment`/`res.download` encode the attachment name.
- The status Express's error handler gives a file that multer refuses: it is decided outside the router. So is a file sent under a field name other than `file`.
- Database failures other than an unreadable id and an exhausted id sequence (the 500 answers at backend/routes/documents.js:37-40, 61-64 and 123-126): the table is taken to be always reachable.
- How the database reads the `:id` text as an integer: the parameter is either a number or unreadable.
- Concurrency: requests run one at a time. The asynchronous `fs.unlink`, and a delete racing a download, are out of scope.
- `String.prototype.toLowerCase` is modelled for ASCII letters only. No other character lower-cases to '.', 'p', 'd' or 'f', so the ".pdf" test is unaffected.
- `path.basename` is modelled in its POSIX form: on Windows it also splits at `\`, so a `download` value containing `\` would be cut there; the model splits at '/' only.
- `path.join` normalisation of the stored path: multer's parser removes directory parts from client file names, so the stored path is the directory followed by the unique name.
- Delete resolves `filepath` against the working directory, while get looks in the `uploads` directory next to the routes. The model takes the server to be started from the backend directory, where both name the same file.
- Which order rows with equal `created_at` come in: any order is allowed.
- Server bootstrap, CORS and creating the uploads directory (backend/index.js), the connection pool (backend/db.js:9-14), and the React front end.
