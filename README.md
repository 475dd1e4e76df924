# InstaCDN upload route, modelled in Dafny

This project models the two Express handlers in `routes/uploadRoute.js` of InstaCDN-Media-Uploads:

- `POST /upload` takes the files multer has parsed into memory. It names each file
  `<sanitised original name>-<14-character timestamp>`. Images (media type `image/…`) are
  sent to the image compressor; every other file is written as received. The handler
  collects an entry for each write that completes and answers 400, 500 or 200 according
  to the outcome.
- `GET /files` describes every entry of the upload directory. It sorts the entries newest
  first by modification time and cuts out one page of the list. The `page` and `limit`
  query values fall back to 1 and 20.

Modules:

- `Wrappers`: `Option`.
- `Decimal`: zero-padded digit fields, as `toISOString` writes them; the shortest decimal
  form that `${n}` gives an integer; reading digits back.
- `Naming`: the sanitiser; the ISO date string (the Date Time String Format of section
  21.4.1.32 of ECMA-262, extended years included); the timestamp token; the stored name.
- `Upload`: the image/verbatim dispatch; the per-file loop (`ProcessFiles`); the choice of
  response (`HandleUpload`).
- `Pagination`: `parseInt(...) || d` defaulting; `Math.ceil` for the page count;
  `Array.prototype.slice` with its relative-index rules (section 23.1.3.28 of ECMA-262);
  the page.
- `Listing`: the file records. Also the newest-first sort, done in place on an array as an
  insertion sort and proved equal to a stable functional sort, and the `GET /files`
  handler (`ListFiles`).

These inputs of the handlers are parameters of the model:

- what multer produced (`ParseResult`);
- the upload directory;
- `process.env.HOST`;
- the ISO string `new Date()` gives for each file;
- whether each file's write completes;
- the parsed query numbers;
- what `readdir`/`statSync` report;
- `path.extname`.

Where the code does something a reader might not expect:

- The page number is not clamped, and `currentPage` echoes the request.
- An empty directory gives `totalPages` 0.
- There is no single-page special case.
- `limit` comes from the query; any non-zero integer is used as it stands, negative ones
  included.
- The stored name is the name followed by the timestamp (l.54), not the other way round.
- multer is configured without a 50 MB size limit (l.13-15). The `LIMIT_FILE_SIZE` branch
  is still modelled, since the handler has it.

## Model

| member | source | states |
|---|---|---|
| Decimal.PaddedValue | routes/uploadRoute.js:52 | A date field written at a width it fits reads back as that field, so the padded digits lose nothing. |
| Decimal.ShowValue | routes/uploadRoute.js:82 | The digits a template literal writes for a count denote that count. |
| Naming.Sanitize | routes/uploadRoute.js:53 | The sanitised name has the length of the original name. |
| Naming.SanitizeAt | routes/uploadRoute.js:53 | At every position, a character from [A-Za-z0-9.-] is kept and any other character becomes '_'. |
| Naming.SanitizeOnlyNameChars | routes/uploadRoute.js:53 | A sanitised name holds only characters from [A-Za-z0-9._-]. |
| Naming.SanitizeKeepsSafeNames | routes/uploadRoute.js:53 | A name made only of [A-Za-z0-9.-] passes through unchanged. |
| Naming.SanitizeIdempotent | routes/uploadRoute.js:53 | Sanitising twice equals sanitising once. |
| Naming.StripDelimiters | routes/uploadRoute.js:52 | Deleting `-T:.Z` never lengthens the text, and none of those characters is left. |
| Naming.TimestampToken | routes/uploadRoute.js:52 | The token has at most 14 characters and contains none of `-T:.Z`. |
| Naming.StripAppend | routes/uploadRoute.js:52 | The global replace acts piecewise: deleting delimiters from a concatenation equals concatenating the results for the pieces. |
| Naming.StripIsoString | routes/uploadRoute.js:52 | For the years 0..9999, the ISO string without delimiters is the 14 digits YYYYMMDDHHmmss followed by the 3 millisecond digits. |
| Naming.TokenOfIsoString | routes/uploadRoute.js:52 | For a valid date in the years 0..9999, the token is exactly the 14 digits YYYYMMDDHHmmss; the milliseconds are cut off. |
| Naming.ExtendedYearTokenKeepsSign | routes/uploadRoute.js:52 | For years past 9999, the token still has 14 characters, but it starts with the '+' of the extended year. |
| Naming.YearText | routes/uploadRoute.js:52 | The year of `toISOString` is four digits denoting the year for 0..9999, and otherwise a '+' or '-' followed by six digits denoting its magnitude. |
| Naming.IsoString | routes/uploadRoute.js:52 | `toISOString` gives 24 characters (27 with an extended year), with the 'T' between date and time and a closing 'Z'. |
| Naming.StoredName | routes/uploadRoute.js:54 | The stored name is 1 + token length characters longer than the original name, and uses only [A-Za-z0-9._-] when the token does. |
| Naming.StoredNameShape | routes/uploadRoute.js:51-54 | The stored name is the sanitised name, then '-', then the 14 date digits. It is 15 characters longer than the original name and uses only [A-Za-z0-9._-]. |
| Naming.SplitStoredName | routes/uploadRoute.js:54 | When it succeeds, splitting gives a name and a 14-character token that rebuild the stored name. |
| Naming.SplitStoredNameInverts | routes/uploadRoute.js:54 | Splitting a stored name with a 14-character token gives back the sanitised name and the token. |
| Naming.StoredNameCollision | routes/uploadRoute.js:52-54 | Two uploads get the same stored name if and only if their names sanitise alike and their tokens are equal, i.e. they fall in the same second. |
| Naming.StoredNameIsOneComponent | routes/uploadRoute.js:53-55 | A stored name contains no '/' and is never "." or "..", so joining it to the upload directory stays inside that directory. |
| Upload.IsImage | routes/uploadRoute.js:57 | A media type is an image exactly when it is "image/" followed by anything. |
| Upload.FilePath | routes/uploadRoute.js:55 | The write path is the upload directory, a '/', and the stored name as its last component. |
| Upload.HostText | routes/uploadRoute.js:68 | The url prefix is HOST when it is set and "undefined" when it is not. |
| Upload.Entry | routes/uploadRoute.js:65-71 | An entry has the stored name, the path "/uploads/" + name, a url that is the host text followed by that path, and the file's own size and media type. |
| Upload.SummaryMessage | routes/uploadRoute.js:82 | The message starts with "Successfully processed " and ends with " files". |
| Upload.Dispatch | routes/uploadRoute.js:57-63 | A file goes to the compressor if and only if its media type starts with `image/`. Either way the write is given the file's buffer and the path: the compressor writes its re-encoding of the buffer, the other branch writes the buffer unchanged. |
| Upload.IsImageExamples | routes/uploadRoute.js:57 | The media type test is a case-sensitive prefix test: `IMAGE/PNG` and `image` are not images. |
| Upload.AttemptIsolated | routes/uploadRoute.js:49-75 | A file's attempt depends only on that file, its clock reading, its write outcome, the directory and the host, never on the other files. |
| Upload.FailureIsIsolated | routes/uploadRoute.js:49-75 | Changing one file's write outcome changes no other file's attempt, and every other success stays listed: a failing file never stops the others. |
| Upload.EntryShape | routes/uploadRoute.js:51-71 | A success entry has filename = sanitised name + '-' + the 14 date digits, made of safe characters; path = "/uploads/" + filename; url = HOST + path; the file's own size and media type. The write goes to the upload directory joined with the filename. |
| Upload.CollectedBound | routes/uploadRoute.js:65-82 | There are never more successes than files. |
| Upload.CollectedCount | routes/uploadRoute.js:65-82 | The number of successes equals the number of files whose write completed. |
| Upload.CollectedMembers | routes/uploadRoute.js:65-74 | An entry is among the successes if and only if it belongs to a file whose write completed; order is not claimed. |
| Upload.CollectedEmpty | routes/uploadRoute.js:77-79 | The success list is empty if and only if every write failed. |
| Upload.Writes | routes/uploadRoute.js:59-63 | One write is issued per attempt. |
| Upload.WritesAt | routes/uploadRoute.js:49-63 | The k-th write issued is the k-th file's write. |
| Upload.AttemptStep | routes/uploadRoute.js:49-75 | Processing one more file adds its write, and adds its entry only when the write completed. |
| Upload.ProcessFiles | routes/uploadRoute.js:47-75 | The loop pushes exactly the entries of the completed writes, and it issues every file's write, with the right path and branch, whatever happened to the files before it. |
| Upload.SummaryRoundTrip | routes/uploadRoute.js:82 | Both counts can be read back from "Successfully processed X of Y files". |
| Upload.HandleUpload | routes/uploadRoute.js:28-84 | `LIMIT_FILE_SIZE` gives 400 with the 50 MB message; another multer error gives 400 with its message; any other error gives 500 "Upload failed: …". Absent or empty files give 400 "No files uploaded", and nothing is written. Otherwise every file is written; the status is 500 "Failed to process any of the uploaded files" if and only if every write failed; else it is 200, with the summary message of successes and files, and 1 <= successes <= files. |
| Pagination.OrDefault | routes/uploadRoute.js:95-96 | A missing, non-numeric or zero value gives the fallback, and any other integer is kept as given. With a non-zero fallback the result is never zero. |
| Pagination.CeilDiv | routes/uploadRoute.js:117 | The page count is non-negative for a positive limit, non-positive for a negative one, and the number of entries for limit 1. |
| Pagination.CeilDivIsCeiling | routes/uploadRoute.js:117 | For a positive limit, the page count is the least r with total <= r * limit. For a negative limit, it is the integer ceiling of the negative quotient. |
| Pagination.TotalPagesZero | routes/uploadRoute.js:117 | With a positive limit, totalPages is 0 exactly for an empty directory. |
| Pagination.RelativeIndex | routes/uploadRoute.js:122 | A slice argument always lands in 0..length. |
| Pagination.JsSliceOfRange | routes/uploadRoute.js:122 | With non-negative arguments, `slice` keeps the existing positions from start up to end. |
| Pagination.JsSlice | routes/uploadRoute.js:122 | A slice is never longer than the list, nor than end - start for 0 <= start <= end, and holds only elements of the list. |
| Pagination.Page | routes/uploadRoute.js:118-122 | A page is never longer than the list and holds only its entries. |
| Pagination.PageIsStretch | routes/uploadRoute.js:118-122 | For page >= 1 and limit >= 1, the page is the list's entries from (page-1)*limit up to page*limit, cut at the end of the list. |
| Pagination.PageLength | routes/uploadRoute.js:118-122 | With a positive limit, a page never holds more than `limit` entries, whatever the page number. |
| Pagination.PageBeyondLast | routes/uploadRoute.js:117-122 | A page number past totalPages gives an empty page. |
| Pagination.PagesBeforeLastAreFull | routes/uploadRoute.js:117-122 | Every page before the last holds exactly `limit` entries, and the last page is not empty. |
| Pagination.PagesArePrefix | routes/uploadRoute.js:118-122 | Pages 1..k together are the first k*limit entries. |
| Pagination.PagesCoverList | routes/uploadRoute.js:116-122 | With limit >= 1, pages 1..totalPages together give back the sorted list exactly. |
| Pagination.FortyFiveEntries | routes/uploadRoute.js:96-122 | 45 entries at the default limit make 3 pages. Page 2 holds entries 21-40, and page 99 is empty. |
| Pagination.MinusOneLimit | routes/uploadRoute.js:96-122 | `limit=-1` is used as given: page 1 is every entry but the last, and totalPages is minus the number of entries. |
| Listing.Describe | routes/uploadRoute.js:107-113 | A record carries its entry's name, size and mtime, the extension of the name, and the url "/uploads/" + name. |
| Listing.PageRecordsComeFromDirectory | routes/uploadRoute.js:104-122 | Every record on any page has url "/uploads/" + filename and comes from a directory entry of that name, whose size and mtime it carries. |
| Listing.SortByDate | routes/uploadRoute.js:114 | The sorted listing has one record per directory record (its order and contents are the lemmas below). |
| Listing.InsertAt | routes/uploadRoute.js:114 | Insert places the new record after the records dated at or after it, and before the later records dated strictly before it. |
| Listing.InsertPermutes | routes/uploadRoute.js:114 | Insert adds exactly the one record. |
| Listing.InsertKeepsOrder | routes/uploadRoute.js:114 | Insert keeps a newest-first list newest first. |
| Listing.InsertIsStable | routes/uploadRoute.js:114 | Insert places the new record after every record of its date. |
| Listing.SortByDateIsNonIncreasing | routes/uploadRoute.js:114 | The sorted listing is newest first: mtimes never increase along it. |
| Listing.SortByDateIsPermutation | routes/uploadRoute.js:114 | The sorted listing holds every record exactly as often as the directory does. |
| Listing.SortByDateIsStable | routes/uploadRoute.js:114 | Records with equal mtimes keep their directory order. |
| Listing.MatchingListsPermute | routes/uploadRoute.js:114 | Two lists with the same records at every date are permutations of each other. |
| Listing.StableSortIsUnique | routes/uploadRoute.js:114 | Every stable newest-first ordering of the records equals `SortByDate`. So the comparator `b.uploadDate - a.uploadDate` under a stable `Array.prototype.sort` determines the listing. |
| Listing.PageIsNewestFirst | routes/uploadRoute.js:114-122 | Every page, for any page number and limit, is newest first and holds only directory records. |
| Listing.MoveIntoPlace | routes/uploadRoute.js:114 | One insertion pass turns the first i+1 array cells into Insert(first i, a[i]) and leaves the later cells alone. |
| Listing.SortByUploadDate | routes/uploadRoute.js:114 | The in-place sort leaves the array holding `SortByDate` of its old contents. |
| Listing.StatRecords | routes/uploadRoute.js:104-113 | The `files.map` array is a new array holding the records described above. |
| Listing.ListFiles | routes/uploadRoute.js:93-127 | An unreadable directory gives 500 "Error reading files". Otherwise the answer is 200 with the page of the sorted records; currentPage is the defaulted page, unclamped; totalPages is ceil(totalFiles/limit); totalFiles is the number of entries. |

## Left out

- The multipart parsing and multer's configuration (l.2, l.13-15): multer is library code that is not part of this model. Its outcome is the `ParseResult` input, and the error codes it can produce are not enumerated.
- Creating the upload directory (l.19-24, and app.js), and the writes themselves. A write is a `WriteAction` value, and whether it completes is the `performs` parameter.
- `utils/imageCompression.js` (the `sharp` resize and JPEG encoding): image decoding and lossy numerics. Only the decision to call it is modelled.
- app.js: the server wiring, static file serving and port selection.
- `Promise.all` concurrency: the model runs the files one after the other, so `ProcessFiles` and `HandleUpload` return the success entries in file order. The source pushes each entry when its write completes, so file order is only one of the orders it can produce. The lemmas about the list (`CollectedCount`, `CollectedMembers`, `CollectedEmpty`, `FailureIsIsolated`) state counts and membership only, and hold for any order.
- The outer `try`/`catch` blocks (l.42, l.85-88, l.94, l.128-130): the model has no exception that could reach them.
- A `statSync` that throws inside the `readdir` callback (l.106), for a dangling symbolic link or an entry removed between `readdir` and `stat`. The `try` of l.94 has already been left when the callback runs, so the exception is not caught and the process crashes instead of answering 500. The model takes the stat results as given and does not model that crash.
- `parseInt`'s grammar (for instance "2abc" gives 2): the query values enter as the Number `parseInt` returned (`JsNumber`: NaN or an integer). `parseInt` never returns a non-integral Number.
- Infinite query values: a digit string of about 309 digits or more makes `parseInt` return Infinity, since its value is rounded to a double. As `limit` this gives `totalPages` 0 and always an empty page (`0 * Infinity` is NaN and `slice(NaN, NaN)` is empty); as `page`, `currentPage` serialises as null. `JsNumber` cannot hold Infinity, so these cases are not modelled.
- Pagination.CeilDiv: models `Math.ceil(totalFiles / limit)` exactly over the integers, without IEEE-754 double rounding, which is exact for any realistic directory size.
- JSON serialisation: `uploadDate` is a `Date` in the source and is kept as milliseconds since the epoch here, and response bodies are datatypes rather than JSON text.
- `console.error` logging.
- `path.join` is modelled as `dir + "/" + name`, for one plain path component (see `StoredNameIsOneComponent`). `path.extname` is a parameter.
- The listing reads the relative directory `'uploads/'` (l.97), while uploads go to `path.join(__dirname, '..', 'uploads')` (l.19). Which directory is read is an input, so whether the two agree is not modelled.
- Naming.Sanitize: works on Dafny characters. JavaScript's regular expression without the `u` flag works on UTF-16 code units, so a character outside the Basic Multilingual Plane becomes "__" in the source but '_' here.
- Naming.TokenOfIsoString: proved for the years 0..9999, the only years the clock of a running server reports. The extended-year case is covered only by `ExtendedYearTokenKeepsSign`.
- The clock and `process.env.HOST` are parameters: `Environment.clock` gives the ISO string read for each file, and `Environment.host` is `None` when HOST is unset, which renders as "undefined".
