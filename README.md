# Payload store with companion header metadata

A Dafny model of the core of a small demonstration server for MIME sniffing
(`server/index.js`) and of the file-kind classifier of its upload page
(`client/src/FileUpload.js`).

The server keeps a flat upload directory. `POST /save-payload` stores a text
payload under a name derived from the client's `filename` (or the current
timestamp) and an extension, then writes a companion record
`{contentType, noSniff}` under the same name with `.json` appended.
`GET /files-list` lists the directory without the names ending in `.json`.
`GET /serve/:filename` answers 404 when the payload is missing. Otherwise it
reads the companion record and sends the payload:

- with `X-Content-Type-Options: nosniff` when the record asks for it (the header
  of the WHATWG Fetch Standard, section "`X-Content-Type-Options` header");
- with no Content-Type at all for `omit`;
- with the given Content-Type (section 8.3 of RFC 9110) for any other
  non-empty value that Node accepts as a header value (tab, U+0020 to U+007E
  and U+0080 to U+00FF); for a value with any other character `res.set`
  throws, the error is caught and logged, and the payload goes out as below;
- with the sender's default type otherwise, including when the record is
  missing or unreadable.

Layout:

- `server.dfy`, module `Server`:
  - the directory is the `map` field of class `UploadDir`;
  - `SavePayload` performs the two sequential writes;
  - `Serve` changes a `Response` object step by step, as the handler does;
  - the pure parts are functions: the name derivation (`StoredName`, with
    `Trim` and `DecimalString`), the list filter (`WithoutMetadata`), and the
    header decision (`Resolve`);
  - `SaveStep` is the function the save method is proved against.
- `file_upload.dfy`, module `FileUpload`: `GetFileType` and its lemmas.

Inputs the server takes from outside become parameters:

- the clock (`now`);
- the two write failures (`payloadWriteFails`, `metaWriteFails`);
- the order of the directory read (`DirListing`);
- `JSON.parse` of companion text the server did not write itself (`parse`).

Behaviour of the code the model keeps:

- The companion suffix `.json` can collide with a payload extension. A payload
  saved with extension `json` ends in `.json`, so the list hides it
  (`StoredNameSuffix`, `SaveThenList`).
- Because of the same suffix, such a payload can also overwrite another
  payload's companion. For example, filename `a.txt` with extension `json`
  writes `a.txt.json`. Serving `a.txt` then parses that payload text as its
  metadata, which is why `MetaStateOf` takes `parse`.
- A companion record is written on every save, even when neither directive
  was given: the record is then `{}`, which serves like no record
  (`EmptyRecordIsNoRecord`).
- The list keeps the order in which `readdir` returned the entries
  (`WithoutMetadataAppend`).

## Model

| member | source | states |
|---|---|---|
| `Server.TrimStart` | server/index.js:78 | the result is a suffix of the input, everything dropped is JavaScript whitespace, and it does not start with whitespace |
| `Server.TrimEnd` | server/index.js:78 | the result is a prefix of the input, everything dropped is JavaScript whitespace, and it does not end with whitespace |
| `Server.TrimEmptyIffBlank` | server/index.js:78 | trimming both ends gives the empty string exactly when every character of the name is whitespace |
| `Server.Trim` | server/index.js:78 | `trim()` drops leading and trailing whitespace only: the result is the middle of the input, preceded and followed by runs of whitespace; it neither starts nor ends with whitespace, and is empty exactly when the input is blank |
| `Server.TrimIsMiddle` | server/index.js:78 | trimming the start and then the end leaves the middle of the input: it starts where the leading whitespace run stops and is followed only by whitespace |
| `Server.TrimKeepsSlice` | server/index.js:78 | what trimming both ends keeps is a prefix of what trimming the start keeps |
| `Server.TrimDropsBlankEnd` | server/index.js:78 | what trimming both ends drops after the kept middle is whitespace |
| `Server.TrimStartBlank` | server/index.js:78 | trimming the start of a blank string leaves nothing |
| `Server.TrimEndOfTrimmedStart` | server/index.js:78 | trimming the end of a string that does not start with whitespace leaves nothing only when the string was empty |
| `Server.DecimalString` | server/index.js:76-78 | the rendered timestamp is a non-empty string of decimal digits without a leading zero |
| `Server.DecimalRoundTrip` | server/index.js:76-78 | reading the rendered timestamp back as a decimal number gives the timestamp |
| `Server.TimestampNamesDistinct` | server/index.js:76-78 | two different timestamps never render to the same generated name |
| `Server.Accepts` | server/index.js:69-73 | a request is rejected exactly when `payload` is not a string, or `extension` is missing or empty |
| `Server.StoredName` | server/index.js:76-79 | the stored name is the untrimmed `filename` + "." + extension when the filename is present and not blank, otherwise the timestamp + "." + extension |
| `Server.StoredNameSuffix` | server/index.js:79-91 | the companion name differs from the payload name; the stored name ends in "." + extension, and so ends in ".json" when the extension is `json` |
| `Server.SaveStep` | server/index.js:67-99 | 400 exactly when `payload` is not a string or `extension` is falsy; 500 exactly when the input is valid and the payload write fails; any response but success leaves the directory unchanged |
| `Server.SaveResponse.Status` | server/index.js:69-96 | a save answers 200 exactly when it reports the stored name, 400 exactly for a validation failure and 500 exactly for a failed payload write |
| `Server.SaveStores` | server/index.js:83-97 | a save whose payload write succeeds reports the stored name, maps it to exactly the payload, and maps the companion to `{contentType, noSniff}`. If only the metadata write failed, only the payload is written and the save still succeeds. Every other entry is unchanged |
| `Server.LastWriterWins` | server/index.js:83 | two successful saves that derive the same name leave the second payload stored |
| `Server.WithoutMetadata` | server/index.js:59 | a name is listed exactly when it is a directory entry that does not end in ".json"; the list is no longer than the entries |
| `Server.WithoutMetadataAppend` | server/index.js:59 | the filter keeps the entries' order: filtering a concatenation is the concatenation of the filtered parts |
| `Server.WithoutMetadataIdempotent` | server/index.js:59 | filtering an already filtered list changes nothing |
| `Server.FilesList` | server/index.js:55-61 | the handler answers 500 "Unable to scan files" exactly when the directory read fails, and otherwise lists the entries that do not end in ".json", in the order `readdir` gave them (the list is `WithoutMetadata` of the entries, so its order lemmas apply) |
| `Server.ListShowsPayloadNames` | server/index.js:55-60 | a successful read lists exactly the directory's names that do not end in ".json" |
| `Server.SaveThenList` | server/index.js:59-92 | after a save, the list shows the stored name exactly when it does not end in ".json", and never shows its metadata companion |
| `Server.Lookup` | server/index.js:111-115 | the payload is found exactly when its name is in the directory, and it is what the directory holds |
| `Server.MetaStateOf` | server/index.js:117-138 | the record is reported missing exactly when no companion `<name>.json` exists. A companion the server wrote yields exactly its `{contentType, noSniff}`. Any other companion text is unreadable exactly when `JSON.parse` yields nothing usable, and otherwise yields what it parsed to |
| `Server.TypeHeaderFor` | server/index.js:128-138 | `omit` gives the Omit outcome. Any other non-empty string is set verbatim exactly when it is a valid header value. Absent, empty, or a value `res.set` throws on gives the Default outcome |
| `Server.LineBreakTypeIsDefault` | server/index.js:128-141 | any `contentType` with a CR or LF in it, such as `text/html\r\nX: y`, is not sent as a header; the payload gets the sender's default type |
| `Server.NoSniffIsHeaderValue` | server/index.js:124-126 | the value `nosniff` passes Node's header-value check, so setting it never throws |
| `Server.InvalidTypeKeepsNoSniff` | server/index.js:123-141 | when `res.set` throws on the `contentType`, the payload is still served, with the `nosniff` decision already made and the Default outcome |
| `Server.Resolve` | server/index.js:109-141 | 404 exactly when the payload is missing, whatever the metadata. Otherwise the body is the stored payload. `nosniff` is set exactly when a readable record has a truthy `noSniff`. A readable record's `contentType` decides the Content-Type outcome. A missing or unreadable record gives the Default outcome |
| `Server.EmptyRecordIsNoRecord` | server/index.js:119-141 | a record `{}` and an unreadable record serve exactly like no record |
| `Server.NoSniffIndependent` | server/index.js:123-135 | the nosniff decision does not depend on `contentType`, and the Content-Type decision does not depend on `noSniff` |
| `Server.SaveThenServe` | server/index.js:67-141 | serving the name just saved returns the payload unchanged, with the nosniff and Content-Type the save asked for. If the metadata write failed and no older companion existed, it returns the payload with default headers |
| `Server.Response.Set` | server/index.js:125-130 | `res.set` maps the header to the value and changes nothing else when the value is a valid header value; otherwise it throws and changes nothing |
| `Server.Response.RemoveHeader` | server/index.js:103 | `res.removeHeader` drops the header and changes nothing else |
| `Server.Response.Send` | server/index.js:114 | the response is a reply with the given status and message; the headers are untouched |
| `Server.Response.SendFile` | server/index.js:141 | the file goes through the static sender, with the headers as they stand |
| `Server.Response.Pipe` | server/index.js:101-104 | the file is streamed with the headers as they stand |
| `Server.UploadDir.constructor` | server/index.js:16-20 | the store starts from the directory's existing files |
| `Server.UploadDir.SavePayload` | server/index.js:67-99 | the response and the new directory are those of `SaveStep` on the old directory |
| `Server.UploadDir.Serve` | server/index.js:101-142 | after the handler's steps, the response shows `Resolve` of the payload and the companion record. That is either a 404 "File not found" reply for which the handler sets neither header, or the payload with exactly the nosniff and Content-Type headers decided, streamed without a type for `omit`; a Content-Type `res.set` throws on is caught and the payload is sent with the default type. Headers other than those two are untouched, and a 404 leaves every header untouched |
| `FileUpload.IsImageExtension` | client/src/FileUpload.js:59 | an extension is an image extension exactly when it is one of `jpg`, `jpeg`, `png`, `gif` |
| `FileUpload.LastSegment` | client/src/FileUpload.js:58 | the result contains no `.`, is a suffix of the name, and is the whole name or preceded by a `.` |
| `FileUpload.LowerChar` | client/src/FileUpload.js:58 | an upper-case ASCII letter becomes the lower-case letter at the same alphabet position; every other character is kept |
| `FileUpload.Lower` | client/src/FileUpload.js:58 | each character is lower-cased in place; the length is kept |
| `FileUpload.GetFileType` | client/src/FileUpload.js:57-63 | the result is one of the four kinds `image`, `pdf`, `text`, `other` (`FileKind`, whose `Label` is the returned string). It is `image` exactly for jpg/jpeg/png/gif, `pdf` exactly for pdf and `text` exactly for txt, judged on the lower-cased last segment. An empty name or a name ending in `.` is `other` |
| `FileUpload.LastSegmentAfterDot` | client/src/FileUpload.js:58 | for a name `prefix.ext` with no `.` in `ext`, the last segment is `ext` |
| `FileUpload.LastSegmentNoDot` | client/src/FileUpload.js:58 | a name without `.` is its own last segment |
| `FileUpload.OnlyLastSegmentMatters` | client/src/FileUpload.js:58-62 | `prefix.ext` is classified exactly as `ext` |
| `FileUpload.LowerLastSegment` | client/src/FileUpload.js:58 | lower-casing commutes with taking the last segment |
| `FileUpload.CaseInsensitive` | client/src/FileUpload.js:58-62 | two names equal up to case get the same kind |
| `FileUpload.ExampleLastSegment` | client/src/FileUpload.js:57-63 | the name `a.txt.png` is `image` |
| `FileUpload.ExampleUpperCase` | client/src/FileUpload.js:57-63 | the name `PHOTO.JPG` is `image` |
| `FileUpload.ExampleNoExtension` | client/src/FileUpload.js:57-63 | the name `notes` is `other`, and so is `notes.` |

## Left out

- Express, cors and multer wiring, `app.listen`, the `/upload` endpoint (multer, its 5 MB limit and its `Date.now()` naming), the `/files` static route with its CORS header, and `/health-check`: framework configuration and library calls.
- File system calls (`existsSync`, `readdir`, `writeFile`, `readFileSync`, `mkdirSync`) are reads and updates of the `files` map. A write that fails is a boolean input and leaves its entry as it was. Partial writes are not modelled.
- `Date.now()` is the parameter `now`. The directory read is the parameter `DirListing`: its order is the operating system's, and its failure is the 500 "Unable to scan files" reply.
- Streaming: `createReadStream`/`pipe` and the stream's error handler (server/index.js:105) are not modelled. The body is the stored content.
- Header behaviour inside the libraries is not modelled: the charset Express may append in `res.set("Content-Type", …)`, the type `res.sendFile` infers from the extension, and the default `Content-Type: text/html; charset=utf-8` that `res.send` gives the 404 reply at server/index.js:114. The first two are the abstract `Explicit` and `Default` outcomes; the third is outside the two headers the handler itself decides.
- Server.Resolve: serves every present payload, but `res.sendFile` at server/index.js:141 refuses a path with a segment starting with `.` (the default dotfiles handling of the `send` module) and Express answers 404. So a payload saved with filename `.env`, stored as `.env.txt`, is answered 404 unless its record says `omit`, because the stream at server/index.js:101-104 has no such rule. The outcome also depends on the upload directory's own path, which the model does not have.
- JSON: a record the server wrote is read back with the `noSniff` truthiness the request had, except for a non-finite number (see `Server.SaveThenServe` below). Any other companion text goes through the `parse` parameter, whose `None` covers a parse that throws and a parsed `null`.
- Server.SaveThenServe: states that the nosniff decision of the request survives the round trip, which the code breaks for a `noSniff` that parses to a non-finite number (the request body `"noSniff": 1e999` is `Infinity`, truthy, but `JSON.stringify` writes it as `null`, so no nosniff header is sent); the model does not represent number values, so it keeps the request's truthiness.
- Server.Meta: `contentType` is absent or a string and `noSniff` is a truthiness. So a non-string `contentType` is not modelled. In particular an array makes `res.set` throw after `nosniff` was already set.
- Server.SaveRequest: `filename` and `extension` are absent or strings. So a truthy non-string `filename`, on which `trim` would throw, is not modelled.
- `path.join` normalisation and path traversal through user-supplied names are not modelled. Names are flat opaque keys.
- Concurrency between the two writes of a save, and races between saves of the same name, are not modelled. Saves are sequential. A serve between the two writes of a first save is the no-record case of `Resolve`; between the two writes of a re-save it would see the previous save's companion and send that save's headers, which the model does not capture.
- FileUpload.Lower: lower-cases the ASCII letters only, not the full Unicode mapping of `toLowerCase`. No other character lower-cases to a single letter of `jpg`, `jpeg`, `png`, `gif`, `pdf` or `txt`, so `GetFileType` classifies every name as the source does.
- All React UI of client/src/FileUpload.js: state hooks, the axios calls, the `FileReader` preview and the JSX.
