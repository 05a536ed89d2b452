/** The payload store of the upload server (server/index.js).

    The upload directory is flat: it maps a file name to what that file holds.
    `POST /save-payload` writes a payload file and a companion metadata file
    named `<name>.json`; `GET /files-list` hides every name ending in `.json`;
    `GET /serve/:filename` sends the payload with the headers its metadata
    asks for. The file system, the clock and `JSON.parse` on text the server
    did not write itself are parameters of the operations below.
 */
module Server {

  datatype Option<T> = None | Some(value: T)

  /** Suffix of the companion metadata file, and of every name the list hides. */
  const MetaSuffix: string := ".json"
  const NoSniffHeader: string := "X-Content-Type-Options"
  const NoSniffValue: string := "nosniff"
  const ContentTypeHeader: string := "Content-Type"
  /** The `contentType` value that asks for no Content-Type header at all. */
  const OmitDirective: string := "omit"
  const NotFoundMessage: string := "File not found"

  /** The metadata record `{contentType, noSniff}`. `contentType` is absent or a
      string (JavaScript truthiness: a non-empty string); `noSniff` is the
      truthiness of the value the client sent. */
  datatype Meta = Meta(contentType: Option<string>, noSniff: bool)

  /** What one file of the upload directory holds: payload text written by a
      save, or a metadata record written by a save as JSON. */
  datatype Stored = Payload(text: string) | MetaRecord(meta: Meta)

  /** The JSON body of `POST /save-payload`. `payload` is `None` when it is
      absent or not a string; the other fields are `None` when absent. */
  datatype SaveRequest = SaveRequest(
    payload: Option<string>,
    contentType: Option<string>,
    noSniff: bool,
    extension: Option<string>,
    filename: Option<string>)

  datatype SaveResponse =
    | BadRequest          // 400 "Payload and extension are required"
    | WriteFailed         // 500 "Error saving payload"
    | Saved(filename: string)  // 200 "Payload saved" with the stored name
  {
    function Status(): (code: nat)
      ensures code == 200 <==> Saved?
      ensures code == 400 <==> BadRequest?
      ensures code == 500 <==> WriteFailed?
    {
      match this
      case BadRequest => 400
      case WriteFailed => 500
      case Saved(_) => 200
    }
  }

  /** The state of the directory after a save, with the response it gave. */
  datatype SaveOutcome = SaveOutcome(response: SaveResponse, files: map<string, Stored>)

  /** What reading `<name>.json` yields at serve time. */
  datatype MetaState = NoRecord | Unreadable | Parsed(meta: Meta)

  /** The three distinct Content-Type outcomes of a served payload. */
  datatype TypeHeader =
    | Omit               // no Content-Type header, and none inferred
    | Explicit(mime: string)  // Content-Type set verbatim
    | Default            // header left unset: the static sender infers one

  datatype ServeResult = NotFound | Served(body: Stored, noSniff: bool, contentType: TypeHeader)

  // ---------------------------------------------------------------------------
  // Strings
  // ---------------------------------------------------------------------------

  predicate EndsWith(s: string, suffix: string) {
    |suffix| <= |s| && s[|s| - |suffix|..] == suffix
  }

  /** The characters ECMAScript's `String.prototype.trim` removes: WhiteSpace
      (tab, vertical tab, form feed, space, no-break space, byte order mark and
      the other space separators) and LineTerminator. */
  const JsWhitespace: set<char> := {
    '\t', '\n', '\U{000B}', '\U{000C}', '\r', ' ', '\U{00A0}', '\U{1680}',
    '\U{2000}', '\U{2001}', '\U{2002}', '\U{2003}', '\U{2004}', '\U{2005}',
    '\U{2006}', '\U{2007}', '\U{2008}', '\U{2009}', '\U{200A}',
    '\U{2028}', '\U{2029}', '\U{202F}', '\U{205F}', '\U{3000}', '\U{FEFF}'
  }

  predicate IsJsWhitespace(c: char) {
    c in JsWhitespace
  }

  predicate Blank(s: string) {
    forall i | 0 <= i < |s| :: IsJsWhitespace(s[i])
  }

  lemma BlankCons(c: char, t: string)
    requires IsJsWhitespace(c) && Blank(t)
    ensures Blank([c] + t)
  {
    assert forall i | 1 <= i < |t| + 1 :: ([c] + t)[i] == t[i - 1];
  }

  lemma BlankSnoc(t: string, c: char)
    requires Blank(t) && IsJsWhitespace(c)
    ensures Blank(t + [c])
  {
    assert forall i | 0 <= i < |t| :: (t + [c])[i] == t[i];
  }

  /** `s` without its leading whitespace. */
  function TrimStart(s: string): (r: string)
    ensures |r| <= |s| && r == s[|s| - |r|..]
    ensures Blank(s[..|s| - |r|])
    ensures r == [] || !IsJsWhitespace(r[0])
  {
    if |s| > 0 && IsJsWhitespace(s[0]) then
      var r := TrimStart(s[1..]);
      assert s[..|s| - |r|] == [s[0]] + s[1..][..|s| - 1 - |r|];
      BlankCons(s[0], s[1..][..|s| - 1 - |r|]);
      r
    else s
  }

  /** `s` without its trailing whitespace. */
  function TrimEnd(s: string): (r: string)
    ensures |r| <= |s| && r == s[..|r|]
    ensures Blank(s[|r|..])
    ensures r == [] || !IsJsWhitespace(r[|r| - 1])
  {
    if |s| > 0 && IsJsWhitespace(s[|s| - 1]) then
      var r := TrimEnd(s[..|s| - 1]);
      assert s[|r|..] == s[..|s| - 1][|r|..] + [s[|s| - 1]];
      BlankSnoc(s[..|s| - 1][|r|..], s[|s| - 1]);
      r
    else s
  }

  /** `s.trim()`: the name without its leading and trailing whitespace. It is
      empty exactly when the name is all whitespace. */
  function Trim(s: string): (r: string)
    ensures |r| <= |s|
    ensures r == [] || (!IsJsWhitespace(r[0]) && !IsJsWhitespace(r[|r| - 1]))
    ensures var i := |s| - |TrimStart(s)|;
      i + |r| <= |s| && r == s[i..][..|r|] && Blank(s[..i]) && Blank(s[i + |r|..])
    ensures r == [] <==> Blank(s)
  {
    TrimEmptyIffBlank(s);
    TrimIsMiddle(s);
    TrimEnd(TrimStart(s))
  }

  /** Trimming both ends keeps the middle of `s`: what is dropped from either
      end is a run of whitespace. */
  lemma TrimIsMiddle(s: string)
    ensures var t := TrimStart(s); var r := TrimEnd(t); var i := |s| - |t|;
      i + |r| <= |s| && r == s[i..][..|r|] && Blank(s[..i]) && Blank(s[i + |r|..])
  {
    TrimKeepsSlice(s);
    TrimDropsBlankEnd(s);
  }

  /** What trimming both ends keeps is a prefix of what `TrimStart` keeps. */
  lemma TrimKeepsSlice(s: string)
    ensures var t := TrimStart(s); var r := TrimEnd(t); var i := |s| - |t|;
      i + |r| <= |s| && r == s[i..][..|r|]
  {
  }

  /** What trimming both ends drops at the end is whitespace. */
  lemma TrimDropsBlankEnd(s: string)
    ensures var t := TrimStart(s); var r := TrimEnd(t); var i := |s| - |t|;
      i + |r| <= |s| && Blank(s[i + |r|..])
  {
    var t := TrimStart(s);
    var r := TrimEnd(t);
    assert t[|r|..] == s[|s| - |t| + |r|..];
  }

  /** A blank string trims to nothing from the start. */
  lemma TrimStartBlank(s: string)
    requires Blank(s)
    ensures TrimStart(s) == []
  {
    var t := TrimStart(s);
    assert forall i | 0 <= i < |t| :: t[i] == s[|s| - |t| + i];
    assert Blank(t);
  }

  /** What is left after trimming from the start trims to nothing from the end
      only if it was empty. */
  lemma TrimEndOfTrimmedStart(t: string)
    requires t == [] || !IsJsWhitespace(t[0])
    requires TrimEnd(t) == []
    ensures t == []
  {
    assert t[|TrimEnd(t)|..] == t;
    assert Blank(t);
  }

  /** `filename.trim() !== ""` holds exactly when the name is not all whitespace. */
  lemma TrimEmptyIffBlank(s: string)
    ensures TrimEnd(TrimStart(s)) == "" <==> Blank(s)
  {
    var t := TrimStart(s);
    if Blank(s) {
      TrimStartBlank(s);
    }
    if TrimEnd(t) == [] {
      TrimEndOfTrimmedStart(t);
      assert s[..|s| - |t|] == s;
    }
  }

  // ---------------------------------------------------------------------------
  // Decimal rendering of the timestamp (`${timestamp}`)
  // ---------------------------------------------------------------------------

  predicate IsDigit(c: char) {
    '0' <= c <= '9'
  }

  function DigitChar(d: nat): (c: char)
    requires d < 10
    ensures IsDigit(c) && c as int - '0' as int == d
  {
    ['0', '1', '2', '3', '4', '5', '6', '7', '8', '9'][d]
  }

  /** The decimal digits of `n`, most significant first, without leading zeros. */
  function DecimalString(n: nat): (s: string)
    ensures |s| >= 1
    ensures forall i | 0 <= i < |s| :: IsDigit(s[i])
    ensures |s| > 1 ==> s[0] != '0'
    decreases n
  {
    if n < 10 then [DigitChar(n)] else DecimalString(n / 10) + [DigitChar(n % 10)]
  }

  /** The number a string of decimal digits denotes. */
  function DecimalValue(s: string): nat
    requires forall i | 0 <= i < |s| :: IsDigit(s[i])
  {
    if s == [] then 0
    else
      assert IsDigit(s[|s| - 1]);
      10 * DecimalValue(s[..|s| - 1]) + (s[|s| - 1] as int - '0' as int)
  }

  /** Reading back the rendered timestamp gives the timestamp. */
  lemma {:induction false} DecimalRoundTrip(n: nat)
    ensures DecimalValue(DecimalString(n)) == n
    decreases n
  {
    var s := DecimalString(n);
    if n >= 10 {
      assert s[..|s| - 1] == DecimalString(n / 10);
      DecimalRoundTrip(n / 10);
    }
  }

  /** Distinct timestamps give distinct generated names. */
  lemma TimestampNamesDistinct(a: nat, b: nat)
    requires a != b
    ensures DecimalString(a) != DecimalString(b)
  {
    DecimalRoundTrip(a);
    DecimalRoundTrip(b);
  }

  // ---------------------------------------------------------------------------
  // POST /save-payload
  // ---------------------------------------------------------------------------

  /** The 400 check: `payload` must be a string and `extension` truthy. */
  predicate Accepts(req: SaveRequest)
    ensures !Accepts(req) <==> req.payload.None? || req.extension.None? || req.extension.value == ""
  {
    req.payload.Some? && req.extension.Some? && req.extension.value != ""
  }

  /** The name a save stores under: the client's `filename`, untrimmed, when it
      is not blank, otherwise the timestamp; then `.` and the extension. */
  function StoredName(filename: Option<string>, extension: string, now: nat): (name: string)
    ensures filename.Some? && !Blank(filename.value) ==> name == filename.value + "." + extension
    ensures filename.None? || Blank(filename.value) ==> name == DecimalString(now) + "." + extension
  {
    var base := if filename.Some? && filename.value != "" && Trim(filename.value) != ""
                then filename.value
                else DecimalString(now);
    base + "." + extension
  }

  /** A name joined as `base.extension` ends in `.extension`. */
  lemma JoinedNameSuffix(base: string, extension: string)
    ensures EndsWith(base + "." + extension, "." + extension)
    ensures extension == "json" ==> EndsWith(base + "." + extension, MetaSuffix)
  {
    var tail := "." + extension;
    var name := base + "." + extension;
    assert name == base + tail;
    assert name[|name| - |tail|..] == tail;
  }

  /** The metadata companion is never the payload itself, and a name saved with
      extension `json` is one the list hides. */
  lemma StoredNameSuffix(filename: Option<string>, extension: string, now: nat)
    ensures StoredName(filename, extension, now) + MetaSuffix != StoredName(filename, extension, now)
    ensures EndsWith(StoredName(filename, extension, now), "." + extension)
    ensures extension == "json" ==> EndsWith(StoredName(filename, extension, now), MetaSuffix)
  {
    var name := StoredName(filename, extension, now);
    if filename.Some? && !Blank(filename.value) {
      JoinedNameSuffix(filename.value, extension);
    } else {
      JoinedNameSuffix(DecimalString(now), extension);
    }
    assert |name + MetaSuffix| == |name| + |MetaSuffix|;
  }

  /** The whole effect of one save on the directory, as the handler performs it:
      validation, the payload write, then the metadata write, whose failure is
      only logged. A failed write leaves its file as it was. */
  function SaveStep(files: map<string, Stored>, req: SaveRequest, now: nat,
                    payloadWriteFails: bool, metaWriteFails: bool): (out: SaveOutcome)
    ensures out.response.BadRequest? <==> !Accepts(req)
    ensures out.response.WriteFailed? <==> Accepts(req) && payloadWriteFails
    ensures !out.response.Saved? ==> out.files == files
  {
    if !Accepts(req) then SaveOutcome(BadRequest, files)
    else
      var name := StoredName(req.filename, req.extension.value, now);
      if payloadWriteFails then SaveOutcome(WriteFailed, files)
      else
        var withPayload := files[name := Payload(req.payload.value)];
        if metaWriteFails then SaveOutcome(Saved(name), withPayload)
        else SaveOutcome(Saved(name), withPayload[name + MetaSuffix := MetaRecord(Meta(req.contentType, req.noSniff))])
  }

  /** A successful save stores exactly the payload under the reported name, the
      record `{contentType, noSniff}` under its companion unless that write
      failed, and leaves every other entry alone. */
  lemma SaveStores(files: map<string, Stored>, req: SaveRequest, now: nat,
                   payloadWriteFails: bool, metaWriteFails: bool)
    requires Accepts(req) && !payloadWriteFails
    ensures var out := SaveStep(files, req, now, payloadWriteFails, metaWriteFails);
      var name := StoredName(req.filename, req.extension.value, now);
      && out.response == Saved(name)
      && name in out.files && out.files[name] == Payload(req.payload.value)
      && (!metaWriteFails ==>
            name + MetaSuffix in out.files
            && out.files[name + MetaSuffix] == MetaRecord(Meta(req.contentType, req.noSniff)))
      && (metaWriteFails ==> out.files == files[name := Payload(req.payload.value)])
      && (forall k | k != name && k != name + MetaSuffix ::
            (k in out.files <==> k in files) && (k in files ==> out.files[k] == files[k]))
  {
    StoredNameSuffix(req.filename, req.extension.value, now);
  }

  /** Two saves under the same name: the later payload is the one stored. */
  lemma LastWriterWins(files: map<string, Stored>, first: SaveRequest, second: SaveRequest,
                       now1: nat, now2: nat, metaFails1: bool, metaFails2: bool)
    requires Accepts(first) && Accepts(second)
    requires StoredName(first.filename, first.extension.value, now1)
          == StoredName(second.filename, second.extension.value, now2)
    ensures var mid := SaveStep(files, first, now1, false, metaFails1).files;
      var name := StoredName(second.filename, second.extension.value, now2);
      SaveStep(mid, second, now2, false, metaFails2).files[name] == Payload(second.payload.value)
  {
    var mid := SaveStep(files, first, now1, false, metaFails1).files;
    SaveStores(mid, second, now2, false, metaFails2);
  }

  // ---------------------------------------------------------------------------
  // GET /files-list
  // ---------------------------------------------------------------------------

  /** The directory read: an error, or the entry names in the order given. */
  datatype DirListing = ScanError | Entries(names: seq<string>)

  datatype ListResponse =
    | ListFailed              // 500 "Unable to scan files"
    | Listed(names: seq<string>)

  /** `files.filter((f) => !f.endsWith(".json"))` */
  function WithoutMetadata(names: seq<string>): (r: seq<string>)
    ensures |r| <= |names|
    ensures forall x :: x in r <==> x in names && !EndsWith(x, MetaSuffix)
  {
    if names == [] then []
    else if EndsWith(names[0], MetaSuffix) then WithoutMetadata(names[1..])
    else [names[0]] + WithoutMetadata(names[1..])
  }

  function FilesList(listing: DirListing): (r: ListResponse)
    ensures r.ListFailed? <==> listing.ScanError?
    ensures r.Listed? ==> forall x :: x in r.names <==> x in listing.names && !EndsWith(x, MetaSuffix)
    ensures r.Listed? ==> r.names == WithoutMetadata(listing.names)
  {
    match listing
    case ScanError => ListFailed
    case Entries(names) => Listed(WithoutMetadata(names))
  }

  /** The filter keeps the entries' order: filtering a concatenation is the
      concatenation of the filtered parts. */
  lemma {:induction false} WithoutMetadataAppend(a: seq<string>, b: seq<string>)
    ensures WithoutMetadata(a + b) == WithoutMetadata(a) + WithoutMetadata(b)
  {
    if a == [] {
      assert a + b == b;
    } else {
      assert (a + b)[0] == a[0];
      assert (a + b)[1..] == a[1..] + b;
      WithoutMetadataAppend(a[1..], b);
    }
  }

  /** Listing an already listed sequence changes nothing. */
  lemma {:induction false} WithoutMetadataIdempotent(names: seq<string>)
    ensures WithoutMetadata(WithoutMetadata(names)) == WithoutMetadata(names)
  {
    if names != [] {
      WithoutMetadataIdempotent(names[1..]);
      if !EndsWith(names[0], MetaSuffix) {
        var rest := WithoutMetadata(names[1..]);
        assert ([names[0]] + rest)[1..] == rest;
      }
    }
  }

  /** When the read enumerates the directory, the list shows exactly the names
      of the directory that do not end in `.json`. */
  lemma ListShowsPayloadNames(files: map<string, Stored>, names: seq<string>, x: string)
    requires forall n :: n in names <==> n in files
    ensures FilesList(Entries(names)).Listed?
    ensures x in FilesList(Entries(names)).names <==> x in files && !EndsWith(x, MetaSuffix)
  {
  }

  /** After a successful save the list shows the stored name unless it ends in
      `.json` (extension `json`), and never shows the metadata companion. */
  lemma SaveThenList(files: map<string, Stored>, req: SaveRequest, now: nat,
                     metaWriteFails: bool, names: seq<string>)
    requires Accepts(req)
    requires forall n :: n in names <==> n in SaveStep(files, req, now, false, metaWriteFails).files
    ensures var name := StoredName(req.filename, req.extension.value, now);
      && (name in WithoutMetadata(names) <==> !EndsWith(name, MetaSuffix))
      && name + MetaSuffix !in WithoutMetadata(names)
  {
    var name := StoredName(req.filename, req.extension.value, now);
    SaveStores(files, req, now, false, metaWriteFails);
    assert (name + MetaSuffix)[|name + MetaSuffix| - |MetaSuffix|..] == MetaSuffix;
  }

  // ---------------------------------------------------------------------------
  // GET /serve/:filename
  // ---------------------------------------------------------------------------

  function Lookup(files: map<string, Stored>, name: string): (r: Option<Stored>)
    ensures r.Some? <==> name in files
    ensures r.Some? ==> r.value == files[name]
  {
    if name in files then Some(files[name]) else None
  }

  /** Reading the companion `<name>.json`. A record the server wrote comes back
      as written; any other text goes through `parse`, the stand-in for
      `JSON.parse`, where `None` means the parse or the field access threw. */
  function MetaStateOf(files: map<string, Stored>, name: string,
                       parse: string -> Option<Meta>): (m: MetaState)
    ensures m.NoRecord? <==> name + MetaSuffix !in files
    ensures name + MetaSuffix in files && files[name + MetaSuffix].MetaRecord? ==>
      m == Parsed(files[name + MetaSuffix].meta)
    ensures name + MetaSuffix in files && files[name + MetaSuffix].Payload? ==>
      && (m.Unreadable? <==> parse(files[name + MetaSuffix].text).None?)
      && (m.Parsed? ==> m == Parsed(parse(files[name + MetaSuffix].text).value))
  {
    var key := name + MetaSuffix;
    if key !in files then NoRecord
    else match files[key]
      case MetaRecord(meta) => Parsed(meta)
      case Payload(text) => if parse(text).Some? then Parsed(parse(text).value) else Unreadable
  }

  /** The characters Node's `setHeader` accepts in a header value: tab,
      U+0020 to U+007E and U+0080 to U+00FF. Any other character makes it throw. */
  predicate IsHeaderValue(s: string) {
    forall i | 0 <= i < |s| :: s[i] == '\t' || ' ' <= s[i] <= '~' || '\U{0080}' <= s[i] <= '\U{00FF}'
  }

  /** `nosniff` passes Node's header-value check, so setting it never throws. */
  lemma NoSniffIsHeaderValue()
    ensures IsHeaderValue(NoSniffValue)
  {
    assert forall i | 0 <= i < |NoSniffValue| :: 'a' <= NoSniffValue[i] <= 'z';
  }

  /** The Content-Type outcome of a `contentType` value: a falsy one leaves the
      header to the sender and `omit` removes it. Any other value is set as is
      when it is a valid header value; otherwise `res.set` throws, the error is
      caught and logged, and the sender's default applies. */
  function TypeHeaderFor(contentType: Option<string>): (t: TypeHeader)
    ensures t.Omit? <==> contentType == Some(OmitDirective)
    ensures t.Explicit? <==>
      contentType.Some? && contentType.value != "" && contentType.value != OmitDirective
      && IsHeaderValue(contentType.value)
    ensures t.Explicit? ==> t.mime == contentType.value
    ensures t.Default? <==>
      || contentType.None? || contentType.value == ""
      || (contentType.value != OmitDirective && !IsHeaderValue(contentType.value))
  {
    if contentType.None? || contentType.value == "" then Default
    else if contentType.value == OmitDirective then Omit
    else if !IsHeaderValue(contentType.value) then Default
    else Explicit(contentType.value)
  }

  /** A `contentType` carrying a line break, as in a header-injection attempt
      such as `text/html\r\nX: y`, is not set: the payload goes out with the
      sender's default type. */
  lemma LineBreakTypeIsDefault(value: string)
    requires exists i | 0 <= i < |value| :: value[i] == '\r' || value[i] == '\n'
    ensures TypeHeaderFor(Some(value)) == Default
  {
    assert value != OmitDirective;
  }

  /** A rejected `contentType` does not undo `nosniff`, which was set before. */
  lemma InvalidTypeKeepsNoSniff(payload: Option<Stored>, m: Meta)
    requires payload.Some?
    requires m.contentType.Some? && m.contentType.value != ""
    requires !IsHeaderValue(m.contentType.value)
    ensures Resolve(payload, Parsed(m)) == Served(payload.value, m.noSniff, Default)
  {
  }

  /** The serve decision: 404 without the payload, whatever the metadata;
      otherwise the payload, with `nosniff` exactly when a readable record asks
      for it, and the Content-Type outcome of that record's `contentType`. A
      missing or unreadable record never stops the payload being served. */
  function Resolve(payload: Option<Stored>, meta: MetaState): (r: ServeResult)
    ensures r.NotFound? <==> payload.None?
    ensures r.Served? ==> r.body == payload.value
    ensures r.Served? ==> (r.noSniff <==> meta.Parsed? && meta.meta.noSniff)
    ensures r.Served? && meta.Parsed? ==> r.contentType == TypeHeaderFor(meta.meta.contentType)
    ensures r.Served? && !meta.Parsed? ==> r.contentType == Default
  {
    match payload
    case None => NotFound
    case Some(body) =>
      match meta
      case Parsed(m) => Served(body, m.noSniff, TypeHeaderFor(m.contentType))
      case _ => Served(body, false, Default)
  }

  /** A record `{}`, an unreadable record and no record give the same response. */
  lemma EmptyRecordIsNoRecord(payload: Option<Stored>)
    ensures Resolve(payload, Parsed(Meta(None, false))) == Resolve(payload, NoRecord)
    ensures Resolve(payload, Unreadable) == Resolve(payload, NoRecord)
  {
  }

  /** `nosniff` does not depend on `contentType`, and `contentType` does not
      depend on `nosniff`: the two headers are decided independently. */
  lemma NoSniffIndependent(payload: Option<Stored>, m1: Meta, m2: Meta)
    requires payload.Some?
    ensures m1.noSniff == m2.noSniff ==>
      Resolve(payload, Parsed(m1)).noSniff == Resolve(payload, Parsed(m2)).noSniff
    ensures m1.contentType == m2.contentType ==>
      Resolve(payload, Parsed(m1)).contentType == Resolve(payload, Parsed(m2)).contentType
  {
  }

  /** The round trip: serving a name right after saving it gives back the
      payload with the headers the save asked for; if the metadata write failed
      and no older companion existed, the payload is served with defaults. */
  lemma SaveThenServe(files: map<string, Stored>, req: SaveRequest, now: nat,
                      metaWriteFails: bool, parse: string -> Option<Meta>)
    requires Accepts(req)
    ensures var after := SaveStep(files, req, now, false, metaWriteFails).files;
      var name := StoredName(req.filename, req.extension.value, now);
      var served := Resolve(Lookup(after, name), MetaStateOf(after, name, parse));
      && (!metaWriteFails ==>
            served == Served(Payload(req.payload.value), req.noSniff, TypeHeaderFor(req.contentType)))
      && (metaWriteFails && name + MetaSuffix !in files ==>
            served == Served(Payload(req.payload.value), false, Default))
  {
    SaveStores(files, req, now, false, metaWriteFails);
  }

  // ---------------------------------------------------------------------------
  // The response object and the directory object
  // ---------------------------------------------------------------------------

  /** How the body leaves the server. */
  datatype Transfer =
    | Pending
    | Replied(status: nat, message: string)  // res.status(..).send(..)
    | FileSent(file: Stored)   // res.sendFile: fills in a Content-Type from the extension if none is set
    | Streamed(file: Stored)   // a read stream piped into res: the headers go out as they stand

  /** The Express response as the handler changes it. */
  class Response {
    var headers: map<string, string>
    var transfer: Transfer

    constructor (initial: map<string, string>)
      ensures headers == initial && transfer == Pending
    {
      headers := initial;
      transfer := Pending;
    }

    /** `res.set(field, value)`: it throws, changing nothing, when `value` is
        not a valid header value. */
    method Set(field: string, value: string) returns (thrown: bool)
      modifies this
      ensures thrown <==> !IsHeaderValue(value)
      ensures headers == (if thrown then old(headers) else old(headers)[field := value])
      ensures transfer == old(transfer)
    {
      thrown := !IsHeaderValue(value);
      if !thrown {
        headers := headers[field := value];
      }
    }

    /** `res.removeHeader(field)` */
    method RemoveHeader(field: string)
      modifies this
      ensures headers == old(headers) - {field} && transfer == old(transfer)
    {
      headers := headers - {field};
    }

    method Send(status: nat, message: string)
      modifies this
      ensures headers == old(headers) && transfer == Replied(status, message)
    {
      transfer := Replied(status, message);
    }

    method SendFile(file: Stored)
      modifies this
      ensures headers == old(headers) && transfer == FileSent(file)
    {
      transfer := FileSent(file);
    }

    method Pipe(file: Stored)
      modifies this
      ensures headers == old(headers) && transfer == Streamed(file)
    {
      transfer := Streamed(file);
    }

    /** The response carries the serve decision `r`: a 404, or the body with the
        nosniff header exactly when asked, and the Content-Type outcome. */
    predicate Shows(r: ServeResult)
      reads this
    {
      match r
      case NotFound =>
        && NoSniffHeader !in headers && ContentTypeHeader !in headers
        && transfer == Replied(404, NotFoundMessage)
      case Served(body, noSniff, contentType) =>
        && (NoSniffHeader in headers <==> noSniff)
        && (noSniff ==> headers[NoSniffHeader] == NoSniffValue)
        && match contentType
           case Omit => ContentTypeHeader !in headers && transfer == Streamed(body)
           case Explicit(mime) =>
             ContentTypeHeader in headers && headers[ContentTypeHeader] == mime && transfer == FileSent(body)
           case Default => ContentTypeHeader !in headers && transfer == FileSent(body)
    }
  }

  /** The upload directory. */
  class UploadDir {
    var files: map<string, Stored>

    constructor (existing: map<string, Stored>)
      ensures files == existing
    {
      files := existing;
    }

    /** `POST /save-payload`: the payload write, then the metadata write. */
    method SavePayload(req: SaveRequest, now: nat, payloadWriteFails: bool, metaWriteFails: bool)
      returns (resp: SaveResponse)
      modifies this
      ensures SaveOutcome(resp, files) == SaveStep(old(files), req, now, payloadWriteFails, metaWriteFails)
    {
      if req.payload.None? || req.extension.None? || req.extension.value == "" {
        return BadRequest;
      }
      var name := StoredName(req.filename, req.extension.value, now);
      if payloadWriteFails {
        return WriteFailed;
      }
      files := files[name := Payload(req.payload.value)];
      if !metaWriteFails {
        files := files[name + MetaSuffix := MetaRecord(Meta(req.contentType, req.noSniff))];
      }
      resp := Saved(name);
    }

    /** `GET /serve/:filename`: sets the headers step by step on `res` and sends
        the payload. Headers other than the two it decides are left as they were. */
    method Serve(name: string, res: Response, parse: string -> Option<Meta>)
      requires res.transfer == Pending
      requires NoSniffHeader !in res.headers && ContentTypeHeader !in res.headers
      modifies res
      ensures res.Shows(Resolve(Lookup(files, name), MetaStateOf(files, name, parse)))
      ensures res.headers - {NoSniffHeader, ContentTypeHeader} == old(res.headers)
      ensures name !in files ==> res.headers == old(res.headers)
    {
      if name !in files {
        res.Send(404, NotFoundMessage);
        return;
      }
      var metaFile := name + MetaSuffix;
      if metaFile in files {
        var parsed := match files[metaFile]
          case MetaRecord(m) => Some(m)
          case Payload(text) => parse(text);
        if parsed.Some? {
          var meta := parsed.value;
          if meta.noSniff {
            NoSniffIsHeaderValue();
            var _ := res.Set(NoSniffHeader, NoSniffValue);
          }
          if meta.contentType.Some? && meta.contentType.value != "" {
            // a throw here is caught and logged; the payload is then sent below
            var thrown := res.Set(ContentTypeHeader, meta.contentType.value);
            if !thrown && meta.contentType.value == OmitDirective {
              // sendFileWithoutType
              res.RemoveHeader(ContentTypeHeader);
              res.Pipe(files[name]);
              return;
            }
          }
        }
      }
      res.SendFile(files[name]);
    }
  }
}
