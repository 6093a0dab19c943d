/**
 * The decisions of `UploadController.Save`: blank input is refused, input
 * starting with `http` is fetched and stored, anything else is parsed as an
 * inline data URI and stored. Storing a file names it with a generated token
 * and the media type's extension, and files a dated copy under `/ofs/`.
 * The storage and network calls themselves are not part of this model: the
 * response of the remote fetch, the random draws and today's date are inputs.
 */
module Upload {
  import opened Wrappers
  import opened Strings
  import Mime
  import InlineData
  import StringGenerator
  import Dates

  /** The message of the `400 Bad Request` answer to blank input. */
  const NoDataMessage: string := "No data received."

  /** Input starting with this is treated as a URL to fetch. */
  const UrlPrefix: string := "http"

  /** The Dropbox folder that receives the archive copy. */
  const ArchiveFolder: string := "/ofs/"

  /** The bytes that are stored: downloaded as they are, or the base64 text of an inline payload, which is decoded before storing. */
  datatype Content = Downloaded(bytes: seq<bv8>) | Base64Payload(text: string)

  /** One stored image: the blob in the `ofs` container, its content type, and the path of its Dropbox copy. */
  datatype StoredFile = StoredFile(blobName: string, contentType: string, content: Content, archivePath: string)

  /** The answer to `GET url`, as far as the controller looks at it; `contentType` is the rendered `Content-Type` header, `None` when it is absent. */
  datatype FetchResponse = FetchResponse(isSuccessStatusCode: bool, body: seq<bv8>, contentType: Option<string>)

  /** The URL string `Save` answers with: the stored blob's, `null`, or the empty string. */
  datatype Saved = Stored(file: StoredFile) | NullUrl | EmptyUrl

  /** The action result of `Save`. */
  datatype ActionResult = BadRequest(message: string) | Ok(saved: Saved)

  /** The three ways `Save` can go. */
  datatype Route = Rejected | RemoteFetch | Inline

  /**
   * `"/ofs/" + today.ToString("yyyy-MM-dd") + "_" + filename`: the folder,
   * the ten-character date, an underscore, then the file name unchanged.
   */
  function ArchivePath(today: Dates.Date, filename: string): (path: string)
    requires Dates.Valid(today)
    ensures |path| == |ArchiveFolder| + 11 + |filename|
    ensures path[..5] == ArchiveFolder && path[15] == '_' && path[16..] == filename
    ensures path[5..15] == Dates.Format(today)
  {
    var path := ArchiveFolder + Dates.Format(today) + "_" + filename;
    assert path[5..15] == Dates.Format(today);
    path
  }

  /** Distinct dates or distinct file names never share an archive path. */
  lemma ArchivePathIsInjective(d1: Dates.Date, f1: string, d2: Dates.Date, f2: string)
    requires Dates.Valid(d1) && Dates.Valid(d2)
    requires ArchivePath(d1, f1) == ArchivePath(d2, f2)
    ensures d1 == d2 && f1 == f2
  {
    var s1, s2 := Dates.Format(d1), Dates.Format(d2);
    assert s1 == ArchivePath(d1, f1)[5..15] == s2;
    assert s1[..4] == s2[..4] && s1[5..7] == s2[5..7] && s1[8..] == s2[8..];
  }

  /**
   * `SaveFile` without its uploads: the extension lookup throws for an
   * unsupported type; otherwise the file is named by a fresh token of the
   * default length followed by the extension, and archived under that name.
   */
  function SaveFile(content: Content, mimeType: string, draws: seq<nat>, today: Dates.Date): (r: Result<StoredFile>)
    requires StringGenerator.Fits(draws, StringGenerator.Consonant, StringGenerator.DefaultLength)
    requires Dates.Valid(today)
    ensures r.Failure? <==> Mime.GetExtension(mimeType).Failure?
    ensures r.Failure? ==> r.error == InvalidOperation
    ensures r.Success? ==> r.value.content == content && r.value.contentType == mimeType
  {
    var extension := Mime.GetExtension(mimeType);
    if extension.Failure? then Failure(extension.error)
    else
      var filename := StringGenerator.Token(draws, StringGenerator.Consonant, StringGenerator.DefaultLength) + extension.value;
      Success(StoredFile(filename, mimeType, content, ArchivePath(today, filename)))
  }

  /**
   * `task.Result` on a task that ran to `r`: the value when it completed, and
   * its exception wrapped in `AggregateException` when it faulted.
   */
  function Await<T>(r: Result<T>): (a: Result<T>)
    ensures a.Success? <==> r.Success?
    ensures a.Success? ==> a.value == r.value
    ensures a.Failure? ==> a.error == Aggregate(r.error)
  {
    if r.Success? then r else Failure(Aggregate(r.error))
  }

  /**
   * A stored file's name is an eight-character pronounceable token followed
   * by the four-character extension of its type, and its archive copy sits
   * in `/ofs/` under today's date, an underscore and that same name.
   */
  lemma StoredFileNames(content: Content, mimeType: string, draws: seq<nat>, today: Dates.Date)
    requires StringGenerator.Fits(draws, StringGenerator.Consonant, StringGenerator.DefaultLength)
    requires Dates.Valid(today)
    requires SaveFile(content, mimeType, draws, today).Success?
    ensures var file := SaveFile(content, mimeType, draws, today).value;
      && |file.blobName| == 12
      && file.blobName[..8] == StringGenerator.Token(draws, StringGenerator.Consonant, StringGenerator.DefaultLength)
      && StringGenerator.Pronounceable(file.blobName[..8])
      && file.blobName[8..] == Mime.GetExtension(mimeType).value
      && file.blobName[8..] in Mime.Extensions
      && file.archivePath[..5] == ArchiveFolder
      && file.archivePath[5..15] == Dates.Format(today)
      && file.archivePath[15] == '_'
      && file.archivePath[16..] == file.blobName
  {
    var token := StringGenerator.Token(draws, StringGenerator.Consonant, StringGenerator.DefaultLength);
    var extension := Mime.GetExtension(mimeType).value;
    StringGenerator.TokenIsPronounceable(draws, StringGenerator.DefaultLength);
    Mime.ExtensionTable(mimeType);
    assert (token + extension)[..8] == token;
    assert (token + extension)[8..] == extension;
  }

  /**
   * The task of `SaveUrlToFile`, given the answer to its `GET`: a non-success
   * status gives the empty string; a missing `Content-Type` header throws
   * `NullReferenceException`; otherwise the body is stored under the header's
   * type. An unsupported type faults the task of `SaveFile`, so its `.Result`
   * throws `AggregateException` around `InvalidOperationException`.
   */
  function SaveUrlToFile(response: FetchResponse, draws: seq<nat>, today: Dates.Date): (r: Result<Saved>)
    requires StringGenerator.Fits(draws, StringGenerator.Consonant, StringGenerator.DefaultLength)
    requires Dates.Valid(today)
    ensures !response.isSuccessStatusCode <==> r == Success(EmptyUrl)
    ensures r.Failure? <==> response.isSuccessStatusCode && (response.contentType.None? || Mime.GetExtension(response.contentType.value).Failure?)
    ensures r.Failure? ==> r.error == if response.contentType.None? then NullReference else Aggregate(InvalidOperation)
    ensures r.Success? && r.value.Stored? ==>
      r.value.file.content == Downloaded(response.body) && response.contentType == Some(r.value.file.contentType)
    ensures r.Success? && r.value.Stored? ==>
      (&& response.contentType.Some?
       && SaveFile(Downloaded(response.body), response.contentType.value, draws, today) == Success(r.value.file))
    ensures r.Success? ==> !r.value.NullUrl?
  {
    if !response.isSuccessStatusCode then Success(EmptyUrl)
    else if response.contentType.None? then Failure(NullReference)
    else
      var file := Await(SaveFile(Downloaded(response.body), response.contentType.value, draws, today));
      if file.Failure? then Failure(file.error) else Success(Stored(file.value))
  }

  /**
   * `SaveBase64ToFile` up to decoding: an unsupported `data:` type throws;
   * a URI without a non-empty payload or a media type gives `null`; otherwise
   * the payload is stored under the parsed type.
   */
  function SaveBase64ToFile(data: string, draws: seq<nat>, today: Dates.Date): (r: Result<Saved>)
    requires StringGenerator.Fits(draws, StringGenerator.Consonant, StringGenerator.DefaultLength)
    requires Dates.Valid(today)
    ensures r.Failure? <==> InlineData.Parse(data).Failure?
    ensures r.Failure? ==> r.error == InvalidOperation
    ensures r == Success(NullUrl) <==> InlineData.Parse(data) == Success(None)
    ensures r.Success? && r.value.Stored? ==>
      var inline := InlineData.Parse(data).value.value;
      r.value.file.content == Base64Payload(inline.payload) && r.value.file.contentType == inline.mimeType
    ensures r.Success? && r.value.Stored? ==>
      var inline := InlineData.Parse(data).value.value;
      SaveFile(Base64Payload(inline.payload), inline.mimeType, draws, today) == Success(r.value.file)
    ensures r.Success? ==> !r.value.EmptyUrl?
  {
    var parsed := InlineData.Parse(data);
    if parsed.Failure? then Failure(parsed.error)
    else if parsed.value.None? then Success(NullUrl)
    else
      var inline := parsed.value.value;
      // The parse has already looked the type up, so the second lookup in `SaveFile` succeeds.
      var file := Await(SaveFile(Base64Payload(inline.payload), inline.mimeType, draws, today));
      Success(Stored(file.value))
  }

  /** The dispatch of `Save`: blank input is refused, `http…` is fetched, anything else is inline. */
  function RouteOf(data: Option<string>): (route: Route)
    ensures route == Rejected <==> IsNullOrWhiteSpace(data)
    ensures route == RemoteFetch <==> !IsNullOrWhiteSpace(data) && StartsWith(data.value, UrlPrefix)
  {
    if IsNullOrWhiteSpace(data) then Rejected
    else if StartsWith(data.value, UrlPrefix) then RemoteFetch
    else Inline
  }

  /**
   * `Save`: a `400` with "No data received." for blank input, otherwise a
   * `200` carrying what the chosen path answers. The inline path runs
   * synchronously, so its exception escapes as it is; the fetch path is
   * awaited with `.Result`, which wraps its exception once more.
   */
  function Save(data: Option<string>, remote: FetchResponse, draws: seq<nat>, today: Dates.Date): (r: Result<ActionResult>)
    requires StringGenerator.Fits(draws, StringGenerator.Consonant, StringGenerator.DefaultLength)
    requires Dates.Valid(today)
    ensures r == Success(BadRequest(NoDataMessage)) <==> IsNullOrWhiteSpace(data)
    ensures r.Success? && r.value.Ok? ==> (r.value.saved.EmptyUrl? ==> RouteOf(data) == RemoteFetch)
    ensures r.Success? && r.value.Ok? ==> (r.value.saved.NullUrl? ==> RouteOf(data) == Inline)
    ensures r.Success? && r.value.Ok? && r.value.saved.Stored? ==>
      (r.value.saved.file.content.Downloaded? <==> RouteOf(data) == RemoteFetch)
    ensures RouteOf(data) == Inline ==>
      && (r.Failure? <==> InlineData.Parse(data.value).Failure?)
      && (r.Failure? ==> r.error == InvalidOperation)
      && (r == Success(Ok(NullUrl)) <==> InlineData.Parse(data.value) == Success(None))
    ensures RouteOf(data) == RemoteFetch ==>
      && (r == Success(Ok(EmptyUrl)) <==> !remote.isSuccessStatusCode)
      && (r.Failure? <==> remote.isSuccessStatusCode &&
                          (remote.contentType.None? || Mime.GetExtension(remote.contentType.value).Failure?))
      && (r.Failure? ==> r.error == Aggregate(if remote.contentType.None? then NullReference else Aggregate(InvalidOperation)))
    ensures (RouteOf(data) == RemoteFetch && r.Success?) ==> r == Success(Ok(SaveUrlToFile(remote, draws, today).value))
    ensures (RouteOf(data) == Inline && r.Success?) ==> r == Success(Ok(SaveBase64ToFile(data.value, draws, today).value))
  {
    match RouteOf(data)
    case Rejected => Success(BadRequest(NoDataMessage))
    case RemoteFetch =>
      var saved := Await(SaveUrlToFile(remote, draws, today));
      if saved.Failure? then Failure(saved.error) else Success(Ok(saved.value))
    case Inline =>
      var saved := SaveBase64ToFile(data.value, draws, today);
      if saved.Failure? then Failure(saved.error) else Success(Ok(saved.value))
  }

  /** Blank input is refused before anything is fetched, parsed or generated: the answer depends on nothing else. */
  lemma BlankInputDoesNothing(data: Option<string>, remote1: FetchResponse, draws1: seq<nat>, today1: Dates.Date,
                              remote2: FetchResponse, draws2: seq<nat>, today2: Dates.Date)
    requires StringGenerator.Fits(draws1, StringGenerator.Consonant, StringGenerator.DefaultLength) && Dates.Valid(today1)
    requires StringGenerator.Fits(draws2, StringGenerator.Consonant, StringGenerator.DefaultLength) && Dates.Valid(today2)
    requires IsNullOrWhiteSpace(data)
    ensures Save(data, remote1, draws1, today1) == Save(data, remote2, draws2, today2) == Success(BadRequest(NoDataMessage))
  {
  }

  /** The two paths never mix: inline input never looks at the fetch, and fetched input never looks at its own text beyond the prefix. */
  lemma PathsAreExclusive(data: Option<string>, remote1: FetchResponse, remote2: FetchResponse,
                          other: Option<string>, draws: seq<nat>, today: Dates.Date)
    requires StringGenerator.Fits(draws, StringGenerator.Consonant, StringGenerator.DefaultLength) && Dates.Valid(today)
    ensures RouteOf(data) == Inline ==> Save(data, remote1, draws, today) == Save(data, remote2, draws, today)
    ensures RouteOf(data) == RemoteFetch && RouteOf(other) == RemoteFetch ==>
      Save(data, remote1, draws, today) == Save(other, remote1, draws, today)
  {
  }

  /**
   * End to end: a well-formed `data:<type>;base64,<payload>` whose type is in
   * the table and whose payload is non-empty is stored as that payload, under
   * a token name with the type's extension.
   */
  lemma SaveCanonicalDataUri(mimeType: string, payload: string, data: string, remote: FetchResponse, draws: seq<nat>, today: Dates.Date)
    requires StringGenerator.Fits(draws, StringGenerator.Consonant, StringGenerator.DefaultLength) && Dates.Valid(today)
    requires ';' !in mimeType && ':' !in mimeType && ';' !in payload && ':' !in payload
    requires Mime.GetExtension(mimeType).Success? && payload != ""
    requires data == "data:" + mimeType + ";base64," + payload
    ensures var r := Save(Some(data), remote, draws, today);
      && r.Success? && r.value.Ok? && r.value.saved.Stored?
      && r.value.saved.file.content == Base64Payload(Replace(payload, ' ', '+'))
      && r.value.saved.file.contentType == mimeType
  {
    InlineData.CanonicalDataUri(mimeType, payload);
    assert data[0] == 'd';
    DataUriIsInline(data);
    SaveStoresParsedPayload(data, InlineData.Parse(data).value.value, remote, draws, today);
  }

  /**
   * On the inline path, whatever the parse finds is what gets stored: its
   * payload, under its media type, in a file named with its extension.
   */
  lemma SaveStoresParsedPayload(data: string, inline: InlineData.Inline, remote: FetchResponse, draws: seq<nat>, today: Dates.Date)
    requires StringGenerator.Fits(draws, StringGenerator.Consonant, StringGenerator.DefaultLength) && Dates.Valid(today)
    requires RouteOf(Some(data)) == Inline && InlineData.Parse(data) == Success(Some(inline))
    ensures var r := Save(Some(data), remote, draws, today);
      && r.Success? && r.value.Ok? && r.value.saved.Stored?
      && r.value.saved.file.content == Base64Payload(inline.payload)
      && r.value.saved.file.contentType == inline.mimeType
      && r.value.saved.file.blobName[8..] == inline.extension
  {
    StoredFileNames(Base64Payload(inline.payload), inline.mimeType, draws, today);
  }

  /**
   * The same unsupported type throws differently on the two paths: a
   * `data:` segment makes `Save` throw `InvalidOperationException` itself,
   * a fetched `Content-Type` makes it throw that exception inside two
   * `AggregateException`s.
   */
  lemma UnsupportedTypeThrows(mimeType: string, payload: string, data: string, url: string,
                              remote: FetchResponse, draws: seq<nat>, today: Dates.Date)
    requires StringGenerator.Fits(draws, StringGenerator.Consonant, StringGenerator.DefaultLength) && Dates.Valid(today)
    requires ';' !in mimeType && ':' !in mimeType && ';' !in payload && ':' !in payload
    requires Mime.GetExtension(mimeType).Failure?
    requires data == "data:" + mimeType + ";base64," + payload
    requires RouteOf(Some(url)) == RemoteFetch && remote.isSuccessStatusCode && remote.contentType == Some(mimeType)
    ensures Save(Some(data), remote, draws, today) == Failure(InvalidOperation)
    ensures Save(Some(url), remote, draws, today) == Failure(Aggregate(Aggregate(InvalidOperation)))
  {
    InlineData.CanonicalDataUri(mimeType, payload);
    assert data[0] == 'd';
    DataUriIsInline(data);
  }

  /** Input whose first character is `d`, as every data URI's is, takes the inline path. */
  lemma DataUriIsInline(data: string)
    requires |data| > 0 && data[0] == 'd'
    ensures RouteOf(Some(data)) == Inline
  {
    assert !IsWhiteSpace(data[0]);
    assert data[0] != UrlPrefix[0];
  }
}
