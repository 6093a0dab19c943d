# Upload decisions of gongyu-sierra, in Dafny

gongyu-sierra is a small image-upload service. Its `Save` endpoint takes one
string. A URL is fetched, and an inline `data:` URI is parsed. Either way the
image is stored in the `ofs` blob container under a generated name, and a
dated copy is archived in Dropbox.

This project models the decisions the controller makes along the way:

- the dispatch on blank, `http…` and other input;
- the segment loop that pulls the payload and the media type out of a data URI;
- the closed media-type-to-extension table;
- the file name and the archive path;
- the pronounceable token generator that names the files.

Modules, one per concern:

- `Wrappers` holds `Option`, `Result` and the exceptions that can escape: three
  .NET exceptions, and the `AggregateException` that `Task.Result` wraps a
  faulted task's exception in.
- `Strings` holds the `System.String` operations the controller relies on:
  `IndexOf`, `Split`, `Replace`, `StartsWith`, case-insensitive comparison and
  `IsNullOrWhiteSpace`.
- `Mime` holds `GetExtensionFromMimeType`.
- `Dates` holds the `yyyy-MM-dd` rendering of a date.
- `StringGenerator` holds `GetRandomString`. Its loop is a method proved
  against a recursive `Token` function. The shape of every token is proved
  both ways: every token is pronounceable, and every pronounceable string is a
  token for some draws.
- `InlineData` holds `SaveBase64ToFile`'s loop. It is a method proved against
  `Scan`, a recursive function over the classified segments. `Scan` is in turn
  proved equal to a declarative last-one-wins reading (`LastWins`).
- `Upload` holds `Save`, `SaveUrlToFile`, `SaveBase64ToFile` and `SaveFile` as
  functions over their inputs, plus the archive path.

The model takes as inputs what the code obtains from outside:

- the answer to the HTTP fetch;
- the values `System.Random.Next` returns, given as a sequence of draws;
- today's date.

## Model

| member | source | states |
|---|---|---|
| Strings.IsWhiteSpace | Web/Controllers/UploadController.cs:42 | Space, tab, line feed and carriage return are white space; no ASCII letter or digit is. |
| Strings.IsNullOrWhiteSpace | Web/Controllers/UploadController.cs:42 | Null and the empty string are blank; a string whose first character is not white space is not. |
| Strings.StartsWith | Web/Controllers/UploadController.cs:48 | The input starts with the prefix exactly when the prefix fits and the input's first characters equal it. |
| Strings.FoldCase | Web/Controllers/UploadController.cs:73 | Folding maps each of `A`–`Z` to the letter at the same place in `a`–`z`, and leaves every other character unchanged. |
| Strings.EqualsIgnoreCase | Web/Controllers/UploadController.cs:82 | `InvariantCultureIgnoreCase` equality, read as equal length and character-by-character equality after ASCII folding. |
| Strings.StartsWithIgnoreCase | Web/Controllers/UploadController.cs:73 | `StartsWith` under `InvariantCultureIgnoreCase`, read as the input's first characters equalling the prefix after ASCII folding. |
| Strings.IndexOf | Web/Controllers/UploadController.cs:70 | The first position of the character, or -1 exactly when it is absent. |
| Strings.Split | Web/Controllers/UploadController.cs:62 | There is at least one piece. There are two or more exactly when the separator occurs, and no piece holds the separator. |
| Strings.JoinSplit | Web/Controllers/UploadController.cs:62 | Joining the pieces with the separator gives back the input, so splitting loses nothing. |
| Strings.SplitAfterPiece | Web/Controllers/UploadController.cs:81 | Splitting `a + sep + b`, where `a` has no separator, gives `a` followed by the pieces of `b`. |
| Strings.SplitFirstPiece | Web/Controllers/UploadController.cs:81-82 | The first piece is the text before the first separator. |
| Strings.Replace | Web/Controllers/UploadController.cs:75 | Same length; each character is replaced exactly when it equals the old one. |
| Mime.GetExtension | Web/Controllers/UploadController.cs:161-178 | The lookup only ever fails with `InvalidOperationException`. |
| Mime.ExtensionTable | Web/Controllers/UploadController.cs:163-177 | It succeeds exactly for the four supported types. png maps to `.png`, jpg and jpeg to `.jpg`, gif to `.gif`, and every extension is four characters starting with a dot. |
| Mime.UpperCaseIsUnsupported | Web/Controllers/UploadController.cs:163-176 | The match is case-sensitive: any upper-case letter makes the lookup throw. |
| Dates.Format | Web/Controllers/UploadController.cs:156 | `yyyy-MM-dd` has ten characters, with dashes at 4 and 7 and digits elsewhere. The three fields read back as the year, month and day. |
| StringGenerator.Token | Web/Services/StringGenerator.cs:35-62 | The machine writes exactly one character per step. |
| StringGenerator.Alphabet | Web/Services/StringGenerator.cs:10-12 | Each alphabet has at least four characters and holds neither `0` nor `1`. |
| StringGenerator.NextMode | Web/Services/StringGenerator.cs:37-61 | Every step changes the mode, and the machine returns to Consonant mode exactly after a second vowel or a digit. |
| StringGenerator.Fits | Web/Services/StringGenerator.cs:35-62 | The draws can drive `n` steps: each is below the bound of the `Next` call that returns it, in call order, with one draw per step and a second for the coin after a first vowel. |
| StringGenerator.NextCharacter | Web/Services/StringGenerator.cs:37-61 | One pass of the `switch`: the character comes from the mode's alphabet, the next mode follows the coin after a vowel, and one or two draws are used. |
| StringGenerator.GetRandomString | Web/Services/StringGenerator.cs:22-65 | A negative length throws `ArgumentOutOfRangeException`. Otherwise the loop returns exactly the token of `length` steps from Consonant mode. |
| StringGenerator.AlphabetsAreClasses | Web/Services/StringGenerator.cs:10-12 | The three alphabets are exactly the consonant, vowel and digit classes. |
| StringGenerator.ConsonantsAreClass | Web/Services/StringGenerator.cs:11 | The consonant alphabet is exactly the lower-case letters other than a, e, i, l, o, u and y. |
| StringGenerator.PronounceableIsShaped | Web/Services/StringGenerator.cs:39-57 | The positional unit pattern is equivalent, in both directions, to the unit-by-unit recursive one. |
| StringGenerator.TokenShapedFrom | Web/Services/StringGenerator.cs:37-61 | From any mode, the token follows the unit pattern from that mode's place in the unit. |
| StringGenerator.TokenIsPronounceable | Web/Services/StringGenerator.cs:33-62 | Every token starting from Consonant mode is a prefix of consonant–vowel–(vowel or digit) units. |
| StringGenerator.EveryPronounceableStringIsAToken | Web/Services/StringGenerator.cs:33-62 | Conversely, every such string is produced by some draws within the bounds. |
| StringGenerator.PronounceableTransitions | Web/Services/StringGenerator.cs:39-57 | Every character is in one of the three alphabets, and the first is a consonant. A consonant is followed by a vowel. A vowel after a consonant is followed by a vowel or a digit. A second vowel or a digit is followed by a consonant. |
| StringGenerator.TokenStructure | Web/Services/StringGenerator.cs:22-65 | The transitions above hold for every token. The token has exactly `length` characters, starts with a consonant, and never contains `0` or `1`. |
| InlineData.Classify | Web/Controllers/UploadController.cs:70-88 | A payload segment has no `:`; its payload is 7 characters shorter and has no spaces. A media segment has a `:`, and its type has none. |
| InlineData.MediaTypeField | Web/Controllers/UploadController.cs:81-87 | The media type is the text after the first `:`, up to the next `:` or the end. |
| InlineData.PayloadText | Web/Controllers/UploadController.cs:73-75 | The payload is the segment after its first 7 characters, with each space turned into `+`. |
| InlineData.ClassifyCases | Web/Controllers/UploadController.cs:70-85 | Both directions: a segment is a payload segment exactly when it has no `:` and starts with `base64,` ignoring case. It is a media segment exactly when it has a `:` and the text before it is `data` ignoring case. |
| InlineData.ClassifyMixedCaseData | Web/Controllers/UploadController.cs:81-87 | `DaTa:<type>` is recognised as a media segment for that type. |
| InlineData.ClassifyMixedCasePayload | Web/Controllers/UploadController.cs:73-75 | `BASE64,<payload>` is recognised as a payload segment. |
| InlineData.ClassifyAll | Web/Controllers/UploadController.cs:68-70 | Classifies the segments one by one, in order. |
| InlineData.LastOf | Web/Controllers/UploadController.cs:68-88 | Gives the last segment of a kind, or -1; no later segment is of that kind. |
| InlineData.LastOfUnique | Web/Controllers/UploadController.cs:68-88 | Those properties determine the last segment of a kind. |
| InlineData.ScanFailureSticks | Web/Controllers/UploadController.cs:88 | Once the lookup has thrown, later segments change nothing. |
| InlineData.Scan | Web/Controllers/UploadController.cs:68-89 | The loop only throws `InvalidOperationException`, and its extension is set exactly when its media type is. |
| InlineData.LastWins | Web/Controllers/UploadController.cs:68-89 | It throws exactly when some segment has an unsupported type. Otherwise the payload is unset exactly when no segment is a payload, the type is unset exactly when no segment is a `data:` segment, and each value set comes from one of the segments. |
| InlineData.ParseSegments | Web/Controllers/UploadController.cs:68-96 | It throws exactly when some segment has an unsupported type, and what it yields is the payload and type of segments in the input. |
| InlineData.ScanIsLastWins | Web/Controllers/UploadController.cs:68-89 | The loop throws exactly when some `data:` segment has an unsupported type. Otherwise it holds the last payload and the last type, with that type's extension. |
| InlineData.Finish | Web/Controllers/UploadController.cs:92-96 | After the loop, the parse yields something exactly when the payload and the extension are both set and non-empty, and then it yields exactly those. A throw passes through. |
| InlineData.ScanKeepsExtension | Web/Controllers/UploadController.cs:87-88 | The extension the loop keeps is the table's answer for the type it keeps. |
| InlineData.Parse | Web/Controllers/UploadController.cs:62-96 | A parsed result has a non-empty payload and the extension of its own type; every failure is `InvalidOperationException`. |
| InlineData.ParseIsLastWins | Web/Controllers/UploadController.cs:62-96 | The parse equals the last-one-wins reading of the classified segments. |
| InlineData.ParseInline | Web/Controllers/UploadController.cs:62-96 | The loop and the check after it compute `Parse`: same result, same exception. |
| InlineData.ClassifyDataField | Web/Controllers/UploadController.cs:81-87 | `data:<type>`, with a type that has no colon, is a media segment for that type. |
| InlineData.ClassifyPayloadField | Web/Controllers/UploadController.cs:71-76 | `base64,<payload>`, with a payload that has no colon, is a payload segment for that payload with spaces turned into `+`. |
| InlineData.CanonicalSegments | Web/Controllers/UploadController.cs:62-88 | `data:<type>;base64,<payload>` splits into exactly one media segment and one payload segment. |
| InlineData.CanonicalDataUri | Web/Controllers/UploadController.cs:62-96 | A well-formed data URI parses to its payload and type. It throws for an unsupported type and gives null for an empty payload. |
| InlineData.UnsupportedMediaThrows | Web/Controllers/UploadController.cs:87-88 | An unsupported `data:` segment makes the parse throw, wherever it stands and whether or not any payload exists. |
| InlineData.ShadowedSegmentIsIgnored | Web/Controllers/UploadController.cs:68-89 | Dropping any of these segments leaves the outcome unchanged: an ignored one, or a payload or supported type that a later segment of the same kind overrides. |
| InlineData.UnsupportedAfterRemoval | Web/Controllers/UploadController.cs:87-88 | Removing a segment that is not unsupported keeps whether any segment is. |
| InlineData.LastAfterRemoval | Web/Controllers/UploadController.cs:68-88 | Removing a segment that a later one overrides moves the last position of each kind by at most one place. |
| Upload.ArchivePath | Web/Controllers/UploadController.cs:156-157 | The archive path is `/ofs/`, the ten-character date, `_`, then the file name unchanged. |
| Upload.ArchivePathIsInjective | Web/Controllers/UploadController.cs:156-157 | The path determines both the date and the file name. |
| Upload.SaveFile | Web/Controllers/UploadController.cs:124-141 | Fails exactly when the type is not in the table, and then with `InvalidOperationException`. It stores the given content under the given type. |
| Upload.Await | Web/Controllers/UploadController.cs:116 | `.Result` on a finished task gives its value; on a faulted one it throws `AggregateException` around the task's exception. |
| Upload.StoredFileNames | Web/Controllers/UploadController.cs:126-127 | The file name is the generator's 8-character token for the draws, followed by the type's 4-character extension. The archive copy is `/ofs/<date>_<that name>`. |
| Upload.SaveUrlToFile | Web/Controllers/UploadController.cs:102-122 | A non-success status gives `""`. A missing `Content-Type` throws `NullReferenceException`. An unsupported one throws `InvalidOperationException` wrapped in `AggregateException` by the `.Result` on line 116. Otherwise it stores exactly the file `SaveFile` builds from the body and the header's type, so that file's name and archive path hold for it. |
| Upload.SaveBase64ToFile | Web/Controllers/UploadController.cs:60-100 | Throws exactly when the parse throws. It gives `null` exactly when the parse finds nothing. Otherwise it stores exactly the file `SaveFile` builds from the parsed payload and type. |
| Upload.RouteOf | Web/Controllers/UploadController.cs:42-55 | Blank input is rejected exactly when it is null or whitespace. The fetch path is taken exactly for non-blank input starting with `http`. |
| Upload.Save | Web/Controllers/UploadController.cs:40-58 | `400 "No data received."` comes exactly for blank input. Inline: it throws exactly when the parse throws, with a bare `InvalidOperationException`, and gives `null` exactly when the parse finds nothing. Fetch: it gives `""` exactly for a non-success status; it throws exactly for a missing or unsupported `Content-Type`, wrapped once more in `AggregateException` by the `.Result` on line 50. Downloaded content is stored exactly on the fetch path. A successful answer passes through exactly what the chosen handler returns. |
| Upload.BlankInputDoesNothing | Web/Controllers/UploadController.cs:42-45 | For blank input, the answer depends on nothing else: no fetch, no draws, no date. |
| Upload.PathsAreExclusive | Web/Controllers/UploadController.cs:48-55 | Inline input never depends on the fetch. Fetched input depends only on the fetch, not on the rest of its own text. |
| Upload.DataUriIsInline | Web/Controllers/UploadController.cs:42-55 | Input starting with `d`, as every data URI does, takes the inline path. |
| Upload.SaveStoresParsedPayload | Web/Controllers/UploadController.cs:54-127 | On the inline path, what the parse finds is stored: its payload, under its type, with its extension in the name. |
| Upload.SaveCanonicalDataUri | Web/Controllers/UploadController.cs:40-100 | End to end: a well-formed `data:<type>;base64,<payload>` with a supported type and a non-empty payload is stored as that payload, under that type. |
| Upload.UnsupportedTypeThrows | Web/Controllers/UploadController.cs:40-122 | The same unsupported type throws a bare `InvalidOperationException` from a data URI, but a doubly wrapped `AggregateException` from a fetched file. |

## Left out

- Azure blob upload (`UploadToAzureStorage`, the container set-up in the constructor): network I/O. The model returns the blob name, content type and content to store, not the blob's URL.
- The Dropbox upload and its fire-and-forget `Task.Run`: I/O and detached concurrency. Only the archive path is modelled.
- The `HttpClient` fetch: network I/O. Its answer is an input (status, body, `Content-Type` header). Any exception `GetAsync` throws is not modelled: `HttpRequestException` and other transport failures, and the `InvalidOperationException` for text that starts with `http` but is not an absolute URI, such as `httpfoo`. `Save` would rethrow it wrapped in `AggregateException`. The model always has a response, so `PathsAreExclusive` speaks only of inputs for which the request is sent.
- `Convert.FromBase64String`: a library decoder. The model stores the payload text that would be decoded, so a `FormatException` for malformed base64 is not modelled.
- `System.Random` seeded from a GUID: replaced by the sequence of values its `Next` calls return. Each is required to lie below the bound of its call, as `Next` guarantees.
- Dates.Format: `ToString("yyyy-MM-dd")` renders the date in the current culture's calendar. The model assumes the Gregorian calendar; under a Thai culture, for instance, .NET writes the Buddhist-era year.
- `DateTime.Now`: today's date is a parameter. The Dropbox task may read the clock slightly later than the blob is written; the model uses one date.
- Strings.EqualsIgnoreCase, Strings.StartsWithIgnoreCase, Strings.StartsWith: culture-sensitive comparison is modelled as character-by-character comparison, with ASCII case folding for `InvariantCultureIgnoreCase` and an ordinal prefix for `StartsWith("http")`, which uses the current culture. Culture comparison also ignores zero-weight characters such as U+0000 and other control characters, so `"da\u0000ta"` matches `data` and `"ht\u0000tp://…"` starts with `http` in .NET but not in the model. Non-ASCII case folding and culture-specific collation are not modelled either.
- `ToString()` of the `Content-Type` header: the rendered header string is given as an input. For example, `image/png; charset=x` is not in the table and throws.
- The `default` branch of the generator's `switch`: the four-mode datatype makes it unreachable, so the model has no such branch.
- The `Index` and `Error` actions and the host set-up in `Web/Program.cs`: framework wiring.
- Upload.SaveFile, Upload.SaveUrlToFile, Upload.SaveBase64ToFile, Upload.Save: these return the file to store, not the URL the storage service gives it, because that URL comes from the storage SDK.
- Error reporting: a data URI without a payload or type gives `null`, and a failed fetch gives `""`. The model follows the code.
