# MediaBackend handlers in Dafny

This project models the MinIO side of the MediaBackend HTTP handlers. It
covers the four handlers and the helpers they share:

- `StreamMinIOMusic` answers with a whole audio object, one byte range of
  it, or an error.
- `StreamMinIOImage` answers with a whole image, a `304 Not Modified` when
  the client's copy is current, or an error.
- `ListMinIOMusic` and `ListMinIOImages` list a bucket as JSON.
- The helpers in `handlers/utils.go`: the `Range` header parser, the two
  content-type tables, and the file-list formatter.

Files:

- `wrappers.dfy`: `Option` and `Result`.
- `golib.dfy` (module `GoLib`): the parts of Go's standard library the
  handlers call, with Go's behaviour. These are `strings.TrimPrefix`,
  `strings.Split`, `strings.ToLower`, `strconv.ParseInt`,
  `strconv.FormatInt`, `filepath.Ext` and `filepath.Base`, plus int64
  subtraction with wrap-around.
- `http.dfy` (module `Http`): an `http.ResponseWriter` as a class. It has
  the header map, the status, the header map as sent, and the body.
  Its methods are `Set`, `Del`, `WriteHeader`, `Write` and `Error`,
  following net/http: only the first `WriteHeader` of a final (non-1xx) status counts; `Write` implies
  `WriteHeader(200)`; `http.Error` removes `Content-Length` and sets a
  plain-text type and `nosniff`.
- `store.dfy` (module `Store`): what the handlers see of MinIO. This is the
  object metadata, the result of a stat, the calls a handler makes, and
  the entries of a listing.
- `utils.dfy` (module `Utils`): `handlers/utils.go`, plus the listing loop
  that both listing handlers run (`CollectFiles`).
- `music.dfy` (module `MinioMusic`) and `image.dfy` (module `MinioImage`):
  the two handler files.

Each streaming handler is modelled twice:

- as a decision table, a function from the request and the store's
  answers to the response and the store calls (`MusicResponse`,
  `ImageResponse`);
- as a method that builds the response step by step on a `ResponseWriter`,
  in the handler's own order.

Each method is proved to send exactly what its function says. Lemmas then
prove the handler's behaviour about the function: status codes, headers,
the ranges requested from the store, and which request headers matter.

The store's answers are inputs:

- `stat` is what StatObject returns;
- `getOk` says whether GetObject succeeds;
- `entries` is the sequence of ListObjects results.

The HTTP date format and parse and `json.Marshal` are function parameters.

Behaviour of the code a reader may not expect (the model follows the
code):

- Any StatObject error, whatever its cause, gives 404 "File not found".
- On a 304 the image handler's header map keeps every header set before
  it, including `Content-Length`. net/http drops Content-Type and
  Content-Length from a 304 when it sends it.
- The music handler ignores `If-None-Match` and `If-Modified-Since`.
- The image handler ignores `Range`.
- A non-matching `If-None-Match` does not prevent the date check. Section 6
  of RFC 7232 says `If-Modified-Since` is ignored when `If-None-Match` is
  present.
- A part of the range that is not a number falls back to its default:
  0 for the start, size - 1 for the end, 0 for a suffix length. A start
  or an end that is not a number is therefore not rejected. A suffix
  length that is not a number reads as 0, and the header is rejected.
- An end past the object is rejected, not cut down to the last byte.
  Section 2.1 of RFC 7233 says such an end is to be replaced by size - 1.
- Only one range is served. `bytes=0-1,5-9` is rejected because it has two
  '-'. `bytes=0-1,5` is accepted as the whole object, because `1,5` is not
  a number and the end falls back to size - 1.
- A number too large for an int64 also counts as not a number:
  `bytes=0-99999999999999999999` is accepted as the whole object.

## Model

| member | source | states |
|---|---|---|
| GoLib.Sub64 | handlers/utils.go:133-134 | Go's int64 `a - b`: the exact difference whenever it fits in int64 |
| GoLib.Sub64Congruent | handlers/utils.go:133-134 | the wrapped difference agrees with `a - b` modulo 2^64 (two's complement) |
| GoLib.TrimPrefix | handlers/utils.go:121 | with the prefix present, prefix + result is the input; otherwise the input is unchanged |
| GoLib.SplitProperties | handlers/utils.go:122 | `strings.Split` on one separator gives one part more than the separators, no part holds the separator, and joining the parts gives back the input |
| GoLib.SplitJoin | handlers/utils.go:122 | splitting a join of separator-free parts gives the parts back |
| GoLib.ParseIntProperties | handlers/utils.go:157 | `strconv.ParseInt` fails on "", reads a digit string that fits as its value, fails on a digit string too large for int64, reads no negative value without '-', and fails on a non-digit after the first character |
| GoLib.DigitsProperties | handlers/minio_music.go:58 | the decimal rendering of n is a non-empty digit string of value n with no leading zero |
| GoLib.FormatIntProperties | handlers/minio_music.go:58 | `strconv.FormatInt` is never empty, has no '+', starts with '-' exactly for negative n, and is n's digits otherwise |
| GoLib.FormatIntRoundTrip | handlers/minio_music.go:91-92 | `ParseInt(FormatInt(n)) == n` for every int64 |
| GoLib.ExtProperties | handlers/utils.go:69 | `filepath.Ext` is a suffix of the path: either a '.' followed by no '.' or '/', or empty, and empty only when every '.' lies before a later '/' |
| GoLib.ExtFromProperties | handlers/utils.go:69 | the backwards scan of `filepath.Ext` from a position with no '.' or '/' after it meets ExtProperties |
| GoLib.ExtOfSuffix | handlers/utils.go:69 | the extension of stem + ext is ext, for every '.'-led ext with no later '.' or '/' |
| GoLib.TrimTrailingSlashesProperties | handlers/minio_music.go:113 | trailing-slash removal keeps a prefix, removes only '/', and leaves no '/' at the end |
| GoLib.LastElementProperties | handlers/minio_music.go:113 | the last element is a '/'-free suffix that begins at the start or right after a '/' |
| GoLib.BaseProperties | handlers/minio_music.go:113 | `filepath.Base` is never "", is "/" or has no '/', and is "." for the empty path |
| GoLib.BaseOfJoin | handlers/minio_image.go:97 | the base of dir + "/" + name, and of name itself, is name, for every '/'-free non-empty name |
| GoLib.LastElementAfterSlash | handlers/minio_image.go:97 | after "" or a trailing '/', the last element of p + name is name |
| Http.ErrorReply | handlers/minio_music.go:23 | `http.Error`: the given status, the message plus newline as body, no Content-Length, a plain-text Content-Type, nosniff |
| Http.ErrorReplyKeepsHeaders | handlers/minio_music.go:68-69 | `http.Error` keeps every other header the handler set and adds no other |
| Http.ResponseWriter.constructor | handlers/minio_music.go:19 | a fresh writer: the given header map, no status, nothing sent |
| Http.ResponseWriter.Set | handlers/minio_music.go:41-44 | `Header().Set` replaces one key and changes nothing that was sent |
| Http.ResponseWriter.Del | handlers/minio_music.go:52 | `Header().Del`, which http.Error uses to remove Content-Length: removes one key and changes nothing that was sent |
| Http.ResponseWriter.WriteHeader | handlers/minio_music.go:59 | for a final status (200..999), the first call fixes the status and the header map sent; later calls change nothing |
| Http.ResponseWriter.Write | handlers/minio_music.go:125 | writes the body, after an implicit 200 when no status was written |
| Http.ResponseWriter.Error | handlers/minio_music.go:52 | on an unwritten writer, sends exactly ErrorReply; on a written one, the status and sent headers stay as they were |
| Utils.AudioType | handlers/utils.go:70-83 | the if-chain of getContentType agrees with the audio table, and is octet-stream off it |
| Utils.ImageType | handlers/utils.go:89-106 | the if-chain of getImageContentType agrees with the image table, both `.jpg` and `.jpeg` included, and is octet-stream off it |
| Utils.AudioContentType | handlers/utils.go:68-84 | getContentType: computes AudioType of the lower-cased `filepath.Ext` of the name; ContentTypeLookup, ContentTypeCaseInsensitive and NoExtensionIsOctetStream state its results |
| Utils.ImageContentType | handlers/utils.go:87-107 | getImageContentType: computes ImageType of the lower-cased `filepath.Ext` of the name; the same lemmas state its results |
| Utils.ContentTypeLookup | handlers/utils.go:68-107 | a name ending in an extension gets the table entry of its lower-cased extension, or octet-stream |
| Utils.ContentTypeCaseInsensitive | handlers/utils.go:69 | both lookups give the same type for an extension and its lower-cased form |
| Utils.LowerExtension | handlers/utils.go:88 | lower-casing keeps an extension an extension and is idempotent |
| Utils.UpperCaseMp3 | handlers/utils.go:69-72 | `song.MP3` is `audio/mpeg` |
| Utils.NonAsciiCapitals | handlers/utils.go:88-103 | `a.İco` is `image/x-icon` and `a.gİf` is `image/gif`, because U+0130 lower-cases to 'i' |
| Utils.NoExtensionIsOctetStream | handlers/utils.go:81-82 | a name whose last element has no '.' gets octet-stream from both tables |
| Utils.FormatFileList | handlers/utils.go:54-65 | "[]" for no files; otherwise the marshalled JSON, or "[]" when marshalling fails |
| Utils.EmptyListBody | handlers/minio_music.go:125 | an empty listing is `{"files": []}`, never null |
| Utils.ListBody | handlers/minio_music.go:125 | computes the body both listing handlers write, `{"files": ` + FormatFileList + `}` (also handlers/minio_image.go:109) |
| Utils.Describe | handlers/minio_music.go:113-120 | computes the MediaFile of one entry: base name, size, key as path, the kind's URL prefix plus name, the kind's content type (also handlers/minio_image.go:97-104) |
| Utils.Kept | handlers/minio_music.go:108-120 | computes what one entry contributes: nothing when it carries an error, otherwise its Describe |
| Utils.Listed | handlers/minio_music.go:107-121 | computes the listing: the contributions of the entries, concatenated in order; the Listed lemmas state its properties and CollectFiles is proved equal to it |
| Utils.ListedAppend | handlers/minio_music.go:107-121 | the listing of two entry streams one after the other is the two listings concatenated: store order is kept |
| Utils.ListedSnoc | handlers/minio_music.go:107-121 | one more entry adds exactly what that entry contributes |
| Utils.ListedMembers | handlers/minio_music.go:107-121 | no more files than entries; a file is listed iff an entry without error describes it |
| Utils.ListedAllErrored | handlers/minio_music.go:108-111 | when every entry carries an error nothing is listed and the body is `{"files": []}` |
| Utils.ListedFields | handlers/minio_image.go:97-104 | every listed file has its key as path, the base name as its non-empty name, the kind's URL prefix plus name, and the kind's content type |
| Utils.CollectFiles | handlers/minio_music.go:107-121 | the loop over ListObjects produces exactly the listing of the entries |
| Utils.ParseInt64 | handlers/utils.go:156-162 | computes parseInt64: ParseInt's value, or the default when it fails; ParseInt64Properties states its results |
| Utils.ParseInt64Properties | handlers/utils.go:156-162 | parseInt64 yields ParseInt's value, or the default exactly when ParseInt fails; a digit string that fits reads as its value; no '-' and a non-negative default give a non-negative result |
| Utils.ParseRange | handlers/utils.go:148-152 | an accepted range is one range with 0 <= start <= end < size |
| Utils.ParseRangeShape | handlers/utils.go:117-126 | an accepted header starts with `bytes=` and has exactly one '-' after it |
| Utils.SplitRangeSpec | handlers/utils.go:121-122 | `bytes=` + A + "-" + B splits into exactly [A, B] when neither holds '-' |
| Utils.ParseRangeRejectsUnit | handlers/utils.go:117-119 | without `bytes=` the header is rejected as an invalid header |
| Utils.ParseRangeRejectsArity | handlers/utils.go:121-126 | with other than exactly one '-' after the unit it is rejected as an invalid format |
| Utils.ParseRangeRejectsThreeParts | handlers/utils.go:122-126 | `bytes=0-1-2` is rejected as an invalid format |
| Utils.ParseRangeRejectsMultiRange | handlers/utils.go:122-126 | `bytes=0-1,5-9` is rejected: only one range is supported |
| Utils.ParseRangeCommaList | handlers/utils.go:144-145 | `bytes=0-1,5` is accepted as [0, size-1], because the unparsable end falls back to size-1 |
| Utils.ParseRangeSuffix | handlers/utils.go:131-137 | `bytes=-N` is [max(size-N, 0), size-1], accepted iff N >= 1 and the object is not empty |
| Utils.ParseRangeOpen | handlers/utils.go:138-141 | `bytes=A-` is [A, size-1], accepted iff 0 <= A <= size-1 |
| Utils.ParseRangeFull | handlers/utils.go:142-152 | `bytes=A-B` is exactly [A, B] when 0 <= A <= B < size and rejected otherwise; there is no clamping |
| Utils.ParseRangeDecimal | handlers/utils.go:142-152 | the decimal header for int64s a, b >= 0 yields [a, b] iff a <= b < size |
| Utils.ParseRangeStartDefault | handlers/utils.go:144 | a non-numeric start reads as 0 |
| Utils.ParseRangeEndDefault | handlers/utils.go:145 | a non-numeric end reads as size-1, as if it were left out |
| Utils.ParseRangeSuffixDefault | handlers/utils.go:134 | a non-numeric suffix length reads as 0 and the header is rejected |
| Utils.ParseRangeEmptyObject | handlers/utils.go:148-150 | no header is accepted for an empty object |
| MinioMusic.MetadataHeaders | handlers/minio_music.go:40-44 | computes the header map with Content-Type, Accept-Ranges, ETag and Last-Modified set |
| MinioMusic.MusicResponse | handlers/minio_music.go:19-98 | computes the handler's decision table: response and store calls from the path, the request headers, the stat result and the get outcome |
| MinioMusic.Deliver | handlers/minio_music.go:46-97 | computes the exchange after the stat: the whole object without a Range header, DeliverRange otherwise |
| MinioMusic.DeliverRange | handlers/minio_music.go:66-97 | computes the exchange for a parsed Range header: 416, or a ranged get then 206 or 500 |
| MinioMusic.StreamMinIOMusic | handlers/minio_music.go:19-98 | the handler, run on a writer with nothing written, sends exactly MusicResponse and makes exactly its store calls |
| MinioMusic.ServeObject | handlers/minio_music.go:46-97 | the part after the metadata headers sends exactly Deliver's response and makes its calls |
| MinioMusic.MusicEmptyName | handlers/minio_music.go:21-25 | an empty name is a 400 and the store is never called |
| MinioMusic.MusicStatError | handlers/minio_music.go:30-35 | any stat error is a 404 after the one stat call |
| MinioMusic.MusicMetadata | handlers/minio_music.go:40-44 | after the stat the status is 200, 206, 416 or 500. Accept-Ranges, ETag and Last-Modified are always kept. Content-Type is the audio type on 200/206 and http.Error's plain-text type otherwise |
| MinioMusic.DeliverKeepsHeaders | handlers/minio_music.go:47-97 | serving keeps every header except Content-Length, Content-Range, Content-Type and X-Content-Type-Options, and decides the status and Content-Type as in MusicMetadata |
| MinioMusic.DeliverRangeKeepsHeaders | handlers/minio_music.go:66-97 | the same for the range path, with status 206, 416 or 500 |
| MinioMusic.MusicWholeObject | handlers/minio_music.go:47-62 | no Range header: one whole-object get; then 200 with the full object and Content-Length the size, or 500 |
| MinioMusic.MusicUnsatisfiable | handlers/minio_music.go:66-71 | a rejected Range is a 416 with `Content-Range: bytes */size`, and no get |
| MinioMusic.MusicPartial | handlers/minio_music.go:74-93 | an accepted range [s, e] is within the object and exactly it is requested from the store. On success: 206, that range as body, Content-Length e-s+1, `Content-Range: bytes s-e/size`. On failure: 500 |
| MinioMusic.MusicPartialRangeRoundTrip | handlers/minio_music.go:90-92 | the range a 206 serves, sent back as `bytes=s-e`, parses to the same range |
| MinioMusic.MusicIgnoresConditionals | handlers/minio_music.go:19-98 | If-None-Match and If-Modified-Since never change the music response |
| MinioMusic.MusicFirstHundredBytes | handlers/minio_music.go:66-93 | `bytes=0-99` on a 1000-byte object: 206, `bytes 0-99/1000`, Content-Length 100, and a get of bytes 0..99 |
| MinioMusic.ListMinIOMusic | handlers/minio_music.go:101-126 | sends 200, application/json, and `{"files": ...}` holding the listing of the entries |
| MinioImage.CachingHeaders | handlers/minio_image.go:36-47 | computes the header map with Content-Type, Content-Length, Cache-Control, Last-Modified and ETag set |
| MinioImage.EtagMatches | handlers/minio_image.go:50-51 | holds when If-None-Match is non-empty and equals the ETag |
| MinioImage.UnmodifiedSince | handlers/minio_image.go:59-61 | holds when If-Modified-Since is non-empty, parses to t, and the object was modified before t + 1s |
| MinioImage.ImageResponse | handlers/minio_image.go:18-82 | computes the handler's decision table: response and store calls from the path, the request headers, the stat result, the get outcome and the date parser |
| MinioImage.Revalidate | handlers/minio_image.go:49-81 | computes the exchange after the stat: 304 when either check holds, otherwise a whole get then 200 or 500 |
| MinioImage.StreamMinIOImage | handlers/minio_image.go:18-82 | the handler, run on a writer with nothing written, sends exactly ImageResponse and makes exactly its store calls |
| MinioImage.ServeImage | handlers/minio_image.go:49-81 | the part after the caching headers sends exactly Revalidate's response and makes its calls |
| MinioImage.ImageEmptyName | handlers/minio_image.go:20-24 | an empty name is a 400 and the store is never called |
| MinioImage.ImageStatError | handlers/minio_image.go:29-34 | any stat error is a 404 after the one stat call |
| MinioImage.ImageCachingHeaders | handlers/minio_image.go:36-47 | after the stat the status is 304, 500 or 200. 304 and 200 carry the image type, the size, `public, max-age=86400`, Last-Modified and the ETag |
| MinioImage.ImageErrorKeepsCaching | handlers/minio_image.go:70-74 | the 500 loses Content-Length, has the plain-text type, and keeps Cache-Control, Last-Modified and the ETag |
| MinioImage.ImageEtagMatch | handlers/minio_image.go:50-56 | a matching ETag is a 304 with no body and no get. The result does not depend on If-Modified-Since or on date parsing |
| MinioImage.ImageDateCheck | handlers/minio_image.go:58-67 | without a matching ETag, the answer is 304 iff If-Modified-Since parses to t and the object was modified before t + 1s |
| MinioImage.ImageUnparsableDate | handlers/minio_image.go:59-60 | an If-Modified-Since that does not parse counts as absent |
| MinioImage.ImageDelivery | handlers/minio_image.go:69-81 | when no 304 applies: one whole-object get; then 200 with the full object, or 500 "Error retrieving file" |
| MinioImage.ImageIgnoresRange | handlers/minio_image.go:18-82 | a Range header never changes the image response, which is 400, 404, 304, 500 or 200 and never partial |
| MinioImage.ListMinIOImages | handlers/minio_image.go:85-110 | sends 200, application/json, and `{"files": ...}` holding the listing of the entries |

## Left out

- `listMediaFiles` (handlers/utils.go:22-51) reads a local directory. The MinIO handlers do not use it, and it is file-system I/O.
- handlers/client.go, main.go and minio/config.go are not part of this model. The store client is replaced by its answers: `stat`, `getOk` and `entries`, taken as inputs.
- The bytes of objects and their copying (`io.Copy`) are not modelled. A body is `FullObject` or `ObjectRange(s, e)`. Closing objects, logging and the `context` are left out.
- `json.Marshal` is the parameter `marshal`. The HTTP date format and `time.Parse` with `http.TimeFormat` are the parameters `formatDate` and `parseDate`. Times are integers in nanoseconds and `Before(t + 1s)` is `<`.
- The ListObjects channel is a finite sequence of entries. Concurrent delivery is not modelled.
- GoLib.ToLower: maps only the characters whose lower case is ASCII ('A'..'Z', U+0130 and U+212A). Other upper-case letters are kept, where Go lower-cases them. This changes no content type, because every table key is ASCII.
- Header keys are not canonicalised. `ETag` is stored under the key the handler writes, not net/http's canonical `Etag`.
- What net/http does on the wire after the handler is not modelled. It drops Content-Type, Content-Length and Transfer-Encoding from a 304. It adds a Date header to every response. It sets a computed Content-Length on a short body such as http.Error's message. The model describes the header map as the handler leaves it when the status is written.
- Http.ResponseWriter.Error follows `http.Error` as of Go 1.23, which deletes Content-Length. Earlier Go releases keep it.
- Strings are sequences of Unicode characters, while Go strings are bytes. A path, ETag or header value that is not valid UTF-8 has no counterpart in the model. No content-type lookup changes, because every table key is ASCII.
- The request is its header map and its path. Other request fields are not read by the handlers.
- Http.ResponseWriter.WriteHeader: requires a final code in 200..999. net/http sends a 1xx code other than 101 as an informational response without fixing the status, and panics outside 100..999. The handlers pass only fixed final codes.
- Utils.ParseRange: its own contract states only the bounds of an accepted range. The exact result of each form is stated by the ParseRange lemmas.
