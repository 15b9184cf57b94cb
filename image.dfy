/**
 * handlers/minio_image.go: StreamMinIOImage, which answers a request for
 * one image object with the whole object, a 304 when the client's cached
 * copy is still current, or an error, and ListMinIOImages, which lists the
 * image bucket.
 *
 * As for music, ImageResponse is the decision table as a function of the
 * request and of what the store answers, and StreamMinIOImage builds the
 * response step by step on a ResponseWriter and is proved to send exactly
 * what ImageResponse says. Times are integers in nanoseconds.
 */
module MinioImage {
  import opened Wrappers
  import opened GoLib
  import opened Http
  import opened Store
  import opened Utils

  const PathPrefix := "/api/images/"
  const CacheControl := "public, max-age=86400"
  const OneSecond := 1_000_000_000

  /** The five headers set once the stat succeeded, before any conditional check. */
  function CachingHeaders(h: map<string, string>, name: string, info: ObjectInfo, formatDate: int -> string)
    : map<string, string>
  {
    h["Content-Type" := ImageContentType(name)]["Content-Length" := FormatInt(info.size)]
     ["Cache-Control" := CacheControl]["Last-Modified" := formatDate(info.lastModified)]["ETag" := info.etag]
  }

  /** A non-empty If-None-Match that is exactly the object's ETag. */
  predicate EtagMatches(request: map<string, string>, etag: string) {
    var noneMatch := HeaderGet(request, "If-None-Match");
    noneMatch != "" && noneMatch == etag
  }

  /**
   * A non-empty If-Modified-Since that parses to t, with the object last
   * modified before t plus one second.
   */
  predicate UnmodifiedSince(request: map<string, string>, lastModified: int, parseDate: string -> Option<int>) {
    var modifiedSince := HeaderGet(request, "If-Modified-Since");
    modifiedSince != "" && parseDate(modifiedSince).Some? && lastModified < parseDate(modifiedSince).value + OneSecond
  }

  /**
   * The exchange StreamMinIOImage performs: initial is the header map the
   * writer starts with, stat what StatObject answers for the name, getOk
   * whether the object get succeeds, formatDate the rendering of a time as
   * an HTTP date and parseDate its reading (None when the text is not one).
   */
  function ImageResponse(initial: map<string, string>, path: string, request: map<string, string>, bucket: string,
                         stat: StatResult, getOk: bool, formatDate: int -> string,
                         parseDate: string -> Option<int>): Exchange
  {
    var name := TrimPrefix(path, PathPrefix);
    if name == "" then Exchange(ErrorReply(initial, "Filename is required", StatusBadRequest), [])
    else match stat
      case StatErr(_) => Exchange(ErrorReply(initial, "File not found", StatusNotFound), [Stat(bucket, name)])
      case StatOk(info) =>
        var x := Revalidate(CachingHeaders(initial, name, info, formatDate), bucket, name, info, request, getOk,
                            parseDate);
        Exchange(x.response, [Stat(bucket, name)] + x.calls)
  }

  /** The exchange once the caching headers h are set; calls are those after the stat. */
  function Revalidate(h: map<string, string>, bucket: string, name: string, info: ObjectInfo,
                      request: map<string, string>, getOk: bool, parseDate: string -> Option<int>): Exchange
  {
    if EtagMatches(request, info.etag) || UnmodifiedSince(request, info.lastModified, parseDate) then
      Exchange(Response(StatusNotModified, h, NoBody), [])
    else if !getOk then
      Exchange(ErrorReply(h, "Error retrieving file", StatusInternalServerError), [GetWhole(bucket, name)])
    else
      Exchange(Response(StatusOK, h, FullObject), [GetWhole(bucket, name)])
  }

  /**
   * StreamMinIOImage on a writer whose status is not yet written; returns
   * the store calls it made.
   */
  method StreamMinIOImage(w: ResponseWriter, path: string, request: map<string, string>, bucket: string,
                          stat: StatResult, getOk: bool, formatDate: int -> string,
                          parseDate: string -> Option<int>)
    returns (calls: seq<StoreCall>)
    requires w.status == 0 && w.body == NoBody
    modifies w
    ensures var x := ImageResponse(old(w.header), path, request, bucket, stat, getOk, formatDate, parseDate);
      w.Sent() == x.response && calls == x.calls
  {
    var filename := TrimPrefix(path, PathPrefix);
    if filename == "" {
      w.Error("Filename is required", StatusBadRequest);
      return [];
    }

    if stat.StatErr? {
      w.Error("File not found", StatusNotFound);
      return [Stat(bucket, filename)];
    }
    var objectInfo := stat.info;

    w.Set("Content-Type", ImageContentType(filename));
    w.Set("Content-Length", FormatInt(objectInfo.size));
    w.Set("Cache-Control", CacheControl);
    w.Set("Last-Modified", formatDate(objectInfo.lastModified));
    w.Set("ETag", objectInfo.etag);

    var rest := ServeImage(w, bucket, filename, objectInfo, request, getOk, parseDate);
    calls := [Stat(bucket, filename)] + rest;
  }

  /** The part of StreamMinIOImage after the caching headers are set: the two checks, then the get. */
  method ServeImage(w: ResponseWriter, bucket: string, filename: string, objectInfo: ObjectInfo,
                    request: map<string, string>, getOk: bool, parseDate: string -> Option<int>)
    returns (calls: seq<StoreCall>)
    requires w.status == 0 && w.body == NoBody
    modifies w
    ensures var x := Revalidate(old(w.header), bucket, filename, objectInfo, request, getOk, parseDate);
      w.Sent() == x.response && calls == x.calls
  {
    var noneMatch := HeaderGet(request, "If-None-Match");
    if noneMatch != "" {
      if noneMatch == objectInfo.etag {
        w.WriteHeader(StatusNotModified);
        return [];
      }
    }

    var modifiedSince := HeaderGet(request, "If-Modified-Since");
    if modifiedSince != "" {
      var t := parseDate(modifiedSince);
      if t.Some? {
        if objectInfo.lastModified < t.value + OneSecond {
          w.WriteHeader(StatusNotModified);
          return [];
        }
      }
    }

    calls := [GetWhole(bucket, filename)];
    if !getOk {
      w.Error("Error retrieving file", StatusInternalServerError);
      return;
    }
    w.WriteHeader(StatusOK);
    w.Write(FullObject);
  }

  // ------------------------------------------------------ decision table

  /** An empty name is a 400 and the store is never consulted. */
  lemma ImageEmptyName(initial: map<string, string>, path: string, request: map<string, string>, bucket: string,
                       stat: StatResult, getOk: bool, formatDate: int -> string, parseDate: string -> Option<int>)
    requires TrimPrefix(path, PathPrefix) == ""
    ensures var x := ImageResponse(initial, path, request, bucket, stat, getOk, formatDate, parseDate);
      x.response.status == StatusBadRequest && x.calls == []
  {
  }

  /** Any stat error, whatever its cause, is a 404 after the one stat call. */
  lemma ImageStatError(initial: map<string, string>, path: string, request: map<string, string>, bucket: string,
                       stat: StatResult, getOk: bool, formatDate: int -> string, parseDate: string -> Option<int>)
    requires TrimPrefix(path, PathPrefix) != "" && stat.StatErr?
    ensures var x := ImageResponse(initial, path, request, bucket, stat, getOk, formatDate, parseDate);
      x.response.status == StatusNotFound && x.calls == [Stat(bucket, TrimPrefix(path, PathPrefix))]
  {
  }

  /**
   * Past the stat the outcome is 304, 500 or 200, and 304 and 200 carry
   * all five caching headers: the image type, the size, Cache-Control,
   * Last-Modified and the ETag.
   */
  lemma ImageCachingHeaders(initial: map<string, string>, path: string, request: map<string, string>, bucket: string,
                            stat: StatResult, getOk: bool, formatDate: int -> string,
                            parseDate: string -> Option<int>)
    requires TrimPrefix(path, PathPrefix) != "" && stat.StatOk?
    ensures var x := ImageResponse(initial, path, request, bucket, stat, getOk, formatDate, parseDate);
      var h := x.response.header;
      && x.response.status in {StatusNotModified, StatusInternalServerError, StatusOK}
      && (x.response.status != StatusInternalServerError ==>
            && "Content-Type" in h && h["Content-Type"] == ImageContentType(TrimPrefix(path, PathPrefix))
            && "Content-Length" in h && h["Content-Length"] == FormatInt(stat.info.size)
            && "Cache-Control" in h && h["Cache-Control"] == "public, max-age=86400"
            && "Last-Modified" in h && h["Last-Modified"] == formatDate(stat.info.lastModified)
            && "ETag" in h && h["ETag"] == stat.info.etag)
  {
  }

  /** On the 500 the caching headers other than Content-Type and Content-Length survive http.Error. */
  lemma ImageErrorKeepsCaching(initial: map<string, string>, path: string, request: map<string, string>,
                               bucket: string, stat: StatResult, formatDate: int -> string,
                               parseDate: string -> Option<int>)
    requires TrimPrefix(path, PathPrefix) != "" && stat.StatOk?
    requires !EtagMatches(request, stat.info.etag) && !UnmodifiedSince(request, stat.info.lastModified, parseDate)
    ensures var x := ImageResponse(initial, path, request, bucket, stat, false, formatDate, parseDate);
      var h := x.response.header;
      && x.response.status == StatusInternalServerError
      && "Content-Length" !in h && h["Content-Type"] == ErrorContentType
      && "Cache-Control" in h && h["Cache-Control"] == "public, max-age=86400"
      && "Last-Modified" in h && h["Last-Modified"] == formatDate(stat.info.lastModified)
      && "ETag" in h && h["ETag"] == stat.info.etag
  {
    var name := TrimPrefix(path, PathPrefix);
    ErrorReplyKeepsHeaders(CachingHeaders(initial, name, stat.info, formatDate), "Error retrieving file",
                           StatusInternalServerError);
  }

  /**
   * A matching ETag is a 304 with no body and no get, whatever
   * If-Modified-Since holds and however dates parse: the date is never
   * examined.
   */
  lemma ImageEtagMatch(initial: map<string, string>, path: string, request: map<string, string>, bucket: string,
                       stat: StatResult, getOk: bool, formatDate: int -> string,
                       parseDate: string -> Option<int>, otherParse: string -> Option<int>)
    requires TrimPrefix(path, PathPrefix) != "" && stat.StatOk? && EtagMatches(request, stat.info.etag)
    ensures var x := ImageResponse(initial, path, request, bucket, stat, getOk, formatDate, parseDate);
      && x.response.status == StatusNotModified && x.response.body == NoBody
      && x.calls == [Stat(bucket, TrimPrefix(path, PathPrefix))]
      && x == ImageResponse(initial, path, request - {"If-Modified-Since"}, bucket, stat, getOk, formatDate,
                            otherParse)
  {
    var etagOnly := request - {"If-Modified-Since"};
    assert HeaderGet(etagOnly, "If-None-Match") == HeaderGet(request, "If-None-Match");
  }

  /**
   * Without a matching ETag, and in particular with an If-None-Match that
   * differs from it, the answer is 304 exactly when the date check holds.
   */
  lemma ImageDateCheck(initial: map<string, string>, path: string, request: map<string, string>, bucket: string,
                       stat: StatResult, getOk: bool, formatDate: int -> string, parseDate: string -> Option<int>)
    requires TrimPrefix(path, PathPrefix) != "" && stat.StatOk? && !EtagMatches(request, stat.info.etag)
    ensures var x := ImageResponse(initial, path, request, bucket, stat, getOk, formatDate, parseDate);
      var modifiedSince := HeaderGet(request, "If-Modified-Since");
      x.response.status == StatusNotModified <==>
        modifiedSince != "" && parseDate(modifiedSince).Some?
        && stat.info.lastModified < parseDate(modifiedSince).value + OneSecond
  {
  }

  /** An If-Modified-Since that does not parse counts as absent. */
  lemma ImageUnparsableDate(initial: map<string, string>, path: string, request: map<string, string>, bucket: string,
                            stat: StatResult, getOk: bool, formatDate: int -> string,
                            parseDate: string -> Option<int>)
    requires parseDate(HeaderGet(request, "If-Modified-Since")).None?
    ensures ImageResponse(initial, path, request, bucket, stat, getOk, formatDate, parseDate)
         == ImageResponse(initial, path, request - {"If-Modified-Since"}, bucket, stat, getOk, formatDate, parseDate)
  {
    var dateless := request - {"If-Modified-Since"};
    assert HeaderGet(dateless, "If-None-Match") == HeaderGet(request, "If-None-Match");
    assert HeaderGet(dateless, "If-Modified-Since") == "";
  }

  /** When no 304 applies: one whole-object get, then 500 when it fails and the full object when it succeeds. */
  lemma ImageDelivery(initial: map<string, string>, path: string, request: map<string, string>, bucket: string,
                      stat: StatResult, getOk: bool, formatDate: int -> string, parseDate: string -> Option<int>)
    requires TrimPrefix(path, PathPrefix) != "" && stat.StatOk?
    requires !EtagMatches(request, stat.info.etag) && !UnmodifiedSince(request, stat.info.lastModified, parseDate)
    ensures var x := ImageResponse(initial, path, request, bucket, stat, getOk, formatDate, parseDate);
      var name := TrimPrefix(path, PathPrefix);
      && x.calls == [Stat(bucket, name), GetWhole(bucket, name)]
      && (getOk ==> x.response.status == StatusOK && x.response.body == FullObject)
      && (!getOk ==> x.response.status == StatusInternalServerError
                     && x.response.body == Message("Error retrieving file\n"))
  {
  }

  /** A Range header never changes the image response, which is always 400, 404, 304, 500 or 200. */
  lemma ImageIgnoresRange(initial: map<string, string>, path: string, request: map<string, string>, bucket: string,
                          stat: StatResult, getOk: bool, formatDate: int -> string, parseDate: string -> Option<int>)
    ensures var x := ImageResponse(initial, path, request, bucket, stat, getOk, formatDate, parseDate);
      && x == ImageResponse(initial, path, request - {"Range"}, bucket, stat, getOk, formatDate, parseDate)
      && x.response.status in {StatusBadRequest, StatusNotFound, StatusNotModified, StatusInternalServerError,
                               StatusOK}
      && !x.response.body.ObjectRange?
  {
    var rangeless := request - {"Range"};
    assert HeaderGet(rangeless, "If-None-Match") == HeaderGet(request, "If-None-Match");
    assert HeaderGet(rangeless, "If-Modified-Since") == HeaderGet(request, "If-Modified-Since");
  }

  // ------------------------------------------------------------- listing

  /** ListMinIOImages on a writer whose status is not yet written, given the ListObjects entries. */
  method ListMinIOImages(w: ResponseWriter, entries: seq<ListEntry>, marshal: seq<MediaFile> -> Option<string>)
    requires w.status == 0
    modifies w
    ensures w.Sent() == Response(StatusOK, old(w.header)["Content-Type" := "application/json"],
                                 Message(ListBody(Listed(entries, Image), marshal)))
  {
    var files := CollectFiles(entries, Image);
    w.Set("Content-Type", "application/json");
    w.WriteHeader(StatusOK);
    w.Write(Message(ListBody(files, marshal)));
  }
}
