/**
 * handlers/minio_music.go: StreamMinIOMusic, which answers a request for
 * one audio object with the whole object, one byte range of it, or an
 * error, and ListMinIOMusic, which lists the music bucket.
 *
 * The handler is modelled twice: MusicResponse is the decision table as a
 * function of the request and of what the store answers, and
 * StreamMinIOMusic builds the response step by step on a ResponseWriter
 * and is proved to send exactly what MusicResponse says.
 */
module MinioMusic {
  import opened Wrappers
  import opened GoLib
  import opened Http
  import opened Store
  import opened Utils

  const PathPrefix := "/api/music/"

  /** The four headers set on every response once the stat succeeded. */
  function MetadataHeaders(h: map<string, string>, name: string, info: ObjectInfo, formatDate: int -> string)
    : map<string, string>
  {
    h["Content-Type" := AudioContentType(name)]["Accept-Ranges" := "bytes"]
     ["ETag" := info.etag]["Last-Modified" := formatDate(info.lastModified)]
  }

  /** The Content-Range value of a 206 response. */
  function ContentRange(start: int, end: int, size: int): string {
    "bytes " + FormatInt(start) + "-" + FormatInt(end) + "/" + FormatInt(size)
  }

  /** The Content-Range value of a 416 response. */
  function UnsatisfiedRange(size: int): string {
    "bytes */" + FormatInt(size)
  }

  /**
   * The exchange StreamMinIOMusic performs: initial is the header map the
   * writer starts with, stat what StatObject answers for the name, getOk
   * whether the one object get succeeds, and formatDate the rendering of
   * a time as an HTTP date.
   */
  function MusicResponse(initial: map<string, string>, path: string, request: map<string, string>, bucket: string,
                         stat: StatResult, getOk: bool, formatDate: int -> string): Exchange
  {
    var name := TrimPrefix(path, PathPrefix);
    if name == "" then Exchange(ErrorReply(initial, "Filename is required", StatusBadRequest), [])
    else match stat
      case StatErr(_) => Exchange(ErrorReply(initial, "File not found", StatusNotFound), [Stat(bucket, name)])
      case StatOk(info) =>
        var x := Deliver(MetadataHeaders(initial, name, info, formatDate), bucket, name, info.size,
                         HeaderGet(request, "Range"), getOk);
        Exchange(x.response, [Stat(bucket, name)] + x.calls)
  }

  /** The exchange after a successful stat, once the metadata headers h are set; calls are those after the stat. */
  function Deliver(h: map<string, string>, bucket: string, name: string, size: int64, rangeHeader: string,
                   getOk: bool): Exchange
  {
    if rangeHeader == "" then
      var calls := [GetWhole(bucket, name)];
      if !getOk then Exchange(ErrorReply(h, "Error retrieving file", StatusInternalServerError), calls)
      else Exchange(Response(StatusOK, h["Content-Length" := FormatInt(size)], FullObject), calls)
    else DeliverRange(h, bucket, name, size, ParseRange(rangeHeader, size), getOk)
  }

  /** The exchange for a Range header that parsed to ranges. */
  function DeliverRange(h: map<string, string>, bucket: string, name: string, size: int64,
                        ranges: Result<seq<ByteRange>, RangeError>, getOk: bool): Exchange
  {
    if ranges.Failure? || |ranges.value| == 0 then
      Exchange(ErrorReply(h["Content-Range" := UnsatisfiedRange(size)], "Invalid range",
                          StatusRequestedRangeNotSatisfiable),
               [])
    else
      var start, end := ranges.value[0].start, ranges.value[0].end;
      var calls := [GetRange(bucket, name, start, end)];
      if !getOk then Exchange(ErrorReply(h, "Error retrieving file", StatusInternalServerError), calls)
      else Exchange(Response(StatusPartialContent,
                             h["Content-Length" := FormatInt(end - start + 1)]
                              ["Content-Range" := ContentRange(start, end, size)],
                             ObjectRange(start, end)),
                    calls)
  }

  /**
   * StreamMinIOMusic on a writer whose status is not yet written; returns
   * the store calls it made.
   */
  method StreamMinIOMusic(w: ResponseWriter, path: string, request: map<string, string>, bucket: string,
                          stat: StatResult, getOk: bool, formatDate: int -> string)
    returns (calls: seq<StoreCall>)
    requires w.status == 0 && w.body == NoBody
    modifies w
    ensures var x := MusicResponse(old(w.header), path, request, bucket, stat, getOk, formatDate);
      w.Sent() == x.response && calls == x.calls
  {
    var filename := TrimPrefix(path, PathPrefix);
    if filename == "" {
      w.Error("Filename is required", StatusBadRequest);
      return [];
    }

    if stat.StatErr? {
      w.Error("File not found", StatusNotFound);
      return [Stat(bucket, filename)];
    }
    var objectInfo := stat.info;

    w.Set("Content-Type", AudioContentType(filename));
    w.Set("Accept-Ranges", "bytes");
    w.Set("ETag", objectInfo.etag);
    w.Set("Last-Modified", formatDate(objectInfo.lastModified));

    var rest := ServeObject(w, bucket, filename, objectInfo.size, HeaderGet(request, "Range"), getOk);
    calls := [Stat(bucket, filename)] + rest;
  }

  /** The part of StreamMinIOMusic after the metadata headers are set: the whole object or a range of it. */
  method ServeObject(w: ResponseWriter, bucket: string, filename: string, fileSize: int64, rangeHeader: string,
                     getOk: bool)
    returns (calls: seq<StoreCall>)
    requires w.status == 0 && w.body == NoBody
    modifies w
    ensures var x := Deliver(old(w.header), bucket, filename, fileSize, rangeHeader, getOk);
      w.Sent() == x.response && calls == x.calls
  {
    if rangeHeader == "" {
      calls := [GetWhole(bucket, filename)];
      if !getOk {
        w.Error("Error retrieving file", StatusInternalServerError);
        return;
      }
      w.Set("Content-Length", FormatInt(fileSize));
      w.WriteHeader(StatusOK);
      w.Write(FullObject);
      return;
    }

    var ranges := ParseRange(rangeHeader, fileSize);
    if ranges.Failure? || |ranges.value| == 0 {
      w.Set("Content-Range", UnsatisfiedRange(fileSize));
      w.Error("Invalid range", StatusRequestedRangeNotSatisfiable);
      return [];
    }

    var start := ranges.value[0].start;
    var end := ranges.value[0].end;
    calls := [GetRange(bucket, filename, start, end)];
    if !getOk {
      w.Error("Error retrieving file", StatusInternalServerError);
      return;
    }
    w.Set("Content-Length", FormatInt(end - start + 1));
    w.Set("Content-Range", ContentRange(start, end, fileSize));
    w.WriteHeader(StatusPartialContent);
    w.Write(ObjectRange(start, end));
  }

  // ------------------------------------------------------ decision table

  /** An empty name is a 400 and the store is never consulted. */
  lemma MusicEmptyName(initial: map<string, string>, path: string, request: map<string, string>, bucket: string,
                       stat: StatResult, getOk: bool, formatDate: int -> string)
    requires TrimPrefix(path, PathPrefix) == ""
    ensures var x := MusicResponse(initial, path, request, bucket, stat, getOk, formatDate);
      x.response.status == StatusBadRequest && x.calls == []
  {
  }

  /** Any stat error, whatever its cause, is a 404 after the one stat call. */
  lemma MusicStatError(initial: map<string, string>, path: string, request: map<string, string>, bucket: string,
                       stat: StatResult, getOk: bool, formatDate: int -> string)
    requires TrimPrefix(path, PathPrefix) != "" && stat.StatErr?
    ensures var x := MusicResponse(initial, path, request, bucket, stat, getOk, formatDate);
      x.response.status == StatusNotFound && x.calls == [Stat(bucket, TrimPrefix(path, PathPrefix))]
  {
  }

  /**
   * Past the stat, every response carries Accept-Ranges, ETag and
   * Last-Modified; Content-Type is the audio type on 200 and 206 and the
   * plain-text type that http.Error puts on 416 and 500.
   */
  lemma MusicMetadata(initial: map<string, string>, path: string, request: map<string, string>, bucket: string,
                      stat: StatResult, getOk: bool, formatDate: int -> string)
    requires TrimPrefix(path, PathPrefix) != "" && stat.StatOk?
    ensures var x := MusicResponse(initial, path, request, bucket, stat, getOk, formatDate);
      var h := x.response.header;
      && "Accept-Ranges" in h && h["Accept-Ranges"] == "bytes"
      && "ETag" in h && h["ETag"] == stat.info.etag
      && "Last-Modified" in h && h["Last-Modified"] == formatDate(stat.info.lastModified)
      && "Content-Type" in h
      && h["Content-Type"] == (if x.response.status in {StatusOK, StatusPartialContent}
                               then AudioContentType(TrimPrefix(path, PathPrefix)) else ErrorContentType)
      && x.response.status in {StatusOK, StatusPartialContent, StatusRequestedRangeNotSatisfiable,
                               StatusInternalServerError}
  {
    var name := TrimPrefix(path, PathPrefix);
    var h := MetadataHeaders(initial, name, stat.info, formatDate);
    DeliverKeepsHeaders(h, bucket, name, stat.info.size, HeaderGet(request, "Range"), getOk);
  }

  /** The headers Deliver may touch: every response it builds keeps the other headers of h. */
  lemma DeliverKeepsHeaders(h: map<string, string>, bucket: string, name: string, size: int64, rangeHeader: string,
                            getOk: bool)
    requires "Content-Type" in h
    ensures var r := Deliver(h, bucket, name, size, rangeHeader, getOk).response;
      && (forall k :: k in h && k !in {"Content-Length", "Content-Range", "Content-Type", "X-Content-Type-Options"} ==>
            k in r.header && r.header[k] == h[k])
      && r.status in {StatusOK, StatusPartialContent, StatusRequestedRangeNotSatisfiable, StatusInternalServerError}
      && "Content-Type" in r.header
      && r.header["Content-Type"] == (if r.status in {StatusOK, StatusPartialContent} then h["Content-Type"]
                                      else ErrorContentType)
  {
    if rangeHeader == "" {
      ErrorReplyKeepsHeaders(h, "Error retrieving file", StatusInternalServerError);
    } else {
      DeliverRangeKeepsHeaders(h, bucket, name, size, ParseRange(rangeHeader, size), getOk);
    }
  }

  /** DeliverKeepsHeaders for a parsed Range header. */
  lemma DeliverRangeKeepsHeaders(h: map<string, string>, bucket: string, name: string, size: int64,
                                 ranges: Result<seq<ByteRange>, RangeError>, getOk: bool)
    requires "Content-Type" in h
    ensures var r := DeliverRange(h, bucket, name, size, ranges, getOk).response;
      && (forall k :: k in h && k !in {"Content-Length", "Content-Range", "Content-Type", "X-Content-Type-Options"} ==>
            k in r.header && r.header[k] == h[k])
      && r.status in {StatusPartialContent, StatusRequestedRangeNotSatisfiable, StatusInternalServerError}
      && "Content-Type" in r.header
      && r.header["Content-Type"] == (if r.status == StatusPartialContent then h["Content-Type"] else ErrorContentType)
  {
    ErrorReplyKeepsHeaders(h["Content-Range" := UnsatisfiedRange(size)], "Invalid range",
                           StatusRequestedRangeNotSatisfiable);
    ErrorReplyKeepsHeaders(h, "Error retrieving file", StatusInternalServerError);
  }

  /** No Range header: the whole object, with Content-Length the size, or 500 when the get fails. */
  lemma MusicWholeObject(initial: map<string, string>, path: string, request: map<string, string>, bucket: string,
                         stat: StatResult, getOk: bool, formatDate: int -> string)
    requires TrimPrefix(path, PathPrefix) != "" && stat.StatOk? && HeaderGet(request, "Range") == ""
    ensures var x := MusicResponse(initial, path, request, bucket, stat, getOk, formatDate);
      var name := TrimPrefix(path, PathPrefix);
      && x.calls == [Stat(bucket, name), GetWhole(bucket, name)]
      && (getOk ==> x.response.status == StatusOK && x.response.body == FullObject
                    && x.response.header["Content-Length"] == FormatInt(stat.info.size))
      && (!getOk ==> x.response.status == StatusInternalServerError)
  {
  }

  // A Range header the parser rejects: 416 with Content-Range "bytes */size", and no object get.
  lemma MusicUnsatisfiable(initial: map<string, string>, path: string, request: map<string, string>, bucket: string,
                           stat: StatResult, getOk: bool, formatDate: int -> string)
    requires TrimPrefix(path, PathPrefix) != "" && stat.StatOk? && HeaderGet(request, "Range") != ""
    requires ParseRange(HeaderGet(request, "Range"), stat.info.size).Failure?
    ensures var x := MusicResponse(initial, path, request, bucket, stat, getOk, formatDate);
      && x.response.status == StatusRequestedRangeNotSatisfiable
      && "Content-Range" in x.response.header
      && x.response.header["Content-Range"] == "bytes */" + FormatInt(stat.info.size)
      && x.calls == [Stat(bucket, TrimPrefix(path, PathPrefix))]
  {
  }

  /**
   * A Range header the parser accepts as [s, e]: the store is asked for
   * exactly [s, e]; then 206 with Content-Length e - s + 1 and
   * Content-Range "bytes s-e/size", or 500 when the get fails.
   */
  lemma MusicPartial(initial: map<string, string>, path: string, request: map<string, string>, bucket: string,
                     stat: StatResult, getOk: bool, formatDate: int -> string)
    requires TrimPrefix(path, PathPrefix) != "" && stat.StatOk? && HeaderGet(request, "Range") != ""
    requires ParseRange(HeaderGet(request, "Range"), stat.info.size).Success?
    ensures var x := MusicResponse(initial, path, request, bucket, stat, getOk, formatDate);
      var r := ParseRange(HeaderGet(request, "Range"), stat.info.size).value[0];
      var size := stat.info.size;
      && 0 <= r.start <= r.end < size
      && x.calls == [Stat(bucket, TrimPrefix(path, PathPrefix)), GetRange(bucket, TrimPrefix(path, PathPrefix), r.start, r.end)]
      && (getOk ==> && x.response.status == StatusPartialContent
                    && x.response.body == ObjectRange(r.start, r.end)
                    && x.response.header["Content-Length"] == FormatInt(r.end - r.start + 1)
                    && x.response.header["Content-Range"] == "bytes " + FormatInt(r.start) + "-" + FormatInt(r.end) + "/" + FormatInt(size))
      && (!getOk ==> x.response.status == StatusInternalServerError)
  {
  }

  /** The range a 206 advertises, sent back as a Range header, selects the same bytes. */
  lemma MusicPartialRangeRoundTrip(initial: map<string, string>, path: string, request: map<string, string>, bucket: string,
                                   stat: StatResult, formatDate: int -> string)
    requires TrimPrefix(path, PathPrefix) != "" && stat.StatOk? && HeaderGet(request, "Range") != ""
    requires ParseRange(HeaderGet(request, "Range"), stat.info.size).Success?
    ensures var x := MusicResponse(initial, path, request, bucket, stat, true, formatDate);
      x.response.body.ObjectRange? &&
      var b := x.response.body;
      ParseRange("bytes=" + FormatInt(b.start) + "-" + FormatInt(b.end), stat.info.size)
        == Success([ByteRange(b.start, b.end)])
  {
    var r := ParseRange(HeaderGet(request, "Range"), stat.info.size).value[0];
    ParseRangeDecimal(r.start, r.end, stat.info.size);
  }

  /** If-None-Match and If-Modified-Since never change the music response. */
  lemma MusicIgnoresConditionals(initial: map<string, string>, path: string, request: map<string, string>, bucket: string,
                                 stat: StatResult, getOk: bool, formatDate: int -> string)
    ensures MusicResponse(initial, path, request, bucket, stat, getOk, formatDate)
         == MusicResponse(initial, path, request - {"If-None-Match", "If-Modified-Since"}, bucket, stat, getOk, formatDate)
  {
    assert HeaderGet(request, "Range") == HeaderGet(request - {"If-None-Match", "If-Modified-Since"}, "Range");
  }

  /** "bytes=0-99" on a 1000-byte object. */
  lemma MusicFirstHundredBytes(initial: map<string, string>, name: string, bucket: string, etag: string,
                               lastModified: int, formatDate: int -> string)
    requires name != ""
    ensures var x := MusicResponse(initial, PathPrefix + name, map["Range" := "bytes=0-99"], bucket,
                                   StatOk(ObjectInfo(1000, etag, lastModified)), true, formatDate);
      && x.response.status == StatusPartialContent
      && "Content-Range" in x.response.header && x.response.header["Content-Range"] == "bytes 0-99/1000"
      && "Content-Length" in x.response.header && x.response.header["Content-Length"] == "100"
      && x.response.body == ObjectRange(0, 99)
      && x.calls == [Stat(bucket, name), GetRange(bucket, name, 0, 99)]
  {
    var path, request := PathPrefix + name, map["Range" := "bytes=0-99"];
    assert TrimPrefix(path, PathPrefix) == name by {
      assert path[|PathPrefix|..] == name;
    }
    assert HeaderGet(request, "Range") == "bytes=0-99";
    FirstHundredRange();
    FirstHundredHeaders();
    MusicPartial(initial, path, request, bucket, StatOk(ObjectInfo(1000, etag, lastModified)), true, formatDate);
  }

  /** The parse behind MusicFirstHundredBytes. */
  lemma FirstHundredRange()
    ensures ParseRange("bytes=0-99", 1000) == Success([ByteRange(0, 99)])
  {
    assert FormatInt(0) == "0" && FormatInt(99) == "99" by {
      assert Digits(9) == "9" && Digits(99) == Digits(9) + "9";
    }
    assert "bytes=" + FormatInt(0) + "-" + FormatInt(99) == "bytes=0-99";
    ParseRangeDecimal(0, 99, 1000);
  }

  /** The header values behind MusicFirstHundredBytes. */
  lemma FirstHundredHeaders()
    ensures FormatInt(99 - 0 + 1) == "100" && ContentRange(0, 99, 1000) == "bytes 0-99/1000"
  {
    assert FormatInt(0) == "0" && FormatInt(99) == "99" by {
      assert Digits(9) == "9" && Digits(99) == Digits(9) + "9";
    }
    assert FormatInt(100) == "100" && FormatInt(1000) == "1000" by {
      assert Digits(1) == "1" && Digits(10) == Digits(1) + "0";
      assert Digits(100) == Digits(10) + "0" && Digits(1000) == Digits(100) + "0";
    }
  }

  // ------------------------------------------------------------- listing

  /** ListMinIOMusic on a writer whose status is not yet written, given the ListObjects entries. */
  method ListMinIOMusic(w: ResponseWriter, entries: seq<ListEntry>, marshal: seq<MediaFile> -> Option<string>)
    requires w.status == 0
    modifies w
    ensures w.Sent() == Response(StatusOK, old(w.header)["Content-Type" := "application/json"],
                                 Message(ListBody(Listed(entries, Music), marshal)))
  {
    var files := CollectFiles(entries, Music);
    w.Set("Content-Type", "application/json");
    w.WriteHeader(StatusOK);
    w.Write(Message(ListBody(files, marshal)));
  }
}
