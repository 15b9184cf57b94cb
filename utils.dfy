/**
 * handlers/utils.go: the listing record, the two content-type tables, the
 * file-list formatting, and the Range header parser; plus the
 * entry-to-record loop that both listing handlers run.
 */
module Utils {
  import opened Wrappers
  import opened GoLib
  import opened Store

  /** MediaFile: one entry of a listing. */
  datatype MediaFile = MediaFile(name: string, size: int64, path: string, url: string, contentType: string)

  /** byteRange: an inclusive interval of byte offsets. */
  datatype ByteRange = ByteRange(start: int64, end: int64)

  /** The three errors parseRange returns. */
  datatype RangeError =
    | InvalidHeader   // no "bytes=" unit
    | InvalidFormat   // not exactly one '-'
    | InvalidValues   // start > end, start < 0 or end >= size

  // ------------------------------------------------------------ content types

  const OctetStream := "application/octet-stream"

  /** The audio table, extension to type. */
  const AudioTypes: map<string, string> :=
    map[".mp3" := "audio/mpeg", ".wav" := "audio/wav", ".ogg" := "audio/ogg",
        ".m4a" := "audio/mp4", ".flac" := "audio/flac"]

  /** The image table, extension to type. */
  const ImageTypes: map<string, string> :=
    map[".jpg" := "image/jpeg", ".jpeg" := "image/jpeg", ".png" := "image/png",
        ".gif" := "image/gif", ".webp" := "image/webp", ".svg" := "image/svg+xml",
        ".bmp" := "image/bmp", ".ico" := "image/x-icon"]

  /** The if-chain of getContentType, on a lower-cased extension; it agrees with the audio table. */
  function AudioType(ext: string): (t: string)
    ensures ext in AudioTypes ==> t == AudioTypes[ext]
    ensures ext !in AudioTypes ==> t == OctetStream
  {
    if ext == ".mp3" then "audio/mpeg"
    else if ext == ".wav" then "audio/wav"
    else if ext == ".ogg" then "audio/ogg"
    else if ext == ".m4a" then "audio/mp4"
    else if ext == ".flac" then "audio/flac"
    else OctetStream
  }

  /** The if-chain of getImageContentType, on a lower-cased extension; it agrees with the image table. */
  function ImageType(ext: string): (t: string)
    ensures ext in ImageTypes ==> t == ImageTypes[ext]
    ensures ext !in ImageTypes ==> t == OctetStream
  {
    if ext == ".jpg" || ext == ".jpeg" then "image/jpeg"
    else if ext == ".png" then "image/png"
    else if ext == ".gif" then "image/gif"
    else if ext == ".webp" then "image/webp"
    else if ext == ".svg" then "image/svg+xml"
    else if ext == ".bmp" then "image/bmp"
    else if ext == ".ico" then "image/x-icon"
    else OctetStream
  }

  /** getContentType: the audio type of a file name, by its lower-cased extension. */
  function AudioContentType(filename: string): string {
    AudioType(ToLower(Ext(filename)))
  }

  /** getImageContentType: the image type of a file name, by its lower-cased extension. */
  function ImageContentType(filename: string): string {
    ImageType(ToLower(Ext(filename)))
  }

  /** An extension as Ext returns it: a '.' followed by no '.' and no '/'. */
  predicate IsExtension(ext: string) {
    ext != "" && ext[0] == '.' && forall i :: 1 <= i < |ext| ==> ext[i] != '.' && ext[i] != '/'
  }

  /**
   * A name ending in an extension gets the type its lower-cased extension
   * has in the table, and the generic type when the table lacks it.
   */
  lemma ContentTypeLookup(stem: string, ext: string)
    requires IsExtension(ext)
    ensures AudioContentType(stem + ext) ==
      if ToLower(ext) in AudioTypes then AudioTypes[ToLower(ext)] else OctetStream
    ensures ImageContentType(stem + ext) ==
      if ToLower(ext) in ImageTypes then ImageTypes[ToLower(ext)] else OctetStream
  {
    ExtOfSuffix(stem, ext);
  }

  /** Both lookups ignore the case of the extension. */
  lemma ContentTypeCaseInsensitive(stem: string, ext: string)
    requires IsExtension(ext)
    ensures AudioContentType(stem + ext) == AudioContentType(stem + ToLower(ext))
    ensures ImageContentType(stem + ext) == ImageContentType(stem + ToLower(ext))
  {
    var lower := ToLower(ext);
    LowerExtension(ext);
    ExtOfSuffix(stem, ext);
    ExtOfSuffix(stem, lower);
    assert ToLower(Ext(stem + ext)) == lower;
    assert ToLower(Ext(stem + lower)) == lower;
  }

  /** Lower-casing keeps an extension an extension and is idempotent. */
  lemma LowerExtension(ext: string)
    requires IsExtension(ext)
    ensures IsExtension(ToLower(ext))
    ensures ToLower(ToLower(ext)) == ToLower(ext)
  {
    var lower := ToLower(ext);
    assert forall i :: 0 <= i < |ext| ==> LowerChar(lower[i]) == lower[i];
  }

  /** ".MP3" resolves like ".mp3". */
  lemma UpperCaseMp3()
    ensures AudioContentType("song.MP3") == "audio/mpeg"
  {
    ExtOfSuffix("song", ".MP3");
    assert "song" + ".MP3" == "song.MP3";
    assert ToLower(".MP3") == ".mp3";
  }

  /** Capitals outside ASCII whose lower case is ASCII resolve like that lower case. */
  lemma NonAsciiCapitals()
    ensures ImageContentType("a.\U{0130}co") == "image/x-icon"
    ensures ImageContentType("a.g\U{0130}f") == "image/gif"
  {
    ExtOfSuffix("a", ".\U{0130}co");
    assert "a" + ".\U{0130}co" == "a.\U{0130}co";
    assert ToLower(".\U{0130}co") == ".ico";
    ExtOfSuffix("a", ".g\U{0130}f");
    assert "a" + ".g\U{0130}f" == "a.g\U{0130}f";
    assert ToLower(".g\U{0130}f") == ".gif";
  }

  /** A name whose final element has no '.' gets the generic type from both tables. */
  lemma NoExtensionIsOctetStream(filename: string)
    requires forall j :: 0 <= j < |filename| && filename[j] == '.' ==>
      exists k :: j < k < |filename| && filename[k] == '/'
    ensures AudioContentType(filename) == OctetStream
    ensures ImageContentType(filename) == OctetStream
  {
    var e := Ext(filename);
    ExtProperties(filename);
    if e != "" {
      assert false;
    }
  }

  // -------------------------------------------------------------- file lists

  /**
   * formatFileList: "[]" for no files, otherwise the JSON encoding that
   * marshal (json.Marshal) gives, or "[]" when it fails.
   */
  function FormatFileList(files: seq<MediaFile>, marshal: seq<MediaFile> -> Option<string>): (s: string)
    ensures files == [] ==> s == "[]"
    ensures files != [] && marshal(files).Some? ==> s == marshal(files).value
    ensures files != [] && marshal(files).None? ==> s == "[]"
  {
    if |files| == 0 then "[]"
    else match marshal(files)
      case None => "[]"
      case Some(data) => data
  }

  /** The body both listing handlers write. */
  function ListBody(files: seq<MediaFile>, marshal: seq<MediaFile> -> Option<string>): string {
    "{\"files\": " + FormatFileList(files, marshal) + "}"
  }

  /** An empty listing is never null. */
  lemma EmptyListBody(marshal: seq<MediaFile> -> Option<string>)
    ensures ListBody([], marshal) == "{\"files\": []}"
  {
  }

  // ------------------------------------------------------------ listing loop

  datatype MediaKind = Music | Image

  function UrlPrefix(kind: MediaKind): string {
    match kind
    case Music => "/gomedia/api/music/"
    case Image => "/gomedia/api/images/"
  }

  function KindContentType(kind: MediaKind, name: string): string {
    match kind
    case Music => AudioContentType(name)
    case Image => ImageContentType(name)
  }

  /** The MediaFile a listing builds from one store entry. */
  function Describe(entry: ListEntry, kind: MediaKind): MediaFile {
    var name := Base(entry.key);
    MediaFile(name, entry.size, entry.key, UrlPrefix(kind) + name, KindContentType(kind, name))
  }

  /** The listing of a sequence of store entries: errored entries dropped, the rest described, in order. */
  function Listed(entries: seq<ListEntry>, kind: MediaKind): seq<MediaFile> {
    ConcatMap(entries, (entry: ListEntry) => Kept(entry, kind))
  }

  /** What one entry contributes to a listing: nothing when it carries an error. */
  function Kept(entry: ListEntry, kind: MediaKind): seq<MediaFile> {
    if entry.err.Some? then [] else [Describe(entry, kind)]
  }

  /** The pieces f gives for the elements of s, concatenated in order. */
  function ConcatMap<A, B>(s: seq<A>, f: A -> seq<B>): seq<B> {
    if s == [] then [] else f(s[0]) + ConcatMap(s[1..], f)
  }

  /** ConcatMap distributes over concatenation. */
  lemma {:induction false} ConcatMapAppend<A, B>(a: seq<A>, b: seq<A>, f: A -> seq<B>)
    ensures ConcatMap(a + b, f) == ConcatMap(a, f) + ConcatMap(b, f)
  {
    if a == [] {
      assert a + b == b;
    } else {
      assert (a + b)[0] == a[0] && (a + b)[1..] == a[1..] + b;
      ConcatMapAppend(a[1..], b, f);
    }
  }

  /** ConcatMap of one element is its piece. */
  lemma ConcatMapSingle<A, B>(x: A, f: A -> seq<B>)
    ensures ConcatMap([x], f) == f(x)
  {
    assert [x][1..] == [];
    assert f(x) + [] == f(x);
  }

  /** Listing distributes over concatenation of the entry stream, so store order is kept. */
  lemma ListedAppend(a: seq<ListEntry>, b: seq<ListEntry>, kind: MediaKind)
    ensures Listed(a + b, kind) == Listed(a, kind) + Listed(b, kind)
  {
    ConcatMapAppend(a, b, (entry: ListEntry) => Kept(entry, kind));
  }

  /** One entry more at the end of the stream adds what that entry contributes. */
  lemma ListedSnoc(entries: seq<ListEntry>, entry: ListEntry, kind: MediaKind)
    ensures Listed(entries + [entry], kind) == Listed(entries, kind) + Kept(entry, kind)
  {
    var f := (e: ListEntry) => Kept(e, kind);
    ConcatMapAppend(entries, [entry], f);
    ConcatMapSingle(entry, f);
  }

  /** A file is listed iff some entry without error describes it. */
  lemma {:induction false} ListedMembers(entries: seq<ListEntry>, kind: MediaKind)
    ensures |Listed(entries, kind)| <= |entries|
    ensures forall f :: f in Listed(entries, kind) ==>
      exists e :: e in entries && e.err.None? && f == Describe(e, kind)
    ensures forall e :: e in entries && e.err.None? ==> Describe(e, kind) in Listed(entries, kind)
  {
    if entries != [] {
      ListedMembers(entries[1..], kind);
      assert forall e :: e in entries ==> e == entries[0] || e in entries[1..];
    }
  }

  /** When every entry carries an error nothing is listed, and the body is an empty JSON list. */
  lemma {:induction false} ListedAllErrored(entries: seq<ListEntry>, kind: MediaKind,
                                            marshal: seq<MediaFile> -> Option<string>)
    requires forall i :: 0 <= i < |entries| ==> entries[i].err.Some?
    ensures Listed(entries, kind) == []
    ensures ListBody(Listed(entries, kind), marshal) == "{\"files\": []}"
  {
    if entries != [] {
      ListedAllErrored(entries[1..], kind, marshal);
    }
  }

  /** Every listed file carries its key as path, its base name, the kind's URL and content type. */
  lemma ListedFields(entries: seq<ListEntry>, kind: MediaKind)
    ensures forall f :: f in Listed(entries, kind) ==>
      f.name == Base(f.path) && f.url == UrlPrefix(kind) + f.name &&
      f.contentType == KindContentType(kind, f.name) && f.name != ""
  {
    ListedMembers(entries, kind);
  }

  /** The loop of the listing handlers over the ListObjects channel. */
  method CollectFiles(entries: seq<ListEntry>, kind: MediaKind) returns (files: seq<MediaFile>)
    ensures files == Listed(entries, kind)
  {
    files := [];
    for i := 0 to |entries|
      invariant files == Listed(entries[..i], kind)
    {
      var entry := entries[i];
      assert entries[..i + 1] == entries[..i] + [entry];
      ListedSnoc(entries[..i], entry, kind);
      if entry.err.Some? {
        assert Kept(entry, kind) == [];
        continue;
      }
      var name := Base(entry.key);
      assert Kept(entry, kind) == [MediaFile(name, entry.size, entry.key, UrlPrefix(kind) + name, KindContentType(kind, name))];
      files := files + [MediaFile(name, entry.size, entry.key, UrlPrefix(kind) + name, KindContentType(kind, name))];
    }
    assert entries[..|entries|] == entries;
  }

  // ------------------------------------------------------------ Range header

  const BytesUnit := "bytes="

  /** parseInt64: the value strconv.ParseInt reads from s, or defaultVal when it fails. */
  function ParseInt64(s: string, defaultVal: int64): int64 {
    match ParseInt(s)
    case None => defaultVal
    case Some(v) => v
  }

  /**
   * parseInt64 yields what ParseInt reads, and defaultVal exactly when
   * ParseInt fails; a plain digit string that fits reads as its value,
   * and without a '-' the result is not negative when defaultVal is not.
   */
  lemma ParseInt64Properties(s: string, defaultVal: int64)
    ensures ParseInt(s).Some? ==> ParseInt64(s, defaultVal) == ParseInt(s).value
    ensures ParseInt(s).None? ==> ParseInt64(s, defaultVal) == defaultVal
    ensures s != "" && AllDigits(s) && DigitsValue(s) <= MaxInt64 ==> ParseInt64(s, defaultVal) == DigitsValue(s)
    ensures '-' !in s && defaultVal >= 0 ==> ParseInt64(s, defaultVal) >= 0
  {
    ParseIntProperties(s);
  }

  /**
   * parseRange: a Range header of one of the forms "bytes=A-B",
   * "bytes=A-" and "bytes=-N", checked against the object size. The int64
   * subtractions wrap as in Go.
   */
  function ParseRange(rangeHeader: string, fileSize: int64): (r: Result<seq<ByteRange>, RangeError>)
    ensures r.Success? ==> |r.value| == 1 && 0 <= r.value[0].start <= r.value[0].end < fileSize
  {
    if !HasPrefix(rangeHeader, BytesUnit) then Failure(InvalidHeader)
    else
      var parts := Split(TrimPrefix(rangeHeader, BytesUnit), '-');
      if |parts| != 2 then Failure(InvalidFormat)
      else
        var (start, end) :=
          if parts[0] == "" then
            // suffix form: the last N bytes
            var end := Sub64(fileSize, 1);
            var start := Sub64(fileSize, ParseInt64(parts[1], 0));
            (if start < 0 then 0 else start, end)
          else if parts[1] == "" then
            // open form: from A to the end
            (ParseInt64(parts[0], 0), Sub64(fileSize, 1))
          else
            (ParseInt64(parts[0], 0), ParseInt64(parts[1], Sub64(fileSize, 1)));
        if start > end || start < 0 || end >= fileSize then Failure(InvalidValues)
        else Success([ByteRange(start, end)])
  }

  /** Only a header with the "bytes=" unit and exactly one '-' after it is accepted. */
  lemma ParseRangeShape(rangeHeader: string, fileSize: int64)
    requires ParseRange(rangeHeader, fileSize).Success?
    ensures HasPrefix(rangeHeader, BytesUnit) && Count(rangeHeader[|BytesUnit|..], '-') == 1
  {
    SplitProperties(TrimPrefix(rangeHeader, BytesUnit), '-');
  }

  /** The header "bytes=" + first + "-" + second splits into exactly those two parts. */
  lemma SplitRangeSpec(first: string, second: string)
    requires '-' !in first && '-' !in second
    ensures HasPrefix(BytesUnit + first + "-" + second, BytesUnit)
    ensures Split(TrimPrefix(BytesUnit + first + "-" + second, BytesUnit), '-') == [first, second]
  {
    var h := BytesUnit + first + "-" + second;
    assert h == BytesUnit + (first + "-" + second);
    assert Join([first, second], '-') == first + "-" + second;
    SplitJoin([first, second], '-');
  }

  /** Without the "bytes=" unit the header is rejected. */
  lemma ParseRangeRejectsUnit(rangeHeader: string, fileSize: int64)
    requires !HasPrefix(rangeHeader, BytesUnit)
    ensures ParseRange(rangeHeader, fileSize) == Failure(InvalidHeader)
  {
  }

  /** With other than exactly one '-' after the unit the header is rejected. */
  lemma ParseRangeRejectsArity(rangeHeader: string, fileSize: int64)
    requires HasPrefix(rangeHeader, BytesUnit) && Count(rangeHeader[|BytesUnit|..], '-') != 1
    ensures ParseRange(rangeHeader, fileSize) == Failure(InvalidFormat)
  {
    SplitProperties(TrimPrefix(rangeHeader, BytesUnit), '-');
  }

  /** A header with three parts is rejected. */
  lemma ParseRangeRejectsThreeParts(fileSize: int64)
    ensures ParseRange("bytes=0-1-2", fileSize) == Failure(InvalidFormat)
  {
    var h := "bytes=0-1-2";
    assert HasPrefix(h, BytesUnit) && h[6..] == "0-1-2";
    assert Count("0-1-2", '-') == 2 by {
      assert "0-1-2"[1..] == "-1-2" && "-1-2"[1..] == "1-2" && "1-2"[1..] == "-2";
    }
    ParseRangeRejectsArity(h, fileSize);
  }

  /** A second range after a comma is not served: the whole header is rejected. */
  lemma ParseRangeRejectsMultiRange(fileSize: int64)
    ensures ParseRange("bytes=0-1,5-9", fileSize) == Failure(InvalidFormat)
  {
    var h := "bytes=0-1,5-9";
    assert HasPrefix(h, BytesUnit) && h[6..] == "0-1,5-9";
    assert Count("0-1,5-9", '-') == 2 by {
      assert "0-1,5-9"[1..] == "-1,5-9" && "-1,5-9"[1..] == "1,5-9";
      assert "1,5-9"[1..] == ",5-9" && ",5-9"[1..] == "5-9" && "5-9"[1..] == "-9";
    }
    ParseRangeRejectsArity(h, fileSize);
  }

  /**
   * A comma list whose later ranges hold no '-' is not rejected: the text
   * after the one '-' fails to parse and the end falls back to size - 1.
   */
  lemma ParseRangeCommaList(fileSize: int64)
    requires fileSize >= 1
    ensures ParseRange("bytes=0-1,5", fileSize) == Success([ByteRange(0, fileSize - 1)])
  {
    assert !IsDigit("1,5"[1]);
    ParseIntProperties("1,5");
    assert '-' !in "1,5" && '-' !in "0";
    assert BytesUnit + "0" + "-" + "1,5" == "bytes=0-1,5";
    ParseRangeEndDefault("0", "1,5", fileSize);
    assert AllDigits("0") && DigitsValue("0") == 0;
    ParseInt64Properties("0", 0);
    ParseRangeOpen("0", fileSize);
  }

  /**
   * Suffix form "bytes=-N": the last N bytes, start clamped at 0; accepted
   * iff N >= 1 and the object is not empty.
   */
  lemma ParseRangeSuffix(n: string, fileSize: int64)
    requires '-' !in n && fileSize >= 0
    ensures var len := ParseInt64(n, 0);
      ParseRange("bytes=-" + n, fileSize) ==
        if len >= 1 && fileSize >= 1
        then Success([ByteRange(if fileSize - len < 0 then 0 else fileSize - len, fileSize - 1)])
        else Failure(InvalidValues)
  {
    SplitRangeSpec("", n);
    assert BytesUnit + "" + "-" + n == "bytes=-" + n;
    var len := ParseInt64(n, 0);
    ParseInt64Properties(n, 0);
  }

  /** Open form "bytes=A-": from A to the last byte; accepted iff 0 <= A <= size - 1. */
  lemma ParseRangeOpen(a: string, fileSize: int64)
    requires a != "" && '-' !in a && fileSize >= 0
    ensures var start := ParseInt64(a, 0);
      ParseRange("bytes=" + a + "-", fileSize) ==
        if 0 <= start <= fileSize - 1 then Success([ByteRange(start, fileSize - 1)]) else Failure(InvalidValues)
  {
    SplitRangeSpec(a, "");
    assert BytesUnit + a + "-" + "" == "bytes=" + a + "-";
  }

  /** Full form "bytes=A-B": exactly [A, B] when 0 <= A <= B < size, otherwise rejected (no clamping). */
  lemma ParseRangeFull(a: string, b: string, fileSize: int64)
    requires a != "" && b != "" && '-' !in a && '-' !in b && fileSize >= 0
    ensures var start, end := ParseInt64(a, 0), ParseInt64(b, fileSize - 1);
      ParseRange("bytes=" + a + "-" + b, fileSize) ==
        if 0 <= start <= end < fileSize then Success([ByteRange(start, end)]) else Failure(InvalidValues)
  {
    SplitRangeSpec(a, b);
  }

  /** The decimal header "bytes=A-B" yields exactly [A, B] iff A <= B < size. */
  lemma ParseRangeDecimal(a: int64, b: int64, fileSize: int64)
    requires 0 <= a && 0 <= b && fileSize >= 0
    ensures ParseRange("bytes=" + FormatInt(a) + "-" + FormatInt(b), fileSize) ==
      if a <= b < fileSize then Success([ByteRange(a, b)]) else Failure(InvalidValues)
  {
    FormatIntRoundTrip(a);
    FormatIntRoundTrip(b);
    ParseRangeFull(FormatInt(a), FormatInt(b), fileSize);
  }

  /** A non-numeric start reads as 0. */
  lemma ParseRangeStartDefault(a: string, b: string, fileSize: int64)
    requires a != "" && ParseInt(a).None? && '-' !in a && '-' !in b && fileSize >= 0
    ensures ParseRange("bytes=" + a + "-" + b, fileSize) == ParseRange("bytes=0-" + b, fileSize)
  {
    SplitRangeSpec(a, b);
    SplitRangeSpec("0", b);
    assert BytesUnit + "0" + "-" + b == "bytes=0-" + b;
    assert ParseInt64("0", 0) == 0 by {
      assert AllDigits("0") && DigitsValue("0") == 0;
    }
  }

  /** A non-numeric explicit end reads as size - 1, as if it were left out. */
  lemma ParseRangeEndDefault(a: string, b: string, fileSize: int64)
    requires a != "" && b != "" && ParseInt(b).None? && '-' !in a && '-' !in b && fileSize >= 0
    ensures ParseRange("bytes=" + a + "-" + b, fileSize) == ParseRange("bytes=" + a + "-", fileSize)
  {
    SplitRangeSpec(a, b);
    SplitRangeSpec(a, "");
    assert BytesUnit + a + "-" + "" == "bytes=" + a + "-";
  }

  /** A non-numeric suffix length reads as 0, which is always rejected. */
  lemma ParseRangeSuffixDefault(n: string, fileSize: int64)
    requires ParseInt(n).None? && '-' !in n
    ensures ParseRange("bytes=-" + n, fileSize) == Failure(InvalidValues)
  {
    SplitRangeSpec("", n);
    assert BytesUnit + "" + "-" + n == "bytes=-" + n;
  }

  /** An empty object admits no range. */
  lemma ParseRangeEmptyObject(rangeHeader: string)
    ensures ParseRange(rangeHeader, 0).Failure?
  {
  }
}
