/**
 * The header-field tail of prepare_resp_http (http.c): once the file is
 * known, the Range field is applied, the MIME type is looked up by
 * extension and the response fields are formatted. The stat result enters
 * as the file size, access() as `readable`, and get_time_stamp as an
 * optional text (None when it fails).
 */
module HttpResponse {
  import opened Util
  import opened Http
  import opened HttpRange

  // ---------------------------------------------------------------------
  // MIME lookup (configuration.h)

  const DEFAULT_MIME: string := "application/octet-stream"

  /** mime_types_list: extension and type, searched in this order. */
  const MimeTypes: seq<(string, string)> := [
    ("html", "text/html; charset=utf-8"),
    ("svg", "image/svg+xml; charset=utf-8"),
    ("txt", "text/plain; charset=utf-8"),
    ("tar", "application/tar"),
    ("jpeg", "image/jpg"),
    ("webm", "video/webm"),
    ("jpg", "image/jpg"),
    ("css", "text/css; charset=utf-8"),
    ("gz", "application/x-gtar"),
    ("gif", "image/gif"),
    ("pdf", "application/x-pdf"),
    ("md", "text/plain; charset=utf-8"),
    ("png", "image/png"),
    ("mp4", "video/mp4"),
    ("js", "text/javascript; charset=utf-8"),
    ("swf", "application/x-shockwave-flash")
  ]

  /** strrchr(s, '.') over the first n characters: the index of the last '.', if any. */
  function LastDotBefore(s: string, n: nat): (d: Option<nat>)
    requires n <= |s|
    ensures d.None? ==> forall k :: 0 <= k < n ==> s[k] != '.'
    ensures d.Some? ==> d.value < n && s[d.value] == '.' && forall k :: d.value < k < n ==> s[k] != '.'
  {
    if n == 0 then None
    else if s[n - 1] == '.' then Some(n - 1)
    else LastDotBefore(s, n - 1)
  }

  function LastDot(s: string): Option<nat>
  {
    LastDotBefore(s, |s|)
  }

  lemma LastDotIs(s: string, d: nat)
    requires d < |s| && s[d] == '.' && forall k :: d < k < |s| ==> s[k] != '.'
    ensures LastDot(s) == Some(d)
  {
    var n := |s|;
    while n > d + 1
      invariant d + 1 <= n <= |s|
      invariant LastDotBefore(s, n) == LastDot(s)
    {
      n := n - 1;
    }
  }

  /** The type of the first table entry from i on whose extension is ext, or the default. */
  function MimeFrom(ext: string, i: nat): (m: string)
    requires i <= |MimeTypes|
    decreases |MimeTypes| - i
  {
    if i == |MimeTypes| then DEFAULT_MIME
    else if MimeTypes[i].0 == ext then MimeTypes[i].1
    else MimeFrom(ext, i + 1)
  }

  /** The MIME type of a path: looked up by the text after its last '.', the default without one. */
  function MimeOf(path: string): string
  {
    match LastDot(path)
    case None => DEFAULT_MIME
    case Some(d) => MimeFrom(path[d + 1..], 0)
  }

  /** The table search of prepare_resp_http: the loop stops at the first matching extension. */
  method FindMime(path: string) returns (mime: string)
    ensures mime == MimeOf(path)
  {
    mime := DEFAULT_MIME;
    var p := LastDot(path);
    if p.Some? {
      var ext := path[p.value + 1..];
      var i := 0;
      while i < |MimeTypes|
        invariant i <= |MimeTypes|
        invariant MimeFrom(ext, 0) == MimeFrom(ext, i)
      {
        if MimeTypes[i].0 == ext {
          mime := MimeTypes[i].1;
          return;
        }
        i := i + 1;
      }
    }
  }

  /** The lookup returns the type of the first entry with the extension. */
  lemma {:induction false} MimeFirstMatch(ext: string, i: nat, k: nat)
    requires i <= k < |MimeTypes| && MimeTypes[k].0 == ext
    requires forall j :: i <= j < k ==> MimeTypes[j].0 != ext
    ensures MimeFrom(ext, i) == MimeTypes[k].1
    decreases k - i
  {
    if i < k {
      MimeFirstMatch(ext, i + 1, k);
    }
  }

  /** An extension found nowhere in the table gives the default type. */
  lemma {:induction false} MimeNoMatch(ext: string, i: nat)
    requires i <= |MimeTypes|
    requires forall j :: i <= j < |MimeTypes| ==> MimeTypes[j].0 != ext
    ensures MimeFrom(ext, i) == DEFAULT_MIME
    decreases |MimeTypes| - i
  {
    if i < |MimeTypes| {
      MimeNoMatch(ext, i + 1);
    }
  }

  /** Every type the lookup gives fits a FIELD_MAX field. */
  lemma {:induction false} MimeShort(ext: string, i: nat)
    requires i <= |MimeTypes|
    ensures |MimeFrom(ext, i)| < FIELD_MAX
    decreases |MimeTypes| - i
  {
    if i < |MimeTypes| && MimeTypes[i].0 != ext {
      MimeShort(ext, i + 1);
    }
  }

  /** Only the last extension counts, and a path without '.' is served as octet-stream. */
  lemma MimeExamples()
    ensures MimeOf("/a.tar.gz") == "application/x-gtar"
    ensures MimeOf("/index.html") == "text/html; charset=utf-8"
    ensures MimeOf("/README") == DEFAULT_MIME
  {
    LastDotIs("/a.tar.gz", 6);
    assert "/a.tar.gz"[7..] == "gz";
    MimeFirstMatch("gz", 0, 8);
    LastDotIs("/index.html", 6);
    assert "/index.html"[7..] == "html";
    assert LastDot("/README") == None;
  }

  // ---------------------------------------------------------------------
  // The formatted fields

  /** "%zd" of a size_t: values above LLONG_MAX print as negative numbers. */
  function Zd(v: nat): (r: string)
    requires v <= SIZE_MAX
  {
    if v <= LLONG_MAX then NatToString(v) else IntToString(v - SIZE_MOD)
  }

  /** Neither "%zu" nor "%zd" of a size_t needs more than 20 characters. */
  lemma NumberWidths(v: nat)
    requires v <= SIZE_MAX
    ensures |NatToString(v)| <= 20 && |Zd(v)| <= 20
  {
    Pow10Nineteen();
    assert Pow10(20) == 10 * Pow10(19);
    DigitCount(v, 20, Pow10(20));
    if v > LLONG_MAX {
      DigitCount(SIZE_MOD - v, 19, Pow10(19));
    }
  }

  function ContentRangeText(lower: nat, upper: nat, size: nat): string
    requires lower <= SIZE_MAX && upper <= SIZE_MAX
  {
    "bytes " + Zd(lower) + "-" + Zd(upper) + "/" + NatToString(size)
  }

  function UnsatisfiedText(size: nat): string
  {
    "bytes */" + NatToString(size)
  }

  /**
   * prepare_resp_http from handle_range on (lines 789-873). `path` and
   * `internalPath` are what the earlier steps left in the zeroed response.
   * A rejected range is a 500 with Content-Range "bytes *\/size" and the
   * type left at 0 (DIRLISTING); otherwise the file response gets
   * Accept-Ranges, Content-Length, Content-Range (only when the request had
   * a Range field), Content-Type and Last-Modified, and any formatting
   * failure falls back to prepare_err_resp_http with 500.
   */
  function RespTail(path: string, internalPath: string, range: string, size: nat,
                    readable: bool, stamp: Option<string>): (r: Response)
    requires size <= LLONG_MAX
  {
    var rg := RangeOf(range, size);
    var res := ZeroResponse.(path := path, internalPath := internalPath, lower := rg.lower, upper := rg.upper);
    if rg.status == STATUS_INTERNAL_SERVER_ERROR then
      var cr := Esnprintf(FIELD_MAX, UnsatisfiedText(size));
      if cr.failed then PrepareErrResponse(STATUS_INTERNAL_SERVER_ERROR)
      else res.(status := STATUS_INTERNAL_SERVER_ERROR, fields := res.fields[RES_CONTENT_RANGE := cr.text])
    else if rg.status != 0 then PrepareErrResponse(rg.status)
    else
      match FileFields(rg.lower, rg.upper, range != "", size, MimeOf(internalPath), stamp)
      case None => PrepareErrResponse(STATUS_INTERNAL_SERVER_ERROR)
      case Some(f) => res.(rtype := FILE, status := if readable then STATUS_OK else STATUS_FORBIDDEN, fields := f)
  }

  /**
   * The fields of a file response (lines 837-873), or None as soon as one
   * of them fails to format: Accept-Ranges, Content-Length, Content-Range
   * when `ranged`, Content-Type and Last-Modified.
   */
  function FileFields(lower: nat, upper: nat, ranged: bool, size: nat, mime: string,
                      stamp: Option<string>): Option<ResFields>
    requires lower <= SIZE_MAX && upper <= SIZE_MAX
  {
    var ar := Esnprintf(FIELD_MAX, "bytes");
    var cl := Esnprintf(FIELD_MAX, NatToString(SizeAdd(SizeSub(upper, lower), 1)));
    var cr := Esnprintf(FIELD_MAX, ContentRangeText(lower, upper, size));
    var ct := Esnprintf(FIELD_MAX, mime);
    if ar.failed || cl.failed || (ranged && cr.failed) || ct.failed || stamp.None? then None
    else
      var f := NoFields[RES_ACCEPT_RANGES := ar.text][RES_CONTENT_LENGTH := cl.text];
      var f' := if ranged then f[RES_CONTENT_RANGE := cr.text] else f;
      Some(f'[RES_CONTENT_TYPE := ct.text][RES_LAST_MODIFIED := stamp.value])
  }

  /** With numbers of at most 20 digits and a short type, every file field fits and holds its text. */
  lemma FileFieldsSet(lower: nat, upper: nat, ranged: bool, size: nat, mime: string, t: string)
    requires lower <= SIZE_MAX && upper <= SIZE_MAX && size <= SIZE_MAX && |mime| < FIELD_MAX
    ensures var f := FileFields(lower, upper, ranged, size, mime, Some(t));
      f.Some? &&
      f.value[RES_ACCEPT_RANGES] == "bytes" &&
      f.value[RES_CONTENT_LENGTH] == NatToString(SizeAdd(SizeSub(upper, lower), 1)) &&
      f.value[RES_CONTENT_RANGE] == (if ranged then ContentRangeText(lower, upper, size) else "") &&
      f.value[RES_CONTENT_TYPE] == mime &&
      f.value[RES_LAST_MODIFIED] == t &&
      f.value[RES_ALLOW] == "" && f.value[RES_LOCATION] == ""
  {
    NumberWidths(SizeAdd(SizeSub(upper, lower), 1));
    NumberWidths(lower);
    NumberWidths(upper);
    NumberWidths(size);
  }

  /** A rejected Range field: status 500, Content-Range "bytes *\/size", no other field, type still DIRLISTING. */
  lemma TailRangeRejected(path: string, internalPath: string, range: string, size: nat,
                          readable: bool, stamp: Option<string>)
    requires size <= LLONG_MAX
    requires RangeOf(range, size).status != 0
    ensures var r := RespTail(path, internalPath, range, size, readable, stamp);
      r.status == STATUS_INTERNAL_SERVER_ERROR && r.rtype == DIRLISTING &&
      r.fields == NoFields[RES_CONTENT_RANGE := UnsatisfiedText(size)] &&
      r.path == path && r.internalPath == internalPath
  {
    NumberWidths(size);
  }

  /**
   * An accepted range: a FILE response, 200 or 403 by access(), carrying
   * [lower, upper] from handle_range, Content-Length upper - lower + 1,
   * Content-Range only for a Range request, the MIME type of the internal
   * path and the time stamp; nothing else is set.
   */
  lemma TailServesFile(path: string, internalPath: string, range: string, size: nat,
                       readable: bool, t: string)
    requires 0 < size <= LLONG_MAX
    requires RangeOf(range, size).status == 0
    ensures var rg := RangeOf(range, size);
      var r := RespTail(path, internalPath, range, size, readable, Some(t));
      r.rtype == FILE && (r.status == STATUS_OK <==> readable) &&
      (!readable ==> r.status == STATUS_FORBIDDEN) &&
      r.lower == rg.lower && r.upper == rg.upper &&
      r.fields[RES_ACCEPT_RANGES] == "bytes" &&
      r.fields[RES_CONTENT_LENGTH] == NatToString(rg.upper + 1 - rg.lower) &&
      r.fields[RES_CONTENT_RANGE] == (if range == "" then "" else ContentRangeText(rg.lower, rg.upper, size)) &&
      r.fields[RES_CONTENT_TYPE] == MimeOf(internalPath) &&
      r.fields[RES_LAST_MODIFIED] == t &&
      r.fields[RES_ALLOW] == "" && r.fields[RES_LOCATION] == ""
  {
    var rg := RangeOf(range, size);
    ContentLengthCounts(range, size);
    MimeLength(internalPath);
    FileFieldsSet(rg.lower, rg.upper, range != "", size, MimeOf(internalPath), t);
  }

  /** A failing get_time_stamp turns an accepted range into prepare_err_resp_http's 500. */
  lemma TailStampFails(path: string, internalPath: string, range: string, size: nat, readable: bool)
    requires size <= LLONG_MAX
    requires RangeOf(range, size).status == 0
    ensures RespTail(path, internalPath, range, size, readable, None) == PrepareErrResponse(STATUS_INTERNAL_SERVER_ERROR)
  {
  }

  /** Without a Range field a non-empty file is sent whole: [0, size - 1] and Content-Length size. */
  lemma TailWholeFile(path: string, internalPath: string, size: nat, t: string)
    requires 0 < size <= LLONG_MAX
    ensures var r := RespTail(path, internalPath, "", size, true, Some(t));
      r.status == STATUS_OK && r.lower == 0 && r.upper == size - 1 &&
      r.fields[RES_CONTENT_LENGTH] == NatToString(size) && r.fields[RES_CONTENT_RANGE] == ""
  {
    TailServesFile(path, internalPath, "", size, true, t);
  }

  /**
   * "bytes=-5" on an empty file is accepted: upper is 0 - 1 wrapped to
   * SIZE_MAX, so Content-Length wraps to 0 and "%zd" prints the upper
   * bound as -1.
   */
  lemma TailEmptyFileSuffix(path: string, internalPath: string, t: string)
    ensures var r := RespTail(path, internalPath, "bytes=-5", 0, true, Some(t));
      r.status == STATUS_OK && r.lower == 0 && r.upper == SIZE_MAX &&
      r.fields[RES_CONTENT_LENGTH] == "0" &&
      r.fields[RES_CONTENT_RANGE] == "bytes 0--1/0"
  {
    NumText(5);
    SplitAt("", NatToString(5));
    assert NatToString(5) == "5";
    assert BYTES_UNIT + "" + "-" + NatToString(5) == "bytes=-5";
    assert RangeOf("bytes=-5", 0) == Range(0, 0, SIZE_MAX);
    assert Zd(SIZE_MAX) == "-1";
    assert Zd(0) == "0";
    assert NatToString(0) == "0";
    MimeLength(internalPath);
    FileFieldsSet(0, SIZE_MAX, true, 0, MimeOf(internalPath), t);
  }

  lemma MimeLength(path: string)
    ensures |MimeOf(path)| < FIELD_MAX
  {
    match LastDot(path) {
      case None =>
      case Some(d) => MimeShort(path[d + 1..], 0);
    }
  }
}
