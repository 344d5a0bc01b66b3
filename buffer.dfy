/**
 * The body producers of buffer.c: the HTML escaper, the ordering and
 * suffixes of directory entries, and the three producers that refill the
 * connection's buffer from a progress cursor. The scandir result, the file
 * bytes and fopen's outcome are inputs.
 */
module BodyBuffer {
  import opened Util
  import opened Http

  // ---------------------------------------------------------------------
  // html_escape

  /** The escape table of html_escape, searched in this order. */
  const Entities: seq<(char, string)> :=
    [('&', "&amp;"), ('<', "&lt;"), ('>', "&gt;"), ('"', "&quot;"), ('\'', "&#x27;")]

  /** The entity of the first table row from k on whose character is c. */
  function EntityFrom(c: char, k: nat): Option<string>
    requires k <= |Entities|
    decreases |Entities| - k
  {
    if k == |Entities| then None
    else if Entities[k].0 == c then Some(Entities[k].1)
    else EntityFrom(c, k + 1)
  }

  /** What one source character becomes. */
  function EscapeOf(c: char): (r: string)
    ensures c == '&' ==> r == "&amp;"
    ensures c == '<' ==> r == "&lt;"
    ensures c == '>' ==> r == "&gt;"
    ensures c == '"' ==> r == "&quot;"
    ensures c == '\'' ==> r == "&#x27;"
    ensures c !in {'&', '<', '>', '"', '\''} ==> r == [c]
    ensures 1 <= |r| <= 6
  {
    match EntityFrom(c, 0)
    case None => [c]
    case Some(e) => e
  }

  /** The whole text escaped. */
  function Escaped(s: string): string
  {
    if s == [] then [] else EscapeOf(s[0]) + Escaped(s[1..])
  }

  lemma {:induction false} EscapedAppend(s: string, t: string)
    ensures Escaped(s + t) == Escaped(s) + Escaped(t)
    decreases |s|
  {
    if s != [] {
      assert (s + t)[1..] == s[1..] + t;
      EscapedAppend(s[1..], t);
    } else {
      assert s + t == t;
    }
  }

  /** Escaping one more character appends its escape. */
  lemma EscapedStep(s: string, i: nat)
    requires i < |s|
    ensures Escaped(s[..i + 1]) == Escaped(s[..i]) + EscapeOf(s[i])
  {
    assert s[..i + 1] == s[..i] + [s[i]];
    EscapedAppend(s[..i], [s[i]]);
    assert Escaped([s[i]]) == EscapeOf(s[i]) + Escaped([]);
  }

  /**
   * How many source characters html_escape converts into a destination of
   * siz bytes, counting on from n: it stops at the first character whose
   * escape, with the NUL, no longer fits.
   */
  function FitCount(s: string, siz: nat, n: nat): (m: nat)
    requires n <= |s|
    ensures n <= m <= |s|
    decreases |s| - n
  {
    if n < |s| && |Escaped(s[..n + 1])| < siz then FitCount(s, siz, n + 1) else n
  }

  /** What html_escape leaves in a destination of siz bytes (before the NUL). */
  function EscapeWithin(s: string, siz: nat): string
  {
    Escaped(s[..FitCount(s, siz, 0)])
  }

  /**
   * The escaped prefix fits with its NUL and is as long as possible: either
   * all of s is escaped or the next character's escape would not fit.
   */
  lemma {:induction false} FitCountIsMaximal(s: string, siz: nat, n: nat)
    requires n <= |s| && |Escaped(s[..n])| < siz
    ensures var m := FitCount(s, siz, n);
      |Escaped(s[..m])| < siz && (m == |s| || |Escaped(s[..m + 1])| >= siz)
    decreases |s| - n
  {
    if n < |s| && |Escaped(s[..n + 1])| < siz {
      FitCountIsMaximal(s, siz, n + 1);
    }
  }

  /** When the whole escaped text and its NUL fit, nothing is cut. */
  lemma {:induction false} FitCountAll(s: string, siz: nat, n: nat)
    requires n <= |s| && |Escaped(s)| < siz
    ensures FitCount(s, siz, n) == |s|
    decreases |s| - n
  {
    if n < |s| {
      PrefixEscapeShorter(s, n + 1);
      FitCountAll(s, siz, n + 1);
    }
  }

  lemma PrefixEscapeShorter(s: string, n: nat)
    requires n <= |s|
    ensures |Escaped(s[..n])| <= |Escaped(s)|
  {
    assert s == s[..n] + s[n..];
    EscapedAppend(s[..n], s[n..]);
  }

  /** The escape lookup of html_escape: the inner loop over the table. */
  method FindEntity(c: char) returns (e: Option<string>)
    ensures e == EntityFrom(c, 0)
  {
    var k := 0;
    while k < |Entities|
      invariant k <= |Entities|
      invariant EntityFrom(c, 0) == EntityFrom(c, k)
    {
      if c == Entities[k].0 {
        return Some(Entities[k].1);
      }
      k := k + 1;
    }
    return None;
  }

  /**
   * One step of html_escape at output index j: the character's escape is
   * copied when it fits with a NUL after it, otherwise nothing is written.
   */
  method PutEscape(c: char, dst: array<char>, dstSiz: nat, j: nat) returns (j': nat, fit: bool)
    requires 6 <= dstSiz <= dst.Length && j < dstSiz
    modifies dst
    ensures fit <==> j + |EscapeOf(c)| < dstSiz
    ensures fit ==> j' == j + |EscapeOf(c)| && dst[..j'] == old(dst[..j]) + EscapeOf(c)
    ensures !fit ==> j' == j && dst[..] == old(dst[..])
    ensures forall k :: dstSiz <= k < dst.Length ==> dst[k] == old(dst[k])
  {
    var e := FindEntity(c);
    if e.None? {
      assert EscapeOf(c) == [c];
      if j == dstSiz - 1 {
        return j, false;
      }
      dst[j] := c;
      return j + 1, true;
    }
    var esc := e.value;
    assert EscapeOf(c) == esc;
    if j >= dstSiz - |esc| {
      return j, false;
    }
    forall k | 0 <= k < |esc| {
      dst[j + k] := esc[k];
    }
    assert dst[..j + |esc|] == old(dst[..j]) + esc;
    return j + |esc|, true;
  }

  /**
   * html_escape(src, dst, dstSiz): dst receives the longest escaped prefix
   * of src that fits with its NUL in dstSiz bytes, never a partial entity.
   * The callers pass at least PATH_MAX; below 6 bytes the unsigned
   * `dst_siz - esclen` would wrap and the copy would overrun dst.
   */
  method HtmlEscape(src: string, dst: array<char>, dstSiz: nat)
    requires 6 <= dstSiz <= dst.Length
    modifies dst
    ensures var out := EscapeWithin(src, dstSiz);
      |out| < dstSiz && dst[..|out|] == out && dst[|out|] == '\0'
    ensures forall k :: dstSiz <= k < dst.Length ==> dst[k] == old(dst[k])
  {
    var i := 0;
    var j := 0;
    while i < |src|
      invariant i <= |src|
      invariant j == |Escaped(src[..i])| < dstSiz
      invariant dst[..j] == Escaped(src[..i])
      invariant FitCount(src, dstSiz, i) == FitCount(src, dstSiz, 0)
      invariant forall k :: dstSiz <= k < dst.Length ==> dst[k] == old(dst[k])
    {
      EscapedStep(src, i);
      var fit;
      j, fit := PutEscape(src[i], dst, dstSiz, j);
      if !fit {
        break;
      }
      i := i + 1;
    }
    assert FitCount(src, dstSiz, i) == i;
    dst[j] := '\0';
  }

  /** Reading entities back: the inverse html_escape is built to allow. */
  function Unescape(t: string): string
    decreases |t|
  {
    if t == [] then []
    else if |t| >= 5 && t[..5] == "&amp;" then "&" + Unescape(t[5..])
    else if |t| >= 4 && t[..4] == "&lt;" then "<" + Unescape(t[4..])
    else if |t| >= 4 && t[..4] == "&gt;" then ">" + Unescape(t[4..])
    else if |t| >= 6 && t[..6] == "&quot;" then "\"" + Unescape(t[6..])
    else if |t| >= 6 && t[..6] == "&#x27;" then "'" + Unescape(t[6..])
    else [t[0]] + Unescape(t[1..])
  }

  lemma UnescapeOne(c: char, rest: string)
    ensures Unescape(EscapeOf(c) + rest) == [c] + Unescape(rest)
  {
    var t := EscapeOf(c) + rest;
    if c == '&' {
      assert t[..5] == "&amp;" && t[5..] == rest;
    } else if c == '<' {
      assert t[..4] == "&lt;" && t[4..] == rest;
    } else if c == '>' {
      assert t[..4] == "&gt;" && t[4..] == rest;
    } else if c == '"' {
      assert t[..6] == "&quot;" && t[6..] == rest;
    } else if c == '\'' {
      assert t[..6] == "&#x27;" && t[6..] == rest;
    } else {
      UnescapePlain(c, rest);
    }
  }

  /** A character that is not '&' starts no entity, so it is read back as itself. */
  lemma UnescapePlain(c: char, rest: string)
    requires c != '&'
    ensures Unescape([c] + rest) == [c] + Unescape(rest)
  {
    var t := [c] + rest;
    assert t[0] == c && t[1..] == rest;
    assert |t| >= 4 ==> t[..4][0] == c;
    assert |t| >= 5 ==> t[..5][0] == c;
    assert |t| >= 6 ==> t[..6][0] == c;
  }

  /** Escaping loses nothing: unescaping the escaped text gives the source back. */
  lemma {:induction false} EscapeRoundTrip(s: string)
    ensures Unescape(Escaped(s)) == s
    decreases |s|
  {
    if s != [] {
      UnescapeOne(s[0], Escaped(s[1..]));
      EscapeRoundTrip(s[1..]);
    }
  }

  /** The escaped text holds no markup character: '<', '>', '"' and '\'' never survive. */
  lemma {:induction false} EscapedIsInert(s: string)
    ensures forall k :: 0 <= k < |Escaped(s)| ==> Escaped(s)[k] !in {'<', '>', '"', '\''}
    decreases |s|
  {
    if s != [] {
      EscapedIsInert(s[1..]);
      var e := EscapeOf(s[0]);
      var t := Escaped(s[1..]);
      forall k | 0 <= k < |e + t| ensures (e + t)[k] !in {'<', '>', '"', '\''} {
        if k >= |e| {
          assert (e + t)[k] == t[k - |e|];
        }
      }
    }
  }

  // ---------------------------------------------------------------------
  // compareent and suffix

  /** The d_type values of <dirent.h> on Linux. */
  const DT_FIFO: int := 1
  const DT_DIR: int := 4
  const DT_REG: int := 8
  const DT_LNK: int := 10
  const DT_SOCK: int := 12

  /** A directory entry as scandir reports it. */
  datatype Entry = Entry(name: string, dtype: int)

  /** strcmp: the difference of the first differing bytes, the end of a string counting as 0. */
  function Strcmp(a: string, b: string): int
    decreases |a|
  {
    if a == [] && b == [] then 0
    else if a == [] || b == [] || a[0] != b[0] then
      (if a == [] then 0 else a[0] as int) - (if b == [] then 0 else b[0] as int)
    else Strcmp(a[1..], b[1..])
  }

  /** strcmp is 0 exactly on equal strings (of bytes other than NUL) and swaps sign with its arguments. */
  lemma {:induction false} StrcmpOrder(a: string, b: string)
    requires '\0' !in a && '\0' !in b
    ensures Strcmp(a, b) == 0 <==> a == b
    ensures Strcmp(a, b) == -Strcmp(b, a)
    decreases |a|
  {
    if a != [] && b != [] && a[0] == b[0] {
      StrcmpOrder(a[1..], b[1..]);
      if a[1..] == b[1..] {
        assert a == [a[0]] + a[1..] && b == [b[0]] + b[1..];
      }
    } else if a == [] && b != [] {
      assert b[0] != '\0';
    } else if a != [] && b == [] {
      assert a[0] != '\0';
    }
  }

  /** strcmp orders transitively. */
  lemma {:induction false} StrcmpTransitive(a: string, b: string, c: string)
    requires Strcmp(a, b) < 0 && Strcmp(b, c) < 0
    ensures Strcmp(a, c) < 0
    decreases |a|
  {
    if a != [] && b != [] && c != [] && a[0] == b[0] && b[0] == c[0] {
      StrcmpTransitive(a[1..], b[1..], c[1..]);
    }
  }

  /** compareent: directories sort before everything else, then names by strcmp. */
  function CompareEnt(d1: Entry, d2: Entry): int
  {
    var v := (if d2.dtype == DT_DIR then 1 else -1) - (if d1.dtype == DT_DIR then 1 else -1);
    if v != 0 then v else Strcmp(d1.name, d2.name)
  }

  /** A directory always comes before a non-directory, whatever the names. */
  lemma DirectoriesFirst(d1: Entry, d2: Entry)
    requires d1.dtype == DT_DIR && d2.dtype != DT_DIR
    ensures CompareEnt(d1, d2) < 0 && CompareEnt(d2, d1) > 0
  {
  }

  /**
   * compareent is a total order on entries with NUL-free names: it swaps
   * sign with its arguments, is 0 only for the same directory-ness and name,
   * and is transitive, so scandir's sort is well defined.
   */
  lemma CompareEntOrder(d1: Entry, d2: Entry, d3: Entry)
    requires '\0' !in d1.name && '\0' !in d2.name
    ensures CompareEnt(d1, d2) == -CompareEnt(d2, d1)
    ensures CompareEnt(d1, d2) == 0 <==> (d1.dtype == DT_DIR <==> d2.dtype == DT_DIR) && d1.name == d2.name
    ensures CompareEnt(d1, d2) < 0 && CompareEnt(d2, d3) < 0 ==> CompareEnt(d1, d3) < 0
  {
    StrcmpOrder(d1.name, d2.name);
    if CompareEnt(d1, d2) < 0 && CompareEnt(d2, d3) < 0 {
      if (d1.dtype == DT_DIR) == (d2.dtype == DT_DIR) == (d3.dtype == DT_DIR) {
        StrcmpTransitive(d1.name, d2.name, d3.name);
      }
    }
  }

  /** suffix: the ls -F style mark after an entry's name. */
  function Suffix(t: int): (r: string)
    ensures t == DT_FIFO <==> r == "|"
    ensures t == DT_DIR <==> r == "/"
    ensures t == DT_LNK <==> r == "@"
    ensures t == DT_SOCK <==> r == "="
    ensures t !in {DT_FIFO, DT_DIR, DT_LNK, DT_SOCK} <==> r == ""
  {
    if t == DT_FIFO then "|"
    else if t == DT_DIR then "/"
    else if t == DT_LNK then "@"
    else if t == DT_SOCK then "="
    else ""
  }

  // ---------------------------------------------------------------------
  // data_fct

  /** The three producers a response type can select. */
  datatype Producer = DirListingProducer | ErrorProducer | FileProducer

  /** data_fct: the producer table indexed by the response type. */
  function DataFct(t: ResType): (p: Producer)
    ensures t == DIRLISTING <==> p == DirListingProducer
    ensures t == ERROR <==> p == ErrorProducer
    ensures t == FILE <==> p == FileProducer
  {
    match t
    case DIRLISTING => DirListingProducer
    case ERROR => ErrorProducer
    case FILE => FileProducer
  }

  // ---------------------------------------------------------------------
  // prepare_error_buffer

  /** The error page for a status; a status without a reason phrase shows "(null)". */
  function ErrorPage(status: int): string
  {
    "<!DOCTYPE html>\n<html>\n\t<head>\n\t\t<title>" + IntToString(status) + " " + StatusText(status) +
    "</title>\n\t</head>\n\t<body>\n\t\t<h1>" + IntToString(status) + " " + StatusText(status) +
    "</h1>\n\t</body>\n</html>\n"
  }

  /**
   * prepare_error_buffer: the buffer is cleared; only at progress 0 is the
   * page appended, and progress then becomes 1, so the page is produced
   * once and the next call leaves the buffer empty.
   */
  method PrepareErrorBuffer(res: Response, buf: Buffer, progress: nat) returns (s: int, progress': nat)
    requires buf.Valid()
    modifies buf, buf.data
    ensures buf.Valid()
    ensures progress != 0 ==> s == 0 && progress' == progress && buf.Contents() == []
    ensures progress == 0 ==> (s == 0 <==> |ErrorPage(res.status)| < BUFFER_SIZE)
    ensures progress == 0 && s == 0 ==> progress' == 1 && buf.Contents() == ErrorPage(res.status)
    ensures progress == 0 && s != 0 ==> s == STATUS_INTERNAL_SERVER_ERROR && progress' == 0 && buf.Contents() == []
  {
    buf.Zero();
    if progress == 0 {
      var err := buf.Append(ErrorPage(res.status));
      if err != 0 {
        return STATUS_INTERNAL_SERVER_ERROR, progress;
      }
      return 0, progress + 1;
    }
    return 0, progress;
  }

  /** Every page the server produces (a three-digit status) fits in the buffer. */
  lemma ErrorPageFits(status: int)
    requires 100 <= status < 1000
    ensures |ErrorPage(status)| < BUFFER_SIZE
  {
    assert |IntToString(status)| == 3 by {
      assert IntToString(status) == NatToString(status / 10) + [DigitChar(status % 10)];
      assert NatToString(status / 10) == NatToString(status / 100) + [DigitChar(status / 10 % 10)];
    }
  }

  // ---------------------------------------------------------------------
  // prepare_file_buffer

  /** fread from offset pos of the file: up to n bytes, fewer at its end. */
  function ReadAt(file: seq<char>, pos: nat, n: nat): (r: seq<char>)
    ensures |r| <= n
    ensures pos < |file| ==> r == file[pos..pos + Min(n, |file| - pos)]
    ensures pos >= |file| ==> r == []
  {
    if pos >= |file| then [] else file[pos..pos + Min(n, |file| - pos)]
  }

  /** The file offset fseek is given: lower + progress in size_t. */
  function FileOffset(lower: nat, progress: nat): nat
    requires lower <= SIZE_MAX && progress <= SIZE_MAX
  {
    SizeAdd(lower, progress)
  }

  /** The bytes still owed: upper - lower + 1 - progress in size_t. */
  function Remaining(lower: nat, upper: nat, progress: nat): nat
    requires lower <= SIZE_MAX && upper <= SIZE_MAX && progress <= SIZE_MAX
  {
    SizeSub(SizeAdd(SizeSub(upper, lower), 1), progress)
  }

  /** What one call of prepare_file_buffer leaves in the buffer. */
  function FileChunk(file: seq<char>, lower: nat, upper: nat, progress: nat): (r: seq<char>)
    requires lower <= SIZE_MAX && upper <= SIZE_MAX && progress <= SIZE_MAX
    ensures |r| <= BUFFER_SIZE && |r| <= Remaining(lower, upper, progress)
  {
    ReadAt(file, FileOffset(lower, progress), Min(BUFFER_SIZE, Remaining(lower, upper, progress)))
  }

  lemma ReadMore(file: seq<char>, pos: nat, len: nat, n: nat, r: seq<char>)
    requires len <= n && r == ReadAt(file, pos + len, n - len)
    ensures ReadAt(file, pos, len) + r == ReadAt(file, pos, len + |r|)
    ensures r == [] ==> ReadAt(file, pos, len) == ReadAt(file, pos, n)
  {
  }

  lemma SizeAddMore(p: nat, a: nat, b: nat)
    requires p <= SIZE_MAX && a + b <= SIZE_MAX
    ensures SizeAdd(SizeAdd(p, a), b) == SizeAdd(p, a + b)
  {
  }

  /**
   * prepare_file_buffer: the buffer is cleared; a failed fopen is 403 and a
   * failed fseek (an offset beyond LONG_MAX) 500; otherwise fread fills the
   * buffer from lower + progress with at most the bytes still owed, and
   * progress grows by exactly the bytes read.
   */
  method PrepareFileBuffer(res: Response, buf: Buffer, progress: nat, file: Option<seq<char>>)
    returns (s: int, progress': nat)
    requires buf.Valid()
    requires res.lower <= SIZE_MAX && res.upper <= SIZE_MAX && progress <= SIZE_MAX
    modifies buf, buf.data
    ensures buf.Valid()
    ensures file.None? ==> s == STATUS_FORBIDDEN && progress' == progress && buf.Contents() == []
    ensures file.Some? && FileOffset(res.lower, progress) > LLONG_MAX ==>
      s == STATUS_INTERNAL_SERVER_ERROR && progress' == progress && buf.Contents() == []
    ensures file.Some? && FileOffset(res.lower, progress) <= LLONG_MAX ==>
      s == 0 && buf.Contents() == FileChunk(file.value, res.lower, res.upper, progress) &&
      progress' == SizeAdd(progress, |buf.Contents()|)
  {
    buf.Zero();
    if file.None? {
      return STATUS_FORBIDDEN, progress;
    }
    var f := file.value;
    var pos := FileOffset(res.lower, progress);
    if pos > LLONG_MAX {
      return STATUS_INTERNAL_SERVER_ERROR, progress;
    }
    var total := Remaining(res.lower, res.upper, progress);
    ghost var n := Min(BUFFER_SIZE, total);
    var remaining := total;
    progress' := progress;
    var r := ReadAt(f, pos, Min(BUFFER_SIZE - buf.length, remaining));
    while |r| > 0
      invariant buf.Valid() && buf.length <= n
      invariant buf.Contents() == ReadAt(f, pos, buf.length)
      invariant remaining == total - buf.length
      invariant progress' == SizeAdd(progress, buf.length)
      invariant r == ReadAt(f, pos + buf.length, n - buf.length)
      decreases BUFFER_SIZE - buf.length
    {
      ReadMore(f, pos, buf.length, n, r);
      SizeAddMore(progress, buf.length, |r|);
      buf.Put(r);
      progress' := SizeAdd(progress', |r|);
      remaining := remaining - |r|;
      r := ReadAt(f, pos + buf.length, Min(BUFFER_SIZE - buf.length, remaining));
    }
    ReadMore(f, pos, buf.length, n, r);
    return 0, progress';
  }

  /**
   * The body the connection sends for a file response: prepare_file_buffer
   * called again with the grown progress each time the buffer has been
   * drained, until a call leaves the buffer empty.
   */
  ghost function FileStream(file: seq<char>, lower: nat, upper: nat, progress: nat): seq<char>
    requires lower <= upper + 1 && upper < LLONG_MAX && progress <= upper + 1 - lower
    decreases upper + 1 - lower - progress
  {
    var c := FileChunk(file, lower, upper, progress);
    if c == [] then [] else c + FileStream(file, lower, upper, progress + |c|)
  }

  /** Without wrap-around, one chunk is the next bytes of the file from lower + progress. */
  lemma ChunkShape(file: seq<char>, lower: nat, upper: nat, progress: nat)
    requires lower <= upper + 1 && upper < LLONG_MAX && progress <= upper + 1 - lower
    ensures var c := FileChunk(file, lower, upper, progress);
      var o := lower + progress;
      (o >= |file| ==> c == []) &&
      (o < |file| ==> c == file[o..o + Min(Min(BUFFER_SIZE, upper + 1 - o), |file| - o)])
  {
    assert FileOffset(lower, progress) == lower + progress;
    assert Remaining(lower, upper, progress) == upper + 1 - lower - progress;
  }

  /**
   * Streaming a range [lower, upper] sends exactly those bytes of the file,
   * cut short only by the end of the file.
   */
  lemma {:induction false} FileStreamSendsRange(file: seq<char>, lower: nat, upper: nat, progress: nat)
    requires lower <= upper + 1 && upper < LLONG_MAX && progress <= upper + 1 - lower
    ensures FileStream(file, lower, upper, progress) ==
      file[Min(lower + progress, |file|)..Min(upper + 1, |file|)]
    decreases upper + 1 - lower - progress
  {
    var c := FileChunk(file, lower, upper, progress);
    ChunkSlice(file, lower, upper, progress);
    StreamStep(file, lower, upper, progress);
    if c != [] {
      FileStreamSendsRange(file, lower, upper, progress + |c|);
      SliceJoin(file, lower + progress, lower + progress + |c|, Min(upper + 1, |file|));
    }
  }

  /** One chunk of the stream, then the stream from the grown progress. */
  lemma StreamStep(file: seq<char>, lower: nat, upper: nat, progress: nat)
    requires lower <= upper + 1 && upper < LLONG_MAX && progress <= upper + 1 - lower
    ensures var c := FileChunk(file, lower, upper, progress);
      (c == [] ==> FileStream(file, lower, upper, progress) == []) &&
      (c != [] ==> progress + |c| <= upper + 1 - lower &&
                   FileStream(file, lower, upper, progress) == c + FileStream(file, lower, upper, progress + |c|))
  {
  }

  /** A chunk is the next bytes of the file from lower + progress, within the range and the file. */
  lemma ChunkSlice(file: seq<char>, lower: nat, upper: nat, progress: nat)
    requires lower <= upper + 1 && upper < LLONG_MAX && progress <= upper + 1 - lower
    ensures var c := FileChunk(file, lower, upper, progress);
      var o := lower + progress;
      (c == [] ==> Min(o, |file|) == Min(upper + 1, |file|)) &&
      (c != [] ==> o + |c| <= Min(upper + 1, |file|) && c == file[o..o + |c|])
  {
    ChunkShape(file, lower, upper, progress);
  }

  /** A slice is its first part followed by the rest. */
  lemma SliceJoin(s: seq<char>, i: nat, j: nat, k: nat)
    requires i <= j <= k <= |s|
    ensures s[i..k] == s[i..j] + s[j..k]
  {
  }

  // ---------------------------------------------------------------------
  // prepare_dir_listing_buffer

  /** The size of the escape buffers of prepare_dir_listing_buffer. */
  const ESC_SIZE: nat := PATH_MAX * 10

  function ListingHeader(path: string): string
  {
    "<!DOCTYPE html>\n<html>\n\t<head><title>Index of " + EscapeWithin(path, PATH_MAX) +
    "</title></head>\n\t<body>\n\t\t<a href=\"..\">..</a>"
  }

  const ListingFooter: string := "\n\t</body>\n</html>\n"

  /** One listing line: a link to the directory path plus the name, then the escaped name and its suffix. */
  function EntryLine(dir: string, e: Entry): string
  {
    "<br />\n\t\t<a href=\"" + EscapeWithin(dir + e.name, ESC_SIZE) + (if e.dtype == DT_DIR then "/" else "") +
    "\">" + EscapeWithin(e.name, ESC_SIZE) + Suffix(e.dtype) + "</a>"
  }

  predicate Hidden(e: Entry)
  {
    |e.name| > 0 && e.name[0] == '.'
  }

  /** The line an entry contributes, or None for a hidden ('.'-prefixed) entry. */
  function LineOf(dir: string, e: Entry): Option<string>
  {
    if Hidden(e) then None else Some(EntryLine(dir, e))
  }

  /** The lines of a listing, entry by entry. */
  function LinesOf(dir: string, es: seq<Entry>): (ls: seq<Option<string>>)
    ensures |ls| == |es| && forall k :: 0 <= k < |es| ==> ls[k] == LineOf(dir, es[k])
  {
    seq(|es|, k requires 0 <= k < |es| => LineOf(dir, es[k]))
  }

  /**
   * The entry loop from index i over a buffer holding acc: hidden entries
   * (None) are skipped, each other line is appended while it fits with its
   * NUL, and the loop stops at the first line that does not; the result is
   * the new contents and the index reached.
   */
  function ListFrom(ls: seq<Option<string>>, i: nat, acc: seq<char>): (r: (seq<char>, nat))
    decreases |ls| - i
  {
    if i >= |ls| then (acc, i)
    else match ls[i]
      case None => ListFrom(ls, i + 1, acc)
      case Some(line) =>
        if |acc| + |line| < BUFFER_SIZE then ListFrom(ls, i + 1, acc + line) else (acc, i)
  }

  /** The text of the lines ls[i..j], hidden entries contributing nothing. */
  function Lines(ls: seq<Option<string>>, i: nat, j: nat): string
    requires i <= j <= |ls|
    decreases j - i
  {
    if i == j then []
    else match ls[i]
      case None => Lines(ls, i + 1, j)
      case Some(line) => line + Lines(ls, i + 1, j)
  }

  /**
   * What the entry loop appends: the lines of every visible entry from i up
   * to the index it stops at, which is the end of the list or a visible
   * entry whose line no longer fits.
   */
  lemma {:induction false} ListFromAppendsLines(ls: seq<Option<string>>, i: nat, acc: seq<char>)
    requires i <= |ls|
    ensures var r := ListFrom(ls, i, acc);
      i <= r.1 <= |ls| && r.0 == acc + Lines(ls, i, r.1) &&
      (r.1 < |ls| ==> ls[r.1].Some? && |r.0| + |ls[r.1].value| >= BUFFER_SIZE)
    decreases |ls| - i
  {
    if i < |ls| {
      match ls[i]
      case None =>
        ListFromAppendsLines(ls, i + 1, acc);
      case Some(line) =>
        if |acc| + |line| < BUFFER_SIZE {
          ListFromAppendsLines(ls, i + 1, acc + line);
          assert acc + line + Lines(ls, i + 1, ListFrom(ls, i + 1, acc + line).1) ==
            acc + (line + Lines(ls, i + 1, ListFrom(ls, i + 1, acc + line).1));
        }
    }
  }

  /**
   * One call of prepare_dir_listing_buffer on a sorted entry list: at
   * progress 0 the header goes first; the entry loop runs from progress;
   * progress becomes the index it stopped at, and when that is the end of
   * the list the footer is appended and progress moves one past it. The
   * footer's append is checked with `< 0`, so when it does not fit it is
   * silently dropped and progress still moves on.
   */
  function ListingCall(dir: string, path: string, es: seq<Entry>, progress: nat): (r: (seq<char>, nat))
  {
    var head := if progress == 0 && |ListingHeader(path)| < BUFFER_SIZE then ListingHeader(path) else [];
    var l := ListFrom(LinesOf(dir, es), progress, head);
    if l.1 == |es| then
      (if |l.0| + |ListingFooter| < BUFFER_SIZE then l.0 + ListingFooter else l.0, l.1 + 1)
    else l
  }

  /**
   * The entry loop of prepare_dir_listing_buffer, appending into buf. The
   * escaping of names and paths is html_escape's result (EscapeWithin).
   */
  method ListEntries(dir: string, es: seq<Entry>, progress: nat, buf: Buffer) returns (i: nat)
    requires buf.Valid()
    modifies buf, buf.data
    ensures buf.Valid()
    ensures (buf.Contents(), i) == ListFrom(LinesOf(dir, es), progress, old(buf.Contents()))
  {
    ghost var ls := LinesOf(dir, es);
    i := progress;
    while i < |es|
      invariant buf.Valid()
      invariant ListFrom(ls, i, buf.Contents()) == ListFrom(ls, progress, old(buf.Contents()))
      decreases |es| - i
    {
      if Hidden(es[i]) {
        assert ls[i] == None;
        i := i + 1;
        continue;
      }
      assert ls[i] == Some(EntryLine(dir, es[i]));
      var err := buf.Append(EntryLine(dir, es[i]));
      if err != 0 {
        break;
      }
      i := i + 1;
    }
  }

  /**
   * prepare_dir_listing_buffer: the buffer is cleared; a failed scandir is
   * 403 with nothing produced; otherwise one ListingCall step.
   */
  method PrepareDirListingBuffer(res: Response, buf: Buffer, progress: nat, entries: Option<seq<Entry>>)
    returns (s: int, progress': nat)
    requires buf.Valid()
    modifies buf, buf.data
    ensures buf.Valid()
    ensures entries.None? ==> s == STATUS_FORBIDDEN && progress' == progress && buf.Contents() == []
    ensures entries.Some? ==>
      s == 0 && (buf.Contents(), progress') == ListingCall(res.internalPath, res.path, entries.value, progress)
  {
    buf.Zero();
    if entries.None? {
      return STATUS_FORBIDDEN, progress;
    }
    var es := entries.value;
    if progress == 0 {
      var ignored := buf.Append(ListingHeader(res.path));
    }
    assert buf.Contents() ==
      if progress == 0 && |ListingHeader(res.path)| < BUFFER_SIZE then ListingHeader(res.path) else [];
    progress' := ListEntries(res.internalPath, es, progress, buf);
    if progress' == |es| {
      var ignored := buf.Append(ListingFooter);
      progress' := progress' + 1;
    }
    return 0, progress';
  }

  /** The header always fits: the escaped path is cut to fewer than PATH_MAX bytes. */
  lemma ListingHeaderFits(path: string)
    ensures |ListingHeader(path)| < BUFFER_SIZE
  {
    assert path[..0] == [];
    FitCountIsMaximal(path, PATH_MAX, 0);
  }

  /**
   * A call from a progress inside the list: the header (at progress 0),
   * then the lines of the visible entries from progress on. Either the
   * loop stopped at a visible entry whose line no longer fits, and progress
   * is that entry's index, or every line went in, the footer follows if it
   * fits, and progress is one past the end.
   */
  lemma ListingCallEmits(dir: string, path: string, es: seq<Entry>, progress: nat)
    requires progress <= |es|
    ensures var r := ListingCall(dir, path, es, progress);
      var ls := LinesOf(dir, es);
      var head := if progress == 0 then ListingHeader(path) else [];
      progress <= r.1 <= |es| + 1 &&
      (r.1 <= |es| ==> r.1 < |es| && r.0 == head + Lines(ls, progress, r.1) &&
                       ls[r.1].Some? && |r.0| + |ls[r.1].value| >= BUFFER_SIZE) &&
      (r.1 == |es| + 1 ==>
        var body := head + Lines(ls, progress, |es|);
        r.0 == body + (if |body| + |ListingFooter| < BUFFER_SIZE then ListingFooter else []))
  {
    ListingHeaderFits(path);
    var head := if progress == 0 then ListingHeader(path) else [];
    ListFromAppendsLines(LinesOf(dir, es), progress, head);
  }

  /** Past the footer a call produces nothing and keeps progress, which ends the body. */
  lemma ListingDone(dir: string, path: string, es: seq<Entry>, progress: nat)
    requires progress > |es|
    ensures ListingCall(dir, path, es, progress) == ([], progress)
  {
  }

  lemma {:induction false} EscapedAmpersands(s: string)
    requires forall k :: 0 <= k < |s| ==> s[k] == '&'
    ensures |Escaped(s)| == 5 * |s|
    decreases |s|
  {
    if s != [] {
      EscapedAmpersands(s[1..]);
    }
  }

  /**
   * At progress 0 a first visible line that does not fit after the header
   * leaves progress at 0: the call returns the header alone, and every later
   * call returns it again, so the body never ends. Here the directory path
   * is 1700 '&' characters, each escaped to "&amp;".
   */
  lemma ListingHeaderRepeats()
    ensures var dir := seq(1700, _ => '&');
      ListingCall(dir, "/", [Entry("-x", DT_DIR)], 0) == (ListingHeader("/"), 0)
  {
    var dir: string := seq(1700, _ => '&');
    var e := Entry("-x", DT_DIR);
    EscapedAmpersands(dir);
    EscapedAppend(dir, e.name);
    FitCountAll(dir + e.name, ESC_SIZE, 0);
    assert (dir + e.name)[..|dir + e.name|] == dir + e.name;
    assert |EntryLine(dir, e)| > 8500;
    FitCountAll("/", PATH_MAX, 0);
    assert "/"[..1] == "/";
    assert |ListingHeader("/")| < 200;
    assert !Hidden(e);
    var ls := LinesOf(dir, [e]);
    assert ls[0] == Some(EntryLine(dir, e));
    assert ListFrom(ls, 0, ListingHeader("/")) == (ListingHeader("/"), 0);
  }

  /** Every append of the entry loop is checked against the capacity, so the text stays below it. */
  lemma {:induction false} ListFromShort(ls: seq<Option<string>>, i: nat, acc: seq<char>)
    requires |acc| < BUFFER_SIZE
    ensures |ListFrom(ls, i, acc).0| < BUFFER_SIZE
    decreases |ls| - i
  {
    if i < |ls| {
      match ls[i]
      case None => ListFromShort(ls, i + 1, acc);
      case Some(line) =>
        if |acc| + |line| < BUFFER_SIZE {
          ListFromShort(ls, i + 1, acc + line);
        }
    }
  }

  // ---------------------------------------------------------------------
  // The data_fct dispatch

  /** What one producer call reports: its status, the buffer contents and the new progress. */
  datatype Produced = Produced(status: int, body: seq<char>, progress: nat)

  /** scandir returns the entry count as an int. */
  const INT_MAX: nat := 0x7FFF_FFFF

  /**
   * One call of producer p at the given progress, with fopen's outcome and
   * the file bytes, and scandir's outcome and the sorted entries, as inputs.
   */
  function Produce(p: Producer, res: Response, progress: nat, file: Option<seq<char>>,
                   entries: Option<seq<Entry>>): (r: Produced)
    requires res.lower <= SIZE_MAX && res.upper <= SIZE_MAX && progress <= SIZE_MAX
    requires entries.Some? ==> |entries.value| <= INT_MAX
    ensures r.status in {0, STATUS_FORBIDDEN, STATUS_INTERNAL_SERVER_ERROR}
    ensures r.status != 0 ==> r.body == []
    ensures |r.body| <= BUFFER_SIZE && r.progress <= SIZE_MAX
  {
    match p
    case ErrorProducer =>
      if progress != 0 then Produced(0, [], progress)
      else if |ErrorPage(res.status)| < BUFFER_SIZE then Produced(0, ErrorPage(res.status), 1)
      else Produced(STATUS_INTERNAL_SERVER_ERROR, [], 0)
    case FileProducer =>
      if file.None? then Produced(STATUS_FORBIDDEN, [], progress)
      else if FileOffset(res.lower, progress) > LLONG_MAX then Produced(STATUS_INTERNAL_SERVER_ERROR, [], progress)
      else
        var chunk := FileChunk(file.value, res.lower, res.upper, progress);
        Produced(0, chunk, SizeAdd(progress, |chunk|))
    case DirListingProducer =>
      if entries.None? then Produced(STATUS_FORBIDDEN, [], progress)
      else
        var l := ListingCall(res.internalPath, res.path, entries.value, progress);
        ListingCallBounds(res.internalPath, res.path, entries.value, progress);
        Produced(0, l.0, l.1)
  }

  /** A listing call stays below the capacity and moves progress at most one past the list. */
  lemma ListingCallBounds(dir: string, path: string, es: seq<Entry>, progress: nat)
    ensures var r := ListingCall(dir, path, es, progress);
      |r.0| < BUFFER_SIZE && r.1 <= if progress > |es| then progress else |es| + 1
  {
    if progress > |es| {
      ListingDone(dir, path, es, progress);
    } else {
      ListingCallEmits(dir, path, es, progress);
      ListingHeaderFits(path);
      var head := if progress == 0 && |ListingHeader(path)| < BUFFER_SIZE then ListingHeader(path) else [];
      ListFromShort(LinesOf(dir, es), progress, head);
    }
  }

  /**
   * data_fct[res.rtype](res, buf, progress): run the producer the response
   * type selects.
   */
  method Fill(res: Response, buf: Buffer, progress: nat, file: Option<seq<char>>, entries: Option<seq<Entry>>)
    returns (s: int, progress': nat)
    requires buf.Valid()
    requires res.lower <= SIZE_MAX && res.upper <= SIZE_MAX && progress <= SIZE_MAX
    requires entries.Some? ==> |entries.value| <= INT_MAX
    modifies buf, buf.data
    ensures buf.Valid()
    ensures Produced(s, buf.Contents(), progress') == Produce(DataFct(res.rtype), res, progress, file, entries)
  {
    match res.rtype
    case DIRLISTING =>
      s, progress' := PrepareDirListingBuffer(res, buf, progress, entries);
    case ERROR =>
      s, progress' := PrepareErrorBuffer(res, buf, progress);
    case FILE =>
      s, progress' := PrepareFileBuffer(res, buf, progress, file);
  }

  /**
   * The error body is sent once: at progress 0 the page (a three-digit
   * status always fits) with progress 1, and from then on nothing, which
   * ends the body.
   */
  lemma ErrorBodyOnce(res: Response, file: Option<seq<char>>, entries: Option<seq<Entry>>)
    requires 100 <= res.status < 1000 && res.lower <= SIZE_MAX && res.upper <= SIZE_MAX
    requires entries.Some? ==> |entries.value| <= INT_MAX
    ensures Produce(ErrorProducer, res, 0, file, entries) == Produced(0, ErrorPage(res.status), 1)
    ensures Produce(ErrorProducer, res, 1, file, entries) == Produced(0, [], 1)
  {
    ErrorPageFits(res.status);
  }
}
