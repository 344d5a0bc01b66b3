/**
 * Buffer and string utilities (util.c, util.h, configuration.h).
 *
 * A byte is modelled as a `char`; a C string is a NUL-free `string`, and an
 * array that stores a C string is read through `CString`.
 */
module Util {

  datatype Option<+T> = None | Some(value: T)

  const BUFFER_SIZE: nat := 8192      // configuration.h
  const FIELD_MAX: nat := 200         // configuration.h
  const PATH_MAX: nat := 4096         // <limits.h> on Linux
  const SIZE_MAX: nat := 0xFFFF_FFFF_FFFF_FFFF
  const SIZE_MOD: nat := 0x1_0000_0000_0000_0000
  const LLONG_MAX: int := 0x7FFF_FFFF_FFFF_FFFF
  const LLONG_MIN: int := -0x8000_0000_0000_0000

  /** Unsigned (size_t) subtraction, wrapping modulo 2^64. */
  function SizeSub(a: nat, b: nat): (r: nat)
    requires a <= SIZE_MAX && b <= SIZE_MAX
    ensures r <= SIZE_MAX
    ensures b <= a ==> r == a - b
    ensures a < b ==> r == SIZE_MOD + a - b
  {
    if b <= a then a - b else SIZE_MOD + a - b
  }

  /** Unsigned (size_t) addition, wrapping modulo 2^64. */
  function SizeAdd(a: nat, b: nat): (r: nat)
    requires a <= SIZE_MAX && b <= SIZE_MAX
    ensures r <= SIZE_MAX
    ensures a + b <= SIZE_MAX ==> r == a + b
    ensures a + b > SIZE_MAX ==> r == a + b - SIZE_MOD
  {
    if a + b <= SIZE_MAX then a + b else a + b - SIZE_MOD
  }

  /** strlen: the index of the first NUL, or |s| when there is none. */
  function CStrLen(s: seq<char>): (n: nat)
    ensures n <= |s|
    ensures forall k :: 0 <= k < n ==> s[k] != '\0'
    ensures n < |s| ==> s[n] == '\0'
  {
    if s == [] || s[0] == '\0' then 0 else 1 + CStrLen(s[1..])
  }

  /** The C string stored at the start of s. */
  function CString(s: seq<char>): (r: string)
    ensures '\0' !in r
  {
    s[..CStrLen(s)]
  }

  /**
   * The bytes of a size_t n below 2^16 as a C string reads them on an
   * LP64 little-endian target: the low byte first, up to the first zero
   * byte.
   */
  function SizeLowBytes(n: nat): (r: string)
    requires n < 0x1_0000
    ensures '\0' !in r
  {
    var lo := n % 256;
    var hi := n / 256;
    if lo == 0 then [] else if hi == 0 then [lo as char] else [lo as char, hi as char]
  }

  /** A NUL right after a NUL-free text ends the C string there. */
  lemma {:induction false} CStringOfTerminated(s: seq<char>, t: string)
    requires '\0' !in t
    requires |t| < |s| && s[..|t|] == t && s[|t|] == '\0'
    ensures CStrLen(s) == |t| && CString(s) == t
  {
    if t != [] {
      assert s[0] == t[0];
      assert s[1..][..|t| - 1] == t[1..];
      CStringOfTerminated(s[1..], t[1..]);
    }
  }

  /** The C string of a sequence depends only on its bytes up to and including the first NUL. */
  lemma {:induction false} CStringOfPrefix(s: seq<char>, n: nat)
    requires CStrLen(s) < n <= |s|
    ensures CStrLen(s[..n]) == CStrLen(s) && CString(s[..n]) == CString(s)
  {
    if s[0] != '\0' {
      assert s[..n][1..] == s[1..][..n - 1];
      CStringOfPrefix(s[1..], n - 1);
    }
  }

  /** A NUL right after the first |d| bytes: the C string is that of d (d may hold a NUL itself). */
  lemma {:induction false} CStringThroughNul(s: seq<char>, d: seq<char>)
    requires |d| < |s| && s[..|d|] == d && s[|d|] == '\0'
    ensures CString(s) == CString(d)
  {
    if d != [] && d[0] != '\0' {
      assert s[1..][..|d| - 1] == d[1..];
      CStringThroughNul(s[1..], d[1..]);
    }
  }

  /**
   * struct my_buffer: a fixed array of BUFFER_SIZE bytes and a fill length.
   */
  class Buffer {
    const data: array<char>
    var length: nat

    ghost predicate Valid()
      reads this
    {
      data.Length == BUFFER_SIZE && length <= BUFFER_SIZE
    }

    /** The bytes currently held. */
    function Contents(): seq<char>
      reads this, data
      requires Valid()
    {
      data[..length]
    }

    /** The state memset(buf, 0, sizeof(*buf)) leaves. */
    ghost predicate Zeroed()
      reads this, data
    {
      length == 0 && forall k :: 0 <= k < data.Length ==> data[k] == '\0'
    }

    constructor ()
      ensures Valid() && Zeroed() && fresh(data)
    {
      data := new char[BUFFER_SIZE](_ => '\0');
      length := 0;
    }

    /** memset(buf, 0, sizeof(*buf)). */
    method Zero()
      requires Valid()
      modifies this, data
      ensures Valid() && Zeroed()
    {
      forall k | 0 <= k < data.Length {
        data[k] := '\0';
      }
      length := 0;
    }

    /**
     * Raw bytes stored behind the contents (read(2) or fread into
     * data + length, then length += r); the bytes after them are untouched.
     */
    method Put(bytes: seq<char>)
      requires Valid() && length + |bytes| <= BUFFER_SIZE
      modifies this, data
      ensures Valid()
      ensures Contents() == old(Contents()) + bytes
      ensures forall k :: length <= k < BUFFER_SIZE ==> data[k] == old(data[k])
    {
      var i := 0;
      while i < |bytes|
        invariant 0 <= i <= |bytes|
        invariant Valid() && length == old(length)
        invariant data[..length] == old(data[..length])
        invariant forall k :: 0 <= k < i ==> data[length + k] == bytes[k]
        invariant forall k :: length + i <= k < BUFFER_SIZE ==> data[k] == old(data[k])
      {
        data[length + i] := bytes[i];
        i := i + 1;
      }
      assert data[length..length + |bytes|] == bytes;
      length := length + |bytes|;
      assert Contents() == old(Contents()) + bytes;
    }

    /**
     * Drop the first r bytes: memmove(data, data + r, length - r), then
     * length -= r. Bytes from the new length on are untouched.
     */
    method Consume(r: nat)
      requires Valid() && 0 < r <= length
      modifies this, data
      ensures Valid()
      ensures Contents() == old(Contents())[r..]
      ensures forall k :: length <= k < BUFFER_SIZE ==> data[k] == old(data[k])
    {
      var n := length - r;
      var i := 0;
      while i < n
        invariant 0 <= i <= n
        invariant Valid() && length == old(length)
        invariant forall k :: 0 <= k < i ==> data[k] == old(data[k + r])
        invariant forall k :: i <= k < BUFFER_SIZE ==> data[k] == old(data[k])
      {
        data[i] := data[i + r];
        i := i + 1;
      }
      length := n;
    }

    /**
     * buffer_append: vsnprintf the (already formatted) text behind the
     * current contents. Success needs the text and its NUL to fit in the
     * remaining capacity; failure returns 1, keeps the length and zeroes
     * everything from the length to the end of the array.
     */
    method Append(text: string) returns (err: int)
      requires Valid()
      modifies this, data
      ensures Valid()
      ensures err == 0 || err == 1
      ensures err == 0 <==> |text| < BUFFER_SIZE - old(length)
      ensures err == 0 ==> length == old(length) + |text| && Contents() == old(Contents()) + text
      ensures err == 0 ==> length < BUFFER_SIZE && data[length] == '\0'
      ensures err == 1 ==> length == old(length) && Contents() == old(Contents())
      ensures err == 1 ==> forall k :: length <= k < BUFFER_SIZE ==> data[k] == '\0'
    {
      var room := BUFFER_SIZE - length;
      if |text| >= room {
        forall k | length <= k < BUFFER_SIZE {
          data[k] := '\0';
        }
        return 1;
      }
      var i := 0;
      while i < |text|
        invariant 0 <= i <= |text|
        invariant Valid() && length == old(length) && length + |text| < BUFFER_SIZE
        invariant data[..length] == old(data[..length])
        invariant forall k :: 0 <= k < i ==> data[length + k] == text[k]
        invariant forall k :: length + i <= k < BUFFER_SIZE ==> data[k] == old(data[k])
      {
        data[length + i] := text[i];
        i := i + 1;
      }
      data[length + |text|] := '\0';
      assert data[length..length + |text|] == text;
      length := length + |text|;
      assert Contents() == old(Contents()) + text;
      return 0;
    }
  }

  /** What esnprintf reports and what its destination then holds. */
  datatype Written = Written(failed: bool, text: string)

  /**
   * esnprintf into a destination of `size` bytes: fails exactly when the
   * formatted text does not fit together with its NUL; the destination always
   * holds a NUL-terminated prefix of the text.
   */
  function Esnprintf(size: nat, text: string): (r: Written)
    requires size > 0
    ensures r.failed <==> |text| >= size
    ensures !r.failed ==> r.text == text
    ensures |r.text| < size && r.text <= text
  {
    if |text| < size then Written(false, text) else Written(true, text[..size - 1])
  }

  /**
   * append_before: put `prefix` in front of the C string held in `str`
   * (memmove of the old string, then memcpy of the prefix), unless the result
   * and its NUL would not fit in the array.
   */
  method AppendBefore(str: array<char>, prefix: string) returns (err: int)
    requires '\0' in str[..]
    requires '\0' !in prefix
    modifies str
    ensures err == 0 || err == 1
    ensures err == 1 <==> CStrLen(old(str[..])) + |prefix| + 1 > str.Length
    ensures err == 1 ==> str[..] == old(str[..])
    ensures err == 0 ==> CString(str[..]) == prefix + old(CString(str[..]))
  {
    var len := CStrLen(str[..]);
    var plen := |prefix|;
    if len + plen + 1 > str.Length {
      return 1;
    }
    ghost var s0 := str[..];
    ShiftRight(str, len, plen);
    CopyPrefix(str, prefix, len);
    ghost var t := prefix + s0[..len];
    assert str[..][..|t|] == t;
    assert '\0' !in s0[..len];
    CStringOfTerminated(str[..], t);
    return 0;
  }

  /** memmove(str + shift, str, len + 1), copying from the end. */
  method ShiftRight(str: array<char>, len: nat, shift: nat)
    requires len + shift + 1 <= str.Length
    modifies str
    ensures forall m :: 0 <= m < shift ==> str[m] == old(str[m])
    ensures forall m :: 0 <= m <= len ==> str[m + shift] == old(str[m])
    ensures forall m :: len + shift < m < str.Length ==> str[m] == old(str[m])
  {
    var k := len + 1;
    while k > 0
      invariant 0 <= k <= len + 1
      invariant forall m :: 0 <= m < k ==> str[m] == old(str[m])
      invariant forall m :: 0 <= m < shift ==> str[m] == old(str[m])
      invariant forall m :: k <= m <= len ==> str[m + shift] == old(str[m])
      invariant forall m :: len + shift < m < str.Length ==> str[m] == old(str[m])
    {
      k := k - 1;
      str[k + shift] := str[k];
    }
  }

  /** memcpy(str, prefix, |prefix|). */
  method CopyPrefix(str: array<char>, prefix: string, len: nat)
    requires len + |prefix| + 1 <= str.Length
    modifies str
    ensures forall m :: 0 <= m < |prefix| ==> str[m] == prefix[m]
    ensures forall m :: |prefix| <= m < str.Length ==> str[m] == old(str[m])
  {
    var i := 0;
    while i < |prefix|
      invariant 0 <= i <= |prefix|
      invariant forall m :: 0 <= m < i ==> str[m] == prefix[m]
      invariant forall m :: i <= m < str.Length ==> str[m] == old(str[m])
    {
      str[i] := prefix[i];
      i := i + 1;
    }
  }

  // ---------------------------------------------------------------------
  // tokenize_space

  /** Index of the first non-space at or after i. */
  function SkipSpaces(s: string, i: nat): (j: nat)
    requires i <= |s|
    ensures i <= j <= |s|
    ensures j < |s| ==> s[j] != ' '
    ensures forall k :: i <= k < j ==> s[k] == ' '
    decreases |s| - i
  {
    if i < |s| && s[i] == ' ' then SkipSpaces(s, i + 1) else i
  }

  /** End of the token starting at i: the first space not escaped by a backslash, or the end. */
  function TokenEnd(s: string, i: nat): (j: nat)
    requires i <= |s|
    ensures i <= j <= |s|
    ensures j < |s| ==> s[j] == ' '
    ensures i < |s| && s[i] != ' ' ==> i < j
    decreases |s| - i
  {
    if i == |s| || s[i] == ' ' then i
    else if s[i] == '\\' && i + 1 < |s| && s[i + 1] == ' ' then TokenEnd(s, i + 2)
    else TokenEnd(s, i + 1)
  }

  /** A token's text: every backslash-space pair becomes one space. */
  function Unescape(t: string): string
  {
    if |t| >= 2 && t[0] == '\\' && t[1] == ' ' then " " + Unescape(t[2..])
    else if t == [] then []
    else [t[0]] + Unescape(t[1..])
  }

  /** The tokens from position i on; None when trailing spaces (or nothing) follow. */
  function TokensFrom(s: string, i: nat): (r: Option<seq<string>>)
    requires i <= |s|
    ensures r.Some? ==> |r.value| >= 1
    decreases |s| - i
  {
    var j := SkipSpaces(s, i);
    if j == |s| then None
    else
      var e := TokenEnd(s, j);
      var tok := Unescape(s[j..e]);
      if e == |s| then Some([tok])
      else match TokensFrom(s, e + 1)
        case None => None
        case Some(rest) => Some([tok] + rest)
  }

  /**
   * The scan tokenize_space performs from position i with the tokens acc
   * already stored and tlen slots: None for trailing spaces (or nothing left)
   * and for a token that finds every slot taken.
   */
  function Scan(s: string, i: nat, acc: seq<string>, tlen: nat): (r: Option<seq<string>>)
    requires i <= |s|
    ensures r.Some? ==> |acc| < |r.value| <= tlen && r.value[..|acc|] == acc
    decreases |s| - i
  {
    var j := SkipSpaces(s, i);
    if j == |s| || |acc| >= tlen then None
    else
      var e := TokenEnd(s, j);
      var acc' := acc + [Unescape(s[j..e])];
      if e == |s| then Some(acc')
      else
        var r := Scan(s, e + 1, acc', tlen);
        assert r.Some? ==> r.value[..|acc|] == r.value[..|acc'|][..|acc|];
        r
  }

  /** The outcome tokenize_space promises for the string s (None for NULL) and tlen slots. */
  function Tokenize(s: Option<string>, tlen: nat): Option<seq<string>>
  {
    if s.None? || (|s.value| > 0 && s.value[0] == ' ') then None
    else Scan(s.value, 0, [], tlen)
  }

  /** The scan finds exactly the tokens TokensFrom describes, provided they fit in the slots. */
  lemma {:induction false} ScanTokens(s: string, i: nat, acc: seq<string>, tlen: nat)
    requires i <= |s|
    ensures Scan(s, i, acc, tlen) ==
      match TokensFrom(s, i)
      case None => None
      case Some(ts) => if |acc| + |ts| <= tlen then Some(acc + ts) else None
    decreases |s| - i
  {
    var j := SkipSpaces(s, i);
    if j < |s| {
      var e := TokenEnd(s, j);
      var w := Unescape(s[j..e]);
      if e < |s| {
        ScanTokens(s, e + 1, acc + [w], tlen);
        ScanOne(s, i, acc, tlen, j, e, w);
        match TokensFrom(s, e + 1)
        case None =>
        case Some(rest) =>
          AppendAssoc(acc, [w], rest);
      }
    }
  }

  /** A token followed by a space: the scan stores it and goes on after the space, as the token list does. */
  lemma ScanOne(s: string, i: nat, acc: seq<string>, tlen: nat, j: nat, e: nat, w: string)
    requires i <= |s| && j == SkipSpaces(s, i) && j < |s| && e == TokenEnd(s, j) && e < |s| && w == Unescape(s[j..e])
    ensures Scan(s, i, acc, tlen) == if |acc| >= tlen then None else Scan(s, e + 1, acc + [w], tlen)
    ensures TokensFrom(s, i) == match TokensFrom(s, e + 1) case None => None case Some(rest) => Some([w] + rest)
  {
  }

  /** ScanOne, stated for the position and tokens the scanning loop moves on to. */
  lemma ScanAdvances(s: string, i: nat, acc: seq<string>, tlen: nat, j: nat, e: nat, w: string, i': nat, acc': seq<string>)
    requires i <= |s| && j == SkipSpaces(s, i) && j < |s| && e == TokenEnd(s, j) && e < |s| && w == Unescape(s[j..e])
    requires |acc| < tlen && i' == e + 1 && acc' == acc + [w]
    ensures Scan(s, i', acc', tlen) == Scan(s, i, acc, tlen)
  {
    ScanOne(s, i, acc, tlen, j, e, w);
  }

  /** No token left, or no slot for it: the scan fails. */
  lemma ScanStops(s: string, i: nat, acc: seq<string>, tlen: nat, j: nat)
    requires i <= |s| && j == SkipSpaces(s, i) && (j == |s| || |acc| >= tlen)
    ensures Scan(s, i, acc, tlen) == None
  {
  }

  /** A last token that reaches the end of the string: the scan succeeds with it. */
  lemma ScanLast(s: string, i: nat, acc: seq<string>, tlen: nat, j: nat, e: nat, w: string)
    requires i <= |s| && j == SkipSpaces(s, i) && j < |s| && e == TokenEnd(s, j) && e == |s| && w == Unescape(s[j..e])
    requires |acc| < tlen
    ensures Scan(s, i, acc, tlen) == Some(acc + [w])
  {
  }

  /** tokenize_space succeeds exactly when the string is non-NULL, has no leading space and its tokens fit. */
  lemma TokenizeByTokens(s: Option<string>, tlen: nat)
    ensures Tokenize(s, tlen).Some? <==>
      s.Some? && (|s.value| == 0 || s.value[0] != ' ') &&
      TokensFrom(s.value, 0).Some? && |TokensFrom(s.value, 0).value| <= tlen
    ensures Tokenize(s, tlen).Some? ==> Tokenize(s, tlen) == TokensFrom(s.value, 0)
  {
    if s.Some? {
      ScanTokens(s.value, 0, [], tlen);
      if TokensFrom(s.value, 0).Some? {
        assert [] + TokensFrom(s.value, 0).value == TokensFrom(s.value, 0).value;
      }
    }
  }

  /** Skip the spaces at the front of a token position. */
  method SkipSpacesLoop(s: string, i: nat) returns (j: nat)
    requires i <= |s|
    ensures j == SkipSpaces(s, i)
  {
    j := i;
    while j < |s| && s[j] == ' '
      invariant i <= j <= |s|
      invariant SkipSpaces(s, j) == SkipSpaces(s, i)
    {
      j := j + 1;
    }
  }

  /** Find the end of the token that starts at i. */
  method TokenEndLoop(s: string, i: nat) returns (j: nat)
    requires i <= |s|
    ensures j == TokenEnd(s, i)
  {
    j := i;
    while j < |s| && s[j] != ' '
      invariant i <= j <= |s|
      invariant TokenEnd(s, j) == TokenEnd(s, i)
    {
      if s[j] == '\\' && j + 1 < |s| && s[j + 1] == ' ' {
        j := j + 2;
      } else {
        j := j + 1;
      }
    }
  }

  /** Copy a token, dropping the backslash of each escaped space. */
  method CopyToken(s: string, tok: nat, e: nat) returns (w: string)
    requires tok <= e <= |s|
    ensures w == Unescape(s[tok..e])
  {
    w := [];
    var i := tok;
    while i < e
      invariant tok <= i <= e
      invariant w + Unescape(s[i..e]) == Unescape(s[tok..e])
    {
      UnescapeStep(s, i, e);
      if s[i] == '\\' && i + 1 < e && s[i + 1] == ' ' {
        AppendAssoc(w, " ", Unescape(s[i + 2..e]));
        w := w + " ";
        i := i + 2;
      } else {
        AppendAssoc(w, [s[i]], Unescape(s[i + 1..e]));
        w := w + [s[i]];
        i := i + 1;
      }
    }
    assert s[e..e] == [];
  }

  /** Concatenation of strings is associative. */
  lemma AppendAssoc<T>(a: seq<T>, b: seq<T>, c: seq<T>)
    ensures (a + b) + c == a + (b + c)
  {
  }

  /** One step of Unescape over the slice s[i..e]. */
  lemma UnescapeStep(s: string, i: nat, e: nat)
    requires i < e <= |s|
    ensures Unescape(s[i..e]) ==
      if s[i] == '\\' && i + 1 < e && s[i + 1] == ' ' then " " + Unescape(s[i + 2..e])
      else [s[i]] + Unescape(s[i + 1..e])
  {
    if i + 1 < e {
      assert s[i..e][2..] == s[i + 2..e];
    }
    assert s[i..e][1..] == s[i + 1..e];
  }

  /**
   * tokenize_space: split s at spaces into at most t.Length tokens, a
   * backslash-space standing for a literal space. NULL, a leading space,
   * trailing spaces, an empty string or too many tokens return 1 with every
   * slot NULL.
   */
  method TokenizeSpace(s: Option<string>, t: array<Option<string>>) returns (ret: int)
    modifies t
    ensures ret == 0 || ret == 1
    ensures ret == 0 <==> Tokenize(s, t.Length).Some?
    ensures ret == 0 ==> var ts := Tokenize(s, t.Length).value;
      (forall k :: 0 <= k < |ts| ==> t[k] == Some(ts[k])) &&
      (forall k :: |ts| <= k < t.Length ==> t[k] == None)
    ensures ret == 1 ==> forall k :: 0 <= k < t.Length ==> t[k] == None
  {
    ClearSlots(t);
    if s.None? || (|s.value| > 0 && s.value[0] == ' ') {
      return 1;
    }
    ret := TokenizeLoop(s.value, t);
  }

  /** The scanning loop of tokenize_space, over a string that does not start with a space. */
  method TokenizeLoop(str: string, t: array<Option<string>>) returns (ret: int)
    requires forall k :: 0 <= k < t.Length ==> t[k] == None
    modifies t
    ensures ret == 0 || ret == 1
    ensures ret == 0 <==> Scan(str, 0, [], t.Length).Some?
    ensures ret == 0 ==> var ts := Scan(str, 0, [], t.Length).value;
      (forall k :: 0 <= k < |ts| ==> t[k] == Some(ts[k])) &&
      (forall k :: |ts| <= k < t.Length ==> t[k] == None)
    ensures ret == 1 ==> forall k :: 0 <= k < t.Length ==> t[k] == None
  {
    var pos := 0;
    var toki := 0;
    ghost var acc: seq<string> := [];
    ghost var goal := Scan(str, 0, [], t.Length);
    while true
      invariant 0 <= pos <= |str|
      invariant toki == |acc| <= t.Length
      invariant forall k :: 0 <= k < toki ==> t[k] == Some(acc[k])
      invariant forall k :: toki <= k < t.Length ==> t[k] == None
      invariant Scan(str, pos, acc, t.Length) == goal
      decreases |str| - pos
    {
      var tok := SkipSpacesLoop(str, pos);
      if tok == |str| || toki >= t.Length {
        ScanStops(str, pos, acc, t.Length, tok);
        ClearSlots(t);
        return 1;
      }
      var e := TokenEndLoop(str, tok);
      var w := CopyToken(str, tok, e);
      t[toki] := Some(w);
      toki := toki + 1;
      if e < |str| {
        ghost var pos0, acc0 := pos, acc;
        acc := acc + [w];
        pos := e + 1;
        ScanAdvances(str, pos0, acc0, t.Length, tok, e, w, pos, acc);
      } else {
        ScanLast(str, pos, acc, t.Length, tok, e, w);
        acc := acc + [w];
        return 0;
      }
    }
  }

  /** Set every slot to NULL. */
  method ClearSlots(t: array<Option<string>>)
    modifies t
    ensures forall k :: 0 <= k < t.Length ==> t[k] == None
  {
    forall k | 0 <= k < t.Length {
      t[k] := None;
    }
  }

  // ---------------------------------------------------------------------
  // string_to_num and strtoll

  predicate IsDigit(c: char) { '0' <= c <= '9' }

  predicate IsSpace(c: char)
  {
    c == ' ' || c == '\t' || c == '\n' || c == '\U{000B}' || c == '\U{000C}' || c == '\r'
  }

  function SkipWhite(s: string, i: nat): (j: nat)
    requires i <= |s|
    ensures i <= j <= |s|
    ensures forall k :: i <= k < j ==> IsSpace(s[k])
    ensures j < |s| ==> !IsSpace(s[j])
    decreases |s| - i
  {
    if i < |s| && IsSpace(s[i]) then SkipWhite(s, i + 1) else i
  }

  function DigitsEnd(s: string, i: nat): (j: nat)
    requires i <= |s|
    ensures i <= j <= |s|
    ensures forall k :: i <= k < j ==> IsDigit(s[k])
    ensures j < |s| ==> !IsDigit(s[j])
    decreases |s| - i
  {
    if i < |s| && IsDigit(s[i]) then DigitsEnd(s, i + 1) else i
  }

  function DigitVal(c: char): (d: nat)
    requires IsDigit(c)
    ensures d <= 9
  {
    (c as int) - ('0' as int)
  }

  /** The decimal value of a string of digits. */
  function DigitsValue(s: string): nat
    requires forall k :: 0 <= k < |s| ==> IsDigit(s[k])
  {
    if s == [] then 0
    else 10 * DigitsValue(s[..|s| - 1]) + DigitVal(s[|s| - 1])
  }

  /** The decimal digits printf's %d / %zu produce for a non-negative value. */
  function NatToString(n: nat): (r: string)
    ensures |r| >= 1 && forall k :: 0 <= k < |r| ==> IsDigit(r[k])
    ensures n < 10 <==> |r| == 1
  {
    if n < 10 then [DigitChar(n)] else NatToString(n / 10) + [DigitChar(n % 10)]
  }

  function DigitChar(d: nat): (c: char)
    requires d <= 9
    ensures IsDigit(c) && DigitVal(c) == d
  {
    (('0' as int) + d) as char
  }

  /** Reading the printed digits back gives the value again. */
  lemma {:induction false} NatToStringValue(n: nat)
    ensures DigitsValue(NatToString(n)) == n
  {
    var r := NatToString(n);
    if n >= 10 {
      NatToStringValue(n / 10);
      assert r[..|r| - 1] == NatToString(n / 10);
    }
  }

  /** What strtoll(s, &ep, 10) returns: the value, the offset of ep, and whether errno became ERANGE. */
  datatype StrtollResult = StrtollResult(value: int, end: nat, erange: bool)

  function Strtoll(s: string): (r: StrtollResult)
    ensures r.end <= |s|
    ensures LLONG_MIN <= r.value <= LLONG_MAX
  {
    var i := SkipWhite(s, 0);
    var neg := i < |s| && s[i] == '-';
    var j := if i < |s| && (s[i] == '-' || s[i] == '+') then i + 1 else i;
    var k := DigitsEnd(s, j);
    if k == j then StrtollResult(0, 0, false)
    else
      var v: int := DigitsValue(s[j..k]);
      var sv: int := if neg then 0 - v else v;
      if sv > LLONG_MAX then StrtollResult(LLONG_MAX, k, true)
      else if sv < LLONG_MIN then StrtollResult(LLONG_MIN, k, true)
      else StrtollResult(sv, k, false)
  }

  /**
   * string_to_num: the value and the error string ("invalid", "too small",
   * "too large" or NULL). An error always comes with the value 0; no error
   * means the value lies in [minval, maxval].
   */
  function StringToNum(s: string, minval: int, maxval: int): (r: (int, Option<string>))
    requires LLONG_MIN <= minval && maxval <= LLONG_MAX
    ensures r.1.Some? ==> r.0 == 0
    ensures r.1.Some? ==> r.1.value in {"invalid", "too small", "too large"}
    ensures r.1.None? ==> minval <= r.0 <= maxval
    ensures minval > maxval ==> r.1 == Some("invalid")
    ensures r.1.None? ==> r.0 == Strtoll(s).value && Strtoll(s).end == |s| > 0
  {
    if minval > maxval then (0, Some("invalid"))
    else
      var p := Strtoll(s);
      if p.end == 0 || p.end != |s| then (0, Some("invalid"))
      else if (p.value == LLONG_MIN && p.erange) || p.value < minval then (0, Some("too small"))
      else if (p.value == LLONG_MAX && p.erange) || p.value > maxval then (0, Some("too large"))
      else (p.value, None)
  }

  lemma {:induction false} DigitsEndAll(s: string, i: nat)
    requires i <= |s|
    requires forall k :: i <= k < |s| ==> IsDigit(s[k])
    ensures DigitsEnd(s, i) == |s|
    decreases |s| - i
  {
    if i < |s| {
      DigitsEndAll(s, i + 1);
    }
  }

  /** On a non-empty digit string, string_to_num with bounds [0, maxval] returns its decimal value or "too large". */
  lemma DigitStringToNum(s: string, maxval: int)
    requires |s| > 0 && forall k :: 0 <= k < |s| ==> IsDigit(s[k])
    requires 0 <= maxval <= LLONG_MAX
    ensures DigitsValue(s) <= maxval ==> StringToNum(s, 0, maxval) == (DigitsValue(s), None)
    ensures DigitsValue(s) > maxval ==> StringToNum(s, 0, maxval) == (0, Some("too large"))
  {
    assert !IsSpace(s[0]);
    assert SkipWhite(s, 0) == 0;
    DigitsEndAll(s, 0);
    assert s[0..|s|] == s;
  }

  /**
   * A whole decimal numeral as strtoll reads one: white space, an optional
   * sign, at least one digit, and nothing after.
   */
  predicate Numeral(ws: string, sign: string, digits: string)
  {
    (forall k :: 0 <= k < |ws| ==> IsSpace(ws[k])) &&
    (sign == "" || sign == "+" || sign == "-") &&
    |digits| > 0 && forall k :: 0 <= k < |digits| ==> IsDigit(digits[k])
  }

  /** The exact value of a numeral's sign and digits, before any clamping. */
  function NumeralValue(sign: string, digits: string): int
    requires forall k :: 0 <= k < |digits| ==> IsDigit(digits[k])
  {
    if sign == "-" then 0 - DigitsValue(digits) else DigitsValue(digits)
  }

  /** strtoll reads a whole numeral to its end, clamping an overflow to the nearer limit with ERANGE. */
  lemma StrtollOfNumeral(ws: string, sign: string, digits: string)
    requires Numeral(ws, sign, digits)
    ensures var s := ws + sign + digits;
      var v := NumeralValue(sign, digits);
      Strtoll(s) == if v > LLONG_MAX then StrtollResult(LLONG_MAX, |s|, true)
                    else if v < LLONG_MIN then StrtollResult(LLONG_MIN, |s|, true)
                    else StrtollResult(v, |s|, false)
  {
    var s := ws + sign + digits;
    var i := SkipWhite(s, 0);
    assert forall k :: 0 <= k < |ws| ==> s[k] == ws[k];
    assert !IsSpace(s[|ws|]) by {
      if sign == "" { assert s[|ws|] == digits[0]; } else { assert s[|ws|] == sign[0]; }
    }
    assert i == |ws|;
    var j := |ws| + |sign|;
    if sign == "" { assert s[i] == digits[0]; } else { assert s[i] == sign[0]; }
    assert s[j..] == digits;
    DigitsEndAll(s, j);
    assert s[j..|s|] == digits;
  }

  /**
   * string_to_num on a whole numeral with valid bounds: its exact value
   * when that lies in [minval, maxval], otherwise "too small" below minval
   * (a negative overflow included) and "too large" above maxval (a positive
   * overflow included), with the value 0.
   */
  lemma StringToNumOfNumeral(ws: string, sign: string, digits: string, minval: int, maxval: int)
    requires Numeral(ws, sign, digits)
    requires LLONG_MIN <= minval <= maxval <= LLONG_MAX
    ensures var v := NumeralValue(sign, digits);
      StringToNum(ws + sign + digits, minval, maxval) ==
        if v < minval then (0, Some("too small"))
        else if v > maxval then (0, Some("too large"))
        else (v, None)
  {
    StrtollOfNumeral(ws, sign, digits);
  }

  /** Whatever strtoll reads to the end of a string is a whole numeral. */
  lemma StrtollWholeIsNumeral(s: string)
    requires 0 < Strtoll(s).end == |s|
    ensures exists ws, sign, digits :: s == ws + sign + digits && Numeral(ws, sign, digits)
  {
    var i := SkipWhite(s, 0);
    var j := if i < |s| && (s[i] == '-' || s[i] == '+') then i + 1 else i;
    var e := DigitsEnd(s, j);
    assert e == |s| > j by {
      assert Strtoll(s).end == if e == j then 0 else e;
    }
    var ws, sign, digits := s[..i], s[i..j], s[j..];
    assert s == ws + sign + digits;
    assert forall k :: 0 <= k < |ws| ==> IsSpace(ws[k]);
    assert sign == "" || sign == [s[i]];
    assert forall k :: 0 <= k < |digits| ==> IsDigit(digits[k]);
    assert Numeral(ws, sign, digits);
  }

  /**
   * string_to_num answers "invalid" exactly for inverted bounds or a string
   * that is not a whole numeral.
   */
  lemma StringToNumInvalid(s: string, minval: int, maxval: int)
    requires LLONG_MIN <= minval && maxval <= LLONG_MAX
    ensures StringToNum(s, minval, maxval).1 == Some("invalid") <==>
      minval > maxval || !exists ws, sign, digits :: s == ws + sign + digits && Numeral(ws, sign, digits)
  {
    if minval <= maxval {
      if 0 < Strtoll(s).end == |s| {
        StrtollWholeIsNumeral(s);
      }
      if exists ws, sign, digits :: s == ws + sign + digits && Numeral(ws, sign, digits) {
        var ws, sign, digits :| s == ws + sign + digits && Numeral(ws, sign, digits);
        StringToNumOfNumeral(ws, sign, digits, minval, maxval);
      }
    }
  }

  // ---------------------------------------------------------------------
  // realloc_array

  const MUL_NO_OVERFLOW: nat := 0x1_0000_0000

  /** The guard of realloc_array, as written. */
  predicate ReallocRejects(nmemb: nat, size: nat)
  {
    (nmemb >= MUL_NO_OVERFLOW || size >= MUL_NO_OVERFLOW) && nmemb > 0 && SIZE_MAX / nmemb < size
  }

  lemma DivBound(n: nat, size: nat, q: nat)
    requires n > 0 && q == SIZE_MAX / n
    ensures size <= q ==> n * size <= SIZE_MAX
    ensures size > q ==> n * size > SIZE_MAX
  {
    var r := SIZE_MAX % n;
    assert SIZE_MAX == n * q + r && r < n;
    if size <= q {
      assert n * size <= n * q by { MulMono(n, size, q); }
    } else {
      assert n * size >= n * (q + 1) by { MulMono(n, q + 1, size); }
      assert n * (q + 1) == n * q + n;
    }
  }

  lemma MulMono(n: nat, a: nat, b: nat)
    requires a <= b
    ensures n * a <= n * b
  {
    assert n * b == n * a + n * (b - a);
  }

  /**
   * realloc_array: hands nmemb * size bytes to realloc, or fails with
   * (NULL, ENOMEM) exactly when that product does not fit in a size_t.
   * None stands for the rejected call.
   */
  function ReallocArray(nmemb: nat, size: nat): (r: Option<nat>)
    requires nmemb <= SIZE_MAX && size <= SIZE_MAX
    ensures r.None? <==> nmemb * size > SIZE_MAX
    ensures r.Some? ==> r.value == nmemb * size
  {
    ReallocGuardExact(nmemb, size);
    if ReallocRejects(nmemb, size) then None else Some(nmemb * size)
  }

  /** The guard rejects exactly the products that overflow a 64-bit size_t. */
  lemma ReallocGuardExact(nmemb: nat, size: nat)
    requires nmemb <= SIZE_MAX && size <= SIZE_MAX
    ensures ReallocRejects(nmemb, size) <==> nmemb * size > SIZE_MAX
  {
    if nmemb == 0 {
      assert nmemb * size == 0;
    } else {
      DivBound(nmemb, size, SIZE_MAX / nmemb);
      if nmemb < MUL_NO_OVERFLOW && size < MUL_NO_OVERFLOW {
        assert nmemb <= MUL_NO_OVERFLOW - 1 && size <= MUL_NO_OVERFLOW - 1;
        MulMono(nmemb, size, MUL_NO_OVERFLOW - 1);
        MulMono(MUL_NO_OVERFLOW - 1, nmemb, MUL_NO_OVERFLOW - 1);
        assert (MUL_NO_OVERFLOW - 1) * (MUL_NO_OVERFLOW - 1) < SIZE_MAX;
      }
    }
  }
}
