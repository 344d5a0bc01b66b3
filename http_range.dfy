/**
 * handle_range (http.c): the Range request field turned into the byte
 * interval [lower, upper] of a file of `size` bytes. Every size_t value is
 * kept in [0, SIZE_MAX] and the subtractions wrap as C's do.
 */
module HttpRange {
  import opened Util
  import opened Http

  /** What handle_range returns and what it has left in *lower and *upper. */
  datatype Range = Range(status: int, lower: nat, upper: nat)

  const BYTES_UNIT: string := "bytes="

  predicate AllDigits(s: string)
  {
    forall k :: 0 <= k < |s| ==> IsDigit(s[k])
  }

  /** The index of the first '-' at or after i, or |s|. */
  function DashFrom(s: string, i: nat): (d: nat)
    requires i <= |s|
    ensures i <= d <= |s|
    ensures forall k :: i <= k < d ==> s[k] != '-'
    ensures d < |s| ==> s[d] == '-'
    decreases |s| - i
  {
    if i == |s| || s[i] == '-' then i else DashFrom(s, i + 1)
  }

  /** The text after "bytes=" is digits, one '-', digits. */
  predicate RangeBody(body: string)
  {
    var d := DashFrom(body, 0);
    d < |body| && AllDigits(body[..d]) && AllDigits(body[d + 1..])
  }

  /** The value string_to_num gives a digit string with bounds [0, MIN(SIZE_MAX, LLONG_MAX)]. */
  function Num(s: string): (r: (int, Option<string>))
  {
    StringToNum(s, 0, LLONG_MAX)
  }

  /**
   * What handle_range does once the text around the '-' is split into
   * `first` and `last`: each must fit a FIELD_MAX buffer; "a-b" and "a-"
   * give [a, MIN(b, size - 1)] when a <= b and a < size; "-n" gives the last
   * n bytes. Every error path leaves *lower and *upper as the code does.
   */
  function SplitRange(first: string, last: string, size: nat): (r: Range)
    requires size <= SIZE_MAX
    ensures r.status in {0, STATUS_INTERNAL_SERVER_ERROR}
    ensures r.lower <= SIZE_MAX && r.upper <= SIZE_MAX
    ensures r.status == 0 && 0 < size ==> r.upper < size && r.lower <= r.upper + 1
  {
    var fail := Range(STATUS_INTERNAL_SERVER_ERROR, 0, SizeSub(size, 1));
    if |first| + 1 > FIELD_MAX || |last| + 1 > FIELD_MAX then fail
    else if first != "" then
      var lo := Num(first);
      if lo.1.Some? then fail
      else
        var up := if last != "" then Num(last) else (SizeSub(size, 1), None);
        if up.1.Some? then Range(STATUS_INTERNAL_SERVER_ERROR, lo.0, 0)
        else if lo.0 > up.0 || lo.0 >= size then Range(STATUS_INTERNAL_SERVER_ERROR, lo.0, up.0)
        else Range(0, lo.0, Min(up.0, SizeSub(size, 1)))
    else if last == "" then fail
    else
      var n := Num(last);
      if n.1.Some? then Range(STATUS_INTERNAL_SERVER_ERROR, 0, 0)
      else Range(0, if n.0 > size then 0 else size - n.0, SizeSub(size, 1))
  }

  /**
   * handle_range on the (non-NULL) field text `str`: an empty field asks
   * for the whole file; anything that is not "bytes=" followed by digits,
   * one '-' and digits is a 500.
   */
  function RangeOf(str: string, size: nat): (r: Range)
    requires size <= SIZE_MAX
    ensures r.status in {0, STATUS_INTERNAL_SERVER_ERROR}
    ensures r.lower <= SIZE_MAX && r.upper <= SIZE_MAX
    ensures r.status == 0 && 0 < size ==> r.upper < size && r.lower <= r.upper + 1
  {
    var fail := Range(STATUS_INTERNAL_SERVER_ERROR, 0, SizeSub(size, 1));
    if str == "" then Range(0, 0, SizeSub(size, 1))
    else if |str| < |BYTES_UNIT| || str[..|BYTES_UNIT|] != BYTES_UNIT then fail
    else
      var body := str[|BYTES_UNIT|..];
      if !RangeBody(body) then fail
      else
        var d := DashFrom(body, 0);
        SplitRange(body[..d], body[d + 1..], size)
  }

  // ---------------------------------------------------------------------
  // The method

  /** A character that is neither a digit nor '-' spoils the range. */
  lemma StrayChar(body: string, k: nat)
    requires k < |body| && !IsDigit(body[k]) && body[k] != '-'
    ensures !RangeBody(body)
  {
    var d := DashFrom(body, 0);
    if d < |body| && k != d {
      if k < d {
        assert body[..d][k] == body[k];
      } else {
        assert body[d + 1..][k - d - 1] == body[k];
      }
    }
  }

  /** So does a second '-'. */
  lemma SecondDash(body: string, j: nat, k: nat)
    requires j < k < |body| && body[j] == '-' && body[k] == '-'
    ensures !RangeBody(body)
  {
    var d := DashFrom(body, 0);
    if d < |body| {
      assert d <= j;
      assert body[d + 1..][k - d - 1] == body[k];
    }
  }

  /** A body of digits with exactly one '-', at d. */
  lemma OneDash(body: string, d: nat)
    requires d < |body| && body[d] == '-'
    requires forall k :: 0 <= k < |body| && k != d ==> IsDigit(body[k])
    ensures DashFrom(body, 0) == d && RangeBody(body)
  {
    assert forall k :: 0 <= k < d ==> body[k] != '-' by {
      forall k | 0 <= k < d ensures body[k] != '-' {
        assert IsDigit(body[k]);
      }
    }
    DashFromIs(body, 0, d);
    var tail := body[d + 1..];
    forall k | 0 <= k < |tail| ensures IsDigit(tail[k]) {
      assert tail[k] == body[d + 1 + k];
    }
  }

  lemma {:induction false} DashFromIs(s: string, i: nat, d: nat)
    requires i <= d < |s| && s[d] == '-'
    requires forall k :: i <= k < d ==> s[k] != '-'
    ensures DashFrom(s, i) == d
    decreases d - i
  {
    if i < d {
      DashFromIs(s, i + 1, d);
    }
  }

  /**
   * The scanning loop of handle_range over the text after "bytes=": the
   * index just after the only '-', or None when the text is not digits,
   * one '-', digits.
   */
  method ScanDash(body: string) returns (startLast: Option<nat>)
    ensures startLast.None? <==> !RangeBody(body)
    ensures startLast.Some? ==> startLast.value == DashFrom(body, 0) + 1
  {
    startLast := None;
    var end := 0;
    while end < |body|
      invariant end <= |body|
      invariant startLast.None? ==> forall k :: 0 <= k < end ==> IsDigit(body[k])
      invariant startLast.Some? ==> 1 <= startLast.value <= end && body[startLast.value - 1] == '-'
      invariant startLast.Some? ==> forall k :: 0 <= k < end && k != startLast.value - 1 ==> IsDigit(body[k])
    {
      if !IsDigit(body[end]) {
        if body[end] == '-' {
          if startLast.Some? {
            SecondDash(body, startLast.value - 1, end);
            return None;
          }
          startLast := Some(end + 1);
        } else {
          StrayChar(body, end);
          return None;
        }
      }
      end := end + 1;
    }
    if startLast.None? {
      assert DashFrom(body, 0) == |body| by {
        assert forall k :: 0 <= k < |body| ==> body[k] != '-';
      }
      return None;
    }
    OneDash(body, startLast.value - 1);
  }

  /**
   * handle_range: *lower and *upper start as the whole file; the field is
   * scanned, split at its '-' and each side converted with string_to_num.
   */
  method HandleRange(str: string, size: nat) returns (status: int, lower: nat, upper: nat)
    requires size <= SIZE_MAX
    ensures Range(status, lower, upper) == RangeOf(str, size)
  {
    lower := 0;
    upper := SizeSub(size, 1);
    if str == "" {
      return 0, lower, upper;
    }
    if |str| < |BYTES_UNIT| || str[..|BYTES_UNIT|] != BYTES_UNIT {
      return STATUS_INTERNAL_SERVER_ERROR, lower, upper;
    }
    var body := str[|BYTES_UNIT|..];
    var startLast := ScanDash(body);
    if startLast.None? {
      return STATUS_INTERNAL_SERVER_ERROR, lower, upper;
    }
    var first := body[..startLast.value - 1];
    var last := body[startLast.value..];
    if |first| + 1 > FIELD_MAX || |last| + 1 > FIELD_MAX {
      return STATUS_INTERNAL_SERVER_ERROR, lower, upper;
    }
    if first != "" {
      var lo := Num(first);
      lower := lo.0;
      var err := lo.1;
      if err.None? {
        if last != "" {
          var up := Num(last);
          upper := up.0;
          err := up.1;
        } else {
          upper := SizeSub(size, 1);
        }
      }
      if err.Some? {
        return STATUS_INTERNAL_SERVER_ERROR, lower, upper;
      }
      if lower > upper || lower >= size {
        return STATUS_INTERNAL_SERVER_ERROR, lower, upper;
      }
      upper := Min(upper, SizeSub(size, 1));
    } else {
      if last == "" {
        return STATUS_INTERNAL_SERVER_ERROR, lower, upper;
      }
      var n := Num(last);
      upper := n.0;
      if n.1.Some? {
        return STATUS_INTERNAL_SERVER_ERROR, lower, upper;
      }
      if upper > size {
        lower := 0;
      } else {
        lower := size - upper;
      }
      upper := SizeSub(size, 1);
    }
    return 0, lower, upper;
  }

  // ---------------------------------------------------------------------
  // Properties

  /** Content-Length, upper - lower + 1 in size_t, is then exactly the number of bytes in [lower, upper]. */
  lemma ContentLengthCounts(str: string, size: nat)
    requires 0 < size <= SIZE_MAX
    requires RangeOf(str, size).status == 0
    ensures var r := RangeOf(str, size);
      SizeAdd(SizeSub(r.upper, r.lower), 1) == r.upper + 1 - r.lower
  {
  }

  /**
   * For an empty file with no Range field, *upper is size - 1 wrapped to
   * SIZE_MAX, and Content-Length wraps back round to 0.
   */
  lemma EmptyFileWraps()
    ensures RangeOf("", 0) == Range(0, 0, SIZE_MAX)
    ensures SizeAdd(SizeSub(SIZE_MAX, 0), 1) == 0
  {
  }

  /** Decimal text of a value below 10^19 has at most 19 digits. */
  lemma {:induction false} DigitCount(n: nat, k: nat, p: nat)
    requires k >= 1 && p == Pow10(k) && n < p
    ensures |NatToString(n)| <= k
    decreases k
  {
    if n >= 10 {
      assert k >= 2;
      assert n / 10 < Pow10(k - 1);
      DigitCount(n / 10, k - 1, Pow10(k - 1));
    }
  }

  function Pow10(k: nat): (p: nat)
    ensures p >= 1
  {
    if k == 0 then 1 else 10 * Pow10(k - 1)
  }

  lemma Pow10Nineteen()
    ensures Pow10(19) == 10000000000000000000
  {
    assert Pow10(2) == 100;
    assert Pow10(4) == 10000;
    assert Pow10(6) == 1000000;
    assert Pow10(8) == 100000000;
    assert Pow10(10) == 10000000000;
    assert Pow10(12) == 1000000000000;
    assert Pow10(14) == 100000000000000;
    assert Pow10(16) == 10000000000000000;
    assert Pow10(18) == 1000000000000000000;
  }

  /** Any value up to LLONG_MAX prints in fewer than FIELD_MAX - 1 digits and reads back unchanged. */
  lemma NumText(n: nat)
    requires n <= LLONG_MAX
    ensures |NatToString(n)| + 1 < FIELD_MAX
    ensures AllDigits(NatToString(n))
    ensures Num(NatToString(n)) == (n, None)
  {
    Pow10Nineteen();
    DigitCount(n, 19, Pow10(19));
    NatToStringValue(n);
    DigitStringToNum(NatToString(n), LLONG_MAX);
  }

  /** "bytes=" A "-" B: the body splits at the '-' between them. */
  lemma SplitAt(a: string, b: string)
    requires AllDigits(a) && AllDigits(b)
    ensures var str := BYTES_UNIT + a + "-" + b;
      str != "" && str[..|BYTES_UNIT|] == BYTES_UNIT &&
      RangeBody(str[|BYTES_UNIT|..]) &&
      DashFrom(str[|BYTES_UNIT|..], 0) == |a| &&
      str[|BYTES_UNIT|..][..|a|] == a && str[|BYTES_UNIT|..][|a| + 1..] == b
  {
    var str := BYTES_UNIT + a + "-" + b;
    var body := str[|BYTES_UNIT|..];
    assert body == a + "-" + b;
    forall k | 0 <= k < |body| && k != |a| ensures IsDigit(body[k]) {
      if k < |a| {
        assert body[k] == a[k];
      } else {
        assert body[k] == b[k - |a| - 1];
      }
    }
    OneDash(body, |a|);
    assert body[..|a|] == a;
    assert body[|a| + 1..] == b;
  }

  /** "bytes=a-b" with a <= b and a < size serves [a, MIN(b, size - 1)]; otherwise it is a 500. */
  lemma ClosedRange(a: nat, b: nat, size: nat)
    requires a <= LLONG_MAX && b <= LLONG_MAX && size <= SIZE_MAX
    ensures var r := RangeOf(BYTES_UNIT + NatToString(a) + "-" + NatToString(b), size);
      (a <= b && a < size ==> r == Range(0, a, Min(b, size - 1))) &&
      (!(a <= b && a < size) ==> r.status == STATUS_INTERNAL_SERVER_ERROR)
  {
    NumText(a);
    NumText(b);
    SplitAt(NatToString(a), NatToString(b));
  }

  /** "bytes=a-" with a < size serves [a, size - 1]; a >= size is a 500. */
  lemma OpenRange(a: nat, size: nat)
    requires a <= LLONG_MAX && size <= SIZE_MAX
    ensures var r := RangeOf(BYTES_UNIT + NatToString(a) + "-", size);
      (a < size ==> r == Range(0, a, size - 1)) &&
      (a >= size ==> r.status == STATUS_INTERNAL_SERVER_ERROR)
  {
    NumText(a);
    SplitAt(NatToString(a), "");
    assert BYTES_UNIT + NatToString(a) + "-" + "" == BYTES_UNIT + NatToString(a) + "-";
  }

  /** "bytes=-n" serves the last n bytes, or the whole file when n exceeds its size. */
  lemma SuffixRange(n: nat, size: nat)
    requires n <= LLONG_MAX && 0 < size <= SIZE_MAX
    ensures RangeOf(BYTES_UNIT + "-" + NatToString(n), size) ==
      Range(0, if n > size then 0 else size - n, size - 1)
  {
    NumText(n);
    SplitAt("", NatToString(n));
    assert BYTES_UNIT + "" + "-" + NatToString(n) == BYTES_UNIT + "-" + NatToString(n);
  }

  /** "bytes=-0" is accepted as the empty interval [size, size - 1]. */
  lemma SuffixZero(size: nat)
    requires 0 < size <= SIZE_MAX
    ensures RangeOf("bytes=-0", size) == Range(0, size, size - 1)
  {
    SuffixRange(0, size);
    assert NatToString(0) == "0";
  }

  /** "bytes=-" and "bytes=" without a '-' are rejected, and so is a field without the "bytes=" unit. */
  lemma MalformedRanges(str: string, size: nat)
    requires size <= SIZE_MAX
    requires str == "bytes=-" || str == "bytes=" || (str != "" && !(BYTES_UNIT <= str))
    ensures RangeOf(str, size) == Range(STATUS_INTERNAL_SERVER_ERROR, 0, SizeSub(size, 1))
  {
    if str == "bytes=-" {
      OneDash(str[|BYTES_UNIT|..], 0);
      assert str[|BYTES_UNIT|..][..0] == "" && str[|BYTES_UNIT|..][1..] == "";
    } else if str == "bytes=" {
      assert str[|BYTES_UNIT|..] == "";
    } else if |str| >= |BYTES_UNIT| {
      assert str[..|BYTES_UNIT|] != BYTES_UNIT;
    }
  }
}
