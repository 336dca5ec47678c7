/** The byte-range arithmetic and header texts of the slice proxy and of the range reader:
    Range (RFC 9110 section 14.2), Content-Range (section 14.4) and the cache key. */
module RangeHeaders {
  import opened Text

  /** `end == -1` stands for "to the end of the source". */
  datatype ByteRange = ByteRange(start: int, end: int)

  function AlignedOffset(offset: int, sliceSize: int): (r: int)
    requires offset >= 0 && sliceSize > 0
    ensures 0 <= r <= offset < r + sliceSize
  {
    assert offset == (offset / sliceSize) * sliceSize + offset % sliceSize;
    (offset / sliceSize) * sliceSize
  }

  lemma MultiplesGrow(j: int, k: int, n: int)
    requires j < k && n > 0
    ensures j * n + n <= k * n
  {
    var d: nat := k - j - 1;
    assert d * n >= 0;
    assert k * n == j * n + n + d * n;
  }

  lemma SameMultiple(j: int, k: int, n: int, offset: int)
    requires n > 0 && j * n <= offset < j * n + n && k * n <= offset < k * n + n
    ensures j == k
  {
    if j < k { MultiplesGrow(j, k, n); }
    if k < j { MultiplesGrow(k, j, n); }
  }

  lemma DivMod(x: int, n: int)
    requires n > 0
    ensures x == (x / n) * n + x % n && 0 <= x % n < n
  {
  }

  /** The offset of a slice is the one multiple of the slice size from which the slice reaches the
      requested offset. */
  lemma AlignedOffsetIff(offset: int, sliceSize: int, r: int)
    requires offset >= 0 && sliceSize > 0
    ensures r == AlignedOffset(offset, sliceSize) <==> r % sliceSize == 0 && r <= offset < r + sliceSize
  {
    var k := offset / sliceSize;
    DivMod(r, sliceSize);
    DivMod(offset, sliceSize);
    if r == k * sliceSize || (r % sliceSize == 0 && r <= offset < r + sliceSize) {
      SameMultiple(r / sliceSize, k, sliceSize, if r == k * sliceSize then r else offset);
    }
  }

  function ContentLength(start: int, end: int, total: int): int {
    if total == -1 && end == -1 then -1
    else if end == -1 then total - start
    else if end >= total && total != -1 then total - start
    else end - start + 1
  }

  function FmtContentRange(start: int, end: int, total: int): string {
    if total == -1 && end == -1 then "bytes */*"
    else
      var totalText := if total >= 0 then FormatInt(total) else "*";
      var last := if end == -1 && total >= 0 then total - 1 else end;
      "bytes " + FormatInt(start) + "-" + FormatInt(last) + "/" + totalText
  }

  function ParseByteRange(r: string): (res: Result<ByteRange>)
    ensures res.Ok? ==> 0 <= res.value.start <= MAX_INT64
    ensures res.Ok? ==> res.value.end == -1 || res.value.start <= res.value.end <= MAX_INT64
  {
    if r == "" then Ok(ByteRange(0, -1))
    else if !HasPrefix(r, "bytes=") then Err("must start with bytes=")
    else if ',' in r then Err("multi-range not supported")
    else
      var parts := Split(r[|"bytes="|..], '-');
      if |parts| != 2 then Err("exactly one hyphen expected")
      else
        var first, last := TrimSpace(parts[0]), TrimSpace(parts[1]);
        if first == "" && last == "" then Err("empty start and end")
        else
          var start := if first == "" then Some(0) else ParseInt(first);
          if start.None? || start.value < 0 then Err("bad start")
          else if last == "" then Ok(ByteRange(start.value, -1))
          else
            var end := ParseInt(last);
            if end.None? || end.value < 0 then Err("bad end")
            else if start.value > end.value then Err("start after end")
            else Ok(ByteRange(start.value, end.value))
  }

  const UNITS := "bytes "

  /** The text between "bytes " and the end, split at '/'; fails unless there are two parts. */
  function ContentRangeParts(h: string): (r: Option<(string, string)>) {
    if !HasPrefix(h, UNITS) then None
    else
      var parts := Split(h[|UNITS|..], '/');
      if |parts| != 2 then None else Some((parts[0], parts[1]))
  }

  function ParseContentRangeStartAndEnd(h: string): (r: Option<(int, int)>)
    ensures r.Some? ==> InInt64(r.value.0) && InInt64(r.value.1)
  {
    var parts := ContentRangeParts(h);
    if parts.None? then None
    else
      var rangeParts := Split(TrimSpace(parts.value.0), '-');
      if |rangeParts| != 2 then None
      else
        var start, last := ParseInt(TrimSpace(rangeParts[0])), TrimSpace(rangeParts[1]);
        if start.None? then None
        else if last == "" || last == "*" then Some((start.value, -1))
        else
          var end := ParseInt(last);
          if end.None? then None else Some((start.value, end.value))
  }

  function ParseContentRangeTotalLength(h: string): (r: Option<int>)
    ensures r.Some? ==> -1 <= r.value <= MAX_INT64
  {
    var parts := ContentRangeParts(h);
    if parts.None? then None
    else if parts.value.1 == "" || parts.value.1 == "*" then Some(-1)
    else
      var n := ParseInt(TrimSpace(parts.value.1));
      if n.None? || n.value < 0 then None else n
  }

  function CacheKey(hash: string, offset: int, sliceSize: int): string {
    hash + "-" + FormatInt(sliceSize) + "-" + FormatInt(offset)
  }

  // ---- Which headers are accepted ----

  /** A text that is not blank and reads as this number, which is not negative. */
  predicate IsPosition(text: string, n: int) {
    n >= 0 && TrimSpace(text) != "" && ParseInt(TrimSpace(text)) == Some(n)
  }

  /** A header of one range, with the texts of its two positions. */
  predicate IsRangeHeader(h: string, first: string, last: string, start: int, end: int) {
    && h == "bytes=" + (first + "-" + last) && '-' !in first && '-' !in last && ',' !in h
    && (if TrimSpace(first) == "" then start == 0 && TrimSpace(last) != "" else IsPosition(first, start))
    && (if TrimSpace(last) == "" then end == -1 else IsPosition(last, end) && start <= end)
  }

  /** Exactly the headers that are accepted, and what they are read as. */
  lemma ParseByteRangeIff(h: string, start: int, end: int)
    ensures ParseByteRange(h) == Ok(ByteRange(start, end)) <==>
            (h == "" && start == 0 && end == -1) || exists first, last :: IsRangeHeader(h, first, last, start, end)
  {
    hide Split, TrimSpace, ParseInt;
    if ParseByteRange(h) == Ok(ByteRange(start, end)) && h != "" {
      var parts := Split(h[6..], '-');
      assert parts == [parts[0], parts[1]];
      SplitInTwoIff(h[6..], '-', parts[0], parts[1]);
      assert h == "bytes=" + h[6..];
      assert IsRangeHeader(h, parts[0], parts[1], start, end);
    }
    if first, last :| IsRangeHeader(h, first, last, start, end) {
      assert h[6..] == first + "-" + last && "bytes=" <= h;
      SplitInTwoIff(h[6..], '-', first, last);
      assert h != "";
    }
  }

  /** The two halves of a Content-Range header. */
  predicate IsContentRange(h: string, range: string, total: string) {
    h == UNITS + (range + "/" + total) && '/' !in range && '/' !in total
  }

  lemma ContentRangePartsIff(h: string, range: string, total: string)
    ensures ContentRangeParts(h) == Some((range, total)) <==> IsContentRange(h, range, total)
  {
    hide Split;
    if HasPrefix(h, UNITS) {
      assert h == UNITS + h[6..];
      SplitInTwoIff(h[6..], '/', range, total);
      if IsContentRange(h, range, total) { assert h[6..] == range + "/" + total; }
      if |Split(h[6..], '/')| == 2 {
        assert Split(h[6..], '/') == [Split(h[6..], '/')[0], Split(h[6..], '/')[1]];
      }
    } else {
      assert !(UNITS <= h);
    }
  }

  /** A Content-Range header with the texts of its positions. */
  predicate HasPositions(h: string, first: string, last: string, total: string, range: string, start: int, end: int) {
    && IsContentRange(h, range, total) && TrimSpace(range) == first + "-" + last && '-' !in first && '-' !in last
    && ParseInt(TrimSpace(first)) == Some(start)
    && (if TrimSpace(last) == "" || TrimSpace(last) == "*" then end == -1 else ParseInt(TrimSpace(last)) == Some(end))
  }

  /** Exactly the headers whose positions are accepted, and what they are read as. */
  lemma ParsePositionsIff(h: string, start: int, end: int)
    ensures ParseContentRangeStartAndEnd(h) == Some((start, end)) <==>
            exists first, last, total, range :: HasPositions(h, first, last, total, range, start, end)
  {
    hide Split, TrimSpace, ParseInt, ContentRangeParts;
    if ParseContentRangeStartAndEnd(h) == Some((start, end)) {
      var (range, total) := ContentRangeParts(h).value;
      ContentRangePartsIff(h, range, total);
      var parts := Split(TrimSpace(range), '-');
      assert parts == [parts[0], parts[1]];
      SplitInTwoIff(TrimSpace(range), '-', parts[0], parts[1]);
      assert HasPositions(h, parts[0], parts[1], total, range, start, end);
    }
    if first, last, total, range :| HasPositions(h, first, last, total, range, start, end) {
      ContentRangePartsIff(h, range, total);
      SplitInTwoIff(TrimSpace(range), '-', first, last);
    }
  }

  predicate IsTotal(text: string, n: int) {
    if text == "" || text == "*" then n == -1 else n >= 0 && ParseInt(TrimSpace(text)) == Some(n)
  }

  /** Exactly the headers whose total is accepted, and what it is read as. */
  lemma ParseTotalIff(h: string, n: int)
    ensures ParseContentRangeTotalLength(h) == Some(n) <==>
            exists range, total :: IsContentRange(h, range, total) && IsTotal(total, n)
  {
    hide Split, TrimSpace, ParseInt, ContentRangeParts;
    if ParseContentRangeTotalLength(h) == Some(n) {
      var (range, total) := ContentRangeParts(h).value;
      ContentRangePartsIff(h, range, total);
    }
    if range, total :| IsContentRange(h, range, total) && IsTotal(total, n) {
      ContentRangePartsIff(h, range, total);
    }
  }

  // ---- Range requests ----

  lemma SplitHyphen(first: string, last: string)
    requires '-' !in first && '-' !in last
    ensures Split(first + "-" + last, '-') == [first, last]
  {
    hide Split;
    SplitJoin(first, '-', last);
    SplitWithout(last, '-');
  }

  /** A header "bytes=first-last" with plain, trimmed position texts. */
  lemma ByteRangeOfTexts(first: string, last: string, h: string)
    requires '-' !in first && '-' !in last && ',' !in first && ',' !in last
    requires Trimmed(first) && Trimmed(last) && h == "bytes=" + (first + "-" + last)
    ensures h != "" && HasPrefix(h, "bytes=") && ',' !in h && |"bytes="| == 6
    ensures Split(h[6..], '-') == [first, last]
    ensures TrimSpace(first) == first && TrimSpace(last) == last
  {
    hide Split, TrimSpace;
    TrimSpaceTrimmed(first);
    TrimSpaceTrimmed(last);
    SplitHyphen(first, last);
    assert h[6..] == first + "-" + last;
  }

  lemma ParseClosedRange(start: nat, end: nat)
    requires start <= end <= MAX_INT64
    ensures ParseByteRange("bytes=" + (FormatInt(start) + "-" + FormatInt(end))) == Ok(ByteRange(start, end))
  {
    hide Split, TrimSpace, ParseInt, FormatInt;
    FormatNatPlain(start);
    FormatNatPlain(end);
    ParseFormatInt(start);
    ParseFormatInt(end);
    ByteRangeOfTexts(FormatInt(start), FormatInt(end), "bytes=" + (FormatInt(start) + "-" + FormatInt(end)));
  }

  lemma ParseOpenRange(start: nat)
    requires start <= MAX_INT64
    ensures ParseByteRange("bytes=" + (FormatInt(start) + "-")) == Ok(ByteRange(start, -1))
  {
    hide Split, TrimSpace, ParseInt, FormatInt;
    FormatNatPlain(start);
    ParseFormatInt(start);
    assert FormatInt(start) + "-" == FormatInt(start) + "-" + "";
    ByteRangeOfTexts(FormatInt(start), "", "bytes=" + (FormatInt(start) + "-"));
  }

  /** "bytes=-n" is not read as the suffix range of RFC 9110 section 14.1.2 but as "from 0 to n". */
  lemma ParseSuffixRange(n: nat)
    requires n <= MAX_INT64
    ensures ParseByteRange("bytes=" + ("-" + FormatInt(n))) == Ok(ByteRange(0, n))
  {
    hide Split, TrimSpace, ParseInt, FormatInt;
    FormatNatPlain(n);
    ParseFormatInt(n);
    assert "-" + FormatInt(n) == "" + "-" + FormatInt(n);
    ByteRangeOfTexts("", FormatInt(n), "bytes=" + ("-" + FormatInt(n)));
  }

  /** The offsets [from, to) that a parsed range selects in a source of `total` bytes. */
  function Selected(r: ByteRange, total: nat): (int, int) {
    (r.start, if r.end == -1 || r.end >= total then total else r.end + 1)
  }

  /** The offsets that RFC 9110 section 14.1.2 gives the suffix range `-n`. */
  function SuffixSelected(n: nat, total: nat): (int, int) {
    (if n >= total then 0 else total - n, total)
  }

  /** They are the last n, or all if there are fewer. */
  lemma SuffixSelectedIff(n: nat, total: nat, i: int)
    ensures var (from, to) := SuffixSelected(n, total);
            from <= i < to <==> 0 <= i < total && total - i <= n
  {
  }

  /** Exactly when the proxy's reading of `bytes=-n` agrees with the RFC: the suffix has to
      cover the whole source. */
  lemma SuffixRangeAgreesIff(n: nat, total: nat)
    requires n <= MAX_INT64 && total > 0
    ensures var r := ParseByteRange("bytes=" + ("-" + FormatInt(n)));
            r.Ok? && (Selected(r.value, total) == SuffixSelected(n, total) <==> n >= total)
  {
    hide FormatInt, ParseByteRange;
    ParseSuffixRange(n);
  }

  /** An offset is selected if and only if it lies in the source, not before the first position and
      not behind the last one. */
  lemma SelectedIff(r: ByteRange, total: nat, i: int)
    requires r.start >= 0 && r.end >= -1
    ensures var (from, to) := Selected(r, total);
            from <= i < to <==> r.start <= i < total && (r.end == -1 || i <= r.end)
  {
  }

  /** The computed length of a range that starts inside the source is the number of selected offsets. */
  lemma ContentLengthOfSelected(r: ByteRange, total: nat)
    requires 0 <= r.start < total && (r.end == -1 || r.start <= r.end)
    ensures var (from, to) := Selected(r, total);
            from < to <= total && ContentLength(r.start, r.end, total) == to - from
  {
  }

  /** Without a known total, a closed range has the length that it has in every source it fits in, and
      an open one has none. */
  lemma ContentLengthOfUnknown(r: ByteRange, total: nat)
    requires 0 <= r.start && (r.end == -1 || r.start <= r.end < total)
    ensures ContentLength(r.start, r.end, -1) == if r.end == -1 then -1 else ContentLength(r.start, r.end, total)
  {
  }

  // ---- Content-Range ----

  /** The shape of every header that `FmtContentRange` prints with two positions. */
  lemma PartsOfContentRange(start: nat, lastText: string, totalText: string)
    requires '/' !in lastText && '/' !in totalText
    ensures ContentRangeParts(UNITS + FormatInt(start) + "-" + lastText + "/" + totalText)
            == Some((FormatInt(start) + "-" + lastText, totalText))
  {
    hide Split, FormatInt;
    FormatNatPlain(start);
    var h := UNITS + FormatInt(start) + "-" + lastText + "/" + totalText;
    var positions := FormatInt(start) + "-" + lastText;
    assert h[|UNITS|..] == positions + ['/'] + totalText;
    SplitJoin(positions, '/', totalText);
    SplitWithout(totalText, '/');
  }

  lemma PositionsSplit(first: string, last: string)
    requires first != "" && last != "" && Trimmed(first) && Trimmed(last)
    requires '-' !in first && '-' !in last
    ensures Split(TrimSpace(first + "-" + last), '-') == [first, last]
    ensures TrimSpace(first) == first && TrimSpace(last) == last
  {
    hide Split, TrimSpace;
    assert Trimmed(first + "-" + last);
    TrimSpaceTrimmed(first + "-" + last);
    TrimSpaceTrimmed(first);
    TrimSpaceTrimmed(last);
    SplitHyphen(first, last);
  }

  lemma PrintedPositionsParse(start: nat, last: nat, totalText: string)
    requires start <= MAX_INT64 && last <= MAX_INT64 && '/' !in totalText
    ensures ParseContentRangeStartAndEnd(UNITS + FormatInt(start) + "-" + FormatInt(last) + "/" + totalText)
            == Some((start, last))
  {
    hide Split, TrimSpace, ParseInt, FormatInt, ContentRangeParts;
    FormatNatPlain(start);
    FormatNatPlain(last);
    ParseFormatInt(start);
    ParseFormatInt(last);
    PartsOfContentRange(start, FormatInt(last), totalText);
    PositionsSplit(FormatInt(start), FormatInt(last));
    assert '*' !in FormatInt(last) by { FormatNatDigits(last); }
  }

  lemma FormatNatDigits(n: nat)
    ensures AllDigits(FormatInt(n)) && FormatInt(n) != ""
  {
    hide FormatNat;
  }

  /** The empty source printed with an open end: the last position is "-1". */
  lemma NoLastPosition(start: nat, totalText: string)
    requires '/' !in totalText
    ensures ParseContentRangeStartAndEnd(UNITS + FormatInt(start) + "-" + "-1" + "/" + totalText).None?
  {
    hide Split, TrimSpace, ParseInt, FormatInt, ContentRangeParts;
    var a := FormatInt(start);
    FormatNatPlain(start);
    PartsOfContentRange(start, "-1", totalText);
    assert Trimmed(a + "-" + "-1");
    TrimSpaceTrimmed(a + "-" + "-1");
    assert a + "-" + "-1" == a + ['-'] + "-1";
    SplitJoin(a, '-', "-1");
    SplitHyphen("", "1");
    assert "" + "-" + "1" == "-1";
  }

  /** Parsing what was printed recovers start, end and total; an open end comes back as the
      last position. It fails exactly when there is no last position to print. */
  lemma ContentRangeRoundTrip(start: nat, end: int, total: int)
    requires start <= MAX_INT64 && -1 <= end <= MAX_INT64 && -1 <= total <= MAX_INT64
    ensures var h := FmtContentRange(start, end, total);
            && ParseContentRangeTotalLength(h) == Some(total)
            && (ParseContentRangeStartAndEnd(h).None? <==> end == -1 && total <= 0)
            && (end >= 0 ==> ParseContentRangeStartAndEnd(h) == Some((start, end)))
            && (end == -1 && total > 0 ==> ParseContentRangeStartAndEnd(h) == Some((start, total - 1)))
  {
    hide FormatInt, ParseInt, TrimSpace, ParseContentRangeStartAndEnd, ContentRangeParts;
    if end == -1 && total == -1 {
      UnknownContentRange();
    } else {
      var last := if end == -1 then total - 1 else end;
      var totalText := if total >= 0 then FormatInt(total) else "*";
      TotalTextParses(total);
      if last >= 0 {
        FormatNatPlain(last);
        PartsOfContentRange(start, FormatInt(last), totalText);
        PrintedPositionsParse(start, last, totalText);
      } else {
        assert FormatInt(-1) == "-1" by { MinusOneText(); }
        PartsOfContentRange(start, "-1", totalText);
        NoLastPosition(start, totalText);
      }
    }
  }

  lemma MinusOneText()
    ensures FormatInt(-1) == "-1"
  {
  }

  lemma TotalTextParses(total: int)
    requires -1 <= total <= MAX_INT64
    ensures var t := if total >= 0 then FormatInt(total) else "*";
            && '/' !in t && (t == "" || t == "*" <==> total == -1)
            && (total >= 0 ==> ParseInt(TrimSpace(t)) == Some(total))
  {
    hide ParseInt, FormatInt, TrimSpace;
    if total >= 0 {
      FormatNatPlain(total);
      ParseFormatInt(total);
    }
  }

  lemma UnknownContentRange()
    ensures ParseContentRangeTotalLength("bytes */*") == Some(-1)
    ensures ParseContentRangeStartAndEnd("bytes */*").None?
  {
    hide Split, TrimSpace, ParseInt;
    assert "bytes */*"[|UNITS|..] == "*" + ['/'] + "*";
    SplitJoin("*", '/', "*");
    SplitWithout("*", '/');
    TrimSpaceTrimmed("*");
    SplitWithout("*", '-');
  }

  /** A satisfied Content-Range (RFC 9110 section 14.4): the last position is not before the
      first one and lies inside the complete length. */
  predicate ValidContentRange(h: string) {
    var r, t := ParseContentRangeStartAndEnd(h), ParseContentRangeTotalLength(h);
    && r.Some? && t.Some?
    && 0 <= r.value.0 <= r.value.1 && (t.value == -1 || r.value.1 < t.value)
  }

  /** The printed end is not clamped to the total, so the header of an accepted request is
      valid exactly when the requested end lies inside the source; without a known total, when there is
      an end. */
  lemma ContentRangeValidIff(r: ByteRange, total: int)
    requires 0 <= r.start <= MAX_INT64 && (r.end == -1 || r.start <= r.end <= MAX_INT64)
    requires -1 <= total <= MAX_INT64
    ensures ValidContentRange(FmtContentRange(r.start, r.end, total))
            <==> if total == -1 then r.end != -1 else r.start < total && r.end < total
  {
    hide ParseContentRangeStartAndEnd, ParseContentRangeTotalLength, FmtContentRange;
    ContentRangeRoundTrip(r.start, r.end, total);
  }

  // ---- Cache keys ----

  lemma ThreeParts(a: string, b: string, c: string, a': string, b': string, c': string)
    requires '-' !in a && '-' !in a' && '-' !in b && '-' !in b'
    requires a + "-" + b + "-" + c == a' + "-" + b' + "-" + c'
    ensures a == a' && b == b' && c == c'
  {
    assert a + "-" + b + "-" + c == a + ['-'] + (b + ['-'] + c);
    assert a' + "-" + b' + "-" + c' == a' + ['-'] + (b' + ['-'] + c');
    SamePrefix(a, a', b + ['-'] + c, b' + ['-'] + c', '-');
    SamePrefix(b, b', c, c', '-');
  }

  /** Keys never collide: they determine the resource hash, the slice size and the offset. */
  lemma CacheKeyInjective(hash: string, offset: nat, sliceSize: nat, hash': string, offset': nat, sliceSize': nat)
    requires '-' !in hash && '-' !in hash'
    requires CacheKey(hash, offset, sliceSize) == CacheKey(hash', offset', sliceSize')
    ensures hash == hash' && offset == offset' && sliceSize == sliceSize'
  {
    hide FormatInt, FormatNat;
    FormatNatPlain(sliceSize);
    FormatNatPlain(sliceSize');
    FormatNatPlain(offset);
    FormatNatPlain(offset');
    ThreeParts(hash, FormatInt(sliceSize), FormatInt(offset), hash', FormatInt(sliceSize'), FormatInt(offset'));
    FormatNatInjective(sliceSize, sliceSize');
    FormatNatInjective(offset, offset');
  }
}
