/**
 * The static scan primitives written as the Java loops walk the buffer,
 * each proved to compute exactly the corresponding function of ByteScan.
 */
module ByteScanLoops {
  import opened Bytes
  import opened ByteScan

  /** `SkipWhitespace` (when `ws`) and `SkipToWhitespace` (when not). */
  method SkipWhile(s: State, ws: bool) returns (ok: bool, r: State)
    requires s.Valid()
    ensures Step(ok, r) == (if ws then SkipWhitespace(s) else SkipToWhitespace(s))
  {
    var off := s.offset;
    while off < s.end && IsWhitespace(s.buf[off]) == ws
      invariant s.offset <= off <= s.end
      invariant SkipClass(s.buf, off, s.end, ws) == SkipClass(s.buf, s.offset, s.end, ws)
      decreases s.end - off
    {
      off := off + 1;
    }
    ok := off != s.end;
    r := s.(offset := off);
  }

  /** `ParseInt`: the digit loop, then the value of the run (`Integer.parseInt`). */
  method ParseIntLoop(s: State) returns (ok: bool, r: State)
    requires s.Valid()
    ensures Step(ok, r) == ParseInt(s)
  {
    var off := s.offset;
    var value := 0;
    while off < s.end && IsDigit(s.buf[off])
      invariant s.offset <= off <= s.end
      invariant DigitRunEnd(s.buf, off, s.end) == DigitRunEnd(s.buf, s.offset, s.end)
      invariant value == DecimalValue(s.buf[s.offset..off])
      decreases s.end - off
    {
      assert s.buf[s.offset..off + 1][..off - s.offset] == s.buf[s.offset..off];
      value := value * 10 + (s.buf[off] - 48);
      off := off + 1;
    }
    ok := off > s.offset && value <= MaxInt32;
    r := s.(offset := off, ival := if ok then value else 0);
  }

  /** `StartsWith`: the bytewise comparison loop. */
  method StartsWithLoop(v: ByteSeq, p: string) returns (ok: bool)
    requires v.Valid()
    ensures ok == StartsWith(v, p)
  {
    if v.end - v.offset < |p| {
      return false;
    }
    var i := 0;
    while i < |p|
      invariant 0 <= i <= |p|
      invariant forall k :: 0 <= k < i ==> Match(v.buf[v.offset + k], p[k], v.caseSensitive)
    {
      if !Match(v.buf[v.offset + i], p[i], v.caseSensitive) {
        return false;
      }
      i := i + 1;
    }
    return true;
  }

  /** `Find(bss, c)`. */
  method FindCharLoop(s: State, c: char) returns (ok: bool, r: State)
    requires s.Valid()
    ensures Step(ok, r) == FindChar(s, c)
  {
    var off := s.offset;
    while off < s.end && !Is(s.buf[off], c)
      invariant s.offset <= off <= s.end
      invariant CharIndex(s.buf, off, s.end, c) == CharIndex(s.buf, s.offset, s.end, c)
      decreases s.end - off
    {
      off := off + 1;
    }
    ok := off != s.end;
    r := s.(offset := off);
  }

  /** The comparison of `Find(bss, str)` after the first byte matched: the remaining pattern bytes, one by one. */
  method RestMatches(buf: Bytes, off: int, p: string, cs: bool) returns (ok: bool)
    requires 0 <= off && off + |p| <= |buf| && |p| > 0 && Match(buf[off], p[0], cs)
    ensures ok == MatchAt(buf, off, p, cs)
  {
    var i := 1;
    while i < |p| && Match(buf[off + i], p[i], cs)
      invariant 1 <= i <= |p|
      invariant forall k :: 0 <= k < i ==> Match(buf[off + k], p[k], cs)
    {
      i := i + 1;
    }
    ok := i == |p|;
  }

  /** A position that is no match moves the search on by one. */
  lemma {:induction false} PatternIndexSkip(buf: Bytes, off: int, last: int, p: string, cs: bool)
    requires 0 <= off < last && last + |p| <= |buf| + 1 && |p| > 0
    requires !MatchAt(buf, off, p, cs)
    ensures PatternIndex(buf, off, last, p, cs) == PatternIndex(buf, off + 1, last, p, cs)
  {
  }

  /**
   * `Find(bss, str)`: skip to a byte matching the first pattern character,
   * compare the rest, and move on by one on a mismatch.
   */
  method FindPatternLoop(s: State, p: string) returns (ok: bool, r: State)
    requires s.Valid() && |p| > 0
    ensures Step(ok, r) == FindPattern(s, p)
  {
    var cs := s.caseSensitive;
    var last := s.end - (|p| - 1);
    var off := s.offset;
    while off < last
      invariant s.offset <= off
      invariant PatternIndex(s.buf, off, last, p, cs) == PatternIndex(s.buf, s.offset, last, p, cs)
      decreases last - off
    {
      while off < last && !Match(s.buf[off], p[0], cs)
        invariant s.offset <= off
        invariant PatternIndex(s.buf, off, last, p, cs) == PatternIndex(s.buf, s.offset, last, p, cs)
        decreases last - off
      {
        assert !Match(s.buf[off + 0], p[0], cs);
        PatternIndexSkip(s.buf, off, last, p, cs);
        off := off + 1;
      }
      if off < last {
        var found := RestMatches(s.buf, off, p, cs);
        if found {
          return true, s.(offset := off);
        }
        PatternIndexSkip(s.buf, off, last, p, cs);
        off := off + 1;
      }
    }
    return false, s.(offset := off);
  }
}
