/**
 * The zero-copy byte view (`ByteSeq`) and the scan cursor (`ByteScan.State`)
 * with the static scan primitives, as pure functions.  Every primitive
 * returns the new cursor together with the boolean the Java method returns.
 * The loop implementations that mirror the Java bodies are in ByteScanLoops.
 */
module ByteScan {
  import opened Bytes

  /** A view `[offset, end)` of a shared buffer; `null` buffers are the empty sequence. */
  datatype ByteSeq = ByteSeq(buf: Bytes, offset: int, end: int, caseSensitive: bool) {
    predicate Valid() {
      0 <= offset <= end <= |buf|
    }

    /** `toString`: exactly the bytes of the view. */
    function Text(): (r: Bytes)
      requires Valid()
      ensures |r| == end - offset
      ensures forall i :: 0 <= i < |r| ==> r[i] == buf[offset + i]
    {
      buf[offset..end]
    }

    /** `init(buf, offset, end)`: replaces the three fields and clears the case flag. */
    function Reinit(b: Bytes, off: int, e: int): (r: ByteSeq)
      ensures r.buf == b && r.offset == off && r.end == e && !r.caseSensitive
      ensures 0 <= off <= e <= |b| ==> r.Valid() && r.Text() == b[off..e]
    {
      ByteSeq(b, off, e, false)
    }

    /** `init(buf)`: views the whole array, case-insensitively. */
    function ReinitWhole(b: Bytes): (r: ByteSeq)
      ensures r.Valid() && r.Text() == b && !r.caseSensitive
      ensures r.offset == 0 && r.end == |b|
    {
      ByteSeq(b, 0, |b|, false)
    }
  }

  /** `new ByteSeq()`: an empty view of no buffer. */
  function EmptySeq(): (r: ByteSeq)
    ensures r.Valid() && r.Text() == [] && r.offset == 0 && r.end == 0
  {
    ByteSeq([], 0, 0, false)
  }

  /** `ByteScan.State`: a view plus a saved position `mark` and the last parsed integer. */
  datatype State = State(buf: Bytes, offset: int, end: int, caseSensitive: bool, mark: int, ival: int) {
    predicate Valid() {
      0 <= offset <= end <= |buf|
    }

    /** The state seen as a plain `ByteSeq`, as the static helpers take it. */
    function View(): ByteSeq {
      ByteSeq(buf, offset, end, caseSensitive)
    }

    predicate Eob() {
      offset >= end
    }

    function SetMark(): (r: State)
      ensures r.mark == offset && r == this.(mark := offset)
    {
      this.(mark := offset)
    }

    function Reset(): (r: State)
      ensures r.offset == mark && r == this.(offset := mark)
    {
      this.(offset := mark)
    }

    /** `flip`: exchanges the cursor and the mark. */
    function Flip(): (r: State)
      ensures r.offset == mark && r.mark == offset
      ensures r.buf == buf && r.end == end && r.caseSensitive == caseSensitive && r.ival == ival
    {
      this.(offset := mark, mark := offset)
    }

    /** `init(buf, offset, end)`: a new view; `mark` and `ival` survive from the old one. */
    function Init(b: Bytes, off: int, e: int): (r: State)
      ensures r.View() == ByteSeq(b, off, e, false)
      ensures r.mark == mark && r.ival == ival
    {
      this.(buf := b, offset := off, end := e, caseSensitive := false)
    }

    /** `toString`: the span from the mark to the cursor. */
    function Text(): (r: Bytes)
      requires 0 <= mark <= offset <= |buf|
      ensures |r| == offset - mark
      ensures forall i :: 0 <= i < |r| ==> r[i] == buf[mark + i]
    {
      buf[mark..offset]
    }
  }

  /** `new State()`. */
  function NewState(): State {
    State([], 0, 0, false, 0, 0)
  }

  /** `new State(ByteSeq)`: the same span, case-insensitive, mark and ival zero. */
  function StateOf(v: ByteSeq): (r: State)
    ensures r.View() == v.(caseSensitive := false) && r.mark == 0 && r.ival == 0
  {
    State(v.buf, v.offset, v.end, false, 0, 0)
  }

  /** The result of a scan primitive: its boolean and the cursor it leaves. */
  datatype Step = Step(ok: bool, st: State)

  /**
   * The first index at or after `i` whose whitespace class differs from
   * `ws`, or `end` when there is none.
   */
  function SkipClass(buf: Bytes, i: int, end: int, ws: bool): (j: int)
    requires 0 <= i <= end <= |buf|
    ensures i <= j <= end
    ensures forall k :: i <= k < j ==> IsWhitespace(buf[k]) == ws
    ensures j < end ==> IsWhitespace(buf[j]) != ws
    decreases end - i
  {
    if i < end && IsWhitespace(buf[i]) == ws then SkipClass(buf, i + 1, end, ws) else i
  }

  /** `SkipWhitespace`: false exactly when the cursor reaches `end`. */
  function SkipWhitespace(s: State): (r: Step)
    requires s.Valid()
    ensures r.st == s.(offset := r.st.offset) && r.st.Valid()
    ensures s.offset <= r.st.offset <= s.end
    ensures forall k :: s.offset <= k < r.st.offset ==> IsWhitespace(s.buf[k])
    ensures r.st.offset < s.end ==> !IsWhitespace(s.buf[r.st.offset])
    ensures r.ok <==> r.st.offset != s.end
  {
    var j := SkipClass(s.buf, s.offset, s.end, true);
    Step(j != s.end, s.(offset := j))
  }

  /** A known end of the run is where `SkipClass` stops. */
  lemma SkipClassAt(buf: Bytes, i: int, j: int, end: int, ws: bool)
    requires 0 <= i <= j < end <= |buf|
    requires forall k :: i <= k < j ==> IsWhitespace(buf[k]) == ws
    requires IsWhitespace(buf[j]) != ws
    ensures SkipClass(buf, i, end, ws) == j
    decreases j - i
  {
    if i < j {
      SkipClassAt(buf, i + 1, j, end, ws);
    }
  }

  /** The cursor `SkipWhitespace` leaves, by index, for proofs that compose steps. */
  lemma SkipWhitespaceAt(s: State)
    requires s.Valid()
    ensures var j := SkipClass(s.buf, s.offset, s.end, true);
            SkipWhitespace(s) == Step(j != s.end, s.(offset := j))
  {
  }

  /** `SkipToWhitespace`: false exactly when the cursor reaches `end`. */
  function SkipToWhitespace(s: State): (r: Step)
    requires s.Valid()
    ensures r.st == s.(offset := r.st.offset) && r.st.Valid()
    ensures s.offset <= r.st.offset <= s.end
    ensures forall k :: s.offset <= k < r.st.offset ==> !IsWhitespace(s.buf[k])
    ensures r.st.offset < s.end ==> IsWhitespace(s.buf[r.st.offset])
    ensures r.ok <==> r.st.offset != s.end
  {
    var j := SkipClass(s.buf, s.offset, s.end, false);
    Step(j != s.end, s.(offset := j))
  }

  /** The end of the maximal run of ASCII digits starting at `i`. */
  function DigitRunEnd(buf: Bytes, i: int, end: int): (j: int)
    requires 0 <= i <= end <= |buf|
    ensures i <= j <= end
    ensures forall k :: i <= k < j ==> IsDigit(buf[k])
    ensures j < end ==> !IsDigit(buf[j])
    decreases end - i
  {
    if i < end && IsDigit(buf[i]) then DigitRunEnd(buf, i + 1, end) else i
  }

  /**
   * `ParseInt`: consumes the maximal digit run; succeeds with its value iff
   * the run is non-empty and fits a Java `int`, otherwise `ival` is 0.
   */
  function ParseInt(s: State): (r: Step)
    requires s.Valid()
    ensures r.st == s.(offset := r.st.offset, ival := r.st.ival) && r.st.Valid()
    ensures s.offset <= r.st.offset <= s.end
    ensures forall k :: s.offset <= k < r.st.offset ==> IsDigit(s.buf[k])
    ensures r.st.offset < s.end ==> !IsDigit(s.buf[r.st.offset])
    ensures r.ok <==> r.st.offset > s.offset && DecimalValue(s.buf[s.offset..r.st.offset]) <= MaxInt32
    ensures r.ok ==> r.st.ival == DecimalValue(s.buf[s.offset..r.st.offset])
    ensures !r.ok ==> r.st.ival == 0
  {
    var j := DigitRunEnd(s.buf, s.offset, s.end);
    var v := DecimalValue(s.buf[s.offset..j]);
    var ok := j > s.offset && v <= MaxInt32;
    Step(ok, s.(offset := j, ival := if ok then v else 0))
  }

  /** The pattern occurs at `i`, compared byte by byte under the case flag. */
  predicate MatchAt(buf: Bytes, i: int, p: string, caseSensitive: bool)
    requires 0 <= i && i + |p| <= |buf|
  {
    forall k :: 0 <= k < |p| ==> Match(buf[i + k], p[k], caseSensitive)
  }

  /** `StartsWith`: never moves; false when fewer than `|p|` bytes remain. */
  predicate StartsWith(v: ByteSeq, p: string)
    requires v.Valid()
  {
    v.end - v.offset >= |p| && MatchAt(v.buf, v.offset, p, v.caseSensitive)
  }

  /**
   * `Equals`: true when the view starts with `p` OR has exactly `|p|` bytes
   * left, whatever those bytes are.  It is not an equality test.
   */
  predicate Equals(v: ByteSeq, p: string)
    requires v.Valid()
  {
    v.end - v.offset == |p| || StartsWith(v, p)
  }

  /** `StartsWithSkip`: advances by exactly `|p|` on a match, otherwise leaves the cursor. */
  function StartsWithSkip(s: State, p: string): (r: Step)
    requires s.Valid()
    ensures r.ok == StartsWith(s.View(), p)
    ensures r.ok ==> r.st == s.(offset := s.offset + |p|)
    ensures !r.ok ==> r.st == s
    ensures r.st.Valid()
  {
    if StartsWith(s.View(), p) then Step(true, s.(offset := s.offset + |p|)) else Step(false, s)
  }

  /** The first index at or after `i` holding `c`, or `end`. */
  function CharIndex(buf: Bytes, i: int, end: int, c: char): (j: int)
    requires 0 <= i <= end <= |buf|
    ensures i <= j <= end
    ensures forall k :: i <= k < j ==> !Is(buf[k], c)
    ensures j < end ==> Is(buf[j], c)
    decreases end - i
  {
    if i < end && !Is(buf[i], c) then CharIndex(buf, i + 1, end, c) else i
  }

  /** Bytes known not to hold `c` can be skipped before the search. */
  lemma {:induction false} CharIndexFrom(buf: Bytes, i: int, j: int, end: int, c: char)
    requires 0 <= i <= j <= end <= |buf|
    requires forall k :: i <= k < j ==> !Is(buf[k], c)
    ensures CharIndex(buf, i, end, c) == CharIndex(buf, j, end, c)
    decreases j - i
  {
    if i < j {
      CharIndexFrom(buf, i + 1, j, end, c);
    }
  }

  /**
   * `Find(bss, c)`: on success the cursor is on the first `c` at or after
   * the start; on failure it is at `end`.  The comparison ignores the case flag.
   */
  function FindChar(s: State, c: char): (r: Step)
    requires s.Valid()
    ensures r.st == s.(offset := r.st.offset) && r.st.Valid()
    ensures s.offset <= r.st.offset
    ensures forall k :: s.offset <= k < r.st.offset ==> !Is(s.buf[k], c)
    ensures r.ok ==> r.st.offset < s.end && Is(s.buf[r.st.offset], c)
    ensures !r.ok ==> r.st.offset == s.end
  {
    var j := CharIndex(s.buf, s.offset, s.end, c);
    Step(j != s.end, s.(offset := j))
  }

  /** `FindSkip(bss, c)`: as `FindChar`, one past the match on success. */
  function FindSkipChar(s: State, c: char): (r: Step)
    requires s.Valid()
    ensures r.st == s.(offset := r.st.offset) && r.st.Valid()
    ensures r.ok ==> s.offset < r.st.offset && Is(s.buf[r.st.offset - 1], c)
    ensures r.ok ==> forall k :: s.offset <= k < r.st.offset - 1 ==> !Is(s.buf[k], c)
    ensures !r.ok ==> r.st.offset == s.end && forall k :: s.offset <= k < s.end ==> !Is(s.buf[k], c)
  {
    var f := FindChar(s, c);
    if f.ok then Step(true, f.st.(offset := f.st.offset + 1)) else f
  }

  /** The cursor `FindSkipChar` leaves, by index, for proofs that compose steps. */
  lemma FindSkipCharAt(s: State, c: char)
    requires s.Valid()
    ensures var j := CharIndex(s.buf, s.offset, s.end, c);
            FindSkipChar(s, c) == Step(j < s.end, s.(offset := if j < s.end then j + 1 else s.end))
  {
  }

  /**
   * The leftmost index in `[i, last)` where `p` occurs; when there is none,
   * the larger of `i` and `last`.
   */
  function PatternIndex(buf: Bytes, i: int, last: int, p: string, caseSensitive: bool): (j: int)
    requires 0 <= i && last + |p| <= |buf| + 1
    ensures i <= j
    ensures j < last ==> MatchAt(buf, j, p, caseSensitive)
    ensures forall k :: i <= k < j && k < last ==> !MatchAt(buf, k, p, caseSensitive)
    ensures j >= last ==> j == if i < last then last else i
    decreases last - i
  {
    if i >= last then i
    else if MatchAt(buf, i, p, caseSensitive) then i
    else PatternIndex(buf, i + 1, last, p, caseSensitive)
  }

  /**
   * `Find(bss, str)`: on success the cursor is on the leftmost match.  On
   * failure no match lies in the view, and the cursor is left at
   * `end - |p| + 1` (or where it was, if that is further on), not at `end`.
   */
  function FindPattern(s: State, p: string): (r: Step)
    requires s.Valid() && |p| > 0
    ensures r.st == s.(offset := r.st.offset) && r.st.Valid()
    ensures s.offset <= r.st.offset
    ensures r.ok ==> r.st.offset + |p| <= s.end && MatchAt(s.buf, r.st.offset, p, s.caseSensitive)
    ensures forall k :: s.offset <= k < r.st.offset && k + |p| <= s.end ==> !MatchAt(s.buf, k, p, s.caseSensitive)
    ensures !r.ok ==> r.st.offset == if s.offset < s.end - |p| + 1 then s.end - |p| + 1 else s.offset
  {
    var last := s.end - (|p| - 1);
    var j := PatternIndex(s.buf, s.offset, last, p, s.caseSensitive);
    Step(j < last, s.(offset := j))
  }

  /** A known leftmost match is where `FindPattern` stops. */
  lemma FindPatternAt(s: State, p: string, d: int)
    requires s.Valid() && |p| > 0 && s.offset <= d && d + |p| <= s.end
    requires MatchAt(s.buf, d, p, s.caseSensitive)
    requires forall k :: s.offset <= k < d ==> !MatchAt(s.buf, k, p, s.caseSensitive)
    ensures FindPattern(s, p) == Step(true, s.(offset := d))
  {
    var r := FindPattern(s, p);
    assert r.ok;
  }

  /** `FindSkip(bss, str)`: as `FindPattern`, `|p|` further on success. */
  function FindSkipPattern(s: State, p: string): (r: Step)
    requires s.Valid() && |p| > 0
    ensures r.st == s.(offset := r.st.offset) && r.st.Valid()
    ensures r.ok ==> s.offset + |p| <= r.st.offset <= s.end
    ensures r.ok ==> MatchAt(s.buf, r.st.offset - |p|, p, s.caseSensitive)
    ensures r.ok ==> forall k :: s.offset <= k < r.st.offset - |p| ==> !MatchAt(s.buf, k, p, s.caseSensitive)
    ensures !r.ok ==> forall k :: s.offset <= k && k + |p| <= s.end ==> !MatchAt(s.buf, k, p, s.caseSensitive)
  {
    var f := FindPattern(s, p);
    if f.ok then Step(true, f.st.(offset := f.st.offset + |p|)) else f
  }

  /** A known leftmost match is where `FindSkipPattern` stops, `|p|` past it. */
  lemma FindSkipPatternAt(s: State, p: string, d: int)
    requires s.Valid() && |p| > 0 && s.offset <= d && d + |p| <= s.end
    requires MatchAt(s.buf, d, p, s.caseSensitive)
    requires forall k :: s.offset <= k < d ==> !MatchAt(s.buf, k, p, s.caseSensitive)
    ensures FindSkipPattern(s, p) == Step(true, s.(offset := d + |p|))
  {
    FindPatternAt(s, p, d);
  }

  /** A known first `c` is where `CharIndex` stops. */
  lemma CharIndexAt(buf: Bytes, i: int, end: int, c: char, j: int)
    requires 0 <= i <= j < end <= |buf|
    requires Is(buf[j], c) && forall k :: i <= k < j ==> !Is(buf[k], c)
    ensures CharIndex(buf, i, end, c) == j
  {
  }
}
