/**
 * `HTML.ElementParser`: a scanner for one element name at a time.  It finds
 * `<name` followed by whitespace or `>`, walks the attributes of the open
 * tag, and captures the content up to the first `</name`.  It is not
 * nesting-aware and does not decode entities.
 */
module Html {
  import opened Bytes
  import opened ByteScan
  import opened Wrappers

  /** The parser's fields; `bss` is the caller's cursor, which the parser moves. */
  datatype ElementParser = ElementParser(name: string, bss: State, tagOpen: bool, hasContent: bool, content: ByteSeq) {
    /** The captured content, once set, views the same buffer as the cursor. */
    predicate Valid() {
      bss.Valid() && content.Valid() && (content.buf == [] || content.buf == bss.buf)
    }
  }

  /** The cursor only moved forward within the same view. */
  predicate Advanced(a: State, b: State) {
    b == a.(offset := b.offset) && a.offset <= b.offset <= a.end
  }

  /** The pattern has no `<`, so a byte matched against it is never a `<`. */
  predicate NoOpenBracket(p: string) {
    forall k :: 0 <= k < |p| ==> p[k] != '<'
  }

  /** `<name` opens at `q`: the name is followed by whitespace or `>` inside the view. */
  predicate OpensAt(buf: Bytes, q: int, end: int, name: string, cs: bool)
    requires end <= |buf|
  {
    && 0 <= q && q + 1 + |name| < end
    && Is(buf[q], '<')
    && MatchAt(buf, q + 1, name, cs)
    && (IsWhitespace(buf[q + 1 + |name|]) || Is(buf[q + 1 + |name|], '>'))
  }

  /** The cursor rests just after an opening `<name`. */
  predicate OpensBefore(st: State, name: string)
    requires st.Valid()
  {
    OpensAt(st.buf, st.offset - |name| - 1, st.end, name, st.caseSensitive)
  }

  /** No tag opens anywhere in `[lo, hi)`. */
  predicate NoOpening(buf: Bytes, lo: int, hi: int, end: int, name: string, cs: bool)
    requires end <= |buf|
  {
    forall q :: lo <= q < hi ==> !OpensAt(buf, q, end, name, cs)
  }

  /** `</name` closes at `q`: as `Equals` decides it, followed by `>` or the end of the view. */
  predicate ClosesAt(buf: Bytes, q: int, end: int, name: string, cs: bool)
    requires end <= |buf|
  {
    && 0 <= q && q + 2 <= end
    && MatchAt(buf, q, "</", cs)
    && Equals(ByteSeq(buf, q + 2, end, cs), name)
    && (q + 2 + |name| == end || Is(buf[q + 2 + |name|], '>'))
  }

  /** No element closes anywhere in `[lo, hi)`. */
  predicate NoClosing(buf: Bytes, lo: int, hi: int, end: int, name: string, cs: bool)
    requires end <= |buf|
  {
    forall q :: lo <= q < hi ==> !ClosesAt(buf, q, end, name, cs)
  }

  lemma {:induction false} MatchedByteIsNotOpenBracket(b: Byte, c: char, cs: bool)
    requires Match(b, c, cs) && c != '<'
    ensures !Is(b, '<')
  {
  }

  /** Bytes before the found `<` cannot open the tag, nor can the `<` itself unless the scan accepts it. */
  lemma {:induction false} NoOpenBeforeBracket(s: State, f: State, name: string)
    requires s.Valid() && f == s.(offset := f.offset) && s.offset < f.offset <= s.end
    requires forall k :: s.offset <= k < f.offset - 1 ==> !Is(s.buf[k], '<')
    requires !Equals(f.View(), name) ||
             (var e := f.offset + |name|; e < s.end ==> !IsWhitespace(s.buf[e]) && !Is(s.buf[e], '>'))
    ensures NoOpening(s.buf, s.offset, f.offset, s.end, name, s.caseSensitive)
  {
    forall q | s.offset <= q < f.offset
      ensures !OpensAt(s.buf, q, s.end, name, s.caseSensitive)
    {
      if q < f.offset - 1 {
        assert !Is(s.buf[q], '<');
      } else if f.offset + |name| < s.end && MatchAt(s.buf, f.offset, name, s.caseSensitive) {
        assert StartsWith(f.View(), name);
      }
    }
  }

  /** After a matched name that is not followed by whitespace or `>`, the skipped bytes hold no opening. */
  lemma {:induction false} NoOpenInName(s: State, f: State, name: string)
    requires s.Valid() && f == s.(offset := f.offset) && s.offset < f.offset <= s.end
    requires Equals(f.View(), name) && NoOpenBracket(name)
    ensures NoOpening(s.buf, f.offset, f.offset + |name|, s.end, name, s.caseSensitive)
  {
    forall q | f.offset <= q < f.offset + |name|
      ensures !OpensAt(s.buf, q, s.end, name, s.caseSensitive)
    {
      if StartsWith(f.View(), name) {
        var k := q - f.offset;
        assert Match(s.buf[f.offset + k], name[k], s.caseSensitive);
        MatchedByteIsNotOpenBracket(s.buf[q], name[k], s.caseSensitive);
      }
    }
  }

  /** The scan accepts the `<` just before `f` when the name follows it and then whitespace or `>`. */
  lemma {:induction false} OpensAfterBracket(f: State, t: State, name: string)
    requires f.Valid() && 0 < f.offset && t == f.(offset := f.offset + |name|)
    requires Is(f.buf[f.offset - 1], '<') && Equals(f.View(), name)
    requires !t.Eob() && (IsWhitespace(t.buf[t.offset]) || Is(t.buf[t.offset], '>'))
    ensures OpensBefore(t, name)
  {
    assert StartsWith(f.View(), name);
  }

  /** The cursor rests on whitespace or `>`, which completes an opening. */
  predicate TagEndsHere(t: State)
    requires t.Valid()
  {
    !t.Eob() && (IsWhitespace(t.buf[t.offset]) || Is(t.buf[t.offset], '>'))
  }

  /** One round of a scanning loop: nothing left to find, a tag found, or where to look next. */
  datatype Move = Missed(st: State) | Found(st: State) | Resume(st: State)

  /** Where an opening could start at the latest after one round: anywhere up to the end, before the one found, or before the resumption point. */
  function OpenMoveLimit(s: State, m: Move, name: string): int {
    match m
    case Missed(_) => s.end
    case Found(st) => st.offset - |name| - 1
    case Resume(st) => st.offset
  }

  /** Find the next `<`; accept it when the name follows and then whitespace or `>`, else resume after it or after the name. */
  function NextOpen(s: State, name: string): (m: Move)
    requires s.Valid()
    ensures Advanced(s, m.st) && m.st.Valid()
    ensures m.Missed? ==> m.st.offset == s.end
    ensures m.Found? ==> s.offset <= m.st.offset - |name| - 1 && OpensBefore(m.st, name)
    ensures m.Resume? ==> s.offset < m.st.offset
  {
    var f := FindSkipChar(s, '<');
    if !f.ok then Missed(f.st)
    else if Equals(f.st.View(), name) then
      var t := f.st.(offset := f.st.offset + |name|);
      if TagEndsHere(t) then
        OpensAfterBracket(f.st, t, name);
        Found(t)
      else
        Resume(t)
    else
      Resume(f.st)
  }

  /** When the name holds no `<`, one round passes over no opening. */
  lemma {:induction false} NextOpenLeftmost(s: State, name: string)
    requires s.Valid() && NoOpenBracket(name)
    ensures NoOpening(s.buf, s.offset, OpenMoveLimit(s, NextOpen(s, name), name), s.end, name, s.caseSensitive)
  {
    var f := FindSkipChar(s, '<');
    if !f.ok {
      NoBracketNoOpening(s.buf, s.offset, s.end, s.end, name, s.caseSensitive);
    } else if Equals(f.st.View(), name) {
      var t := f.st.(offset := f.st.offset + |name|);
      if TagEndsHere(t) {
        NoBracketNoOpening(s.buf, s.offset, f.st.offset - 1, s.end, name, s.caseSensitive);
      } else {
        NoOpenBeforeBracket(s, f.st, name);
        NoOpenInName(s, f.st, name);
        NoOpeningJoin(s.buf, s.offset, f.st.offset, t.offset, s.end, name, s.caseSensitive);
      }
    } else {
      NoOpenBeforeBracket(s, f.st, name);
    }
  }

  /** A stretch without `<` holds no opening. */
  lemma {:induction false} NoBracketNoOpening(buf: Bytes, lo: int, hi: int, end: int, name: string, cs: bool)
    requires 0 <= lo && hi <= end <= |buf|
    requires forall k :: lo <= k < hi ==> !Is(buf[k], '<')
    ensures NoOpening(buf, lo, hi, end, name, cs)
  {
    forall q | lo <= q < hi
      ensures !OpensAt(buf, q, end, name, cs)
    {
      assert !Is(buf[q], '<');
    }
  }

  /** The loop of `Find()`: the next `<` whose name matches and is followed by whitespace or `>`. */
  function ScanOpen(s: State, name: string): (r: Step)
    requires s.Valid()
    ensures Advanced(s, r.st) && r.st.Valid()
    ensures r.ok ==> s.offset <= r.st.offset - |name| - 1 && OpensBefore(r.st, name)
    ensures !r.ok ==> r.st.offset == s.end
    decreases s.end - s.offset
  {
    match NextOpen(s, name)
    case Missed(st) => Step(false, st)
    case Found(st) => Step(true, st)
    case Resume(st) => ScanOpen(st, name)
  }

  /** Where an opening could start at the latest: before the one found, or anywhere up to the end. */
  function OpenLimit(s: State, r: Step, name: string): int {
    if r.ok then r.st.offset - |name| - 1 else s.end
  }

  /**
   * When the name holds no `<`, the scan finds the leftmost opening: no
   * opening starts between the cursor and the one found, or before the end
   * when none is found.
   */
  lemma {:induction false} ScanOpenLeftmost(s: State, name: string)
    requires s.Valid() && NoOpenBracket(name)
    ensures NoOpening(s.buf, s.offset, OpenLimit(s, ScanOpen(s, name), name), s.end, name, s.caseSensitive)
    decreases s.end - s.offset
  {
    var m := NextOpen(s, name);
    NextOpenLeftmost(s, name);
    if m.Resume? {
      var t := m.st;
      ScanOpenLeftmost(t, name);
      NoOpeningJoin(s.buf, s.offset, t.offset, OpenLimit(t, ScanOpen(t, name), name), s.end, name, s.caseSensitive);
    }
  }

  lemma {:induction false} NoOpeningJoin(buf: Bytes, a: int, b: int, c: int, end: int, name: string, cs: bool)
    requires end <= |buf| && a <= b
    requires NoOpening(buf, a, b, end, name, cs) && NoOpening(buf, b, c, end, name, cs)
    ensures NoOpening(buf, a, c, end, name, cs)
  {
  }

  /** `ElementParser.init(bss, name)`: `hasContent` is left as it was. */
  function Init(ep: ElementParser, bss: State, name: string): (r: ElementParser)
    ensures r.bss == bss && r.name == name && !r.tagOpen && r.hasContent == ep.hasContent
    ensures r.content == ep.content.(buf := [], offset := 0, end := 0)
    ensures bss.Valid() ==> r.Valid()
  {
    ElementParser(name, bss, false, ep.hasContent, ep.content.(buf := [], offset := 0, end := 0))
  }

  /** `new ElementParser()`. */
  function NewParser(): ElementParser {
    ElementParser("", NewState(), false, false, EmptySeq())
  }

  /**
   * `Find()`: true exactly when an opening `<name` followed by whitespace
   * or `>` lies ahead; the cursor then rests on that whitespace or `>`.
   */
  function Find(ep: ElementParser): (r: (bool, ElementParser))
    requires ep.Valid()
    ensures r.1.Valid() && r.1.name == ep.name && r.1.content == ep.content
    ensures Advanced(ep.bss, r.1.bss) && !r.1.hasContent && r.1.tagOpen == r.0
    ensures r.0 ==> ep.bss.offset <= r.1.bss.offset - |ep.name| - 1 && OpensBefore(r.1.bss, ep.name)
  {
    var e := ep.(tagOpen := false, hasContent := false);
    if e.bss.Eob() then (false, e)
    else
      var s := ScanOpen(e.bss, e.name);
      (s.ok, e.(bss := s.st, tagOpen := s.ok))
  }

  /**
   * For a name without `<`, `Find()` fails only when no opening lies ahead,
   * and succeeds on the first one.
   */
  lemma {:induction false} FindIsLeftmost(ep: ElementParser)
    requires ep.Valid() && NoOpenBracket(ep.name)
    ensures var r := Find(ep);
            NoOpening(ep.bss.buf, ep.bss.offset, if r.0 then r.1.bss.offset - |ep.name| - 1 else ep.bss.end,
                      ep.bss.end, ep.name, ep.bss.caseSensitive)
  {
    if !ep.bss.Eob() {
      ScanOpenLeftmost(ep.bss, ep.name);
    }
  }

  /** Bytes before the found `</` cannot close the element. */
  lemma {:induction false} NoCloseBeforePattern(s: State, f: State, name: string)
    requires s.Valid() && f == s.(offset := f.offset) && s.offset + 2 <= f.offset <= s.end
    requires forall k :: s.offset <= k < f.offset - 2 ==> !MatchAt(s.buf, k, "</", s.caseSensitive)
    ensures NoClosing(s.buf, s.offset, f.offset - 2, s.end, name, s.caseSensitive)
  {
  }

  /** After `</` and a name not followed by `>`, the skipped bytes hold no closing tag. */
  lemma {:induction false} NoCloseInName(s: State, f: State, name: string)
    requires s.Valid() && f == s.(offset := f.offset) && s.offset + 2 <= f.offset <= s.end
    requires MatchAt(s.buf, f.offset - 2, "</", s.caseSensitive)
    requires Equals(f.View(), name) && NoOpenBracket(name)
    requires f.offset + |name| < s.end && !Is(s.buf[f.offset + |name|], '>')
    ensures NoClosing(s.buf, f.offset - 2, f.offset + |name|, s.end, name, s.caseSensitive)
  {
    forall q | f.offset - 2 <= q < f.offset + |name|
      ensures !ClosesAt(s.buf, q, s.end, name, s.caseSensitive)
    {
      if q >= f.offset - 1 && ClosesAt(s.buf, q, s.end, name, s.caseSensitive) {
        PatternHead(s.buf, q, s.caseSensitive);
        PatternHead(s.buf, f.offset - 2, s.caseSensitive);
      }
      if q >= f.offset && ClosesAt(s.buf, q, s.end, name, s.caseSensitive) {
        var k := q - f.offset;
        assert StartsWith(f.View(), name);
        assert Match(s.buf[f.offset + k], name[k], s.caseSensitive);
        MatchedByteIsNotOpenBracket(s.buf[q], name[k], s.caseSensitive);
      }
    }
  }

  /** A `</` match is those two bytes exactly, whatever the case flag. */
  lemma {:induction false} PatternHead(buf: Bytes, q: int, cs: bool)
    requires 0 <= q && q + 2 <= |buf| && MatchAt(buf, q, "</", cs)
    ensures Is(buf[q], '<') && Is(buf[q + 1], '/')
  {
    assert Match(buf[q + 0], "</"[0], cs);
    assert Match(buf[q + 1], "</"[1], cs);
  }

  /** The cursor rests on a closing `</name`. */
  predicate ClosesHere(st: State, name: string)
    requires st.Valid()
  {
    ClosesAt(st.buf, st.offset, st.end, name, st.caseSensitive)
  }

  /** The scan accepts the `</` just before `f` when the name follows and then `>` or the end. */
  lemma {:induction false} ClosesAfterPattern(f: State, u: State, name: string)
    requires f.Valid() && 2 <= f.offset && u == f.(offset := f.offset - 2)
    requires MatchAt(f.buf, f.offset - 2, "</", f.caseSensitive) && Equals(f.View(), name)
    requires f.offset + |name| >= f.end || Is(f.buf[f.offset + |name|], '>')
    ensures ClosesHere(u, name)
  {
  }

  lemma {:induction false} NoClosingJoin(buf: Bytes, a: int, b: int, c: int, end: int, name: string, cs: bool)
    requires end <= |buf| && a <= b
    requires NoClosing(buf, a, b, end, name, cs) && NoClosing(buf, b, c, end, name, cs)
    ensures NoClosing(buf, a, c, end, name, cs)
  {
  }

  /** One round of the loop in `FindCloseTag`: find the next `</`; accept it when the name follows and then `>` or the end. */
  function NextClose(s: State, name: string): (m: Move)
    requires s.Valid()
    ensures Advanced(s, m.st) && m.st.Valid()
    ensures m.Found? ==> ClosesHere(m.st, name)
    ensures m.Resume? ==> s.offset < m.st.offset
  {
    var f := FindSkipPattern(s, "</");
    if !f.ok then Missed(f.st)
    else if Equals(f.st.View(), name) then
      var t := f.st.(offset := f.st.offset + |name|);
      if t.Eob() || Is(t.buf[t.offset], '>') then
        var u := f.st.(offset := f.st.offset - 2);
        ClosesAfterPattern(f.st, u, name);
        Found(u)
      else
        Resume(t)
    else
      Resume(f.st)
  }

  /** Where a closing tag could start at the latest after one round. */
  function CloseMoveLimit(s: State, m: Move): int {
    match m
    case Missed(_) => s.end
    case Found(st) => st.offset
    case Resume(st) => st.offset
  }

  /** When the name holds no `<`, one round passes over no closing tag. */
  lemma {:induction false} NextCloseLeftmost(s: State, name: string)
    requires s.Valid() && NoOpenBracket(name)
    ensures NoClosing(s.buf, s.offset, CloseMoveLimit(s, NextClose(s, name)), s.end, name, s.caseSensitive)
  {
    var f := FindSkipPattern(s, "</");
    var m := NextClose(s, name);
    if !f.ok {
      assert CloseMoveLimit(s, m) == s.end;
      assert NoClosing(s.buf, s.offset, s.end, s.end, name, s.caseSensitive) by {
        forall q | s.offset <= q < s.end
          ensures !ClosesAt(s.buf, q, s.end, name, s.caseSensitive)
        {
        }
      }
    } else {
      NoCloseBeforePattern(s, f.st, name);
      var t := f.st.(offset := f.st.offset + |name|);
      if Equals(f.st.View(), name) {
        if t.Eob() || Is(t.buf[t.offset], '>') {
          assert CloseMoveLimit(s, m) == f.st.offset - 2;
        } else {
          assert CloseMoveLimit(s, m) == t.offset;
          NoCloseInName(s, f.st, name);
          NoClosingJoin(s.buf, s.offset, f.st.offset - 2, t.offset, s.end, name, s.caseSensitive);
        }
      } else {
        assert CloseMoveLimit(s, m) == f.st.offset;
        NoCloseAtPattern(s, f.st, name);
        NoClosingJoin(s.buf, s.offset, f.st.offset - 2, f.st.offset, s.end, name, s.caseSensitive);
      }
    }
  }

  /** The loop of `FindCloseTag`: the next `</name` followed by `>` or the end of the view. */
  function ScanClose(s: State, name: string): (r: Step)
    requires s.Valid()
    ensures Advanced(s, r.st) && r.st.Valid()
    ensures r.ok ==> ClosesHere(r.st, name)
    decreases s.end - s.offset
  {
    match NextClose(s, name)
    case Missed(st) => Step(false, st)
    case Found(st) => Step(true, st)
    case Resume(st) => ScanClose(st, name)
  }

  /** Where a closing tag could start at the latest: the one found, or anywhere up to the end. */
  function CloseLimit(s: State, r: Step): int {
    if r.ok then r.st.offset else s.end
  }

  /**
   * When the name holds no `<`, the scan finds the leftmost closing tag: none
   * starts between the cursor and the one found, or anywhere when none is found.
   */
  lemma {:induction false} ScanCloseLeftmost(s: State, name: string)
    requires s.Valid() && NoOpenBracket(name)
    ensures NoClosing(s.buf, s.offset, CloseLimit(s, ScanClose(s, name)), s.end, name, s.caseSensitive)
    decreases s.end - s.offset
  {
    var m := NextClose(s, name);
    NextCloseLeftmost(s, name);
    if m.Resume? {
      var t := m.st;
      ScanCloseLeftmost(t, name);
      NoClosingJoin(s.buf, s.offset, t.offset, CloseLimit(t, ScanClose(t, name)), s.end, name, s.caseSensitive);
    }
  }

  /** A `</` whose name does not match, and the `/` after it, do not close. */
  lemma {:induction false} NoCloseAtPattern(s: State, f: State, name: string)
    requires s.Valid() && f == s.(offset := f.offset) && s.offset + 2 <= f.offset <= s.end
    requires MatchAt(s.buf, f.offset - 2, "</", s.caseSensitive)
    requires !Equals(f.View(), name)
    ensures NoClosing(s.buf, f.offset - 2, f.offset, s.end, name, s.caseSensitive)
  {
    forall q | f.offset - 2 <= q < f.offset
      ensures !ClosesAt(s.buf, q, s.end, name, s.caseSensitive)
    {
      if q == f.offset - 2 {
        assert f.View() == ByteSeq(s.buf, q + 2, s.end, s.caseSensitive);
      } else if ClosesAt(s.buf, q, s.end, name, s.caseSensitive) {
        PatternHead(s.buf, q, s.caseSensitive);
        PatternHead(s.buf, f.offset - 2, s.caseSensitive);
      }
    }
  }

  /** `FindCloseTag`: on failure the cursor is restored. */
  function FindCloseTag(s: State, name: string): (r: Step)
    requires s.Valid()
    ensures r.st == s.(offset := r.st.offset) && r.st.Valid() && s.offset <= r.st.offset
    ensures r.ok ==> ClosesHere(r.st, name)
    ensures !r.ok ==> r.st == s
  {
    var c := ScanClose(s, name);
    if c.ok then c else Step(false, s)
  }

  /** Where scanning resumes after a closing `</name` ending at `e`: past a `>` that follows, if any. */
  function PastClose(buf: Bytes, end: int, e: int): int
    requires 0 <= e && end <= |buf|
  {
    if e < end && Is(buf[e], '>') then e + 1 else e
  }

  /**
   * `ParseRemaining`: the content starts at the cursor and ends at the first
   * closing tag; the cursor moves past `</name` and an optional `>`.
   */
  function ParseRemaining(ep: ElementParser): (r: ElementParser)
    requires ep.Valid()
    ensures r.Valid() && r.name == ep.name && r.tagOpen == ep.tagOpen && Advanced(ep.bss, r.bss)
    ensures r.content.buf == ep.bss.buf && r.content.offset == ep.bss.offset
    ensures r.bss != ep.bss ==> r.hasContent
    ensures r.bss != ep.bss ==> r.bss.offset == PastClose(ep.bss.buf, ep.bss.end, r.content.end + |ep.name| + 2)
    ensures r.bss != ep.bss ==> ClosesAt(ep.bss.buf, r.content.end, ep.bss.end, ep.name, ep.bss.caseSensitive)
    ensures r.bss == ep.bss ==> r.hasContent == ep.hasContent && r.content.end == r.content.offset
  {
    var s := ep.bss;
    var c := FindCloseTag(s, ep.name);
    if c.ok then
      var e := c.st.offset + |ep.name| + 2;
      assert e <= s.end;
      var t' := s.(offset := PastClose(s.buf, s.end, e));
      ep.(bss := t', hasContent := true, content := ep.content.(buf := s.buf, offset := s.offset, end := c.st.offset))
    else
      ep.(content := ep.content.(buf := s.buf, offset := s.offset, end := s.offset))
  }

  /**
   * For a name without `<`, the captured content ends at the FIRST closing
   * tag, and the cursor stays put only when there is none.
   */
  lemma {:induction false} ContentEndsAtFirstClose(ep: ElementParser)
    requires ep.Valid() && NoOpenBracket(ep.name)
    ensures var r := ParseRemaining(ep);
            NoClosing(ep.bss.buf, ep.bss.offset, if r.bss != ep.bss then r.content.end else ep.bss.end,
                      ep.bss.end, ep.name, ep.bss.caseSensitive)
  {
    ScanCloseLeftmost(ep.bss, ep.name);
  }

  /** The end of an attribute name: the first `=`, `>`, `/` or whitespace. */
  function AttrNameEnd(buf: Bytes, i: int, end: int): (j: int)
    requires 0 <= i <= end <= |buf|
    ensures i <= j <= end
    ensures forall k :: i <= k < j ==> !Is(buf[k], '=') && !Is(buf[k], '>') && !Is(buf[k], '/') && !IsWhitespace(buf[k])
    ensures j < end ==> Is(buf[j], '=') || Is(buf[j], '>') || Is(buf[j], '/') || IsWhitespace(buf[j])
    decreases end - i
  {
    if i < end && !Is(buf[i], '=') && !Is(buf[i], '>') && !Is(buf[i], '/') && !IsWhitespace(buf[i]) then
      AttrNameEnd(buf, i + 1, end)
    else i
  }

  /** `SkipAttrName`: false at the end of the view or on `/` or `>`. */
  function SkipAttrName(s: State): (r: Step)
    requires s.Valid()
    ensures r.st.offset == AttrNameEnd(s.buf, s.offset, s.end) && Advanced(s, r.st)
    ensures r.ok <==> r.st.offset < s.end && (Is(s.buf[r.st.offset], '=') || IsWhitespace(s.buf[r.st.offset]))
  {
    var j := AttrNameEnd(s.buf, s.offset, s.end);
    Step(!(j >= s.end || Is(s.buf[j], '/') || Is(s.buf[j], '>')), s.(offset := j))
  }

  /** The quote at `k` closes the value: it is not escaped by a backslash before it. */
  predicate ClosingQuote(buf: Bytes, k: int, quote: char)
    requires 1 <= k < |buf|
  {
    Is(buf[k], quote) && !Is(buf[k - 1], '\\')
  }

  /** Inside a quoted value: the first `>`, or matching quote not preceded by a backslash, or the end. */
  function QuotedEnd(buf: Bytes, i: int, end: int, quote: char): (j: int)
    requires 1 <= i <= end <= |buf|
    ensures i <= j <= end
    ensures forall k :: i <= k < j ==> !Is(buf[k], '>')
    ensures forall k :: i <= k < j ==> !ClosingQuote(buf, k, quote)
    ensures j < end ==> Is(buf[j], '>') || ClosingQuote(buf, j, quote)
    decreases end - i
  {
    if i < end && !Is(buf[i], '>') && !ClosingQuote(buf, i, quote) then
      QuotedEnd(buf, i + 1, end, quote)
    else i
  }

  /** An unquoted value: up to the first whitespace or `>`, or the end. */
  function UnquotedEnd(buf: Bytes, i: int, end: int): (j: int)
    requires 0 <= i <= end <= |buf|
    ensures i <= j <= end
    ensures forall k :: i <= k < j ==> !Is(buf[k], '>') && !IsWhitespace(buf[k])
    ensures j < end ==> Is(buf[j], '>') || IsWhitespace(buf[j])
    decreases end - i
  {
    if i < end && !Is(buf[i], '>') && !IsWhitespace(buf[i]) then UnquotedEnd(buf, i + 1, end) else i
  }

  /**
   * `setAttributeValue`: a value quoted with `'` or `"` runs from after the
   * quote to the first unescaped matching quote and never past a `>`; an
   * unquoted value runs to the first whitespace or `>`.
   */
  function AttributeValue(s: State, value: ByteSeq): (r: (State, ByteSeq))
    requires s.Valid()
    ensures Advanced(s, r.0) && r.1.Valid()
    ensures r.1.buf == s.buf && r.1.caseSensitive == value.caseSensitive && s.offset <= r.1.offset <= r.1.end <= r.0.offset
    ensures forall k :: r.1.offset <= k < r.1.end ==> !Is(s.buf[k], '>')
    ensures s.offset < s.end && (Is(s.buf[s.offset], '\'') || Is(s.buf[s.offset], '"')) ==>
              && r.1.offset == s.offset + 1
              && (forall k :: r.1.offset <= k < r.1.end ==> !ClosingQuote(s.buf, k, QuoteOf(s.buf[s.offset])))
              && (r.0.offset == r.1.end + 1 <==> r.1.end < s.end && ClosingQuote(s.buf, r.1.end, QuoteOf(s.buf[s.offset])))
              && (r.1.end < s.end ==> Is(s.buf[r.1.end], '>') || ClosingQuote(s.buf, r.1.end, QuoteOf(s.buf[s.offset])))
              && (r.0.offset == r.1.end || r.0.offset == r.1.end + 1)
    ensures !(s.offset < s.end && (Is(s.buf[s.offset], '\'') || Is(s.buf[s.offset], '"'))) ==>
              && r.1.offset == s.offset && r.1.end == r.0.offset
              && (forall k :: r.1.offset <= k < r.1.end ==> !IsWhitespace(s.buf[k]))
              && (r.1.end < s.end ==> Is(s.buf[r.1.end], '>') || IsWhitespace(s.buf[r.1.end]))
  {
    var v := value.(buf := s.buf, offset := s.offset, end := s.offset);
    if s.Eob() then (s, v)
    else if Is(s.buf[s.offset], '\'') || Is(s.buf[s.offset], '"') then
      var q := QuoteOf(s.buf[s.offset]);
      var start := s.offset + 1;
      var j := QuotedEnd(s.buf, start, s.end, q);
      if j < s.end && !Is(s.buf[j], '>') then
        (s.(offset := j + 1), v.(offset := start, end := j))
      else
        (s.(offset := j), v.(offset := start, end := j))
    else
      var j := UnquotedEnd(s.buf, s.offset, s.end);
      (s.(offset := j), v.(end := j))
  }

  /** The quote character a quoting byte stands for. */
  function QuoteOf(b: Byte): char {
    if b == 39 then '\'' else '"'
  }

  /** The result of `NextAttribute`: its boolean, the parser, and the caller's key and value views. */
  datatype Attr = Attr(ok: bool, parser: ElementParser, key: ByteSeq, value: ByteSeq)

  /** Bytes `[lo, hi)` may belong to an attribute name. */
  predicate NameBytes(buf: Bytes, lo: int, hi: int)
    requires 0 <= lo && hi <= |buf|
  {
    forall k :: lo <= k < hi ==> !Is(buf[k], '=') && !Is(buf[k], '>') && !Is(buf[k], '/') && !IsWhitespace(buf[k])
  }

  /**
   * `NextAttribute` when no name could be read: a `>` ends the open tag and
   * the content is captured; a `/` skips past the next `>`.
   */
  function EndOfTag(e: ElementParser, t: State): (r: ElementParser)
    requires e.Valid() && Advanced(e.bss, t)
    ensures r.Valid() && r.name == e.name && r.tagOpen == e.tagOpen && Advanced(e.bss, r.bss)
    ensures !t.Eob() && Is(t.buf[t.offset], '>') ==> r.content.offset == t.offset + 1
    ensures !t.Eob() && Is(t.buf[t.offset], '/') ==>
              && r.hasContent == e.hasContent && r.content == e.content && t.offset < r.bss.offset
              && (r.bss.offset == t.end || Is(t.buf[r.bss.offset - 1], '>'))
  {
    if t.Eob() then e.(bss := t)
    else if Is(t.buf[t.offset], '>') then ParseRemaining(e.(bss := t.(offset := t.offset + 1)))
    else if Is(t.buf[t.offset], '/') then e.(bss := FindSkipChar(t.(offset := t.offset + 1), '>').st)
    else e.(bss := t)
  }

  /**
   * `NextAttribute` after the name: `=` and the value must follow, else the
   * attribute list ends, the cursor skips past the next `>` and the content
   * is captured.
   */
  function AfterName(e: ElementParser, t: State, key: ByteSeq, value: ByteSeq): (r: Attr)
    requires e.Valid() && Advanced(e.bss, t) && !e.tagOpen
    ensures r.parser.Valid() && r.parser.name == e.name && Advanced(e.bss, r.parser.bss)
    ensures r.ok ==> r.parser.tagOpen && r.parser.bss.offset > t.offset && r.key == key
    ensures r.ok ==> r.value.Valid() && r.value.buf == t.buf && t.offset < r.value.offset <= r.value.end <= r.parser.bss.offset
    ensures r.ok ==> r.value.caseSensitive == value.caseSensitive
    ensures !r.ok ==> !r.parser.tagOpen
  {
    var w := SkipWhitespace(t);
    if !w.ok then Attr(false, e.(bss := w.st), key, value)
    else if !Is(w.st.buf[w.st.offset], '=') then
      var f := FindSkipChar(w.st, '>');
      Attr(false, ParseRemaining(e.(bss := f.st)), key, value)
    else AfterEquals(e, w.st.(offset := w.st.offset + 1), key, value)
  }

  /** `NextAttribute` past the `=`: a value must start before the end. */
  function AfterEquals(e: ElementParser, t: State, key: ByteSeq, value: ByteSeq): (r: Attr)
    requires e.Valid() && Advanced(e.bss, t) && !e.tagOpen
    ensures r.parser.Valid() && r.parser.name == e.name && Advanced(e.bss, r.parser.bss)
    ensures r.ok ==> r.parser.tagOpen && r.parser.bss.offset >= t.offset && r.key == key
    ensures r.ok ==> r.value.Valid() && r.value.buf == t.buf && t.offset <= r.value.offset <= r.value.end <= r.parser.bss.offset
    ensures r.ok ==> r.value.caseSensitive == value.caseSensitive
    ensures !r.ok ==> !r.parser.tagOpen
  {
    var w := SkipWhitespace(t);
    if !w.ok then Attr(false, e.(bss := w.st), key, value)
    else
      var av := AttributeValue(w.st, value);
      Attr(true, e.(bss := av.0, tagOpen := true), key, av.1)
  }

  /**
   * `NextAttribute(key, value)`: false when no tag is open.  On success the
   * key span holds no `=`, `>`, `/` or whitespace, the value lies after it,
   * and the tag stays open.  The caller's key and value are updated even
   * on some paths that return false.
   */
  function NextAttribute(ep: ElementParser, key: ByteSeq, value: ByteSeq): (r: Attr)
    requires ep.Valid()
    ensures r.parser.Valid() && r.parser.name == ep.name && Advanced(ep.bss, r.parser.bss)
    ensures !ep.tagOpen ==> r == Attr(false, ep, key, value)
    ensures r.ok ==> ep.tagOpen && r.parser.tagOpen && r.parser.bss.offset > ep.bss.offset
    ensures r.ok ==> r.key.Valid() && r.value.Valid() && r.key.buf == ep.bss.buf && r.value.buf == ep.bss.buf
    ensures r.ok ==> ep.bss.offset <= r.key.offset <= r.key.end < r.value.offset <= r.value.end <= r.parser.bss.offset
    ensures r.ok ==> NameBytes(ep.bss.buf, r.key.offset, r.key.end)
    ensures r.ok ==> r.key.caseSensitive == key.caseSensitive && r.value.caseSensitive == value.caseSensitive
    ensures !r.ok ==> !r.parser.tagOpen
  {
    if !ep.tagOpen then Attr(false, ep, key, value)
    else
      var e := ep.(tagOpen := false);
      var w := SkipWhitespace(e.bss);
      if !w.ok then Attr(false, e.(bss := w.st), key, value)
      else
        var n := SkipAttrName(w.st);
        var key1 := key.(buf := w.st.buf, offset := w.st.offset);
        var value1 := value.(buf := w.st.buf);
        if !n.ok then Attr(false, EndOfTag(e, n.st), key1, value1)
        else AfterName(e, n.st, key1.(end := n.st.offset), value1)
  }

  /** The view passed to `setAttributeValue` only contributes its case flag. */
  lemma AttributeValueIgnoresView(s: State, value: ByteSeq, b: Bytes)
    requires s.Valid()
    ensures AttributeValue(s, value.(buf := b)) == AttributeValue(s, value)
  {
  }

  /**
   * Where `AfterName` reads when an `=` follows the name (past whitespace):
   * `setAttributeValue` runs from the next non-whitespace byte, and there
   * must be one.
   */
  lemma AfterNameAssigns(e: ElementParser, t: State, key: ByteSeq, value: ByteSeq, eq: int)
    requires e.Valid() && Advanced(e.bss, t) && !e.tagOpen
    requires eq == SkipClass(t.buf, t.offset, t.end, true) && eq < t.end && Is(t.buf[eq], '=')
    ensures AfterName(e, t, key, value) == AfterEquals(e, t.(offset := eq + 1), key, value)
  {
    SkipWhitespaceAt(t);
    var w := SkipWhitespace(t);
    assert w.ok && w.st == t.(offset := eq);
    assert Is(w.st.buf[w.st.offset], '=');
  }

  /** Past the `=`, the value starts at the first non-whitespace byte. */
  lemma AfterEqualsAt(e: ElementParser, t: State, key: ByteSeq, value: ByteSeq)
    requires e.Valid() && Advanced(e.bss, t) && !e.tagOpen
    ensures var vs := SkipClass(t.buf, t.offset, t.end, true);
            var r := AfterEquals(e, t, key, value);
            && (r.ok <==> vs < t.end)
            && (vs < t.end ==>
                  var av := AttributeValue(t.(offset := vs), value);
                  r == Attr(true, e.(bss := av.0, tagOpen := true), key, av.1))
  {
    SkipWhitespaceAt(t);
  }

  /**
   * Where `AfterName` reads when the name is followed (past whitespace) by
   * anything but `=`: the attributes end, the cursor skips past the next
   * `>` (or to the end) and the content after it is captured.
   */
  lemma AfterNameStops(e: ElementParser, t: State, key: ByteSeq, value: ByteSeq, eq: int)
    requires e.Valid() && Advanced(e.bss, t) && !e.tagOpen
    requires eq == SkipClass(t.buf, t.offset, t.end, true) && eq < t.end && !Is(t.buf[eq], '=')
    ensures AfterName(e, t, key, value) == Attr(false, ParseRemaining(e.(bss := FindSkipChar(t.(offset := eq), '>').st)), key, value)
  {
    SkipWhitespaceAt(t);
  }

  /**
   * Where `NextAttribute` reads in an open tag: the key is the name run
   * after the leading whitespace, and `AfterName` continues from its end.
   */
  lemma NextAttributeReads(ep: ElementParser, key: ByteSeq, value: ByteSeq)
    requires ep.Valid() && ep.tagOpen
    ensures var b, z := ep.bss.buf, ep.bss.end;
            var r := NextAttribute(ep, key, value);
            var ks := SkipClass(b, ep.bss.offset, z, true);
            var ke := AttrNameEnd(b, ks, z);
            var named := ks < z && ke < z && (Is(b[ke], '=') || IsWhitespace(b[ke]));
            && (!named ==> !r.ok)
            && (named ==> r == AfterName(ep.(tagOpen := false), ep.bss.(offset := ke), key.(buf := b, offset := ks, end := ke), value.(buf := b)))
  {
    SkipWhitespaceAt(ep.bss);
  }

  /**
   * The two steps together when an `=` follows the name: the key is the
   * name run after the leading whitespace and the value is what
   * `setAttributeValue` reads from the first non-whitespace byte after the
   * `=`.
   */
  lemma NextAttributeAssigns(ep: ElementParser, key: ByteSeq, value: ByteSeq, ks: int, ke: int, eq: int, vs: int)
    requires ep.Valid() && ep.tagOpen
    requires ks == SkipClass(ep.bss.buf, ep.bss.offset, ep.bss.end, true) && ks < ep.bss.end
    requires ke == AttrNameEnd(ep.bss.buf, ks, ep.bss.end)
    requires eq == SkipClass(ep.bss.buf, ke, ep.bss.end, true) && eq < ep.bss.end && Is(ep.bss.buf[eq], '=')
    requires vs == SkipClass(ep.bss.buf, eq + 1, ep.bss.end, true) && vs < ep.bss.end
    ensures var av := AttributeValue(ep.bss.(offset := vs), value);
            NextAttribute(ep, key, value) == Attr(true, ep.(bss := av.0), key.(buf := ep.bss.buf, offset := ks, end := ke), av.1)
  {
    var b, z := ep.bss.buf, ep.bss.end;
    var t := ep.bss.(offset := ke);
    var u := ep.bss.(offset := eq + 1);
    var e, k, v := ep.(tagOpen := false), key.(buf := b, offset := ks, end := ke), value.(buf := b);
    var av := AttributeValue(ep.bss.(offset := vs), value);
    NextAttributeReads(ep, key, value);
    AfterNameAssigns(e, t, k, v, eq);
    assert t.(offset := eq + 1) == u;
    AfterEqualsValue(ep, u, k, value, vs);
  }

  /** `AfterEquals` from the open tag's own cursor, with the caller's value view. */
  lemma AfterEqualsValue(ep: ElementParser, u: State, key: ByteSeq, value: ByteSeq, vs: int)
    requires ep.Valid() && ep.tagOpen && Advanced(ep.bss, u)
    requires vs == SkipClass(u.buf, u.offset, u.end, true) && vs < u.end
    ensures var av := AttributeValue(ep.bss.(offset := vs), value);
            AfterEquals(ep.(tagOpen := false), u, key, value.(buf := u.buf)) == Attr(true, ep.(bss := av.0), key, av.1)
  {
    AfterEqualsAt(ep.(tagOpen := false), u, key, value.(buf := u.buf));
    assert u.(offset := vs) == ep.bss.(offset := vs);
    AttributeValueIgnoresView(ep.bss.(offset := vs), value, u.buf);
  }

  /** `SkipAttributes`: calls `NextAttribute` until it returns false. */
  function SkipAttributes(ep: ElementParser): (r: ElementParser)
    requires ep.Valid()
    ensures r.Valid() && r.name == ep.name && Advanced(ep.bss, r.bss) && !r.tagOpen
    decreases ep.bss.end - ep.bss.offset
  {
    var a := NextAttribute(ep, EmptySeq(), EmptySeq());
    if a.ok then SkipAttributes(a.parser) else a.parser
  }

  /** `GetContent(dst)`: the captured content span, when there is one. */
  function GetContent(ep: ElementParser, dst: State): (r: (bool, State))
    requires ep.Valid()
    ensures r.0 <==> ep.hasContent && ep.content.buf != []
    ensures r.0 ==> r.1 == dst.(buf := ep.content.buf, offset := ep.content.offset, end := ep.content.end) && r.1.Valid()
    ensures !r.0 ==> r.1 == dst
  {
    if !ep.hasContent || ep.content.buf == [] then (false, dst)
    else (true, dst.(buf := ep.content.buf, offset := ep.content.offset, end := ep.content.end))
  }

  /** The first `<head>` and its content, as `GetBaseHref` captures it. */
  function HeadContent(bss: State): (r: Option<(ElementParser, State)>)
    requires bss.Valid()
    ensures r.Some? ==> r.value.0.Valid() && r.value.1.Valid() && r.value.1.buf == bss.buf && r.value.0.bss.buf == bss.buf
  {
    var f := Find(Init(NewParser(), bss, "head"));
    if !f.0 then None
    else
      var ep := SkipAttributes(f.1);
      var g := GetContent(ep, NewState());
      if g.0 then Some((ep, g.1)) else None
  }

  /**
   * `GetBaseHref`: in the content of the first `<head>`, the value of the
   * first attribute of the first `<base>`, when that attribute's key
   * `Equals` "href"; later attributes are never consulted.
   */
  function GetBaseHref(bss: State): (r: Option<ByteSeq>)
    requires bss.Valid()
    ensures r.Some? ==> r.value.Valid() && r.value.buf == bss.buf
    ensures r.Some? <==>
              && HeadContent(bss).Some?
              && var f := Find(Init(HeadContent(bss).value.0, HeadContent(bss).value.1, "base"));
                 && f.0
                 && var a := NextAttribute(f.1, EmptySeq(), EmptySeq());
                    a.ok && Equals(a.key, "href")
    ensures r.Some? ==>
              var f := Find(Init(HeadContent(bss).value.0, HeadContent(bss).value.1, "base"));
              r.value == NextAttribute(f.1, EmptySeq(), EmptySeq()).value
  {
    var h := HeadContent(bss);
    if h.None? then None
    else
      var f := Find(Init(h.value.0, h.value.1, "base"));
      if !f.0 then None
      else
        var a := NextAttribute(f.1, EmptySeq(), EmptySeq());
        if a.ok && Equals(a.key, "href") then Some(a.value) else None
  }

  /** ` target=` at `o`: a space, the key `target` and `=`. */
  predicate TargetAt(buf: Bytes, o: int) {
    && 0 <= o && o + 8 <= |buf|
    && buf[o] == 32 && buf[o + 1] == 116 && buf[o + 2] == 97 && buf[o + 3] == 114
    && buf[o + 4] == 103 && buf[o + 5] == 101 && buf[o + 6] == 116 && buf[o + 7] == 61
  }

  /**
   * Only the first attribute of `<base>` is consulted: when it is
   * `target=`, as in `<base target=x href=y>`, there is no base href,
   * whatever follows.
   */
  lemma {:induction false} TargetFirstHidesHref(bss: State, f: (bool, ElementParser))
    requires bss.Valid() && HeadContent(bss).Some?
    requires f == Find(Init(HeadContent(bss).value.0, HeadContent(bss).value.1, "base"))
    requires f.0 && f.1.bss.offset + 8 <= f.1.bss.end && TargetAt(f.1.bss.buf, f.1.bss.offset)
    ensures GetBaseHref(bss).None?
  {
    FirstKeyIsTarget(f.1, NextAttribute(f.1, EmptySeq(), EmptySeq()));
  }

  /** `NextAttribute` over ` target=` reads the six-byte key `target`, which is not `href`. */
  lemma {:induction false} FirstKeyIsTarget(ep: ElementParser, a: Attr)
    requires ep.Valid() && ep.tagOpen
    requires ep.bss.offset + 8 <= ep.bss.end && TargetAt(ep.bss.buf, ep.bss.offset)
    requires a == NextAttribute(ep, EmptySeq(), EmptySeq())
    ensures a.ok ==> a.key.offset == ep.bss.offset + 1 && a.key.end == ep.bss.offset + 7
    ensures !(a.ok && Equals(a.key, "href"))
  {
    var o := ep.bss.offset;
    var buf := ep.bss.buf;
    var w := SkipWhitespace(ep.bss);
    assert IsWhitespace(buf[o]) && !IsWhitespace(buf[o + 1]);
    assert w.st.offset == o + 1;
    TargetNameEnd(buf, o, ep.bss.end);
    var n := SkipAttrName(w.st);
    assert n.ok && n.st.offset == o + 7;
    var key := EmptySeq().(buf := buf, offset := o + 1, end := o + 7);
    assert a == AfterName(ep.(tagOpen := false), n.st, key, EmptySeq().(buf := buf));
    assert !Match(buf[o + 1 + 0], "href"[0], false);
    assert a.ok ==> a.key == key && !MatchAt(buf, o + 1, "href", false);
  }

  /** The attribute name in ` target=` ends at the `=`. */
  lemma {:induction false} TargetNameEnd(buf: Bytes, o: int, end: int)
    requires o + 8 <= end <= |buf| && TargetAt(buf, o)
    ensures AttrNameEnd(buf, o + 1, end) == o + 7
  {
    assert AttrNameEnd(buf, o + 7, end) == o + 7;
    assert AttrNameEnd(buf, o + 6, end) == o + 7;
    assert AttrNameEnd(buf, o + 5, end) == o + 7;
    assert AttrNameEnd(buf, o + 4, end) == o + 7;
    assert AttrNameEnd(buf, o + 3, end) == o + 7;
    assert AttrNameEnd(buf, o + 2, end) == o + 7;
  }
}

/** Worked examples of the element scanner. */
module HtmlExamples {
  import opened Bytes
  import opened ByteScan
  import opened Html

  /** A cursor over the whole of `b`. */
  function Over(b: Bytes): (s: State)
    ensures s.Valid() && s.buf == b && s.offset == 0 && s.end == |b| && !s.caseSensitive
  {
    StateOf(ByteSeq(b, 0, |b|, false))
  }

  /** Looking for `a` never stops inside `<abbr>`: the name must be followed by whitespace or `>`. */
  lemma {:induction false} LongerNameDoesNotOpen()
    ensures !Find(Init(NewParser(), Over([60, 97, 98, 98, 114, 62]), "a")).0
  {
  }

  /** `<a href>` does open `a`. */
  lemma {:induction false} ShortNameOpens()
    ensures Find(Init(NewParser(), Over([60, 97, 32, 104, 62]), "a")).0
  {
    var b: Bytes := [60, 97, 32, 104, 62];
    var ep := Init(NewParser(), Over(b), "a");
    FindIsLeftmost(ep);
    assert OpensAt(b, 0, 5, "a", false) by {
      assert MatchAt(b, 1, "a", false) by { assert Match(b[1 + 0], "a"[0], false); }
    }
  }

  /** A quoted value stops at `>` even inside the quotes: `"a>b"` gives `a`. */
  lemma {:induction false} QuotedValueStopsAtBracket()
    ensures var r := AttributeValue(Over([34, 97, 62, 98, 34]), EmptySeq());
            r.1.offset == 1 && r.1.end == 2 && r.0.offset == 2
  {
    var b: Bytes := [34, 97, 62, 98, 34];
    assert QuotedEnd(b, 1, 5, '"') == 2 by {
      assert !Is(b[1], '>') && !Is(b[1], '"');
      assert Is(b[2], '>');
    }
  }

  /** A backslash-escaped quote does not end the value: `"a\"b"` gives `a\"b`, backslash kept. */
  lemma {:induction false} EscapedQuoteKept()
    ensures var r := AttributeValue(Over([34, 97, 92, 34, 98, 34]), EmptySeq());
            r.1.offset == 1 && r.1.end == 5 && r.0.offset == 6
  {
    var b: Bytes := [34, 97, 92, 34, 98, 34];
    assert QuotedEnd(b, 1, 6, '"') == 5 by {
      assert QuotedEnd(b, 5, 6, '"') == 5;
      assert QuotedEnd(b, 4, 6, '"') == 5;
      assert QuotedEnd(b, 3, 6, '"') == 5;
      assert QuotedEnd(b, 2, 6, '"') == 5;
    }
  }
}
