/**
 * `load` undoes `reconstructDocument`: the record written from a field map,
 * a request and a response parses back into the same field map, request
 * and response, provided the fields can be written as ANVL lines and an
 * http request ends at its first blank line.
 */
module RoundTrip {
  import opened Wrappers
  import opened Bytes
  import opened ByteScan
  import opened ContentType
  import opened Document

  /** A field `load` can read back: the key holds no `:` or `\n`; the value is non-empty, has no `\n` and does not start with a space or tab. */
  predicate FieldFits(key: Bytes, value: Bytes) {
    && (forall k :: 0 <= k < |key| ==> !Is(key[k], ':') && !Is(key[k], '\n'))
    && |value| > 0 && !Is(value[0], ' ') && !Is(value[0], '\t')
    && (forall k :: 0 <= k < |value| ==> !Is(value[k], '\n'))
  }

  predicate FieldsFit(f: Fields) {
    Distinct(f) && forall i :: 0 <= i < |f| ==> FieldFits(f[i].0, f[i].1)
  }

  /** The ANVL loop's effect of the lines of `g`, one after another. */
  function AbsorbAll(a: Anvl, g: Fields): (r: Anvl)
    ensures r.pos == a.pos
    decreases |g|
  {
    if |g| == 0 then a else AbsorbAll(Absorb(a, g[0].0, g[0].1), g[1..])
  }

  /** The URL information a field list determines when read by `load`. */
  function UrlOf(f: Fields): UrlState {
    AbsorbAll(AnvlStart(), f).url
  }

  /**
   * The request condition: the request's first blank line ends exactly at
   * its end (or, with nothing after it, it has none).
   */
  predicate RequestFits(request: Bytes, response: Bytes) {
    && BlankLineEnd(request, 0, |request|) == |request|
    && (response != [] ==> FirstTerm(request, 0, |request|) < |request|)
  }

  /** A blank line seen through a window of the buffer is the same blank line. */
  lemma {:induction false} TermLenShift(b: Bytes, q: int, end: int, c: Bytes, k: int)
    requires 0 <= q <= end <= |b| && b[q..end] == c && 0 <= k
    ensures TermLen(b, q + k, end) == TermLen(c, k, |c|)
  {
    if k + 1 < |c| {
      assert b[q + k] == c[k] && b[q + k + 1] == c[k + 1];
      if k + 2 < |c| {
        assert b[q + k + 2] == c[k + 2];
      }
    }
  }

  lemma {:induction false} FirstTermShift(b: Bytes, q: int, end: int, c: Bytes, k: int)
    requires 0 <= q <= end <= |b| && b[q..end] == c && 0 <= k <= |c|
    ensures FirstTerm(b, q + k, end) == q + FirstTerm(c, k, |c|)
    decreases |c| - k
  {
    TermLenShift(b, q, end, c, k);
    if k < |c| && TermLen(c, k, |c|) == 0 {
      FirstTermShift(b, q, end, c, k + 1);
    }
  }

  /** Where the first blank line ends does not depend on what lies before the window. */
  lemma {:induction false} BlankLineEndShift(b: Bytes, q: int, end: int, c: Bytes)
    requires 0 <= q <= end <= |b| && b[q..end] == c
    ensures BlankLineEnd(b, q, end) == q + BlankLineEnd(c, 0, |c|)
  {
    FirstTermShift(b, q, end, c, 0);
    var t := FirstTerm(c, 0, |c|);
    if t < |c| {
      TermLenShift(b, q, end, c, t);
    }
  }

  /** Nor on what lies after a blank line that ends the window. */
  lemma {:induction false} FirstTermExtend(b: Bytes, i: int, e1: int, e2: int)
    requires 0 <= i <= e1 <= e2 <= |b|
    requires FirstTerm(b, i, e1) < e1
    requires FirstTerm(b, i, e1) + TermLen(b, FirstTerm(b, i, e1), e1) == e1
    ensures FirstTerm(b, i, e2) == FirstTerm(b, i, e1)
    ensures TermLen(b, FirstTerm(b, i, e1), e2) == TermLen(b, FirstTerm(b, i, e1), e1)
    decreases e1 - i
  {
    var t := FirstTerm(b, i, e1);
    if i < t {
      assert TermLen(b, i, e1) == 0;
      assert TermLen(b, i, e2) == 0;
      assert FirstTerm(b, i + 1, e1) == t;
      FirstTermExtend(b, i + 1, e1, e2);
    }
  }

  /** The request scan over `prefix + request + response` stops right after `request`. */
  lemma {:induction false} RequestSplits(b: Bytes, q: int, request: Bytes, response: Bytes)
    requires 0 <= q && q + |request| + |response| == |b| && b[q..] == request + response
    requires RequestFits(request, response)
    ensures BlankLineEnd(b, q, |b|) == q + |request|
  {
    var e1 := q + |request|;
    assert b[q..e1] == request;
    BlankLineEndShift(b, q, e1, request);
    if response == [] {
      assert e1 == |b|;
    } else {
      FirstTermShift(b, q, e1, request, 0);
      TermLenShift(b, q, e1, request, FirstTerm(request, 0, |request|));
      FirstTermExtend(b, q, e1, |b|);
    }
  }

  /** The bytes of a written line: key, `: `, value, `\r\n`. */
  lemma {:induction false} FieldLineBytes(key: Bytes, value: Bytes)
    ensures var line := FieldLine(key, value);
            && |line| == |key| + |value| + 4
            && line[..|key|] == key
            && line[|key|] == Code(':') && line[|key| + 1] == Code(' ')
            && line[|key| + 2..|key| + 2 + |value|] == value
            && line[|key| + 2 + |value|] == Code('\r') && line[|key| + 3 + |value|] == Code('\n')
  {
    var line := FieldLine(key, value);
    assert line == key + (Ascii(": ") + value + Ascii("\r\n"));
    assert line[|key|..] == Ascii(": ") + value + Ascii("\r\n");
  }

  /** The bytes of a written line in place in the buffer. */
  lemma {:induction false} LineIndex(b: Bytes, p: int, key: Bytes, value: Bytes)
    requires 0 <= p && p + |FieldLine(key, value)| <= |b|
    requires b[p..p + |FieldLine(key, value)|] == FieldLine(key, value)
    ensures p + |key| + |value| + 4 <= |b|
    ensures forall k :: 0 <= k < |key| ==> b[p + k] == key[k]
    ensures b[p + |key|] == Code(':') && b[p + |key| + 1] == Code(' ')
    ensures forall k :: 0 <= k < |value| ==> b[p + |key| + 2 + k] == value[k]
    ensures b[p + |key| + 2 + |value|] == Code('\r') && b[p + |key| + 3 + |value|] == Code('\n')
  {
    var line := FieldLine(key, value);
    FieldLineBytes(key, value);
    assert forall k :: 0 <= k < |line| ==> b[p + k] == line[k];
    assert forall k :: 0 <= k < |key| ==> line[k] == key[k];
    assert forall k :: 0 <= k < |value| ==> line[|key| + 2 + k] == value[k];
  }

  /** The scanning steps of the ANVL loop over one written line starting at `p`. */
  lemma {:induction false} LineScan(b: Bytes, p: int, key: Bytes, value: Bytes)
    requires FieldFits(key, value)
    requires 0 <= p && p + |FieldLine(key, value)| <= |b|
    requires b[p..p + |FieldLine(key, value)|] == FieldLine(key, value)
    ensures p < |b| - 1 && !Is(b[p], '\n') && !(Is(b[p], '\r') && Is(b[p + 1], '\n'))
    ensures LabelEnd(b, p) == p + |key| && Is(b[p + |key|], ':') && b[p..p + |key|] == key
    ensures ValueAt(b, p + |key| + 1) == (value, p + |key| + |value| + 3)
  {
    LineIndex(b, p, key, value);
    LineLabel(b, p, key, value);
    LineValue(b, p + |key| + 1, value);
  }

  lemma {:induction false} LineLabel(b: Bytes, p: int, key: Bytes, value: Bytes)
    requires FieldFits(key, value)
    requires 0 <= p && p + |key| + 1 < |b|
    requires forall k :: 0 <= k < |key| ==> b[p + k] == key[k]
    requires b[p + |key|] == Code(':')
    ensures LabelEnd(b, p) == p + |key| && b[p..p + |key|] == key
  {
    var c := p + |key|;
    assert forall k :: p <= k < c ==> !Is(b[k], ':') && !Is(b[k], '\n') by {
      forall k | p <= k < c ensures !Is(b[k], ':') && !Is(b[k], '\n') {
        assert b[k] == key[k - p];
      }
    }
  }

  /** The value of a written line, from just past its `:`. */
  lemma {:induction false} LineValue(b: Bytes, i: int, value: Bytes)
    requires 1 <= i && i + |value| + 3 <= |b|
    requires |value| > 0 && !Is(value[0], ' ') && !Is(value[0], '\t')
    requires forall k :: 0 <= k < |value| ==> !Is(value[k], '\n')
    requires b[i - 1] == Code(':') && b[i] == Code(' ')
    requires forall k :: 0 <= k < |value| ==> b[i + 1 + k] == value[k]
    requires b[i + 1 + |value|] == Code('\r') && b[i + 2 + |value|] == Code('\n')
    ensures ValueAt(b, i) == (value, i + |value| + 2)
  {
    var e := i + |value| + 2;
    assert BlankEnd(b, i) == i + 1;
    assert forall k :: i + 1 <= k < e - 1 ==> !Is(b[k], '\n') by {
      forall k | i + 1 <= k < e - 1 ensures !Is(b[k], '\n') {
        assert b[k] == value[k - i - 1];
      }
    }
    assert CharIndex(b, i + 1, |b|, '\n') == e;
    assert b[i + 1..e - 1] == value;
  }

  /** The ANVL loop reads one written line back as the pair it came from. */
  lemma {:induction false} ParseOneLine(b: Bytes, a: Anvl, key: Bytes, value: Bytes, next: Anvl)
    requires FieldFits(key, value)
    requires 0 <= a.pos && a.pos + |FieldLine(key, value)| <= |b|
    requires b[a.pos..a.pos + |FieldLine(key, value)|] == FieldLine(key, value)
    requires next == Absorb(a, key, value).(pos := a.pos + |FieldLine(key, value)|)
    ensures ParseFields(b, a) == ParseFields(b, next)
  {
    LineTaken(b, a, key, value, next);
    CorrectedStep(b, a);
  }

  /** One written line is taken in whole, and the loop resumes just past it. */
  lemma {:induction false} LineTaken(b: Bytes, a: Anvl, key: Bytes, value: Bytes, next: Anvl)
    requires FieldFits(key, value)
    requires 0 <= a.pos && a.pos + |FieldLine(key, value)| <= |b|
    requires b[a.pos..a.pos + |FieldLine(key, value)|] == FieldLine(key, value)
    requires next == Absorb(a, key, value).(pos := a.pos + |FieldLine(key, value)|)
    ensures TakesLine(b, a.pos) && AfterLine(b, a) == next && next.pos <= |b|
  {
    LineScan(b, a.pos, key, value);
    FieldLineBytes(key, value);
    assert TakesLine(b, a.pos);
    AfterLineOf(b, a, key, value, a.pos + |key| + |value| + 3);
  }

  /** The state after a line whose key and value are known. */
  lemma {:induction false} AfterLineOf(b: Bytes, a: Anvl, key: Bytes, value: Bytes, e: int)
    requires TakesLine(b, a.pos)
    requires LabelEnd(b, a.pos) == a.pos + |key| && b[a.pos..a.pos + |key|] == key
    requires ValueAt(b, a.pos + |key| + 1) == (value, e)
    ensures AfterLine(b, a) == Absorb(a, key, value).(pos := e + 1)
  {
  }

  /** `AbsorbAll` does not look at the read position. */
  lemma {:induction false} AbsorbAllPos(a: Anvl, g: Fields, x: int)
    ensures AbsorbAll(a.(pos := x), g) == AbsorbAll(a, g).(pos := x)
    decreases |g|
  {
    if |g| > 0 {
      assert Absorb(a.(pos := x), g[0].0, g[0].1) == Absorb(a, g[0].0, g[0].1).(pos := x);
      AbsorbAllPos(Absorb(a, g[0].0, g[0].1), g[1..], x);
    }
  }

  /** The written lines of `g` in place: the first line, then the lines of the rest. */
  lemma {:induction false} LinesSplit(b: Bytes, p: int, g: Fields)
    requires |g| > 0 && 0 <= p && p + |FieldLines(g)| + 2 <= |b|
    requires b[p..p + |FieldLines(g)| + 2] == FieldLines(g) + Ascii("\r\n")
    ensures var line := FieldLine(g[0].0, g[0].1);
            && p + |line| + |FieldLines(g[1..])| + 2 <= |b|
            && b[p..p + |line|] == line
            && b[p + |line|..p + |line| + |FieldLines(g[1..])| + 2] == FieldLines(g[1..]) + Ascii("\r\n")
  {
    var line := FieldLine(g[0].0, g[0].1);
    var rest := FieldLines(g[1..]);
    var crlf := Ascii("\r\n");
    assert FieldLines(g) == line + rest;
    var n := |FieldLines(g)| + 2;
    var w := b[p..p + n];
    assert w == line + (rest + crlf);
    assert b[p..p + |line|] == w[..|line|];
    assert b[p + |line|..p + n] == w[|line|..];
  }

  /** The blank line that closes the block ends the ANVL loop. */
  lemma {:induction false} ParseBlockEnd(b: Bytes, a: Anvl)
    requires 0 <= a.pos && a.pos + 2 <= |b|
    requires b[a.pos..a.pos + 2] == Ascii("\r\n")
    ensures ParseFields(b, a) == a.(pos := a.pos + 2)
  {
    assert b[a.pos] == b[a.pos..a.pos + 2][0] == Code('\r');
    assert b[a.pos + 1] == b[a.pos..a.pos + 2][1] == Code('\n');
  }

  /** The ANVL loop reads the written lines and the closing blank line back. */
  lemma {:induction false} ParseLines(b: Bytes, a: Anvl, g: Fields)
    requires forall i :: 0 <= i < |g| ==> FieldFits(g[i].0, g[i].1)
    requires 0 <= a.pos && a.pos + |FieldLines(g)| + 2 <= |b|
    requires b[a.pos..a.pos + |FieldLines(g)| + 2] == FieldLines(g) + Ascii("\r\n")
    ensures ParseFields(b, a) == AbsorbAll(a, g).(pos := a.pos + |FieldLines(g)| + 2)
    decreases |g|
  {
    var p := a.pos;
    if |g| == 0 {
      ParseBlockEnd(b, a);
    } else {
      var line := FieldLine(g[0].0, g[0].1);
      var rest := g[1..];
      var a2 := Absorb(a, g[0].0, g[0].1).(pos := p + |line|);
      LinesSplit(b, p, g);
      assert forall i :: 0 <= i < |rest| ==> rest[i] == g[i + 1];
      ParseLines(b, a2, rest);
      ParseFirstLine(b, a, g, a2);
    }
  }

  /** The first written line read, the rest read as the induction hypothesis says, gives all of them read. */
  lemma {:induction false} ParseFirstLine(b: Bytes, a: Anvl, g: Fields, a2: Anvl)
    requires |g| > 0 && FieldFits(g[0].0, g[0].1)
    requires a2 == Absorb(a, g[0].0, g[0].1).(pos := a.pos + |FieldLine(g[0].0, g[0].1)|)
    requires 0 <= a.pos && a.pos + |FieldLine(g[0].0, g[0].1)| <= |b|
    requires b[a.pos..a.pos + |FieldLine(g[0].0, g[0].1)|] == FieldLine(g[0].0, g[0].1)
    requires ParseFields(b, a2) == AbsorbAll(a2, g[1..]).(pos := a2.pos + |FieldLines(g[1..])| + 2)
    ensures ParseFields(b, a) == AbsorbAll(a, g).(pos := a.pos + |FieldLines(g)| + 2)
  {
    ParseOneLine(b, a, g[0].0, g[0].1, a2);
    AbsorbAllFirst(a, g, a2);
  }

  /** The state after the first line, carried through the rest, is the state after all of them. */
  lemma {:induction false} AbsorbAllFirst(a: Anvl, g: Fields, a2: Anvl)
    requires |g| > 0 && a2 == Absorb(a, g[0].0, g[0].1).(pos := a.pos + |FieldLine(g[0].0, g[0].1)|)
    ensures AbsorbAll(a2, g[1..]).(pos := a2.pos + |FieldLines(g[1..])| + 2)
            == AbsorbAll(a, g).(pos := a.pos + |FieldLines(g)| + 2)
  {
    AbsorbAllRest(a, g, a2);
    FieldLinesStep(g);
    MovedTwice(AbsorbAll(a2, g[1..]), AbsorbAll(a, g), a2.pos,
               a2.pos + |FieldLines(g[1..])| + 2, a.pos + |FieldLines(g)| + 2);
  }

  /** Taking in the first line and then the rest agrees with taking in all of them, up to the read position. */
  lemma {:induction false} AbsorbAllRest(a: Anvl, g: Fields, a2: Anvl)
    requires |g| > 0 && a2 == Absorb(a, g[0].0, g[0].1).(pos := a2.pos)
    ensures AbsorbAll(a2, g[1..]) == AbsorbAll(a, g).(pos := a2.pos)
  {
    var a1 := Absorb(a, g[0].0, g[0].1);
    AbsorbAllStep(a, g);
    AbsorbAllPos(a1, g[1..], a2.pos);
  }

  lemma {:induction false} MovedTwice(l: Anvl, r: Anvl, p: int, x: int, y: int)
    requires l == r.(pos := p) && x == y
    ensures l.(pos := x) == r.(pos := y)
  {
  }

  lemma {:induction false} AbsorbAllStep(a: Anvl, g: Fields)
    requires |g| > 0
    ensures AbsorbAll(a, g) == AbsorbAll(Absorb(a, g[0].0, g[0].1), g[1..])
  {
  }

  lemma {:induction false} FieldLinesStep(g: Fields)
    requires |g| > 0
    ensures |FieldLines(g)| == |FieldLine(g[0].0, g[0].1)| + |FieldLines(g[1..])|
  {
    assert FieldLines(g) == FieldLine(g[0].0, g[0].1) + FieldLines(g[1..]);
  }

  /** `put` of a key not yet present appends the pair. */
  lemma {:induction false} PutNew(f: Fields, k: Bytes, v: Bytes)
    requires forall i :: 0 <= i < |f| ==> f[i].0 != k
    ensures Put(f, k, v) == f + [(k, v)]
    decreases |f|
  {
    if |f| > 0 {
      PutNew(f[1..], k, v);
      assert f == [f[0]] + f[1..];
    }
  }

  /** Reading distinct, non-empty fields in order rebuilds exactly that list. */
  lemma {:induction false} AbsorbAllFields(a: Anvl, g: Fields)
    requires Distinct(a.fields + g)
    requires forall i :: 0 <= i < |g| ==> |g[i].1| > 0
    ensures AbsorbAll(a, g).fields == a.fields + g
    decreases |g|
  {
    if |g| > 0 {
      var s := a.fields + g;
      assert forall i :: 0 <= i < |a.fields| ==> s[i] == a.fields[i] && s[|a.fields|] == g[0];
      PutNew(a.fields, g[0].0, g[0].1);
      var a1 := Absorb(a, g[0].0, g[0].1);
      assert a1.fields + g[1..] == s;
      AbsorbAllFields(a1, g[1..]);
    }
  }

  /** Where the parts of a written record sit. */
  lemma {:induction false} EncodeLayout(f: Fields, request: Bytes, response: Bytes)
    ensures var b := Encode(f, request, response);
            var q := 16 + |FieldLines(f)| + 2;
            && |b| == q + |request| + |response|
            && b[..16] == Header
            && b[16..q] == FieldLines(f) + Ascii("\r\n")
            && b[q..] == request + response
  {
    var b := Encode(f, request, response);
    var lines := FieldLines(f) + Ascii("\r\n");
    assert |Header| == 16;
    assert b == Header + lines + (request + response);
  }

  /** How `load` of a whole buffer with a good magic places the fields, request and response. */
  lemma {:induction false} LoadParts(b: Bytes)
    requires 16 <= |b| && b[..16] == Header
    ensures var a := ParseFields(b, AnvlStart());
            var d := Load(b, 0, |b|).value;
            && Load(b, 0, |b|).Success?
            && d.Valid() && d.buf == b && d.requestBase == b && d.responseBase == b
            && d.fields == a.fields && d.url == a.url
            && d.responseOffset + d.responseLength == |b|
            && (a.url.isHttp ==> d.requestOffset == a.pos && d.responseOffset == BlankLineEnd(b, a.pos, |b|)
                                 && d.requestLength == d.responseOffset - a.pos)
            && (!a.url.isHttp ==> d.requestLength == 0 && d.responseOffset == a.pos)
  {
    assert b[0..0 + |b|] == b;
    assert b[0..0 + 16] == b[..16];
    LoadLayout(b, 0, |b|);
  }

  /** The ANVL block of a written record parses back to its fields, ending where the request starts. */
  lemma {:induction false} EncodeFields(f: Fields, request: Bytes, response: Bytes)
    requires FieldsFit(f)
    ensures var a := ParseFields(Encode(f, request, response), AnvlStart());
            && a.pos == 16 + |FieldLines(f)| + 2 && a.fields == f && a.url == UrlOf(f)
  {
    var b := Encode(f, request, response);
    var q := 16 + |FieldLines(f)| + 2;
    EncodeLayout(f, request, response);
    assert b[16..16 + |FieldLines(f)| + 2] == b[16..q];
    ParseLines(b, AnvlStart(), f);
    AbsorbAllFields(AnvlStart(), f);
    assert [] + f == f;
  }

  /** A document whose request and response sit back to back at `q` hands out exactly those bytes. */
  lemma {:induction false} DocumentParts(d: Document, q: int, request: Bytes, response: Bytes)
    requires d.Valid() && d.requestBase == d.buf && d.responseBase == d.buf
    requires 0 <= q && |d.buf| == q + |request| + |response| && d.buf[q..] == request + response
    requires request != [] ==> d.requestOffset == q && d.requestLength == |request|
    requires request == [] ==> d.requestLength == 0
    requires d.responseOffset == q + |request| && d.responseLength == |response|
    ensures d.Request() == request && d.Response() == response
  {
    var b := d.buf;
    if request != [] {
      assert b[q..q + |request|] == (request + response)[..|request|];
    }
    assert b[q + |request|..q + |request| + |response|] == (request + response)[|request|..];
  }

  /** Once the ANVL block ends at `q`, `load` splits the rest into the request and the response. */
  lemma {:induction false} LoadSplits(b: Bytes, q: int, request: Bytes, response: Bytes)
    requires 16 <= q && |b| == q + |request| + |response| && b[..16] == Header
    requires b[q..] == request + response
    requires ParseFields(b, AnvlStart()).pos == q
    requires ParseFields(b, AnvlStart()).url.isHttp ==> RequestFits(request, response)
    requires !ParseFields(b, AnvlStart()).url.isHttp ==> request == []
    ensures var l := Load(b, 0, |b|);
            l.Success? && l.value.Request() == request && l.value.Response() == response
  {
    LoadParts(b);
    var d := Load(b, 0, |b|).value;
    if ParseFields(b, AnvlStart()).url.isHttp {
      RequestSplits(b, q, request, response);
    }
    DocumentParts(d, q, request, response);
  }

  /** `load` of the whole of `b` succeeds with these fields, URL information, request and response. */
  predicate LoadsBack(b: Bytes, f: Fields, url: UrlState, request: Bytes, response: Bytes) {
    var l := Load(b, 0, |b|);
    && l.Success?
    && l.value.fields == f && l.value.url == url
    && l.value.Request() == request && l.value.Response() == response
  }

  /**
   * The round trip: the record written from `f`, `request` and `response`
   * loads back with the same fields, request and response, and with the URL
   * information the fields determine.
   */
  lemma {:induction false} LoadEncode(f: Fields, request: Bytes, response: Bytes)
    requires FieldsFit(f)
    requires UrlOf(f).isHttp ==> RequestFits(request, response)
    requires !UrlOf(f).isHttp ==> request == []
    ensures LoadsBack(Encode(f, request, response), f, UrlOf(f), request, response)
  {
    var b := Encode(f, request, response);
    EncodeLayout(f, request, response);
    EncodeFields(f, request, response);
    LoadParts(b);
    LoadSplits(b, 16 + |FieldLines(f)| + 2, request, response);
  }

  /** What a document must satisfy for its reconstructed record to load back. */
  predicate Reloadable(d: Document)
    requires d.Valid()
  {
    && FieldsFit(d.fields)
    && (UrlOf(d.fields).isHttp ==> RequestFits(d.Request(), d.Response()))
    && (!UrlOf(d.fields).isHttp ==> d.Request() == [])
  }

  /** `load(getBytes())` of a modified document gives back its fields, request and response. */
  lemma {:induction false} ReloadReconstructed(d: Document)
    requires d.Valid() && d.isModified && Reloadable(d)
    ensures LoadsBack(Reconstruct(d).buf, d.fields, UrlOf(d.fields), d.Request(), d.Response())
  {
    LoadEncode(d.fields, d.Request(), d.Response());
  }
}
