/**
 * The crawled-document record of `HDFSWriterDocument`: the `HDFSWriter/0.2`
 * magic, an ANVL block of `Label: value` lines ended by a blank line, the
 * HTTP request (for http URLs) and the HTTP response.  `load` parses a
 * record into a `Document`; `reconstructDocument` writes one back.
 */
module Document {
  import opened Wrappers
  import opened Bytes
  import opened ByteScan
  import opened ContentType

  /** The 16-byte magic every record starts with. */
  const Header: Bytes := Ascii("HDFSWriter/0.2\r\n")

  /** The field map: key/value pairs in insertion order (the Java `HashMap` has no order of its own). */
  type Fields = seq<(Bytes, Bytes)>

  /** No key occurs twice, as in a map. */
  predicate Distinct(f: Fields) {
    forall i, j :: 0 <= i < j < |f| ==> f[i].0 != f[j].0
  }

  /** `HashMap.get`. */
  function Get(f: Fields, k: Bytes): (r: Option<Bytes>)
    ensures r.None? <==> forall i :: 0 <= i < |f| ==> f[i].0 != k
    ensures r.Some? ==> exists i :: 0 <= i < |f| && f[i] == (k, r.value)
    decreases |f|
  {
    if |f| == 0 then None
    else if f[0].0 == k then Some(f[0].1)
    else
      var r := Get(f[1..], k);
      assert forall i :: 1 <= i < |f| ==> f[i] == f[1..][i - 1];
      r
  }

  /** `HashMap.put`: replaces the value of a present key, otherwise adds the pair at the end. */
  function Put(f: Fields, k: Bytes, v: Bytes): Fields
    decreases |f|
  {
    if |f| == 0 then [(k, v)]
    else if f[0].0 == k then [(k, v)] + f[1..]
    else [f[0]] + Put(f[1..], k, v)
  }

  /** A `put` adds no key but its own. */
  lemma {:induction false} PutKeys(f: Fields, k: Bytes, v: Bytes)
    ensures forall i :: 0 <= i < |Put(f, k, v)| ==> Put(f, k, v)[i].0 == k || Put(f, k, v)[i] in f
    decreases |f|
  {
    if |f| > 0 && f[0].0 != k {
      PutKeys(f[1..], k, v);
      var r := Put(f, k, v);
      assert r[1..] == Put(f[1..], k, v);
      forall i | 1 <= i < |r|
        ensures r[i].0 == k || r[i] in f
      {
        assert r[i] == Put(f[1..], k, v)[i - 1];
      }
    }
  }

  /** A `put` keeps the keys distinct. */
  lemma {:induction false} PutDistinct(f: Fields, k: Bytes, v: Bytes)
    ensures Distinct(f) ==> Distinct(Put(f, k, v))
    decreases |f|
  {
    if !Distinct(f) {
    } else if |f| > 0 && f[0].0 != k {
      PutDistinct(f[1..], k, v);
      PutKeys(f[1..], k, v);
      var r := Put(f, k, v);
      var t := Put(f[1..], k, v);
      assert r == [f[0]] + t;
      forall i, j | 0 <= i < j < |r|
        ensures r[i].0 != r[j].0
      {
        if i == 0 {
          assert r[j] == t[j - 1];
          if r[j] in f[1..] {
            var m :| 0 <= m < |f[1..]| && f[1..][m] == r[j];
            assert f[m + 1] == r[j];
          }
        } else {
          assert r[i] == t[i - 1] && r[j] == t[j - 1];
        }
      }
    } else if |f| > 0 {
      var r := Put(f, k, v);
      forall i, j | 0 <= i < j < |r|
        ensures r[i].0 != r[j].0
      {
        if i == 0 {
          assert r[j] == f[j];
        } else {
          assert r[i] == f[i] && r[j] == f[j];
        }
      }
    }
  }

  /** After a `put`, `get` of that key yields the new value. */
  lemma {:induction false} GetPut(f: Fields, k: Bytes, v: Bytes)
    ensures Get(Put(f, k, v), k) == Some(v)
    decreases |f|
  {
    if |f| > 0 && f[0].0 != k {
      GetPut(f[1..], k, v);
      assert Put(f, k, v)[1..] == Put(f[1..], k, v);
    }
  }

  /** A `put` leaves every other key as it was. */
  lemma {:induction false} GetPutOther(f: Fields, k: Bytes, v: Bytes, j: Bytes)
    requires j != k
    ensures Get(Put(f, k, v), j) == Get(f, j)
    decreases |f|
  {
    if |f| > 0 {
      var r := Put(f, k, v);
      if f[0].0 == k {
        assert r[1..] == f[1..];
      } else if f[0].0 != j {
        GetPutOther(f[1..], k, v, j);
        assert r[1..] == Put(f[1..], k, v);
      }
    }
  }

  /** What a `URL` field decides: the URL itself, its lower-cased scheme and whether that is `http`. */
  datatype UrlState = UrlState(url: Option<Bytes>, scheme: Option<Bytes>, isHttp: bool)

  /**
   * Taking `value` as the URL: with a `:` after at least one byte the
   * scheme becomes the lower-cased text before it and `isHttp` says whether
   * that is `http`; without one the previous scheme and `isHttp` stay.
   */
  function SetUrl(u: UrlState, value: Bytes): (r: UrlState)
    ensures r.url == Some(value)
  {
    var colon := IndexOf(value, Code(':'));
    if colon > 0 then
      var scheme := Lower(value[..colon]);
      UrlState(Some(value), Some(scheme), scheme == Ascii("http"))
    else u.(url := Some(value))
  }

  /** `isHttp` after a URL with a scheme: exactly when the URL starts with `http:`, in any case. */
  lemma {:induction false} SetUrlHttp(u: UrlState, value: Bytes)
    requires IndexOf(value, Code(':')) > 0
    ensures SetUrl(u, value).isHttp <==> |value| >= 5 && Lower(value[..5]) == Ascii("http:")
  {
    var colon := IndexOf(value, Code(':'));
    if colon == 4 {
      HttpColon(value);
    } else {
      assert |Lower(value[..colon])| != |Ascii("http")|;
      NoHttpColon(value, colon);
    }
  }

  lemma {:induction false} HttpColon(value: Bytes)
    requires |value| >= 5 && value[4] == 58
    ensures Lower(value[..4]) == Ascii("http") <==> Lower(value[..5]) == Ascii("http:")
  {
    var scheme := Lower(value[..4]);
    var l := Lower(value[..5]);
    var a := Ascii("http");
    var h := Ascii("http:");
    assert forall i :: 0 <= i < 4 ==> l[i] == scheme[i] && a[i] == h[i];
    assert l[4] == 58 == h[4];
    if scheme == a {
      forall i | 0 <= i < 5 ensures l[i] == h[i] {
        if i < 4 {
          assert l[i] == scheme[i] == a[i];
        }
      }
      assert l == h;
    }
    if l == h {
      assert forall i :: 0 <= i < 4 ==> scheme[i] == a[i];
      assert scheme == a;
    }
  }

  /** Lower-casing keeps `:`, so a URL whose first five bytes fold to `http:` has its first `:` at 4. */
  lemma {:induction false} NoHttpColon(value: Bytes, colon: int)
    requires colon == IndexOf(value, Code(':')) && colon > 0 && colon != 4
    ensures !(|value| >= 5 && Lower(value[..5]) == Ascii("http:"))
  {
    if |value| >= 5 {
      var l := Lower(value[..5]);
      var h := Ascii("http:");
      if colon < 4 {
        assert l[colon] == 58 && h[colon] != 58;
      } else {
        assert l[4] != 58 && h[4] == 58;
      }
    }
  }

  /** The state the ANVL loop carries: the read position, the fields so far and the URL information. */
  datatype Anvl = Anvl(pos: int, fields: Fields, url: UrlState)

  /** `load` treats a key as the URL when its first three bytes are `URL`, in this case. */
  predicate IsUrlLabel(key: Bytes) {
    |key| >= 3 && Is(key[0], 'U') && Is(key[1], 'R') && Is(key[2], 'L')
  }

  /** One `key: value` line taken in: a URL key updates the URL state, and only non-empty values are stored. */
  function Absorb(a: Anvl, key: Bytes, value: Bytes): (r: Anvl)
    ensures r.pos == a.pos
  {
    var u := if IsUrlLabel(key) then SetUrl(a.url, value) else a.url;
    var f := if |value| > 0 then Put(a.fields, key, value) else a.fields;
    Anvl(a.pos, f, u)
  }

  /** The first index at or after `i` holding `:` or `\n`, or `|b|`. */
  function LabelEnd(b: Bytes, i: int): (j: int)
    requires 0 <= i <= |b|
    ensures i <= j <= |b|
    ensures forall k :: i <= k < j ==> !Is(b[k], ':') && !Is(b[k], '\n')
    ensures j < |b| ==> Is(b[j], ':') || Is(b[j], '\n')
    decreases |b| - i
  {
    if i < |b| && !Is(b[i], ':') && !Is(b[i], '\n') then LabelEnd(b, i + 1) else i
  }

  /** The first index at or after `i` that is neither space nor tab, or `|b|`. */
  function BlankEnd(b: Bytes, i: int): (j: int)
    requires 0 <= i <= |b|
    ensures i <= j <= |b|
    ensures forall k :: i <= k < j ==> Is(b[k], ' ') || Is(b[k], '\t')
    ensures j < |b| ==> !Is(b[j], ' ') && !Is(b[j], '\t')
    decreases |b| - i
  {
    if i < |b| && (Is(b[i], ' ') || Is(b[i], '\t')) then BlankEnd(b, i + 1) else i
  }

  /**
   * The value after the `:` at `i - 1`: leading spaces and tabs skipped, up
   * to the next `\n` (returned as `e`) or the end, one `\r` before it dropped.
   */
  function ValueAt(b: Bytes, i: int): (r: (Bytes, int))
    requires 1 <= i <= |b| && Is(b[i - 1], ':')
    ensures i <= r.1 <= |b|
    ensures r.1 < |b| ==> Is(b[r.1], '\n')
    ensures forall k :: i <= k < r.1 ==> !Is(b[k], '\n')
    ensures |r.0| <= r.1 - i
  {
    var vs := BlankEnd(b, i);
    var e := CharIndex(b, vs, |b|, '\n');
    var endpos := if Is(b[e - 1], '\r') then e - 1 else e;
    assert vs <= endpos;
    (b[vs..endpos], e)
  }

  /**
   * The ANVL loop of `load`, as it should behave.  A line that is empty
   * (`\n` or `\r\n`) or has no `:` ends the block; otherwise its key and
   * value are taken in.  Where the record ends inside the block, the read
   * position stops at the end of the record.
   */
  function ParseFields(b: Bytes, a: Anvl): (r: Anvl)
    requires 0 <= a.pos <= |b|
    ensures a.pos <= r.pos <= |b|
    ensures Distinct(a.fields) ==> Distinct(r.fields)
    decreases |b| - a.pos
  {
    var p := a.pos;
    if p >= |b| - 1 then a
    else if Is(b[p], '\n') then a.(pos := p + 1)
    else if Is(b[p], '\r') && Is(b[p + 1], '\n') then a.(pos := p + 2)
    else
      var c := LabelEnd(b, p);
      if c == |b| then a.(pos := |b|)
      else if Is(b[c], '\n') then a.(pos := c + 1)
      else
        var v := ValueAt(b, c + 1);
        var next := Absorb(a, b[p..c], v.0);
        PutDistinct(a.fields, b[p..c], v.0);
        ParseFields(b, next.(pos := if v.1 < |b| then v.1 + 1 else |b|))
  }

  /** Why `load` fails: a bad range, a record shorter than the magic, a wrong magic byte, or an index past the buffer. */
  datatype LoadError = OutOfRange | Truncated | BadHeader(at: nat) | IndexOutOfBounds

  /**
   * The ANVL loop exactly as written.  A last line with no `\n` moves the
   * position one past the record; a last line with neither `:` nor `\n`
   * reads the byte at index `length`, which throws.
   */
  function ParseFieldsAsWritten(b: Bytes, a: Anvl): (r: Result<Anvl, LoadError>)
    requires 0 <= a.pos <= |b| + 1
    ensures r.Success? ==> a.pos <= r.value.pos <= |b| + 1
    decreases |b| + 1 - a.pos
  {
    var p := a.pos;
    if p >= |b| - 1 then Success(a)
    else if Is(b[p], '\n') then Success(a.(pos := p + 1))
    else if Is(b[p], '\r') && Is(b[p + 1], '\n') then Success(a.(pos := p + 2))
    else
      var c := LabelEnd(b, p);
      if c == |b| then Failure(IndexOutOfBounds)
      else if Is(b[c], '\n') then Success(a.(pos := c + 1))
      else
        var v := ValueAt(b, c + 1);
        ParseFieldsAsWritten(b, Absorb(a, b[p..c], v.0).(pos := v.1 + 1))
  }

  /** A position where the ANVL loop takes in a `key: value` line rather than stopping. */
  predicate TakesLine(b: Bytes, p: int) {
    0 <= p < |b| - 1 && !Is(b[p], '\n') && !(Is(b[p], '\r') && Is(b[p + 1], '\n'))
    && LabelEnd(b, p) < |b| && !Is(b[LabelEnd(b, p)], '\n')
  }

  /** The state after the line at `a.pos`, with the position just past its `\n` (or one past the record). */
  function AfterLine(b: Bytes, a: Anvl): (r: Anvl)
    requires TakesLine(b, a.pos)
    ensures a.pos < r.pos <= |b| + 1
  {
    var c := LabelEnd(b, a.pos);
    var v := ValueAt(b, c + 1);
    Absorb(a, b[a.pos..c], v.0).(pos := v.1 + 1)
  }

  lemma {:induction false} AsWrittenStep(b: Bytes, a: Anvl)
    requires TakesLine(b, a.pos)
    ensures ParseFieldsAsWritten(b, a) == ParseFieldsAsWritten(b, AfterLine(b, a))
  {
  }

  lemma {:induction false} CorrectedStep(b: Bytes, a: Anvl)
    requires TakesLine(b, a.pos) && AfterLine(b, a).pos <= |b|
    ensures ParseFields(b, a) == ParseFields(b, AfterLine(b, a))
  {
  }

  lemma {:induction false} AsWrittenStops(b: Bytes, a: Anvl)
    requires 0 <= a.pos <= |b| && !TakesLine(b, a.pos) && ParseFieldsAsWritten(b, a).Success?
    ensures ParseFieldsAsWritten(b, a).value == ParseFields(b, a)
  {
  }

  /** Wherever the loop as written stays inside the record, it agrees with `ParseFields`. */
  lemma {:induction false} ParseFieldsAgree(b: Bytes, a: Anvl)
    requires 0 <= a.pos <= |b|
    requires ParseFieldsAsWritten(b, a).Success? && ParseFieldsAsWritten(b, a).value.pos <= |b|
    ensures ParseFieldsAsWritten(b, a).value == ParseFields(b, a)
    decreases |b| - a.pos
  {
    if TakesLine(b, a.pos) {
      var next := AfterLine(b, a);
      AsWrittenStep(b, a);
      if next.pos <= |b| {
        CorrectedStep(b, a);
        ParseFieldsAgree(b, next);
      } else {
        assert false;
      }
    } else {
      AsWrittenStops(b, a);
    }
  }

  /** The state the ANVL loop starts from, right after the magic. */
  function AnvlStart(): Anvl {
    Anvl(16, [], UrlState(None, None, false))
  }

  /** A record whose only field line lacks its `\n`: the loop as written leaves the position past the end. */
  lemma {:induction false} UnterminatedFieldOverruns()
    ensures var b := Header + Ascii("U:x");
            && ParseFieldsAsWritten(b, AnvlStart()).Success?
            && ParseFieldsAsWritten(b, AnvlStart()).value.pos == |b| + 1
            && ParseFields(b, AnvlStart()).pos == |b|
  {
    var b := Header + Ascii("U:x");
    assert b[16] == Code('U') && b[17] == Code(':') && b[18] == Code('x');
    assert LabelEnd(b, 16) == 17;
    assert BlankEnd(b, 18) == 18;
    assert CharIndex(b, 18, 19, '\n') == 19;
  }

  /** A record whose last line has neither `:` nor `\n`: the loop as written reads past the buffer. */
  lemma {:induction false} ColonlessLastLineThrows()
    ensures var b := Header + Ascii("ab");
            && ParseFieldsAsWritten(b, AnvlStart()) == Failure(IndexOutOfBounds)
            && ParseFields(b, AnvlStart()).pos == |b|
  {
    var b := Header + Ascii("ab");
    assert b[16] == Code('a') && b[17] == Code('b');
    assert LabelEnd(b, 16) == 18;
  }

  /** The first index below 16 where `b` differs from the magic, or 16. */
  function HeaderMismatch(b: Bytes, i: nat): (r: nat)
    requires i <= 16 <= |b|
    ensures i <= r <= 16
    ensures forall k :: i <= k < r ==> b[k] == Header[k]
    ensures r < 16 ==> b[r] != Header[r]
    decreases 16 - i
  {
    if i < 16 && b[i] == Header[i] then HeaderMismatch(b, i + 1) else i
  }

  /**
   * The magic check as written: the message of the exception for a wrong
   * byte is built from the first 20 bytes of the buffer, which itself
   * throws when the record is shorter than 20 bytes.
   */
  function CheckHeaderAsWritten(b: Bytes): (r: Option<LoadError>)
    requires |b| >= 16
  {
    var i := HeaderMismatch(b, 0);
    if i == 16 then None
    else if |b| < 20 then Some(IndexOutOfBounds)
    else Some(BadHeader(i))
  }

  /** The magic check: a wrong byte is reported with its position. */
  function CheckHeader(b: Bytes): (r: Option<LoadError>)
    requires |b| >= 16
    ensures r.None? <==> b[..16] == Header
    ensures r.Some? ==> r.value.BadHeader? && r.value.at < 16 && b[r.value.at] != Header[r.value.at]
    ensures r.Some? ==> forall k :: 0 <= k < r.value.at ==> b[k] == Header[k]
  {
    var i := HeaderMismatch(b, 0);
    if i == 16 then
      assert |Header| == 16;
      assert forall k :: 0 <= k < 16 ==> b[..16][k] == Header[k];
      assert b[..16] == Header;
      None
    else Some(BadHeader(i))
  }

  /** A 16-byte record with a wrong first byte: the header test as written throws an index error, not the header error. */
  lemma {:induction false} ShortBadHeaderThrows()
    ensures var b := [0] + Header[1..];
            && CheckHeaderAsWritten(b) == Some(IndexOutOfBounds)
            && CheckHeader(b) == Some(BadHeader(0))
  {
    var b := [0] + Header[1..];
    assert b[0] != Header[0];
  }

  /**
   * The blank line starting at `i` before `end`: 2 for `\n\n`, 3 for
   * `\n\r\n`, 0 when there is none.
   */
  function TermLen(b: Bytes, i: int, end: int): nat
    requires 0 <= i && end <= |b|
  {
    if i + 1 < end && Is(b[i], '\n') && Is(b[i + 1], '\n') then 2
    else if i + 2 < end && Is(b[i], '\n') && Is(b[i + 1], '\r') && Is(b[i + 2], '\n') then 3
    else 0
  }

  /** Where the first blank line at or after `i` starts, or `end`. */
  function FirstTerm(b: Bytes, i: int, end: int): (t: int)
    requires 0 <= i <= end <= |b|
    ensures i <= t <= end
    ensures t < end ==> TermLen(b, t, end) > 0
    decreases end - i
  {
    if i == end || TermLen(b, i, end) > 0 then i else FirstTerm(b, i + 1, end)
  }

  /** No blank line starts between `i` and the one `FirstTerm` finds. */
  lemma {:induction false} FirstTermIsFirst(b: Bytes, i: int, end: int)
    requires 0 <= i <= end <= |b|
    ensures forall k :: i <= k < FirstTerm(b, i, end) ==> TermLen(b, k, end) == 0
    decreases end - i
  {
    if i < end && TermLen(b, i, end) == 0 {
      FirstTermIsFirst(b, i + 1, end);
    }
  }

  /** Just past the first blank line at or after `i`, or `end` when there is none. */
  function BlankLineEnd(b: Bytes, i: int, end: int): (e: int)
    requires 0 <= i <= end <= |b|
    ensures i <= e <= end
  {
    var t := FirstTerm(b, i, end);
    if t < end then t + TermLen(b, t, end) else end
  }

  /**
   * The request scan of `load`: byte by byte from `i`, a `\n` followed by
   * `\n` or `\r\n` ends the request; a `\n` among the last two bytes
   * ends it at the end of the record.
   */
  function RequestEnd(b: Bytes, i: int): (e: int)
    requires 0 <= i <= |b|
    ensures e == BlankLineEnd(b, i, |b|)
    decreases |b| - i
  {
    if i == |b| then |b|
    else if Is(b[i], '\n') then
      if i < |b| - 2 then
        if Is(b[i + 1], '\n') then i + 2
        else if Is(b[i + 1], '\r') && Is(b[i + 2], '\n') then i + 3
        else RequestEnd(b, i + 1)
      else
        NoTermNearEnd(b, i, |b|);
        |b|
    else RequestEnd(b, i + 1)
  }

  /** One step of the blank-line search: a blank line here, or the search from the next byte. */
  lemma {:induction false} BlankLineStep(b: Bytes, i: int, end: int)
    requires 0 <= i < end <= |b|
    ensures BlankLineEnd(b, i, end)
      == if TermLen(b, i, end) > 0 then i + TermLen(b, i, end) else BlankLineEnd(b, i + 1, end)
  {
  }

  /** In the last two bytes only a `\n\n` ending exactly at `end` can start a blank line. */
  lemma {:induction false} NoTermNearEnd(b: Bytes, i: int, end: int)
    requires 0 <= i < end <= |b| && end - 2 <= i
    ensures BlankLineEnd(b, i, end) == end
  {
    if TermLen(b, i, end) == 0 && i + 1 < end {
      assert TermLen(b, i + 1, end) == 0;
      assert FirstTerm(b, i, end) == FirstTerm(b, i + 1, end);
    }
  }

  /** At a line end: the text since the mark goes to `ParseContentType` when the header named the content type. */
  function LineSniff(s: State, parsing: bool, x: Sniff): (y: Sniff)
    requires s.Valid() && 0 <= s.mark <= s.offset
    ensures WellFormed(x) ==> WellFormed(y)
    ensures !parsing ==> y == x
  {
    if parsing then ParseContentType(StateOf(ByteSeq(s.buf, s.mark, s.offset, false)), x) else x
  }

  /** At a `:`: whether the header name since the mark `Equals` `content-type`. */
  predicate NamesContentType(s: State)
    requires s.Valid() && 0 <= s.mark <= s.offset
  {
    Equals(ByteSeq(s.buf, s.mark, s.offset, false), "content-type")
  }

  /**
   * At a `\n` in the header loop: where the body starts when a blank line
   * starts here or the record ends within two bytes, and -1 to read on.
   */
  function BodyStart(b: Bytes, o: int, end: int): (e: int)
    requires 0 <= o < end <= |b| && Is(b[o], '\n')
    ensures e >= 0 ==> e == BlankLineEnd(b, o, end)
    ensures e < 0 ==> BlankLineEnd(b, o, end) == BlankLineEnd(b, o + 1, end)
  {
    BlankLineStep(b, o, end);
    if o < end - 2 then
      if Is(b[o + 1], '\n') then o + 2
      else if Is(b[o + 1], '\r') && Is(b[o + 2], '\n') then o + 3
      else -1
    else
      NoTermNearEnd(b, o, end);
      end
  }

  /**
   * The header loop of `parseResponse` from the cursor: returns the body
   * offset and the fields found.  After `:` the header name since the mark
   * is compared with `content-type` by `Equals`; once it matched, the
   * next line end hands the text since the last `:` to `ParseContentType`.
   * The blank line after the headers, or the end, starts the body.
   */
  function HeaderLoop(s: State, parsing: bool, x: Sniff): (r: (int, Sniff))
    requires s.Valid() && 0 <= s.mark <= s.offset
    ensures r.0 == BlankLineEnd(s.buf, s.offset, s.end)
    ensures WellFormed(x) ==> WellFormed(r.1)
    decreases s.end - s.offset, 1
  {
    if s.Eob() then (s.offset, x)
    else if Is(s.buf[s.offset], '\n') then LineEnd(s, parsing, x)
    else
      BlankLineStep(s.buf, s.offset, s.end);
      if Is(s.buf[s.offset], ':') then AfterColon(s, parsing, x)
      else HeaderLoop(s.(offset := s.offset + 1), parsing, x)
  }

  /** The header loop at a `:`: the mark moves past it, and a `content-type` name before it starts the parse of the line. */
  function AfterColon(s: State, parsing: bool, x: Sniff): (r: (int, Sniff))
    requires s.Valid() && 0 <= s.mark <= s.offset < s.end && Is(s.buf[s.offset], ':')
    ensures r.0 == BlankLineEnd(s.buf, s.offset + 1, s.end)
    ensures WellFormed(x) ==> WellFormed(r.1)
    decreases s.end - s.offset, 0
  {
    HeaderLoop(s.(offset := s.offset + 1).SetMark(), parsing || NamesContentType(s), x)
  }

  /** The header loop at a `\n`: the line goes through `LineSniff`, then the body starts or the next line is read. */
  function LineEnd(s: State, parsing: bool, x: Sniff): (r: (int, Sniff))
    requires s.Valid() && 0 <= s.mark <= s.offset < s.end && Is(s.buf[s.offset], '\n')
    ensures r.0 == BlankLineEnd(s.buf, s.offset, s.end)
    ensures WellFormed(x) ==> WellFormed(r.1)
    decreases s.end - s.offset, 0
  {
    var y := LineSniff(s, parsing, x);
    var e := BodyStart(s.buf, s.offset, s.end);
    if e >= 0 then (e, y) else HeaderLoop(s.(offset := s.offset + 1).SetMark(), false, y)
  }

  /** Just past the last `:` in `[o, i)`, or `o` when there is none: where the loop's mark stands at `i` on a line from `o`. */
  function ColonMark(b: Bytes, o: int, i: int): (m: int)
    requires 0 <= o <= i <= |b|
    ensures o <= m <= i
    ensures m > o ==> Is(b[m - 1], ':')
    ensures forall k :: m <= k < i ==> !Is(b[k], ':')
    decreases i - o
  {
    if i == o then o else if Is(b[i - 1], ':') then i else ColonMark(b, o, i - 1)
  }

  /**
   * Some `:` in `[i, n)` of the line from `o` ends a header name that
   * `Equals` `content-type`, the name running from the previous `:` (or the
   * line start).
   */
  ghost predicate NamedBetween(b: Bytes, o: int, i: int, n: int)
    requires 0 <= o <= i <= n <= |b|
  {
    exists c :: i <= c < n && Is(b[c], ':') && Equals(ByteSeq(b, ColonMark(b, o, c), c, false), "content-type")
  }

  /** No `\n` in `[i, j)`. */
  predicate NoNewline(b: Bytes, i: int, j: int)
    requires 0 <= i <= j <= |b|
  {
    forall k :: i <= k < j ==> !Is(b[k], '\n')
  }

  /** At a `:` the loop sets the mark past it and notes whether the name before it `Equals` `content-type`. */
  lemma {:induction false} HeaderColonStep(s: State, parsing: bool, x: Sniff, t: State)
    requires s.Valid() && 0 <= s.mark <= s.offset < s.end && Is(s.buf[s.offset], ':')
    requires t == s.(offset := s.offset + 1, mark := s.offset + 1)
    ensures t.Valid() && HeaderLoop(s, parsing, x) == HeaderLoop(t, parsing || NamesContentType(s), x)
  {
  }

  /** At a `\n` the line's text since the mark goes through `LineSniff`; the body starts, or the next line does. */
  lemma {:induction false} HeaderNewlineStep(s: State, parsing: bool, x: Sniff, t: State)
    requires s.Valid() && 0 <= s.mark <= s.offset < s.end && Is(s.buf[s.offset], '\n')
    requires t == s.(offset := s.offset + 1, mark := s.offset + 1)
    ensures var y := LineSniff(s, parsing, x);
            var e := BodyStart(s.buf, s.offset, s.end);
            t.Valid() && HeaderLoop(s, parsing, x) == if e >= 0 then (e, y) else HeaderLoop(t, false, y)
  {
  }

  /** At any other byte but `\n` the loop only steps on. */
  lemma {:induction false} HeaderPlainStep(s: State, parsing: bool, x: Sniff, t: State)
    requires s.Valid() && 0 <= s.mark <= s.offset < s.end
    requires !Is(s.buf[s.offset], ':') && !Is(s.buf[s.offset], '\n') && t == s.(offset := s.offset + 1)
    ensures t.Valid() && HeaderLoop(s, parsing, x) == HeaderLoop(t, parsing, x)
  {
  }

  /** `NamedBetween` from `i` splits into the byte at `i` and the rest. */
  lemma {:induction false} NamedBetweenStep(b: Bytes, o: int, i: int, n: int)
    requires 0 <= o <= i < n <= |b|
    ensures NamedBetween(b, o, i, n)
        <==> (Is(b[i], ':') && Equals(ByteSeq(b, ColonMark(b, o, i), i, false), "content-type")) || NamedBetween(b, o, i + 1, n)
  {
    if NamedBetween(b, o, i, n) {
      var c :| i <= c < n && Is(b[c], ':') && Equals(ByteSeq(b, ColonMark(b, o, c), c, false), "content-type");
      if c != i {
        assert NamedBetween(b, o, i + 1, n);
      }
    }
    if Is(b[i], ':') && Equals(ByteSeq(b, ColonMark(b, o, i), i, false), "content-type") {
      assert NamedBetween(b, o, i, n);
    }
    if NamedBetween(b, o, i + 1, n) {
      var c :| i + 1 <= c < n && Is(b[c], ':') && Equals(ByteSeq(b, ColonMark(b, o, c), c, false), "content-type");
      assert NamedBetween(b, o, i, n);
    }
  }

  /**
   * Inside a line the header loop only moves its mark past each `:` and
   * remembers whether one of them closed a `content-type` name.
   */
  lemma {:induction false} HeaderLineRun(s: State, o: int, n: int, parsing: bool, x: Sniff, u: State)
    requires s.Valid() && 0 <= o <= s.offset <= n < s.end && s.mark == ColonMark(s.buf, o, s.offset)
    requires NoNewline(s.buf, s.offset, n) && u == s.(offset := n, mark := ColonMark(s.buf, o, n))
    ensures HeaderLoop(s, parsing, x) == HeaderLoop(u, parsing || NamedBetween(s.buf, o, s.offset, n), x)
    decreases n - s.offset
  {
    var b := s.buf;
    var i := s.offset;
    if i < n {
      NamedBetweenStep(b, o, i, n);
      var later := NamedBetween(b, o, i + 1, n);
      if Is(b[i], ':') {
        var t := s.(offset := i + 1, mark := i + 1);
        var p := parsing || NamesContentType(s);
        assert ColonMark(b, o, i + 1) == i + 1;
        HeaderColonStep(s, parsing, x, t);
        HeaderLineRun(t, o, n, p, x, u);
        assert p || later == parsing || NamedBetween(b, o, i, n);
      } else {
        var t := s.(offset := i + 1);
        assert ColonMark(b, o, i + 1) == ColonMark(b, o, i);
        HeaderPlainStep(s, parsing, x, t);
        HeaderLineRun(t, o, n, parsing, x, u);
        assert parsing || later == parsing || NamedBetween(b, o, i, n);
      }
    }
  }

  /**
   * One header line `[o, n)` read from its start: when one of its `:` closed
   * a `content-type` name, the text after the line's last `:` goes through
   * `ParseContentType`, and the result is what the next line starts from;
   * otherwise the sniff is untouched.  So content-type lines are applied in
   * order and the last one has the last word.
   */
  lemma {:induction false} HeaderLineSniff(s: State, n: int, x: Sniff)
    requires s.Valid() && s.mark == s.offset && s.offset <= n < s.end
    requires NoNewline(s.buf, s.offset, n) && Is(s.buf[n], '\n')
    ensures var b := s.buf;
            var m := ColonMark(b, s.offset, n);
            var y := if NamedBetween(b, s.offset, s.offset, n) then ParseContentType(StateOf(ByteSeq(b, m, n, false)), x) else x;
            var e := BodyStart(b, n, s.end);
            HeaderLoop(s, false, x) == if e >= 0 then (e, y) else HeaderLoop(s.(offset := n + 1, mark := n + 1), false, y)
  {
    var b := s.buf;
    var o := s.offset;
    var m := ColonMark(b, o, n);
    var named := NamedBetween(b, o, o, n);
    var u := s.(offset := n, mark := m);
    HeaderLineRun(s, o, n, false, x, u);
    HeaderNewlineStep(u, named, x, s.(offset := n + 1, mark := n + 1));
    assert LineSniff(u, named, x) == if named then ParseContentType(StateOf(ByteSeq(b, m, n, false)), x) else x;
  }

  /** What `parseResponse` sets: the status code, the body offset and the content type and charset. */
  datatype Response = Response(code: int, bodyOffset: int, sniff: Sniff)

  /**
   * `parseResponse` over `buf[off..off + len)`: the status code is the
   * integer after the first whitespace run (0 if it does not parse); when
   * the status line has no such run the previous code and offsets stay.
   * The body is sniffed when no content type was found or it starts with `text`.
   */
  function ParseResponse(buf: Bytes, off: int, len: int, code: int, x: Sniff): (r: Response)
    requires 0 <= off && 0 <= len && off + len <= |buf|
    ensures off <= r.bodyOffset <= off + len
    ensures WellFormed(x) ==> WellFormed(r.sniff)
    ensures !HasStatusGap(buf, off, len) ==> r == Response(code, off, x)
    ensures forall a, b :: StatusGap(buf, off, len, a, b) ==>
              var d := DigitRunEnd(buf, b, off + len);
              r.code == StatusValue(buf, b, d) && r.bodyOffset == BlankLineEnd(buf, d, off + len)
  {
    match StatusStart(buf, off, len)
    case None => Response(code, off, x)
    case Some(n) =>
      var r := ResponseAfterStatus(n, x);
      ResponseAtGap(buf, off, len, n, r);
      r
  }

  /** A response read on from the cursor at the status code's end carries that code and the body offset after the first blank line. */
  lemma {:induction false} ResponseAtGap(buf: Bytes, off: int, len: int, n: State, r: Response)
    requires 0 <= off && 0 <= len && off + len <= |buf| && n.Valid()
    requires forall a, b :: StatusGap(buf, off, len, a, b) ==> n == StatusState(buf, off, len, b, DigitRunEnd(buf, b, off + len))
    requires r.code == n.ival && r.bodyOffset == BlankLineEnd(n.buf, n.offset, n.end)
    ensures forall a, b :: StatusGap(buf, off, len, a, b) ==>
              var d := DigitRunEnd(buf, b, off + len);
              r.code == StatusValue(buf, b, d) && r.bodyOffset == BlankLineEnd(buf, d, off + len)
  {
  }

  /**
   * The cursor after the status code: skip to the first whitespace, over
   * it, then read the digits; nothing when either skip reaches the end.
   */
  function StatusStart(buf: Bytes, off: int, len: int): (r: Option<State>)
    requires 0 <= off && 0 <= len && off + len <= |buf|
    ensures r.None? <==> !HasStatusGap(buf, off, len)
    ensures r.Some? ==> r.value.Valid() && 0 <= r.value.mark <= r.value.offset
    ensures forall a, b :: StatusGap(buf, off, len, a, b) ==>
              r == Some(StatusState(buf, off, len, b, DigitRunEnd(buf, b, off + len)))
  {
    var s := NewState().Init(buf, off, off + len);
    var t := SkipToWhitespace(s);
    if !t.ok then
      StatusCursorAll(buf, off, len);
      None
    else
      var w := SkipWhitespace(t.st);
      if !w.ok then
        StatusCursorAll(buf, off, len);
        None
      else
        assert StatusGap(buf, off, len, t.st.offset, w.st.offset);
        StatusCursor(buf, off, len, t.st.offset, w.st.offset);
        StatusGapUnique(buf, off, len, t.st.offset, w.st.offset);
        Some(ParseInt(w.st).st)
  }

  /** The rest of `parseResponse` once the status code is read: the header loop, then the sniffing gate. */
  function ResponseAfterStatus(n: State, x: Sniff): (r: Response)
    requires n.Valid() && 0 <= n.mark <= n.offset
    ensures r.code == n.ival && r.bodyOffset == BlankLineEnd(n.buf, n.offset, n.end)
    ensures WellFormed(x) ==> WellFormed(r.sniff)
  {
    var h := HeaderLoop(n, false, x);
    var y := h.1;
    if y.contentType.None? || StartsWithText(y.contentType.value, "text") then
      Response(n.ival, h.0, SniffBody(n.(offset := h.0), y))
    else Response(n.ival, h.0, y)
  }

  /** `[a, b)` is the first whitespace run of the status line `buf[off..off + len)`, and a byte follows it. */
  predicate StatusGap(buf: Bytes, off: int, len: int, a: int, b: int)
    requires 0 <= off && 0 <= len && off + len <= |buf|
  {
    && off <= a < b < off + len
    && (forall k :: off <= k < a ==> !IsWhitespace(buf[k]))
    && (forall k :: a <= k < b ==> IsWhitespace(buf[k]))
    && !IsWhitespace(buf[b])
  }

  /** The status code read from the digits `[b, d)`: their value when there are some and it fits an `int`, else 0. */
  function StatusValue(buf: Bytes, b: int, d: int): int
    requires 0 <= b <= d <= |buf|
  {
    if d > b && DecimalValue(buf[b..d]) <= MaxInt32 then DecimalValue(buf[b..d]) else 0
  }

  /** The cursor `parseResponse` holds after reading the status code that ends at `d`. */
  function StatusState(buf: Bytes, off: int, len: int, b: int, d: int): State
    requires 0 <= off && 0 <= len && off + len <= |buf| && 0 <= b <= d <= |buf|
  {
    State(buf, d, off + len, false, 0, StatusValue(buf, b, d))
  }

  /** The status line has a whitespace run followed by more bytes. */
  ghost predicate HasStatusGap(buf: Bytes, off: int, len: int)
    requires 0 <= off && 0 <= len && off + len <= |buf|
  {
    exists a, b :: StatusGap(buf, off, len, a, b)
  }

  /** The scans before the header loop stop at the gap's ends and after the digits. */
  lemma {:induction false} StatusCursor(buf: Bytes, off: int, len: int, a: int, b: int)
    requires 0 <= off && 0 <= len && off + len <= |buf|
    requires StatusGap(buf, off, len, a, b)
    ensures var t := SkipToWhitespace(NewState().Init(buf, off, off + len));
            var w := SkipWhitespace(t.st);
            && t.ok && t.st.offset == a && w.ok && w.st.offset == b
            && ParseInt(w.st).st == StatusState(buf, off, len, b, DigitRunEnd(buf, b, off + len))
  {
    var t := SkipToWhitespace(NewState().Init(buf, off, off + len));
    assert t.st.buf == buf && IsWhitespace(buf[a]);
    var w := SkipWhitespace(t.st);
    assert !IsWhitespace(buf[b]);
  }

  /** The first whitespace run of a status line is unique. */
  lemma {:induction false} StatusGapUnique(buf: Bytes, off: int, len: int, a: int, b: int)
    requires 0 <= off && 0 <= len && off + len <= |buf|
    requires StatusGap(buf, off, len, a, b)
    ensures forall a2, b2 :: StatusGap(buf, off, len, a2, b2) ==> a2 == a && b2 == b
  {
    forall a2, b2 | StatusGap(buf, off, len, a2, b2) ensures a2 == a && b2 == b {
      assert IsWhitespace(buf[a]) && IsWhitespace(buf[a2]);
      assert !IsWhitespace(buf[b]) && !IsWhitespace(buf[b2]);
    }
  }

  /** Whenever the status line has a gap, both skips before the digits succeed. */
  lemma {:induction false} StatusCursorAll(buf: Bytes, off: int, len: int)
    requires 0 <= off && 0 <= len && off + len <= |buf|
    ensures var t := SkipToWhitespace(NewState().Init(buf, off, off + len));
            HasStatusGap(buf, off, len) ==> t.ok && SkipWhitespace(t.st).ok
  {
    if HasStatusGap(buf, off, len) {
      var a, b :| StatusGap(buf, off, len, a, b);
      StatusCursor(buf, off, len, a, b);
    }
  }

  /**
   * The body is sniffed, from the body offset and on top of what the
   * headers found, only when the headers gave no content type or a `text` one.
   */
  lemma {:induction false} ParseResponseSniffGate(buf: Bytes, off: int, len: int, code: int, x: Sniff, a: int, b: int)
    requires 0 <= off && 0 <= len && off + len <= |buf|
    requires StatusGap(buf, off, len, a, b)
    ensures var r := ParseResponse(buf, off, len, code, x);
            var st := StatusState(buf, off, len, b, DigitRunEnd(buf, b, off + len));
            var y := HeaderLoop(st, false, x).1;
            if y.contentType.None? || StartsWithText(y.contentType.value, "text")
            then r.sniff == SniffBody(st.(offset := r.bodyOffset), y)
            else r.sniff == y
  {
    StatusCursor(buf, off, len, a, b);
  }

  /**
   * A loaded record: the buffer, where the request and the response lie
   * (each in its own base array), the status code, the content type and
   * charset, the ANVL fields, the URL information and the cached file
   * extension.  `isModified` is set by `SetField`.
   */
  datatype Document = Document(
    buf: Bytes,
    requestBase: Bytes, requestOffset: int, requestLength: int,
    responseBase: Bytes, responseOffset: int, responseBodyOffset: int, responseLength: int,
    responseCode: int, sniff: Sniff, fields: Fields, url: UrlState,
    extension: Option<Bytes>, isModified: bool)
  {
    /** The request and response spans lie inside their arrays, and the fields form a map. */
    predicate Valid() {
      && 0 <= requestOffset && 0 <= requestLength && requestOffset + requestLength <= |requestBase|
      && 0 <= responseOffset && 0 <= responseLength && responseOffset + responseLength <= |responseBase|
      && Distinct(fields)
    }

    /** The request bytes `reconstructDocument` copies: none when the length is 0. */
    function Request(): Bytes
      requires Valid()
    {
      if requestLength > 0 then requestBase[requestOffset..requestOffset + requestLength] else []
    }

    function Response(): Bytes
      requires Valid()
    {
      responseBase[responseOffset..responseOffset + responseLength]
    }
  }

  /** The response of a document parsed in place, as `load` does for http records. */
  function WithResponse(d: Document): (r: Document)
    requires d.Valid()
    ensures r == d.(responseCode := r.responseCode, responseBodyOffset := r.responseBodyOffset, sniff := r.sniff)
    ensures d.responseOffset <= r.responseBodyOffset <= d.responseOffset + d.responseLength
    ensures WellFormed(d.sniff) ==> WellFormed(r.sniff)
  {
    var p := ParseResponse(d.responseBase, d.responseOffset, d.responseLength, d.responseCode, d.sniff);
    d.(responseCode := p.code, responseBodyOffset := p.bodyOffset, sniff := p.sniff)
  }

  /**
   * `load(docBytes, offset, length)`: the record is copied out of
   * `docBytes`, then loaded as `LoadRecord` describes.
   */
  function Load(doc: Bytes, offset: int, length: int): (r: Result<Document, LoadError>)
    ensures r.Success? <==> 0 <= offset && 16 <= length && offset + length <= |doc| && doc[offset..offset + 16] == Header
    ensures r.Failure? ==> (r.error == OutOfRange <==> offset < 0 || length < 0 || offset + length > |doc|)
    ensures r.Failure? ==> (r.error == Truncated <==> 0 <= offset && 0 <= length < 16 && offset + length <= |doc|)
    ensures r.Success? ==> r.value.Valid()
  {
    if length < 0 || offset < 0 || offset + length > |doc| then Failure(OutOfRange)
    else
      var b := doc[offset..offset + length];
      assert |b| >= 16 ==> b[..16] == doc[offset..offset + 16];
      LoadRecord(b)
  }

  /**
   * The copied record: its magic checked, its ANVL block parsed; for an
   * http URL the request runs to the first blank line, and the rest is the
   * response, whose status line and headers are then parsed.
   */
  function LoadRecord(b: Bytes): (r: Result<Document, LoadError>)
    ensures r.Success? <==> 16 <= |b| && b[..16] == Header
    ensures r.Failure? ==> r.error != OutOfRange && (r.error == Truncated <==> |b| < 16)
    ensures r.Success? ==> r.value.Valid()
  {
    if |b| < 16 then Failure(Truncated)
    else
      var h := CheckHeader(b);
      if h.Some? then Failure(h.value)
      else
        var a := ParseFields(b, AnvlStart());
        var http := a.url.isHttp;
        var reqEnd := if http then RequestEnd(b, a.pos) else a.pos;
        var d := Document(b, b, if http then a.pos else 0, if http then reqEnd - a.pos else 0,
                          b, reqEnd, reqEnd, |b| - reqEnd, 0, Sniff(None, None),
                          a.fields, a.url, None, false);
        if http then Success(WithResponse(d)) else Success(d)
  }

  /** The layout `load` leaves behind. */
  lemma {:induction false} LoadLayout(doc: Bytes, offset: int, length: int)
    requires Load(doc, offset, length).Success?
    ensures var d := Load(doc, offset, length).value;
            && d.buf == doc[offset..offset + length] && d.requestBase == d.buf && d.responseBase == d.buf
            && d.Valid() && !d.isModified && WellFormed(d.sniff)
            && d.responseOffset + d.responseLength == length
            && d.responseOffset <= d.responseBodyOffset <= length
            && (d.url.isHttp ==> d.requestOffset + d.requestLength == d.responseOffset
                                 && d.responseOffset == BlankLineEnd(d.buf, d.requestOffset, length))
            && (!d.url.isHttp ==> d.requestOffset == 0 && d.requestLength == 0)
  {
  }

  /** `setField`: stores the pair; the key `URL` (exactly) also updates the URL information. */
  function SetField(d: Document, key: Bytes, value: Bytes): (r: Document)
    ensures r == d.(fields := r.fields, url := r.url, isModified := true)
    ensures Distinct(d.fields) ==> Distinct(r.fields)
    ensures key == Ascii("URL") ==> r.url == SetUrl(d.url, value)
    ensures key != Ascii("URL") ==> r.url == d.url
  {
    PutDistinct(d.fields, key, value);
    d.(fields := Put(d.fields, key, value),
       url := if key == Ascii("URL") then SetUrl(d.url, value) else d.url,
       isModified := true)
  }

  /** `getField` after `setField`: the new value for that key, the old one for every other key. */
  lemma {:induction false} SetFieldGet(d: Document, key: Bytes, value: Bytes, j: Bytes)
    ensures Get(SetField(d, key, value).fields, j) == if j == key then Some(value) else Get(d.fields, j)
  {
    if j == key {
      GetPut(d.fields, key, value);
    } else {
      GetPutOther(d.fields, key, value, j);
    }
  }

  /** `getValidCharset`: the charset, or `ISO-8859-1` when there is none. */
  function ValidCharset(d: Document): Bytes {
    if d.sniff.charset.None? then Ascii("ISO-8859-1") else d.sniff.charset.value
  }

  /** The charset handed out is always upper-case. */
  lemma {:induction false} ValidCharsetIsUpper(d: Document)
    requires WellFormed(d.sniff)
    ensures NoLowerLetter(ValidCharset(d))
  {
    FixedNamesHaveNoLowerLetter();
  }

  /**
   * The path part of `getURLFileExtension`: the lower-cased text after the
   * last `.`, when that `.` comes after the last `/` and is not the last byte.
   */
  function PathExtension(path: Bytes): (r: Option<Bytes>)
    ensures r.Some? ==> |r.value| > 0 && Code('.') !in r.value && Code('/') !in r.value
  {
    var dot := LastIndexOf(path, Code('.'));
    var slash := LastIndexOf(path, Code('/'));
    if dot == -1 || dot < slash then None
    else
      var ext := Lower(path[dot + 1..]);
      assert forall k :: 0 <= k < |ext| ==> ext[k] == LowerCode(path[dot + 1 + k]);
      if |ext| == 0 then None else Some(ext)
  }

  /** A path ending in `.ext`, with `ext` free of `.` and `/`, has extension `ext` lower-cased. */
  lemma {:induction false} PathExtensionOfSuffix(p: Bytes, ext: Bytes)
    requires |ext| > 0 && Code('.') !in ext && Code('/') !in ext
    ensures PathExtension(p + [Code('.')] + ext) == Some(Lower(ext))
  {
    var path := p + [Code('.')] + ext;
    assert path[|p|] == Code('.');
    assert forall k :: |p| < k < |path| ==> path[k] == ext[k - |p| - 1];
    assert path[|p| + 1..] == ext;
  }

  /** A last segment without `.` has no extension. */
  lemma {:induction false} NoExtensionWithoutDot(p: Bytes, name: Bytes)
    requires Code('.') !in name
    ensures PathExtension(p + [Code('/')] + name) == None
  {
    var path := p + [Code('/')] + name;
    assert path[|p|] == Code('/');
    assert forall k :: |p| < k < |path| ==> path[k] == name[k - |p| - 1];
  }

  /**
   * `getURLFileExtension`, with `java.net.URL`'s path as the function
   * `pathOf` (None when the URL is malformed): the first answer is cached.
   */
  function UrlFileExtension(d: Document, pathOf: Bytes -> Option<Bytes>): (r: (Option<Bytes>, Document))
    ensures r.1 == d.(extension := r.1.extension)
    ensures d.extension.Some? ==> r.0 == d.extension && r.1 == d
    ensures r.0.Some? ==> r.1.extension == r.0
  {
    if d.extension.Some? then (d.extension, d)
    else if d.url.url.None? then (None, d)
    else
      match pathOf(d.url.url.value)
      case None => (None, d)
      case Some(path) =>
        var e := PathExtension(path);
        (e, d.(extension := e))
  }

  /** Asking twice gives the same answer. */
  lemma {:induction false} UrlFileExtensionStable(d: Document, pathOf: Bytes -> Option<Bytes>)
    ensures UrlFileExtension(UrlFileExtension(d, pathOf).1, pathOf).0 == UrlFileExtension(d, pathOf).0
  {
  }

  /** One ANVL line as `reconstructDocument` writes it: `key: value\r\n`. */
  function FieldLine(key: Bytes, value: Bytes): Bytes {
    key + Ascii(": ") + value + Ascii("\r\n")
  }

  function FieldLines(f: Fields): Bytes
    decreases |f|
  {
    if |f| == 0 then [] else FieldLine(f[0].0, f[0].1) + FieldLines(f[1..])
  }

  /** The serialised record: magic, field lines, blank line, request, response. */
  function Encode(f: Fields, request: Bytes, response: Bytes): Bytes {
    Header + FieldLines(f) + Ascii("\r\n") + request + response
  }

  /**
   * `reconstructDocument`: a modified document gets a fresh buffer laid out
   * as header, field lines, blank line, request, response, and is marked
   * unmodified; an unmodified one keeps its own buffer.  Nothing but the
   * buffer and the flag changes, so the request and response spans still
   * read the bytes that were copied.
   */
  function Reconstruct(d: Document): (r: Document)
    requires d.Valid()
    ensures r.Valid() && !r.isModified
    ensures r == d.(buf := r.buf, isModified := false)
    ensures !d.isModified ==> r == d
    ensures d.isModified ==>
              var q := 16 + |FieldLines(d.fields)| + 2;
              var p := q + |d.Request()|;
              && |r.buf| == p + |d.Response()|
              && r.buf[..16] == Header
              && r.buf[16..q] == FieldLines(d.fields) + Ascii("\r\n")
              && r.buf[q..p] == d.Request()
              && r.buf[p..] == d.Response()
  {
    if d.isModified then
      var lines := FieldLines(d.fields) + Ascii("\r\n");
      var b := Encode(d.fields, d.Request(), d.Response());
      assert b == Header + (lines + (d.Request() + d.Response()));
      assert |Header| == 16;
      d.(buf := b, isModified := false)
    else d
  }
}
