/**
 * The content-type and charset logic of `HDFSWriterDocument`:
 * `parseContentType`, `cleanCharset` and the body sniffing of
 * `findAndParseContentType`.  Java strings built from record bytes are
 * modelled as the ASCII bytes themselves.
 */
module ContentType {
  import opened Wrappers
  import opened Bytes
  import opened ByteScan

  /** The two document fields this logic writes: `charset` and `contentType`. */
  datatype Sniff = Sniff(charset: Option<Bytes>, contentType: Option<Bytes>)

  predicate StartsWithText(s: Bytes, p: string) {
    |s| >= |p| && s[..|p|] == Ascii(p)
  }

  predicate EndsWithText(s: Bytes, p: string) {
    |s| >= |p| && s[|s| - |p|..] == Ascii(p)
  }

  /** A byte `parseContentType` keeps in the media type: letter, digit, `/`, `-`, `+` or `.`. */
  predicate IsTypeByte(b: Byte) {
    IsLetterOrDigit(b) || Is(b, '/') || Is(b, '-') || Is(b, '+') || Is(b, '.')
  }

  /** A content type as `parseContentType` leaves it: lower-case type bytes holding a `/`. */
  predicate IsMediaType(t: Bytes) {
    && (forall i :: 0 <= i < |t| ==> IsTypeByte(t[i]) && !IsUpperLetter(t[i]))
    && Code('/') in t
  }

  /** A byte `cleanCharset` keeps: letter, digit or `-`. */
  predicate IsCharsetByte(b: Byte) {
    IsLetterOrDigit(b) || Is(b, '-')
  }

  predicate NoLowerLetter(s: Bytes) {
    forall i :: 0 <= i < |s| ==> !IsLowerLetter(s[i])
  }

  /** What the rest of the model relies on: the content type is a media type, the charset has no lower-case letter. */
  predicate WellFormed(x: Sniff) {
    && (x.contentType.Some? ==> IsMediaType(x.contentType.value))
    && (x.charset.Some? ==> NoLowerLetter(x.charset.value))
  }

  /** The end of the leading run of bytes satisfying `IsCharsetByte`. */
  function CharsetRunEnd(s: Bytes, i: nat): (n: nat)
    requires i <= |s|
    ensures i <= n <= |s|
    ensures forall k :: i <= k < n ==> IsCharsetByte(s[k])
    ensures n < |s| ==> !IsCharsetByte(s[n])
    decreases |s| - i
  {
    if i < |s| && IsCharsetByte(s[i]) then CharsetRunEnd(s, i + 1) else i
  }

  /**
   * The part of `cleanCharset` after the quotes: truncate to the leading run
   * of letters, digits and `-`, then map `...8859-1` (without an `ISO-`
   * prefix) to `ISO-8859-1` and `...UTF8` to `UTF-8`.
   */
  function Normalize(c: Bytes): (r: Bytes)
    ensures forall i :: 0 <= i < |r| ==> IsCharsetByte(r[i])
    ensures var t := c[..CharsetRunEnd(c, 0)];
            && (!StartsWithText(t, "ISO-") && EndsWithText(t, "8859-1") ==> r == Ascii("ISO-8859-1"))
            && (!(!StartsWithText(t, "ISO-") && EndsWithText(t, "8859-1")) && EndsWithText(t, "UTF8") ==> r == Ascii("UTF-8"))
            && (!(!StartsWithText(t, "ISO-") && EndsWithText(t, "8859-1")) && !EndsWithText(t, "UTF8") ==> r == t)
  {
    UnderscoreBranchUnreachable(c);
    var t := c[..CharsetRunEnd(c, 0)];
    if !StartsWithText(t, "ISO-") && (EndsWithText(t, "8859-1") || EndsWithText(t, "8859_1")) then
      Ascii("ISO-8859-1")
    else if EndsWithText(t, "UTF8") then
      Ascii("UTF-8")
    else
      t
  }

  /** The `8859_1` test of `cleanCharset` never decides anything: `_` is cut off first. */
  lemma {:induction false} UnderscoreBranchUnreachable(c: Bytes)
    ensures !EndsWithText(c[..CharsetRunEnd(c, 0)], "8859_1")
  {
    var t := c[..CharsetRunEnd(c, 0)];
    if EndsWithText(t, "8859_1") {
      assert t[|t| - 2] == Ascii("8859_1")[4];
    }
  }

  /** Quote stripping as written: a lone `"` both starts and ends the string, and `substring(1, 0)` throws. */
  datatype StringError = StringIndexOutOfBounds

  function CleanCharsetAsWritten(c: Bytes): (r: Result<Bytes, StringError>)
    ensures r.Failure? <==> c == [Code('"')]
    ensures r.Success? ==> r.value == CleanCharset(c)
  {
    if |c| >= 1 && c[0] == Code('"') && c[|c| - 1] == Code('"') then
      if |c| < 2 then Failure(StringIndexOutOfBounds)
      else Success(Normalize(c[1..|c| - 1]))
    else
      Success(Normalize(c))
  }

  /** The input that makes the code as written throw. */
  lemma {:induction false} LoneQuoteThrowsAsWritten()
    ensures CleanCharsetAsWritten([34]).Failure?
  {
  }

  /** `cleanCharset`, with quotes stripped only when there are two of them. */
  function CleanCharset(c: Bytes): (r: Bytes)
    ensures forall i :: 0 <= i < |r| ==> IsCharsetByte(r[i])
  {
    if |c| >= 2 && c[0] == Code('"') && c[|c| - 1] == Code('"') then
      Normalize(c[1..|c| - 1])
    else
      Normalize(c)
  }

  lemma {:induction false} RunOfCharsetBytes(c: Bytes)
    requires forall i :: 0 <= i < |c| ==> IsCharsetByte(c[i])
    ensures CharsetRunEnd(c, 0) == |c| && c[..CharsetRunEnd(c, 0)] == c
  {
  }

  /** A string of charset bytes has no quotes to strip. */
  lemma {:induction false} CleanOfCharsetBytes(r: Bytes)
    requires forall i :: 0 <= i < |r| ==> IsCharsetByte(r[i])
    ensures CleanCharset(r) == Normalize(r)
  {
    if |r| >= 2 {
      assert IsCharsetByte(r[0]);
      assert !IsCharsetByte(Code('"'));
    }
  }

  /** `ISO-8859-1` normalises to itself: it carries the `ISO-` prefix and does not end in `UTF8`. */
  lemma {:induction false} IsoLatinFixed()
    ensures Normalize(Ascii("ISO-8859-1")) == Ascii("ISO-8859-1")
  {
    var r := Ascii("ISO-8859-1");
    RunOfCharsetBytes(r);
    assert StartsWithText(r, "ISO-");
    assert !EndsWithText(r, "UTF8") by { assert r[|r| - 4..][1] != Ascii("UTF8")[1]; }
  }

  /** `UTF-8` normalises to itself: it ends neither in `8859-1` nor in `UTF8`. */
  lemma {:induction false} Utf8Fixed()
    ensures Normalize(Ascii("UTF-8")) == Ascii("UTF-8")
  {
    var r := Ascii("UTF-8");
    RunOfCharsetBytes(r);
    assert !EndsWithText(r, "8859-1");
    assert !EndsWithText(r, "UTF8") by { assert r[|r| - 4..][2] != Ascii("UTF8")[2]; }
  }

  /** Cleaning a cleaned charset changes nothing. */
  lemma {:induction false} CleanCharsetIdempotent(c: Bytes)
    ensures CleanCharset(CleanCharset(c)) == CleanCharset(c)
  {
    var r := CleanCharset(c);
    CleanOfCharsetBytes(r);
    var u := if |c| >= 2 && c[0] == Code('"') && c[|c| - 1] == Code('"') then c[1..|c| - 1] else c;
    assert r == Normalize(u);
    var t := u[..CharsetRunEnd(u, 0)];
    if !StartsWithText(t, "ISO-") && EndsWithText(t, "8859-1") {
      IsoLatinFixed();
    } else if EndsWithText(t, "UTF8") {
      Utf8Fixed();
    } else {
      RunOfCharsetBytes(r);
    }
  }

  /** `cleanCharset` never throws after the correction. */
  lemma {:induction false} CleanCharsetOfLoneQuote()
    ensures CleanCharset([34]) == []
  {
    assert !IsCharsetByte(34);
    assert CharsetRunEnd([34], 0) == 0;
  }

  /** A value in double quotes loses them before it is normalised. */
  lemma {:induction false} CleanCharsetStripsQuotes(s: Bytes)
    ensures CleanCharset([Code('"')] + s + [Code('"')]) == Normalize(s)
  {
    var c := [Code('"')] + s + [Code('"')];
    assert c[1..|c| - 1] == s;
  }

  /** Without a quote at both ends nothing is stripped. */
  lemma {:induction false} CleanCharsetUnquoted(c: Bytes)
    requires |c| < 2 || c[0] != Code('"') || c[|c| - 1] != Code('"')
    ensures CleanCharset(c) == Normalize(c)
  {
  }

  /** The end of the media-type token: the first byte outside `IsTypeByte`. */
  function TypeTokenEnd(buf: Bytes, i: int, end: int): (j: int)
    requires 0 <= i <= end <= |buf|
    ensures i <= j <= end
    ensures forall k :: i <= k < j ==> IsTypeByte(buf[k])
    ensures j < end ==> !IsTypeByte(buf[j])
    decreases end - i
  {
    if i < end && IsTypeByte(buf[i]) then TypeTokenEnd(buf, i + 1, end) else i
  }

  /**
   * One `;`-separated parameter, already lower-cased: when its trimmed form
   * starts with `charset` and has a `=` after those seven bytes, the charset
   * becomes the cleaned, upper-cased, trimmed rest.
   */
  function ParamCharset(seg: Bytes, cur: Option<Bytes>): (r: Option<Bytes>)
    ensures r != cur ==> r.Some? && forall i :: 0 <= i < |r.value| ==> IsCharsetByte(r.value[i]) && !IsLowerLetter(r.value[i])
  {
    var t := Trim(seg);
    if StartsWithText(t, "charset") then
      var eq := IndexOf(t[7..], Code('='));
      if eq >= 0 then
        var c := CleanCharset(Upper(Trim(t[7 + eq + 1..])));
        assert forall i :: 0 <= i < |c| ==> !IsLowerLetter(c[i]) by {
          CleanKeepsUpper(Upper(Trim(t[7 + eq + 1..])));
        }
        Some(c)
      else cur
    else cur
  }

  /** Cleaning never introduces a lower-case letter. */
  lemma {:induction false} CleanKeepsUpper(c: Bytes)
    requires forall i :: 0 <= i < |c| ==> !IsLowerLetter(c[i])
    ensures forall i :: 0 <= i < |CleanCharset(c)| ==> !IsLowerLetter(CleanCharset(c)[i])
  {
    var c' := if |c| >= 2 && c[0] == Code('"') && c[|c| - 1] == Code('"') then c[1..|c| - 1] else c;
    var t := c'[..CharsetRunEnd(c', 0)];
    assert NoLowerLetter(t) by {
      forall i | 0 <= i < |t| ensures !IsLowerLetter(t[i]) {
        assert t[i] == c'[i];
      }
    }
    FixedNamesHaveNoLowerLetter();
  }

  /** The two names `cleanCharset` substitutes are upper-case. */
  lemma {:induction false} FixedNamesHaveNoLowerLetter()
    ensures NoLowerLetter(Ascii("ISO-8859-1")) && NoLowerLetter(Ascii("UTF-8"))
  {
    var iso := Ascii("ISO-8859-1");
    forall i | 0 <= i < |iso| ensures !IsLowerLetter(iso[i]) {
      assert iso[i] == Code("ISO-8859-1"[i]);
    }
    var utf := Ascii("UTF-8");
    forall i | 0 <= i < |utf| ensures !IsLowerLetter(utf[i]) {
      assert utf[i] == Code("UTF-8"[i]);
    }
  }

  /** Whether a parameter sets the charset, whatever was there before. */
  predicate SetsCharset(seg: Bytes) {
    ParamCharset(seg, None).Some?
  }

  /** The `StringTokenizer` loop over `;`: every parameter in turn, so the last `charset=` wins. */
  function ParamsCharset(s: Bytes, cur: Option<Bytes>): (r: Option<Bytes>)
    decreases |s|
  {
    var i := IndexOf(s, Code(';'));
    if i < 0 then ParamCharset(s, cur)
    else ParamsCharset(s[i + 1..], ParamCharset(s[..i], cur))
  }

  lemma {:induction false} ParamCharsetSets(seg: Bytes, cur: Option<Bytes>)
    requires SetsCharset(seg)
    ensures ParamCharset(seg, cur) == ParamCharset(seg, None)
  {
  }

  lemma {:induction false} ParamCharsetKeeps(seg: Bytes, cur: Option<Bytes>)
    requires !SetsCharset(seg)
    ensures ParamCharset(seg, cur) == cur
  {
  }

  /** Parameters are read left to right: the parameters after a `;` act on the result of those before it. */
  lemma {:induction false} ParamsCharsetSplit(a: Bytes, b: Bytes, cur: Option<Bytes>)
    requires Code(';') !in a
    ensures ParamsCharset(a + [Code(';')] + b, cur) == ParamsCharset(b, ParamCharset(a, cur))
  {
    var s := a + [Code(';')] + b;
    var i := IndexOf(s, Code(';'));
    assert s[|a|] == Code(';');
    assert i == |a| by {
      assert forall k :: 0 <= k < |a| ==> s[k] == a[k];
    }
    assert s[..i] == a;
    assert s[i + 1..] == b;
  }

  /** When the text after the last `;` sets a charset, its value is the result, whatever came before. */
  lemma {:induction false} LastCharsetWins(s: Bytes, cur: Option<Bytes>, other: Option<Bytes>)
    requires SetsCharset(LastParam(s))
    ensures ParamsCharset(s, cur) == ParamsCharset(s, other)
    ensures ParamsCharset(s, cur) == ParamCharset(LastParam(s), None)
    decreases |s|
  {
    var i := IndexOf(s, Code(';'));
    if i < 0 {
      ParamCharsetSets(s, cur);
      ParamCharsetSets(s, other);
    } else {
      LastParamOfSuffix(s, i, s[i + 1..]);
      LastCharsetWins(s[i + 1..], ParamCharset(s[..i], cur), ParamCharset(s[..i], other));
    }
  }

  /** The text after the last `;`. */
  function LastParam(s: Bytes): (r: Bytes)
    ensures |r| <= |s|
    decreases |s|
  {
    var i := IndexOf(s, Code(';'));
    if i < 0 then s else LastParam(s[i + 1..])
  }

  lemma {:induction false} LastParamOfSuffix(s: Bytes, i: int, rest: Bytes)
    requires i == IndexOf(s, Code(';')) && i >= 0 && rest == s[i + 1..]
    ensures LastParam(s) == LastParam(rest)
  {
  }

  /** The type token `[start, e)` lower-cased, kept only when it holds a `/`. */
  function MediaType(buf: Bytes, start: int, e: int): (r: Option<Bytes>)
    requires 0 <= start <= e <= |buf| && forall k :: start <= k < e ==> IsTypeByte(buf[k])
    ensures r.Some? ==> IsMediaType(r.value)
  {
    var token := Lower(buf[start..e]);
    assert forall i :: 0 <= i < |token| ==> IsTypeByte(token[i]) && !IsUpperLetter(token[i]) by {
      forall i | 0 <= i < |token| ensures IsTypeByte(token[i]) && !IsUpperLetter(token[i]) {
        assert IsTypeByte(buf[start + i]);
      }
    }
    if Code('/') in token then Some(token) else None
  }

  /**
   * Where `parseContentType` looks for the media type: after whitespace, an
   * optional `"` and whitespace; `end` when nothing else is left.
   */
  function TypeStart(t: State): (a: int)
    requires t.Valid()
    ensures t.offset <= a <= t.end
    ensures forall k :: t.offset <= k < a ==> IsWhitespace(t.buf[k]) || Is(t.buf[k], '"')
  {
    var w := SkipWhitespace(t);
    if !w.ok then t.end
    else
      var s1 := if Is(w.st.buf[w.st.offset], '"') then w.st.(offset := w.st.offset + 1) else w.st;
      SkipWhitespace(s1).st.offset
  }

  /**
   * `parseContentType(bss)`: the media type is the run of type bytes at
   * `TypeStart`, lower-cased, kept only when it holds a `/`; the charset
   * comes from the `;` parameters that follow.
   */
  function ParseContentType(t: State, x: Sniff): (r: Sniff)
    requires t.Valid()
    ensures WellFormed(x) ==> WellFormed(r)
    ensures r.contentType != x.contentType ==> r.contentType.None? || IsMediaType(r.contentType.value)
  {
    var a := TypeStart(t);
    if a == t.end then x
    else
      var e := TypeTokenEnd(t.buf, a, t.end);
      var y := x.(contentType := MediaType(t.buf, a, e));
      var f := FindChar(t.(offset := e), ';');
      if !f.ok then y
      else
        var params := Lower(t.buf[f.st.offset..t.end]);
        ParamsCharsetNoLower(params, x.charset);
        y.(charset := ParamsCharset(params, x.charset))
  }

  /**
   * The charset `parseContentType` leaves: when the view holds a `;`, the
   * parameter list from the first one, lower-cased, decides it; otherwise
   * the charset is untouched.
   */
  lemma {:induction false} ParseContentTypeCharset(t: State, x: Sniff)
    requires t.Valid()
    ensures var p := CharIndex(t.buf, t.offset, t.end, ';');
            ParseContentType(t, x).charset ==
              if p < t.end then ParamsCharset(Lower(t.buf[p..t.end]), x.charset) else x.charset
  {
    var a := TypeStart(t);
    if a == t.end {
      CharIndexFrom(t.buf, t.offset, t.end, t.end, ';');
    } else {
      var e := TypeTokenEnd(t.buf, a, t.end);
      CharIndexFrom(t.buf, t.offset, e, t.end, ';');
    }
  }

  /**
   * A value with a media type whose last parameter sets the charset
   * replaces both fields whatever was found before: of several such values
   * parsed in turn, the last decides.
   */
  lemma {:induction false} ParseContentTypeReplaces(t: State, x: Sniff, z: Sniff)
    requires t.Valid() && TypeStart(t) < t.end
    requires var p := CharIndex(t.buf, t.offset, t.end, ';');
             p < t.end && SetsCharset(LastParam(Lower(t.buf[p..t.end])))
    ensures ParseContentType(t, x) == ParseContentType(t, z)
  {
    var p := CharIndex(t.buf, t.offset, t.end, ';');
    ParseContentTypeCharset(t, x);
    ParseContentTypeCharset(t, z);
    LastCharsetWins(Lower(t.buf[p..t.end]), x.charset, z.charset);
  }

  /**
   * The content type `parseContentType` leaves, when it changes: the media
   * type of the maximal run of type bytes after leading whitespace and quotes.
   */
  lemma {:induction false} ParseContentTypeMedia(t: State, x: Sniff)
    requires t.Valid()
    ensures var r := ParseContentType(t, x);
            r.contentType != x.contentType ==>
              exists a, e :: TypeRun(t, a, e) && r.contentType == MediaType(t.buf, a, e)
  {
    var a := TypeStart(t);
    if a < t.end {
      var e := TypeTokenEnd(t.buf, a, t.end);
      assert TypeRun(t, a, e);
    }
  }

  /**
   * `[a, e)` is the maximal run of type bytes that starts after whitespace
   * and quotes only.
   */
  predicate TypeRun(t: State, a: int, e: int)
    requires t.Valid()
  {
    && t.offset <= a <= e <= t.end
    && (forall k :: t.offset <= k < a ==> IsWhitespace(t.buf[k]) || Is(t.buf[k], '"'))
    && (forall k :: a <= k < e ==> IsTypeByte(t.buf[k]))
    && (e < t.end ==> !IsTypeByte(t.buf[e]))
  }

  /** A parameter list never makes the charset hold a lower-case letter. */
  lemma {:induction false} ParamsCharsetNoLower(s: Bytes, cur: Option<Bytes>)
    ensures (cur.Some? ==> NoLowerLetter(cur.value)) ==>
            var r := ParamsCharset(s, cur); r.Some? ==> NoLowerLetter(r.value)
    decreases |s|
  {
    var i := IndexOf(s, Code(';'));
    if i >= 0 {
      var next := ParamCharset(s[..i], cur);
      ParamsCharsetStep(s, i, cur);
      ParamsCharsetNoLower(s[i + 1..], next);
    } else {
      ParamsCharsetLast(s, cur);
    }
  }

  /** Where a `;` is left, the loop takes the parameter before it and goes on with the rest. */
  lemma {:induction false} ParamsCharsetStep(s: Bytes, i: int, cur: Option<Bytes>)
    requires i == IndexOf(s, Code(';')) && i >= 0
    ensures ParamsCharset(s, cur) == ParamsCharset(s[i + 1..], ParamCharset(s[..i], cur))
  {
  }

  /** Where no `;` is left, the whole text is the last parameter. */
  lemma {:induction false} ParamsCharsetLast(s: Bytes, cur: Option<Bytes>)
    requires IndexOf(s, Code(';')) < 0
    ensures ParamsCharset(s, cur) == ParamCharset(s, cur)
  {
  }

  /** The `;`-separated parameters of `s` in order, empty ones included. */
  function Params(s: Bytes): (r: seq<Bytes>)
    ensures |r| >= 1
    ensures forall k :: 0 <= k < |r| ==> Code(';') !in r[k]
    decreases |s|
  {
    var i := IndexOf(s, Code(';'));
    if i < 0 then [s] else [s[..i]] + Params(s[i + 1..])
  }

  /** No parameter sets the charset. */
  predicate NoneSets(ps: seq<Bytes>) {
    forall k :: 0 <= k < |ps| ==> !SetsCharset(ps[k])
  }

  /** Parameter `k` sets the charset and none after it does. */
  predicate LastSetter(ps: seq<Bytes>, k: int) {
    0 <= k < |ps| && SetsCharset(ps[k]) && forall l :: k < l < |ps| ==> !SetsCharset(ps[l])
  }

  /** What each parameter sets on its own: `ParamCharset(seg, None)` for every one. */
  function Settings(ps: seq<Bytes>): (r: seq<Option<Bytes>>)
    ensures |r| == |ps|
    ensures forall k :: 0 <= k < |ps| ==> r[k] == ParamCharset(ps[k], None)
  {
    seq(|ps|, k requires 0 <= k < |ps| => ParamCharset(ps[k], None))
  }

  lemma {:induction false} SettingsCons(a: Bytes, ps: seq<Bytes>)
    ensures Settings([a] + ps) == [ParamCharset(a, None)] + Settings(ps)
  {
    var l, r := Settings([a] + ps), [ParamCharset(a, None)] + Settings(ps);
    forall k | 0 <= k < |l| ensures l[k] == r[k] {
      if k > 0 {
        assert ([a] + ps)[k] == ps[k - 1];
      }
    }
  }

  /** The last value that is present, or `cur` when none is. */
  function LastSome(vs: seq<Option<Bytes>>, cur: Option<Bytes>): Option<Bytes>
    decreases |vs|
  {
    if |vs| == 0 then cur
    else if vs[|vs| - 1].Some? then vs[|vs| - 1]
    else LastSome(vs[..|vs| - 1], cur)
  }

  /** A value in front acts only as the starting point. */
  lemma {:induction false} LastSomeCons(v: Option<Bytes>, vs: seq<Option<Bytes>>, cur: Option<Bytes>)
    ensures LastSome([v] + vs, cur) == LastSome(vs, if v.Some? then v else cur)
    decreases |vs|
  {
    if |vs| > 0 {
      var init := vs[..|vs| - 1];
      assert ([v] + vs)[..|vs|] == [v] + init;
      LastSomeCons(v, init, cur);
    }
  }

  /** With no value present, `LastSome` is the starting point. */
  lemma {:induction false} LastSomeNone(vs: seq<Option<Bytes>>, cur: Option<Bytes>)
    requires forall k :: 0 <= k < |vs| ==> vs[k].None?
    ensures LastSome(vs, cur) == cur
    decreases |vs|
  {
    if |vs| > 0 {
      var init := vs[..|vs| - 1];
      assert forall k :: 0 <= k < |init| ==> init[k] == vs[k];
      LastSomeNone(init, cur);
    }
  }

  /** `LastSome` is the value at the last present position. */
  lemma {:induction false} LastSomeAt(vs: seq<Option<Bytes>>, cur: Option<Bytes>, k: int)
    requires 0 <= k < |vs| && vs[k].Some? && forall l :: k < l < |vs| ==> vs[l].None?
    ensures LastSome(vs, cur) == vs[k]
    decreases |vs|
  {
    if k < |vs| - 1 {
      var init := vs[..|vs| - 1];
      assert vs[|vs| - 1].None?;
      assert forall l :: k <= l < |init| ==> init[l] == vs[l];
      LastSomeAt(init, cur, k);
    }
  }

  /** The parameter loop leaves the last value some parameter sets. */
  lemma {:induction false} ParamsCharsetLastSome(s: Bytes, cur: Option<Bytes>)
    ensures ParamsCharset(s, cur) == LastSome(Settings(Params(s)), cur)
    decreases |s|
  {
    var i := IndexOf(s, Code(';'));
    if i < 0 {
      ParamsCharsetLast(s, cur);
      assert Params(s) == [s];
      if SetsCharset(s) { ParamCharsetSets(s, cur); } else { ParamCharsetKeeps(s, cur); }
    } else {
      var a, rest := s[..i], s[i + 1..];
      ParamsCharsetStep(s, i, cur);
      ParamsCharsetLastSome(rest, ParamCharset(a, cur));
      assert Params(s) == [a] + Params(rest);
      SettingsCons(a, Params(rest));
      LastSomeCons(ParamCharset(a, None), Settings(Params(rest)), cur);
      if SetsCharset(a) { ParamCharsetSets(a, cur); } else { ParamCharsetKeeps(a, cur); }
    }
  }

  /**
   * The charset a parameter list leaves: the value of the last parameter
   * that sets one, or the charset from before when none does.
   */
  lemma {:induction false} ParamsCharsetIsLast(s: Bytes, cur: Option<Bytes>)
    ensures NoneSets(Params(s)) ==> ParamsCharset(s, cur) == cur
    ensures forall k :: LastSetter(Params(s), k) ==> ParamsCharset(s, cur) == ParamCharset(Params(s)[k], None)
  {
    var ps := Params(s);
    var vs := Settings(ps);
    ParamsCharsetLastSome(s, cur);
    if NoneSets(ps) {
      LastSomeNone(vs, cur);
    }
    forall k | LastSetter(ps, k)
      ensures ParamsCharset(s, cur) == ParamCharset(ps[k], None)
    {
      LastSomeAt(vs, cur, k);
    }
  }

  /** `charset=utf-8` on its own sets `UTF-8`. */
  lemma {:induction false} CharsetParamUtf8()
    ensures ParamCharset(Ascii("charset=utf-8"), None) == Some(Ascii("UTF-8"))
  {
    var seg: Bytes := [99, 104, 97, 114, 115, 101, 116, 61, 117, 116, 102, 45, 56];
    assert Ascii("charset=utf-8") == seg;
    Utf8ParamValue(seg);
    Utf8Cleaned();
  }

  /** The parameter `charset=utf-8` takes its value from the upper-cased `utf-8`. */
  lemma {:induction false} Utf8ParamValue(seg: Bytes)
    requires seg == [99, 104, 97, 114, 115, 101, 116, 61, 117, 116, 102, 45, 56]
    ensures ParamCharset(seg, None) == Some(CleanCharset(Upper([117, 116, 102, 45, 56])))
  {
    TrimUnchanged(seg);
    assert seg[..7] == Ascii("charset");
    assert seg[7..][0] == Code('=');
    var v := seg[8..];
    assert v == [117, 116, 102, 45, 56];
    TrimUnchanged(v);
  }

  /** Upper-cased and cleaned, `utf-8` is `UTF-8`. */
  lemma {:induction false} Utf8Cleaned()
    ensures CleanCharset(Upper([117, 116, 102, 45, 56])) == Ascii("UTF-8")
  {
    var u := Upper([117, 116, 102, 45, 56]);
    assert u == [85, 84, 70, 45, 56];
    assert Ascii("UTF-8") == u;
    CleanCharsetUnquoted(u);
    Utf8Fixed();
  }

  /** What a scan for one part of a declaration or tag finds: where it stands, a state to resume from, or nothing. */
  datatype Span = Found(i: int, j: int) | Resume(st: State) | Fail

  /** The bytes `[a, z)` are all whitespace. */
  predicate Blank(b: Bytes, a: int, z: int)
    requires 0 <= a <= z <= |b|
  {
    forall k :: a <= k < z ==> IsWhitespace(b[k])
  }

  /** `[i, j)` is a double-quoted string: a `"` before it, a `"` at `j`, none in between. */
  predicate Quoted(b: Bytes, i: int, j: int)
    requires 0 < i <= j < |b|
  {
    Is(b[i - 1], '"') && Is(b[j], '"') && forall k :: i <= k < j ==> !Is(b[k], '"')
  }

  /** `[i, j)` is the first double-quoted string at or after `a`. */
  predicate FirstQuoted(b: Bytes, a: int, i: int, j: int)
    requires 0 <= a < i <= j < |b|
  {
    (forall k :: a <= k < i - 1 ==> !Is(b[k], '"')) && Quoted(b, i, j)
  }

  /** Where the first double-quoted string from `s.offset` lies. */
  function QuotedValue(s: State): (r: Span)
    requires s.Valid()
    ensures !r.Resume?
    ensures r.Found? ==> s.offset < r.i <= r.j < s.end && FirstQuoted(s.buf, s.offset, r.i, r.j)
  {
    var q := FindSkipChar(s, '"');
    if !q.ok then Fail
    else
      var c := FindChar(q.st.SetMark(), '"');
      if !c.ok then Fail
      else Found(q.st.offset, c.st.offset)
  }

  /** The first `?>` at `d` from `v.offset`, and the first `encoding` at `g`, wholly before it. */
  predicate DeclEncodingAt(v: ByteSeq, d: int, g: int)
    requires v.Valid()
  {
    && v.offset <= g && g + 8 <= d && d + 2 <= v.end
    && MatchAt(v.buf, d, "?>", v.caseSensitive)
    && (forall k :: v.offset <= k < d ==> !MatchAt(v.buf, k, "?>", v.caseSensitive))
    && MatchAt(v.buf, g, "encoding", v.caseSensitive)
    && (forall k :: v.offset <= k < g ==> !MatchAt(v.buf, k, "encoding", v.caseSensitive))
  }

  /** Where the declaration ends and where `encoding` stands in it, from just past `<?xml`. */
  function EncodingName(s: State): (r: Span)
    requires s.Valid()
    ensures !r.Resume?
    ensures r.Found? ==> DeclEncodingAt(s.View(), r.i, r.j)
  {
    var e := FindPattern(s.SetMark(), "?>");
    if !e.ok then Fail
    else
      var decl := e.st.(end := e.st.offset).Flip();
      var g := FindSkipPattern(decl, "encoding");
      if !g.ok then Fail
      else Found(e.st.offset, g.st.offset - 8)
  }

  /**
   * An XML declaration from `v.offset`: up to the first `?>` at `d`, the
   * first `encoding` at `g`, then the first double-quoted string `[i, j)`.
   */
  predicate XmlDeclAt(v: ByteSeq, d: int, g: int, i: int, j: int)
    requires v.Valid()
  {
    && DeclEncodingAt(v, d, g)
    && g + 8 < i <= j < d
    && FirstQuoted(v.buf, g + 8, i, j)
  }

  /** Where the quoted `encoding` value of an XML declaration lies, from just past `<?xml`. */
  function EncodingValue(s: State): (r: Span)
    requires s.Valid()
    ensures !r.Resume?
    ensures r.Found? ==> exists d, g :: XmlDeclAt(s.View(), d, g, r.i, r.j)
  {
    match EncodingName(s)
    case Found(d, g) =>
      (match QuotedValue(s.(offset := g + 8, end := d))
       case Found(i, j) =>
         assert XmlDeclAt(s.View(), d, g, i, j);
         Found(i, j)
       case _ => Fail)
    case _ => Fail
  }

  /** The charset given by an XML declaration: the quoted `encoding` value, upper-cased. */
  function XmlEncoding(s: State, x: Sniff): (r: Sniff)
    requires s.Valid()
    ensures r.contentType == x.contentType
    ensures r.charset != x.charset ==> r.charset.Some? && NoLowerLetter(r.charset.value)
  {
    match EncodingValue(s)
    case Found(i, j) =>
      var v := Upper(s.buf[i..j]);
      assert NoLowerLetter(v);
      x.(charset := Some(v))
    case _ => x
  }

  /**
   * The declared encoding is upper-cased and otherwise kept as written (no
   * cleaning): `encoding="utf 8"` gives `UTF 8`.  The content type never changes.
   */
  lemma {:induction false} XmlEncodingValue(s: State, x: Sniff)
    requires s.Valid()
    ensures XmlEncoding(s, x).contentType == x.contentType
    ensures XmlEncoding(s, x) == x ||
            exists d, g, i, j :: XmlDeclAt(s.View(), d, g, i, j) && XmlEncoding(s, x).charset == Some(Upper(s.buf[i..j]))
  {
    match EncodingValue(s)
    case Found(i, j) =>
      var d, g :| XmlDeclAt(s.View(), d, g, i, j);
    case _ =>
  }

  /** A first double-quoted string is what `QuotedValue` finds. */
  lemma QuotedValueAt(s: State, i: int, j: int)
    requires s.Valid() && s.offset < i <= j < s.end && FirstQuoted(s.buf, s.offset, i, j)
    ensures QuotedValue(s) == Found(i, j)
  {
    CharIndexAt(s.buf, s.offset, s.end, '"', i - 1);
    FindSkipCharAt(s, '"');
    var t := s.(offset := i).SetMark();
    CharIndexAt(s.buf, i, s.end, '"', j);
    assert FindChar(t, '"').st.offset == j;
  }

  /** A declaration's first `?>` and first `encoding` are what `EncodingName` finds. */
  lemma EncodingNameAt(s: State, d: int, g: int)
    requires s.Valid() && DeclEncodingAt(s.View(), d, g)
    ensures EncodingName(s) == Found(d, g)
  {
    FindPatternAt(s.SetMark(), "?>", d);
    var decl := s.SetMark().(offset := d).(end := d).Flip();
    assert decl == s.(end := d, mark := d);
    FindSkipPatternAt(decl, "encoding", g);
  }

  /**
   * The converse of `XmlEncodingValue`: when the text from the cursor is an
   * XML declaration whose `encoding` is followed by the quoted `[i, j)`, the
   * charset becomes those bytes upper-cased.
   */
  lemma {:induction false} XmlEncodingReads(s: State, x: Sniff, d: int, g: int, i: int, j: int)
    requires s.Valid() && XmlDeclAt(s.View(), d, g, i, j)
    ensures XmlEncoding(s, x) == x.(charset := Some(Upper(s.buf[i..j])))
  {
    EncodingNameAt(s, d, g);
    QuotedValueAt(s.(offset := g + 8, end := d), i, j);
    assert EncodingValue(s) == Found(i, j);
  }

  /** A state that may resume the tag loop: `s` with its cursor moved forward, nothing else changed. */
  predicate Resumes(s: State, t: State) {
    t == s.(offset := t.offset) && s.offset <= t.offset <= s.end
  }

  /** The fields a finished tag can leave behind keep their shape. */
  predicate Keeps(x: Sniff, y: Sniff) {
    (WellFormed(x) ==> WellFormed(y))
    && (y.contentType != x.contentType ==> y.contentType.Some? && IsMediaType(y.contentType.value))
  }

  /** `text/html`, the content type a `<meta>` tag without one implies. */
  lemma {:induction false} TextHtmlIsMediaType()
    ensures IsMediaType(Ascii("text/html"))
  {
    var t := Ascii("text/html");
    forall i | 0 <= i < |t| ensures IsTypeByte(t[i]) && !IsUpperLetter(t[i]) {
      assert t[i] == Code("text/html"[i]);
    }
    assert t[4] == Code('/');
  }

  /**
   * The fields a `content` value `buf[i..j)` sets: those `parseContentType`
   * finds in it, and `text/html` when it names no media type.
   */
  function ContentOf(buf: Bytes, i: int, j: int, x: Sniff): (r: Sniff)
    requires 0 <= i <= j <= |buf|
    ensures Keeps(x, r)
    ensures r.contentType.Some?
    ensures var y := ParseContentType(StateOf(ByteSeq(buf, i, j, false)), x);
            r.charset == y.charset && (y.contentType.Some? ==> r.contentType == y.contentType)
  {
    var y := ParseContentType(StateOf(ByteSeq(buf, i, j, false)), x);
    if y.contentType.None? then
      TextHtmlIsMediaType();
      y.(contentType := Some(Ascii("text/html")))
    else y
  }

  /** `content` at `c` and `=` at `e`, from `v.offset` with only whitespace before and between. */
  predicate ContentEqAt(v: ByteSeq, c: int, e: int)
    requires v.Valid()
  {
    && v.offset <= c && c + 7 <= e < v.end
    && Blank(v.buf, v.offset, c) && MatchAt(v.buf, c, "content", v.caseSensitive)
    && Blank(v.buf, c + 7, e) && Is(v.buf[e], '=')
  }

  /** Whitespace from `v.offset`, then `[i, j)` in double quotes. */
  predicate QuoteAt(v: ByteSeq, i: int, j: int)
    requires v.Valid()
  {
    v.offset < i <= j < v.end && Blank(v.buf, v.offset, i - 1) && Quoted(v.buf, i, j)
  }

  /** `content`, `=` and the quoted value `[i, j)` from `v.offset`, with only whitespace between. */
  ghost predicate ContentAt(v: ByteSeq, i: int, j: int)
    requires v.Valid()
  {
    exists c, e :: ContentEqAt(v, c, e) && QuoteAt(v.(offset := e + 1), i, j)
  }

  /** Where `content =` lies, from the byte after the `http-equiv` value. */
  function ContentName(s: State): (r: Span)
    requires s.Valid()
    ensures r.Resume? ==> Resumes(s, r.st)
    ensures r.Found? ==> ContentEqAt(s.View(), r.i, r.j)
  {
    var w := SkipWhitespace(s);
    if !w.ok then Fail
    else
      var k := StartsWithSkip(w.st, "content");
      if !k.ok then Fail
      else
        var w2 := SkipWhitespace(k.st);
        if !w2.ok then Fail
        else if !Is(w2.st.buf[w2.st.offset], '=') then Resume(w2.st.(offset := w2.st.offset + 1))
        else Found(w.st.offset, w2.st.offset)
  }

  /** Where a quoted value lies, from the byte after its `=`. */
  function QuoteValue(s: State): (r: Span)
    requires s.Valid()
    ensures r.Resume? ==> Resumes(s, r.st)
    ensures r.Found? ==> QuoteAt(s.View(), r.i, r.j)
  {
    var w3 := SkipWhitespace(s);
    if !w3.ok then Fail
    else if !Is(w3.st.buf[w3.st.offset], '"') then Resume(w3.st.(offset := w3.st.offset + 1))
    else
      var open := w3.st.offset + 1;
      var c := FindChar(w3.st.(offset := open), '"');
      if !c.ok then Fail
      else Found(open, c.st.offset)
  }

  /** Where the quoted `content` value lies, from the byte after the `http-equiv` value. */
  function ContentValue(s: State): (r: Span)
    requires s.Valid()
    ensures r.Resume? ==> Resumes(s, r.st)
    ensures r.Found? ==> 0 < r.i <= r.j < s.end && ContentAt(s.View(), r.i, r.j)
  {
    match ContentName(s)
    case Found(c, e) =>
      (match QuoteValue(s.(offset := e + 1))
       case Found(i, j) =>
         assert QuoteAt(s.View().(offset := e + 1), i, j) by {
           assert s.(offset := e + 1).View() == s.View().(offset := e + 1);
         }
         Found(i, j)
       case Resume(t) => Resume(t)
       case Fail => Fail)
    case Resume(t) => Resume(t)
    case Fail => Fail
  }

  /**
   * The `content="..."` half of a `<meta http-equiv="content-type" ...>` tag,
   * from the byte after the closing quote of the `http-equiv` value. Where the
   * source `continue`s, the scan goes on from the current cursor; where it
   * returns, the fields are left as they are.
   */
  function MetaContent(s: State, x: Sniff): (r: Sniff)
    requires s.Valid()
    ensures Keeps(x, r)
    decreases s.end - s.offset, 1
  {
    match ContentValue(s)
    case Found(i, j) => ContentOf(s.buf, i, j, x)
    case Resume(t) => MetaLoop(t, x)
    case Fail => x
  }

  /** The `http-equiv` value from `v.offset`: whitespace, then `[q, p)` in double quotes, starting with `content-type`. */
  predicate TypeValueAt(v: ByteSeq, q: int, p: int)
    requires v.Valid()
  {
    && v.offset < q <= p < v.end && q + 12 <= v.end
    && Blank(v.buf, v.offset, q - 1) && Quoted(v.buf, q, p)
    && MatchAt(v.buf, q, "content-type", v.caseSensitive)
  }

  /** Where the quoted `http-equiv` value lies, from the byte after its `=`. */
  function EquivValue(s: State): (r: Span)
    requires s.Valid()
    ensures r.Resume? ==> Resumes(s, r.st)
    ensures r.Found? ==> TypeValueAt(s.View(), r.i, r.j)
  {
    var w3 := SkipWhitespace(s);
    if !w3.ok then Fail
    else if !Is(w3.st.buf[w3.st.offset], '"') then Resume(w3.st.(offset := w3.st.offset + 1))
    else
      var open := w3.st.offset + 1;
      var q := FindSkipChar(w3.st.(offset := open), '"');
      if !q.ok then Fail
      else if !StartsWith(ByteSeq(s.buf, open, s.end, s.caseSensitive), "content-type") then
        Resume(q.st.(offset := open))
      else
        assert Blank(s.buf, s.offset, open - 1);
        Found(open, q.st.offset - 1)
  }

  /**
   * The value of `http-equiv`, from the byte after `=`: a quoted string
   * starting with `content-type`, then `MetaContent` after the closing quote.
   */
  function MetaValue(s: State, x: Sniff): (r: Sniff)
    requires s.Valid()
    ensures Keeps(x, r)
    decreases s.end - s.offset, 2
  {
    match EquivValue(s)
    case Found(q, p) => MetaContentPast(s, p, x)
    case Resume(t) => MetaLoop(t, x)
    case Fail => x
  }

  /** `MetaContent` from the byte after `p`. */
  function MetaContentPast(s: State, p: int, x: Sniff): (r: Sniff)
    requires s.Valid() && s.offset <= p < s.end
    ensures Keeps(x, r)
    decreases s.end - s.offset, 1
  {
    MetaContent(s.(offset := p + 1), x)
  }

  /** `http-equiv` at `h` and `=` at `e`, after at least one whitespace byte from `v.offset` and with only whitespace between. */
  predicate EquivAt(v: ByteSeq, h: int, e: int)
    requires v.Valid()
  {
    && v.offset < h && h + 10 <= e < v.end
    && Blank(v.buf, v.offset, h) && MatchAt(v.buf, h, "http-equiv", v.caseSensitive)
    && Blank(v.buf, h + 10, e) && Is(v.buf[e], '=')
  }

  /** Where `http-equiv =` lies, from the byte after `<meta`. */
  function EquivName(s: State): (r: Span)
    requires s.Valid()
    ensures r.Resume? ==> Resumes(s, r.st)
    ensures r.Found? ==> EquivAt(s.View(), r.i, r.j)
  {
    var w := SkipWhitespace(s);
    if !w.ok then Fail
    else if w.st.offset == s.offset then Resume(w.st)
    else
      var h := StartsWithSkip(w.st, "http-equiv");
      if !h.ok then Resume(h.st)
      else
        var w2 := SkipWhitespace(h.st);
        if !w2.ok then Fail
        else if !Is(w2.st.buf[w2.st.offset], '=') then Resume(w2.st.(offset := w2.st.offset + 1))
        else
          assert Blank(s.buf, s.offset, w.st.offset) && Blank(s.buf, w.st.offset + 10, w2.st.offset);
          Found(w.st.offset, w2.st.offset)
  }

  /**
   * One `<meta` tag, from the byte after `meta`: it must be followed by
   * whitespace and `http-equiv = "content-type..."`, then `MetaContent`.
   */
  function MetaTag(s: State, x: Sniff): (r: Sniff)
    requires s.Valid()
    ensures Keeps(x, r)
    decreases s.end - s.offset, 3
  {
    match EquivName(s)
    case Found(h, e) => MetaValuePast(s, e, x)
    case Resume(t) => MetaLoop(t, x)
    case Fail => x
  }

  /** `MetaValue` from the byte after `e`. */
  function MetaValuePast(s: State, e: int, x: Sniff): (r: Sniff)
    requires s.Valid() && s.offset <= e < s.end
    ensures Keeps(x, r)
    decreases s.end - s.offset, 2
  {
    MetaValue(s.(offset := e + 1), x)
  }

  /** A byte matching a letter of a pattern is not whitespace. */
  lemma LetterNotBlank(b: Byte, c: char, cs: bool)
    requires 'a' <= c <= 'z' && Match(b, c, cs)
    ensures !IsWhitespace(b)
  {
  }

  /** Whitespace up to a known non-whitespace byte is what `SkipWhitespace` skips. */
  lemma SkipBlankTo(s: State, h: int)
    requires s.Valid() && s.offset <= h < s.end && Blank(s.buf, s.offset, h) && !IsWhitespace(s.buf[h])
    ensures SkipWhitespace(s) == Step(true, s.(offset := h))
  {
    SkipClassAt(s.buf, s.offset, h, s.end, true);
    SkipWhitespaceAt(s);
  }

  /** The converse of `EquivName`: a blank-led `http-equiv =` is found where it stands. */
  lemma EquivNameAt(s: State, h: int, e: int)
    requires s.Valid() && EquivAt(s.View(), h, e)
    ensures EquivName(s) == Found(h, e)
  {
    LetterNotBlank(s.buf[h + 0], "http-equiv"[0], s.caseSensitive);
    SkipBlankTo(s, h);
    var t := s.(offset := h + 10);
    assert StartsWithSkip(s.(offset := h), "http-equiv").st == t;
    SkipBlankTo(t, e);
  }

  /** The converse of `EquivValue`: a quoted value starting with `content-type` is found where it stands. */
  lemma EquivValueAt(s: State, q: int, p: int)
    requires s.Valid() && TypeValueAt(s.View(), q, p)
    ensures EquivValue(s) == Found(q, p)
  {
    SkipBlankTo(s, q - 1);
    var t := s.(offset := q);
    CharIndexAt(s.buf, q, s.end, '"', p);
    FindSkipCharAt(t, '"');
    assert StartsWith(ByteSeq(s.buf, q, s.end, s.caseSensitive), "content-type");
  }

  /** The converse of `ContentName`: a blank-led `content =` is found where it stands. */
  lemma ContentNameAt(s: State, c: int, e: int)
    requires s.Valid() && ContentEqAt(s.View(), c, e)
    ensures ContentName(s) == Found(c, e)
  {
    LetterNotBlank(s.buf[c + 0], "content"[0], s.caseSensitive);
    SkipBlankTo(s, c);
    var t := s.(offset := c + 7);
    assert StartsWithSkip(s.(offset := c), "content").st == t;
    SkipBlankTo(t, e);
  }

  /** The converse of `QuoteValue`: a blank-led quoted value is found where it stands. */
  lemma QuoteValueAt(s: State, i: int, j: int)
    requires s.Valid() && QuoteAt(s.View(), i, j)
    ensures QuoteValue(s) == Found(i, j)
  {
    SkipBlankTo(s, i - 1);
    CharIndexAt(s.buf, i, s.end, '"', j);
    assert FindChar(s.(offset := i), '"').st.offset == j;
  }

  /**
   * From `v.offset` (just past `<meta`): a blank-led `http-equiv =` at
   * `h`/`e`, the quoted `content-type...` value `[q, p)`, `content =` at
   * `c`/`f`, and the quoted content value `[i, j)`.
   */
  predicate MetaTagAt(v: ByteSeq, h: int, e: int, q: int, p: int, c: int, f: int, i: int, j: int)
    requires v.Valid()
  {
    && EquivAt(v, h, e)
    && TypeValueAt(v.(offset := e + 1), q, p)
    && ContentEqAt(v.(offset := p + 1), c, f)
    && QuoteAt(v.(offset := f + 1), i, j)
  }

  /** `ContentValue` reads the quoted value after the `content =` that `ContentName` found. */
  lemma {:induction false} ContentValueNext(s: State, c: int, f: int, t: State)
    requires s.Valid() && ContentName(s) == Found(c, f) && t == s.(offset := f + 1)
    ensures t.Valid() && ContentValue(s) == QuoteValue(t)
  {
  }

  /** The converse of `ContentValue`: `content = "..."` is found where it stands. */
  lemma {:induction false} ContentValueAt(s: State, c: int, f: int, i: int, j: int)
    requires s.Valid() && ContentEqAt(s.View(), c, f) && QuoteAt(s.View().(offset := f + 1), i, j)
    ensures ContentValue(s) == Found(i, j)
  {
    ContentNameAt(s, c, f);
    var t := s.(offset := f + 1);
    assert t.View() == s.View().(offset := f + 1);
    QuoteValueAt(t, i, j);
    ContentValueNext(s, c, f, t);
  }

  /**
   * How the value read from `s` (just past `http-equiv =`) hands control
   * back: the quoted content value, the state the scan resumes from, or
   * `Fail` when the search ends.
   */
  function ValueExit(s: State): (r: Span)
    requires s.Valid()
    ensures r.Resume? ==> Resumes(s, r.st)
    ensures r.Found? ==> s.offset < r.i <= r.j < s.end
  {
    match EquivValue(s)
    case Found(_, p) => ValuePast(s, p)
    case other => other
  }

  /** `ContentValue` from the byte after `p`. */
  function ValuePast(s: State, p: int): (r: Span)
    requires s.Valid() && s.offset <= p < s.end
  {
    ContentValue(s.(offset := p + 1))
  }

  /**
   * How the tag read from `s` (just past `<meta`) hands control back: the
   * quoted content value, the state the scan resumes from, or `Fail` when
   * the search ends.
   */
  function TagExit(s: State): (r: Span)
    requires s.Valid()
    ensures r.Resume? ==> Resumes(s, r.st)
    ensures r.Found? ==> s.offset < r.i <= r.j < s.end
  {
    match EquivName(s)
    case Found(_, e) => TagPast(s, e)
    case other => other
  }

  /** `ValueExit` from the byte after `e`. */
  function TagPast(s: State, e: int): (r: Span)
    requires s.Valid() && s.offset <= e < s.end
  {
    ValueExit(s.(offset := e + 1))
  }

  lemma {:induction false} ValueExitPast(s: State, q: int, p: int)
    requires s.Valid() && EquivValue(s) == Found(q, p)
    ensures s.offset <= p < s.end && ValueExit(s) == ValuePast(s, p)
  {
  }

  lemma {:induction false} ValuePastAt(s: State, p: int, t: State)
    requires s.Valid() && s.offset <= p < s.end && t == s.(offset := p + 1)
    ensures t.Valid() && ValuePast(s, p) == ContentValue(t)
  {
  }

  lemma {:induction false} ValueExitNext(s: State, q: int, p: int, t: State)
    requires s.Valid() && EquivValue(s) == Found(q, p) && t == s.(offset := p + 1)
    ensures t.Valid() && ValueExit(s) == ContentValue(t)
  {
    ValueExitPast(s, q, p);
    ValuePastAt(s, p, t);
  }

  lemma {:induction false} TagExitPast(s: State, h: int, e: int)
    requires s.Valid() && EquivName(s) == Found(h, e)
    ensures s.offset <= e < s.end && TagExit(s) == TagPast(s, e)
  {
  }

  lemma {:induction false} TagPastAt(s: State, e: int, t: State)
    requires s.Valid() && s.offset <= e < s.end && t == s.(offset := e + 1)
    ensures t.Valid() && TagPast(s, e) == ValueExit(t)
  {
  }

  lemma {:induction false} TagExitNext(s: State, h: int, e: int, t: State)
    requires s.Valid() && EquivName(s) == Found(h, e) && t == s.(offset := e + 1)
    ensures t.Valid() && TagExit(s) == ValueExit(t)
  {
    TagExitPast(s, h, e);
    TagPastAt(s, e, t);
  }

  /** One step of `MetaContent`, given what `ContentValue` finds. */
  lemma {:induction false} MetaContentStep(s: State, x: Sniff, n: Span)
    requires s.Valid() && n == ContentValue(s)
    ensures n.Found? ==> MetaContent(s, x) == ContentOf(s.buf, n.i, n.j, x)
    ensures n.Resume? ==> n.st.Valid() && MetaContent(s, x) == MetaLoop(n.st, x)
    ensures n.Fail? ==> MetaContent(s, x) == x
  {
  }

  /** One step of `MetaValue` when `EquivValue` gives up. */
  lemma {:induction false} MetaValueStep(s: State, x: Sniff, n: Span)
    requires s.Valid() && n == EquivValue(s)
    ensures n.Resume? ==> n.st.Valid() && MetaValue(s, x) == MetaLoop(n.st, x)
    ensures n.Fail? ==> MetaValue(s, x) == x
  {
  }

  /** One step of `MetaValue` past a `content-type` value. */
  lemma {:induction false} MetaValueNext(s: State, x: Sniff, q: int, p: int, t: State)
    requires s.Valid() && EquivValue(s) == Found(q, p) && t == s.(offset := p + 1)
    ensures t.Valid() && MetaValue(s, x) == MetaContent(t, x)
  {
    assert s.offset <= p < s.end && MetaValue(s, x) == MetaContentPast(s, p, x);
  }

  /** One step of `MetaTag` when `EquivName` gives up. */
  lemma {:induction false} MetaTagStep(s: State, x: Sniff, n: Span)
    requires s.Valid() && n == EquivName(s)
    ensures n.Resume? ==> n.st.Valid() && MetaTag(s, x) == MetaLoop(n.st, x)
    ensures n.Fail? ==> MetaTag(s, x) == x
  {
  }

  /** One step of `MetaTag` past `http-equiv =`. */
  lemma {:induction false} MetaTagNext(s: State, x: Sniff, h: int, e: int, t: State)
    requires s.Valid() && EquivName(s) == Found(h, e) && t == s.(offset := e + 1)
    ensures t.Valid() && MetaTag(s, x) == MetaValue(t, x)
  {
    assert s.offset <= e < s.end && MetaTag(s, x) == MetaValuePast(s, e, x);
  }

  /** `MetaValue` does what `ValueExit` says: read the content value, resume the scan, or stop. */
  lemma {:induction false} MetaValueExit(s: State, x: Sniff)
    requires s.Valid()
    ensures var n := ValueExit(s);
            && (n.Found? ==> MetaValue(s, x) == ContentOf(s.buf, n.i, n.j, x))
            && (n.Resume? ==> n.st.Valid() && MetaValue(s, x) == MetaLoop(n.st, x))
            && (n.Fail? ==> MetaValue(s, x) == x)
  {
    var v := EquivValue(s);
    MetaValueStep(s, x, v);
    if v.Found? {
      var t := s.(offset := v.j + 1);
      MetaValueNext(s, x, v.i, v.j, t);
      ValueExitNext(s, v.i, v.j, t);
      MetaContentStep(t, x, ContentValue(t));
    } else {
      assert ValueExit(s) == v;
    }
  }

  /** `MetaTag` does what `TagExit` says: read the content value, resume the scan, or stop. */
  lemma {:induction false} MetaTagExit(s: State, x: Sniff)
    requires s.Valid()
    ensures var n := TagExit(s);
            && (n.Found? ==> MetaTag(s, x) == ContentOf(s.buf, n.i, n.j, x))
            && (n.Resume? ==> n.st.Valid() && MetaTag(s, x) == MetaLoop(n.st, x))
            && (n.Fail? ==> MetaTag(s, x) == x)
  {
    var m := EquivName(s);
    MetaTagStep(s, x, m);
    if m.Found? {
      var t := s.(offset := m.j + 1);
      MetaTagNext(s, x, m.i, m.j, t);
      TagExitNext(s, m.i, m.j, t);
      MetaValueExit(t, x);
    } else {
      assert TagExit(s) == m;
    }
  }

  /** The converse of `ValueExit`: a `content-type` value, then `content = "..."`, reaches that content value. */
  lemma {:induction false} ValueExitReads(s: State, q: int, p: int, c: int, f: int, i: int, j: int)
    requires s.Valid() && TypeValueAt(s.View(), q, p)
    requires ContentEqAt(s.View().(offset := p + 1), c, f) && QuoteAt(s.View().(offset := f + 1), i, j)
    ensures ValueExit(s) == Found(i, j)
  {
    var t := s.(offset := p + 1);
    assert ContentEqAt(t.View(), c, f) && QuoteAt(t.View().(offset := f + 1), i, j) by {
      assert t.View() == s.View().(offset := p + 1);
      assert t.View().(offset := f + 1) == s.View().(offset := f + 1);
    }
    EquivValueAt(s, q, p);
    ValueExitNext(s, q, p, t);
    ContentValueAt(t, c, f, i, j);
  }

  /** The converse of `TagExit`: a tag of the accepted shape reaches its content value. */
  lemma {:induction false} TagExitReads(s: State, h: int, e: int, q: int, p: int, c: int, f: int, i: int, j: int)
    requires s.Valid() && MetaTagAt(s.View(), h, e, q, p, c, f, i, j)
    ensures TagExit(s) == Found(i, j)
  {
    var t := s.(offset := e + 1);
    assert TypeValueAt(t.View(), q, p) && ContentEqAt(t.View().(offset := p + 1), c, f)
           && QuoteAt(t.View().(offset := f + 1), i, j) by {
      assert t.View() == s.View().(offset := e + 1);
      assert t.View().(offset := p + 1) == s.View().(offset := p + 1);
      assert t.View().(offset := f + 1) == s.View().(offset := f + 1);
    }
    EquivNameAt(s, h, e);
    TagExitNext(s, h, e, t);
    ValueExitReads(t, q, p, c, f, i, j);
  }

  /**
   * The converse of `MetaTag`: a tag of the accepted shape ends the search
   * with the fields of its content value.
   */
  lemma {:induction false} MetaTagReads(s: State, x: Sniff, h: int, e: int, q: int, p: int, c: int, f: int, i: int, j: int)
    requires s.Valid() && MetaTagAt(s.View(), h, e, q, p, c, f, i, j)
    ensures MetaTag(s, x) == ContentOf(s.buf, i, j, x)
  {
    TagExitReads(s, h, e, q, p, c, f, i, j);
    MetaTagExit(s, x);
  }

  /** A `<` at `p` opens `meta`. */
  predicate MetaOpens(s: State, p: int)
    requires s.Valid() && s.offset <= p < s.end
  {
    StartsWith(ByteSeq(s.buf, p + 1, s.end, s.caseSensitive), "meta")
  }

  /** What the HTML loop finds at the next `<`: nothing, a `<meta`, the end of the head, or another tag. */
  datatype Bracket = NoBracket | MetaAfter(st: State) | HeadEnd | Skip(st: State)

  function NextBracket(s: State): (r: Bracket)
    requires s.Valid()
    ensures var p := CharIndex(s.buf, s.offset, s.end, '<');
            && (r.NoBracket? <==> p == s.end)
            && (r.MetaAfter? ==> p < s.end && MetaOpens(s, p) && r.st == s.(offset := p + 5) && r.st.Valid())
            && (r.HeadEnd? ==> p < s.end && !MetaOpens(s, p) && Equals(ByteSeq(s.buf, p + 1, s.end, s.caseSensitive), "/head"))
            && (r.Skip? ==> p < s.end && !MetaOpens(s, p) && !Equals(ByteSeq(s.buf, p + 1, s.end, s.caseSensitive), "/head")
                            && r.st == s.(offset := p + 1))
  {
    var f := FindSkipChar(s, '<');
    if !f.ok then NoBracket
    else
      var m := StartsWithSkip(f.st, "meta");
      if m.ok then MetaAfter(m.st)
      else if Equals(f.st.View(), "/head") then HeadEnd
      else Skip(f.st)
  }

  /**
   * The HTML loop: each `<` in turn; a `<meta` tag may settle the fields,
   * `</head>` (or `/head` reaching the end) stops the search.
   */
  function MetaLoop(s: State, x: Sniff): (r: Sniff)
    requires s.Valid()
    ensures Keeps(x, r)
    decreases s.end - s.offset, 0
  {
    match NextBracket(s)
    case NoBracket => x
    case HeadEnd => x
    case Skip(t) => MetaLoop(t, x)
    case MetaAfter(t) => MetaTag(t, x)
  }

  /** From `v.offset`: `content`, `=` and a quoted value whose fields are `y`. */
  ghost predicate ContentSets(v: ByteSeq, x: Sniff, y: Sniff)
    requires v.Valid()
  {
    exists i, j :: 0 < i <= j < v.end && ContentAt(v, i, j) && y == ContentOf(v.buf, i, j, x)
  }

  /** From `v.offset` (just past `http-equiv =`): a quoted value starting with `content-type`, then `ContentSets`. */
  ghost predicate ValueSets(v: ByteSeq, x: Sniff, y: Sniff)
    requires v.Valid()
  {
    exists q, p :: TypeValueAt(v, q, p) && ContentSets(v.(offset := p + 1), x, y)
  }

  /** From `v.offset` (just past `<meta`): whitespace, `http-equiv =`, then `ValueSets`. */
  ghost predicate TagSets(v: ByteSeq, x: Sniff, y: Sniff)
    requires v.Valid()
  {
    exists h, e :: EquivAt(v, h, e) && ValueSets(v.(offset := e + 1), x, y)
  }

  /** Some `<meta` at or after `v.offset` is a tag whose content value gives `y`. */
  ghost predicate MetaSets(v: ByteSeq, x: Sniff, y: Sniff)
    requires v.Valid()
  {
    exists m ::
      && v.offset < m && m + 4 <= v.end && Is(v.buf[m - 1], '<')
      && MatchAt(v.buf, m, "meta", v.caseSensitive)
      && TagSets(v.(offset := m + 4), x, y)
  }

  /** Witnesses for `ValueSets`. */
  lemma {:induction false} ValueSetsIntro(v: ByteSeq, q: int, p: int, x: Sniff, y: Sniff)
    requires v.Valid() && TypeValueAt(v, q, p) && ContentSets(v.(offset := p + 1), x, y)
    ensures ValueSets(v, x, y)
  {
  }

  /** Witnesses for `TagSets`. */
  lemma {:induction false} TagSetsIntro(v: ByteSeq, h: int, e: int, x: Sniff, y: Sniff)
    requires v.Valid() && EquivAt(v, h, e) && ValueSets(v.(offset := e + 1), x, y)
    ensures TagSets(v, x, y)
  {
  }

  /**
   * `MetaContent` leaves the fields alone, takes them from the content value
   * it read, or from a later `<meta>` tag once the scan resumes.
   */
  lemma {:induction false} MetaContentShape(s: State, x: Sniff)
    requires s.Valid()
    ensures var r := MetaContent(s, x); r == x || ContentSets(s.View(), x, r) || MetaSets(s.View(), x, r)
    decreases s.end - s.offset, 1
  {
    var n := ContentValue(s);
    MetaContentStep(s, x, n);
    match n
    case Found(i, j) =>
      assert ContentSets(s.View(), x, ContentOf(s.buf, i, j, x));
    case Resume(t) =>
      MetaLoopShape(t, x);
      MetaSetsFrom(s, t, x, MetaLoop(t, x));
    case Fail =>
  }

  /**
   * `MetaValue` leaves the fields alone, reads a `content-type` value and
   * then `ContentSets`, or takes them from a later `<meta>` tag.
   */
  lemma {:induction false} MetaValueShape(s: State, x: Sniff)
    requires s.Valid()
    ensures var r := MetaValue(s, x); r == x || ValueSets(s.View(), x, r) || MetaSets(s.View(), x, r)
    decreases s.end - s.offset, 2
  {
    var n := EquivValue(s);
    MetaValueStep(s, x, n);
    match n
    case Found(q, p) =>
      var t := s.(offset := p + 1);
      MetaValueNext(s, x, q, p, t);
      MetaContentShape(t, x);
      var r := MetaContent(t, x);
      if ContentSets(t.View(), x, r) {
        assert t.View() == s.View().(offset := p + 1);
        ValueSetsIntro(s.View(), q, p, x, r);
      } else {
        MetaSetsFrom(s, t, x, r);
      }
    case Resume(t) =>
      MetaLoopShape(t, x);
      MetaSetsFrom(s, t, x, MetaLoop(t, x));
    case Fail =>
  }

  /**
   * `MetaTag` leaves the fields alone, reads `http-equiv =` and then
   * `ValueSets`, or takes them from a later `<meta>` tag.
   */
  lemma {:induction false} MetaTagShape(s: State, x: Sniff)
    requires s.Valid()
    ensures var r := MetaTag(s, x); r == x || TagSets(s.View(), x, r) || MetaSets(s.View(), x, r)
    decreases s.end - s.offset, 3
  {
    var n := EquivName(s);
    MetaTagStep(s, x, n);
    match n
    case Found(h, e) =>
      var t := s.(offset := e + 1);
      MetaTagNext(s, x, h, e, t);
      MetaValueShape(t, x);
      var r := MetaValue(t, x);
      if ValueSets(t.View(), x, r) {
        assert t.View() == s.View().(offset := e + 1);
        TagSetsIntro(s.View(), h, e, x, r);
      } else {
        MetaSetsFrom(s, t, x, r);
      }
    case Resume(t) =>
      MetaLoopShape(t, x);
      MetaSetsFrom(s, t, x, MetaLoop(t, x));
    case Fail =>
  }

  /** A later start inside the same view finds a subset of the tags. */
  lemma {:induction false} MetaSetsFrom(s: State, t: State, x: Sniff, y: Sniff)
    requires s.Valid() && Resumes(s, t) && (y == x || MetaSets(t.View(), x, y))
    ensures y == x || MetaSets(s.View(), x, y)
  {
    if y == x { return; }
    var m :| t.offset < m && m + 4 <= t.end && Is(t.buf[m - 1], '<')
              && MatchAt(t.buf, m, "meta", t.caseSensitive) && TagSets(t.View().(offset := m + 4), x, y);
    assert t.View().(offset := m + 4) == s.View().(offset := m + 4);
  }

  /**
   * The HTML search either leaves the fields alone or takes them from the
   * content value of some `<meta http-equiv="content-type..." content="...">`.
   */
  lemma {:induction false} MetaLoopShape(s: State, x: Sniff)
    requires s.Valid()
    ensures MetaLoop(s, x) == x || MetaSets(s.View(), x, MetaLoop(s, x))
    decreases s.end - s.offset, 0
  {
    var b := NextBracket(s);
    MetaLoopAt(s, x, b);
    match b
    case Skip(t) =>
      MetaLoopShape(t, x);
      MetaSetsFrom(s, t, x, MetaLoop(t, x));
    case MetaAfter(t) =>
      MetaTagShape(t, x);
      var y := MetaTag(t, x);
      if TagSets(t.View(), x, y) {
        var m := CharIndex(s.buf, s.offset, s.end, '<') + 1;
        MetaAtBracket(s, t, m);
        TagSetsShift(s, t, x, y, m);
        MetaSetsIntro(s.View(), m, x, y);
      } else {
        MetaSetsFrom(s, t, x, y);
      }
    case _ =>
  }

  /** A `<meta` found by the loop sits at `m - 1`, and the tag is read from just after it. */
  lemma {:induction false} MetaAtBracket(s: State, t: State, m: int)
    requires s.Valid() && NextBracket(s) == MetaAfter(t)
    requires m == CharIndex(s.buf, s.offset, s.end, '<') + 1
    ensures s.offset < m && m + 4 <= s.end && Is(s.buf[m - 1], '<') && MatchAt(s.buf, m, "meta", s.caseSensitive)
    ensures t == s.(offset := m + 4)
  {
    assert MetaOpens(s, m - 1);
  }

  lemma {:induction false} TagSetsShift(s: State, t: State, x: Sniff, y: Sniff, m: int)
    requires s.Valid() && t.Valid() && t == s.(offset := m + 4) && TagSets(t.View(), x, y)
    ensures TagSets(s.View().(offset := m + 4), x, y)
  {
    assert t.View() == s.View().(offset := m + 4);
  }

  lemma {:induction false} MetaSetsIntro(v: ByteSeq, m: int, x: Sniff, y: Sniff)
    requires v.Valid() && v.offset < m && m + 4 <= v.end && Is(v.buf[m - 1], '<')
    requires MatchAt(v.buf, m, "meta", v.caseSensitive) && TagSets(v.(offset := m + 4), x, y)
    ensures MetaSets(v, x, y)
  {
  }

  /**
   * The `<` at `k` cannot settle the fields before `p`: it does not open
   * `meta`, or its tag ends the search or resumes the scan at or before `p`.
   */
  predicate CannotSettle(s: State, k: int, p: int)
    requires s.Valid() && s.offset <= k < s.end
  {
    MetaOpens(s, k) ==>
      var n := TagExit(s.(offset := k + 5));
      n.Fail? || (n.Resume? && n.st.offset <= p)
  }

  /**
   * The scan passes the `<` at `k` on its way to `p`: it is not `/head`,
   * and when it opens `meta` its tag resumes the scan at or before `p`.
   */
  predicate PassesOver(s: State, k: int, p: int)
    requires s.Valid() && s.offset <= k < s.end
  {
    if MetaOpens(s, k) then
      var n := TagExit(s.(offset := k + 5));
      n.Resume? && n.st.offset <= p
    else !Equals(ByteSeq(s.buf, k + 1, s.end, s.caseSensitive), "/head")
  }

  /** A later cursor over the same bytes sees the same `<` bytes, so `CannotSettle` still holds for them. */
  lemma {:induction false} CannotSettleFrom(s: State, u: State, p: int)
    requires s.Valid() && Resumes(s, u) && u.offset <= p <= s.end
    requires forall k :: s.offset <= k < p && Is(s.buf[k], '<') ==> CannotSettle(s, k, p)
    ensures forall k :: u.offset <= k < p && Is(u.buf[k], '<') ==> CannotSettle(u, k, p)
  {
    forall k | u.offset <= k < p && Is(u.buf[k], '<')
      ensures CannotSettle(u, k, p)
    {
      assert CannotSettle(s, k, p);
      assert u.(offset := k + 5) == s.(offset := k + 5);
    }
  }

  /** A later cursor over the same bytes sees the same `<` bytes, so `PassesOver` still holds for them. */
  lemma {:induction false} PassesOverFrom(s: State, u: State, p: int)
    requires s.Valid() && Resumes(s, u) && u.offset <= p <= s.end
    requires forall k :: s.offset <= k < p && Is(s.buf[k], '<') ==> PassesOver(s, k, p)
    ensures forall k :: u.offset <= k < p && Is(u.buf[k], '<') ==> PassesOver(u, k, p)
    ensures u.(offset := p + 5) == s.(offset := p + 5)
  {
    forall k | u.offset <= k < p && Is(u.buf[k], '<')
      ensures PassesOver(u, k, p)
    {
      assert PassesOver(s, k, p);
      assert u.(offset := k + 5) == s.(offset := k + 5);
    }
  }

  /** What `NextBracket` makes of the next `<`, at `k`. */
  lemma {:induction false} BracketAt(s: State, k: int)
    requires s.Valid() && k == CharIndex(s.buf, s.offset, s.end, '<') && k < s.end
    ensures var b := NextBracket(s);
            && (MetaOpens(s, k) ==> b == MetaAfter(s.(offset := k + 5)))
            && (!MetaOpens(s, k) && Equals(ByteSeq(s.buf, k + 1, s.end, s.caseSensitive), "/head") ==> b == HeadEnd)
            && (!MetaOpens(s, k) && !Equals(ByteSeq(s.buf, k + 1, s.end, s.caseSensitive), "/head") ==> b == Skip(s.(offset := k + 1)))
  {
  }

  /** The scan at a `<meta` that is the next `<` reads that tag. */
  lemma {:induction false} MetaLoopTagAt(s: State, x: Sniff, k: int, t: State)
    requires s.Valid() && k == CharIndex(s.buf, s.offset, s.end, '<') && k < s.end && MetaOpens(s, k)
    requires t == s.(offset := k + 5)
    ensures t.Valid() && MetaLoop(s, x) == MetaTag(t, x)
  {
    BracketAt(s, k);
    MetaLoopAt(s, x, MetaAfter(t));
  }

  /** The scan over a next `<` at `k` that is neither `<meta` nor `</head` goes on just past it. */
  lemma {:induction false} MetaLoopSkipAt(s: State, x: Sniff, k: int, u: State)
    requires s.Valid() && k == CharIndex(s.buf, s.offset, s.end, '<') && k < s.end && !MetaOpens(s, k)
    requires !Equals(ByteSeq(s.buf, k + 1, s.end, s.caseSensitive), "/head") && u == s.(offset := k + 1)
    ensures u.Valid() && MetaLoop(s, x) == MetaLoop(u, x)
  {
    BracketAt(s, k);
    MetaLoopAt(s, x, Skip(u));
  }

  /** The scan stops at a next `<` that is `</head` rather than `<meta`. */
  lemma {:induction false} MetaLoopHeadAt(s: State, x: Sniff, k: int)
    requires s.Valid() && k == CharIndex(s.buf, s.offset, s.end, '<') && k < s.end && !MetaOpens(s, k)
    requires Equals(ByteSeq(s.buf, k + 1, s.end, s.caseSensitive), "/head")
    ensures MetaLoop(s, x) == x
  {
    BracketAt(s, k);
    MetaLoopAt(s, x, HeadEnd);
  }

  /** The scan at a next `<meta` does what its tag's `TagExit` says. */
  lemma {:induction false} MetaLoopExitAt(s: State, x: Sniff, k: int)
    requires s.Valid() && k == CharIndex(s.buf, s.offset, s.end, '<') && k < s.end && MetaOpens(s, k)
    ensures var n := TagExit(s.(offset := k + 5));
            && (n.Found? ==> MetaLoop(s, x) == ContentOf(s.buf, n.i, n.j, x))
            && (n.Resume? ==> Resumes(s, n.st) && s.offset < n.st.offset && MetaLoop(s, x) == MetaLoop(n.st, x))
            && (n.Fail? ==> MetaLoop(s, x) == x)
  {
    var t := s.(offset := k + 5);
    MetaLoopTagAt(s, x, k, t);
    MetaTagExit(t, x);
  }

  /** Over a next `<` at `k` that cannot settle the fields, the scan stops with them unchanged or resumes no later than `p`. */
  lemma {:induction false} SettleStep(s: State, x: Sniff, p: int, k: int) returns (stop: bool, u: State)
    requires s.Valid() && k == CharIndex(s.buf, s.offset, s.end, '<') && k < p <= s.end
    requires CannotSettle(s, k, p)
    ensures stop ==> MetaLoop(s, x) == x
    ensures !stop ==> Resumes(s, u) && s.offset < u.offset <= p && MetaLoop(s, x) == MetaLoop(u, x)
  {
    if MetaOpens(s, k) {
      MetaLoopExitAt(s, x, k);
      var n := TagExit(s.(offset := k + 5));
      stop, u := !n.Resume?, if n.Resume? then n.st else s;
    } else if Equals(ByteSeq(s.buf, k + 1, s.end, s.caseSensitive), "/head") {
      MetaLoopHeadAt(s, x, k);
      stop, u := true, s;
    } else {
      u := s.(offset := k + 1);
      MetaLoopSkipAt(s, x, k, u);
      stop := false;
    }
  }

  /** Over a next `<` at `k` that the scan passes, it resumes no later than `p`. */
  lemma {:induction false} PassStep(s: State, x: Sniff, p: int, k: int) returns (u: State)
    requires s.Valid() && k == CharIndex(s.buf, s.offset, s.end, '<') && k < p <= s.end
    requires PassesOver(s, k, p)
    ensures Resumes(s, u) && s.offset < u.offset <= p && MetaLoop(s, x) == MetaLoop(u, x)
  {
    if MetaOpens(s, k) {
      MetaLoopExitAt(s, x, k);
      u := TagExit(s.(offset := k + 5)).st;
    } else {
      u := s.(offset := k + 1);
      MetaLoopSkipAt(s, x, k, u);
    }
  }

  /**
   * A `</head` ends the HTML search with nothing found when no `<` before
   * it can settle the fields: each is not a `<meta`, or its tag ends the
   * search or resumes the scan no later than the `</head`.
   */
  lemma {:induction false} MetaLoopStopsAtHead(s: State, x: Sniff, p: int)
    requires s.Valid() && s.offset <= p < s.end && Is(s.buf[p], '<')
    requires StartsWith(ByteSeq(s.buf, p + 1, s.end, s.caseSensitive), "/head")
    requires forall k :: s.offset <= k < p && Is(s.buf[k], '<') ==> CannotSettle(s, k, p)
    ensures MetaLoop(s, x) == x
    decreases p - s.offset
  {
    var k := CharIndex(s.buf, s.offset, s.end, '<');
    assert k <= p;
    if k == p {
      HeadNotMeta(s, p);
      MetaLoopHeadAt(s, x, p);
    } else {
      assert CannotSettle(s, k, p);
      var stop, u := SettleStep(s, x, p, k);
      if !stop {
        CannotSettleFrom(s, u, p);
        MetaLoopStopsAtHead(u, x, p);
      }
    }
  }

  /**
   * The first `<meta` tag that reaches a content value settles the fields:
   * when the scan passes every `<` before the `<meta` at `p`, and that tag
   * reaches the content value `[i, j)`, the search ends with its fields.
   */
  lemma {:induction false} MetaLoopReadsFirst(s: State, x: Sniff, p: int, i: int, j: int)
    requires s.Valid() && s.offset <= p < s.end && Is(s.buf[p], '<') && MetaOpens(s, p)
    requires TagExit(s.(offset := p + 5)) == Found(i, j)
    requires forall k :: s.offset <= k < p && Is(s.buf[k], '<') ==> PassesOver(s, k, p)
    ensures 0 <= i <= j <= |s.buf| && MetaLoop(s, x) == ContentOf(s.buf, i, j, x)
    decreases p - s.offset
  {
    var k := CharIndex(s.buf, s.offset, s.end, '<');
    assert k <= p;
    if k == p {
      MetaLoopExitAt(s, x, p);
    } else {
      assert PassesOver(s, k, p);
      var u := PassStep(s, x, p, k);
      PassesOverFrom(s, u, p);
      MetaLoopReadsFirst(u, x, p, i, j);
    }
  }

  /** The converse of `MetaLoopShape` for a `<meta` tag of the accepted shape, written out. */
  lemma {:induction false} MetaLoopReadsTag(s: State, x: Sniff, p: int, h: int, e: int, q: int, r: int, c: int, f: int, i: int, j: int)
    requires s.Valid() && s.offset <= p < s.end && Is(s.buf[p], '<') && MetaOpens(s, p)
    requires MetaTagAt(s.View().(offset := p + 5), h, e, q, r, c, f, i, j)
    requires forall k :: s.offset <= k < p && Is(s.buf[k], '<') ==> PassesOver(s, k, p)
    ensures 0 <= i <= j <= |s.buf| && MetaLoop(s, x) == ContentOf(s.buf, i, j, x)
  {
    var t := s.(offset := p + 5);
    assert t.View() == s.View().(offset := p + 5);
    TagExitReads(t, h, e, q, r, c, f, i, j);
    MetaLoopReadsFirst(s, x, p, i, j);
  }

  /** A `<` followed by `/head` does not open `meta`. */
  lemma {:induction false} HeadNotMeta(s: State, p: int)
    requires s.Valid() && s.offset <= p < s.end
    requires StartsWith(ByteSeq(s.buf, p + 1, s.end, s.caseSensitive), "/head")
    ensures !MetaOpens(s, p)
  {
    assert Match(s.buf[p + 1], "/head"[0], s.caseSensitive);
    assert !Match(s.buf[p + 1], "meta"[0], s.caseSensitive);
  }

  /** One step of the HTML loop, given what the next `<` is. */
  lemma {:induction false} MetaLoopAt(s: State, x: Sniff, b: Bracket)
    requires s.Valid() && b == NextBracket(s)
    ensures b.Skip? ==> MetaLoop(s, x) == MetaLoop(b.st, x)
    ensures b.MetaAfter? ==> MetaLoop(s, x) == MetaTag(b.st, x)
    ensures b.NoBracket? || b.HeadEnd? ==> MetaLoop(s, x) == x
  {
  }

  /**
   * `findAndParseContentType`: from the body start, the first `<` decides
   * between an XML declaration and the HTML `<meta>` search.
   */
  function SniffBody(s: State, x: Sniff): (r: Sniff)
    requires s.Valid()
    ensures Keeps(x, r)
  {
    var f := FindSkipChar(s, '<');
    if !f.ok then x
    else
      var xm := StartsWithSkip(f.st, "?xml");
      if xm.ok then XmlEncoding(xm.st, x)
      else MetaLoop(f.st.(offset := f.st.offset - 1), x)
  }

  /** The first `<` of the body decides; a body without one leaves the fields alone. */
  lemma {:induction false} FirstBracketNone(s: State, x: Sniff)
    requires s.Valid() && CharIndex(s.buf, s.offset, s.end, '<') == s.end
    ensures SniffBody(s, x) == x
  {
  }

  /** A first `<` opening `<?xml` reads the declaration after it. */
  lemma {:induction false} FirstBracketXml(s: State, x: Sniff, p: int)
    requires s.Valid() && p == CharIndex(s.buf, s.offset, s.end, '<') && p < s.end
    requires StartsWith(ByteSeq(s.buf, p + 1, s.end, s.caseSensitive), "?xml")
    ensures SniffBody(s, x) == XmlEncoding(s.(offset := p + 5), x)
  {
    var f := FindSkipChar(s, '<');
    assert f.st == s.(offset := p + 1);
    assert f.st.View() == ByteSeq(s.buf, p + 1, s.end, s.caseSensitive);
    assert StartsWithSkip(f.st, "?xml").st == s.(offset := p + 5);
  }

  /** Any other first `<` starts the HTML search at that `<`. */
  lemma {:induction false} FirstBracketHtml(s: State, x: Sniff, p: int)
    requires s.Valid() && p == CharIndex(s.buf, s.offset, s.end, '<') && p < s.end
    requires !StartsWith(ByteSeq(s.buf, p + 1, s.end, s.caseSensitive), "?xml")
    ensures SniffBody(s, x) == MetaLoop(s.(offset := p), x)
  {
    var f := FindSkipChar(s, '<');
    assert f.st == s.(offset := p + 1);
    assert f.st.View() == ByteSeq(s.buf, p + 1, s.end, s.caseSensitive);
    assert f.st.(offset := f.st.offset - 1) == s.(offset := p);
  }
}
