/**
 * `HtmlLinkCount`: a map/reduce job over the stored documents.  The mapper
 * emits, for every 200 `text/html` response, the page's base URL and every
 * link of its `<a href>` anchors, each with count 1; the reducer sums the
 * counts per URL.  `java.net.URI` is not modelled: parsing, resolving and
 * normalizing are parameters, and an exception is `None`.
 */
module LinkCount {
  import opened Wrappers
  import opened Bytes
  import opened ByteScan
  import opened Html
  import Document

  /** The parts of a `java.net.URI` the mapper reads; `text` is `toString()`. */
  datatype Uri = Uri(scheme: Option<Bytes>, host: Option<Bytes>, path: Option<Bytes>, text: Bytes)

  /** `new URI(s)`, `u.resolve(s)` and `u.normalize()`; the first two may throw. */
  datatype UriOps = UriOps(parse: Bytes -> Option<Uri>, resolve: (Uri, Bytes) -> Option<Uri>, normalize: Uri -> Uri)

  /** The job properties `dropInternal` and `httpOnly`. */
  datatype Config = Config(dropInternal: bool, httpOnly: bool)

  /** ASCII lower case of a property value. */
  function LowerText(s: string): (r: string)
    ensures |r| == |s|
    ensures forall i :: 0 <= i < |s| ==> r[i] == if 'A' <= s[i] <= 'Z' then (s[i] as int + 32) as char else s[i]
  {
    seq(|s|, i requires 0 <= i < |s| => if 'A' <= s[i] <= 'Z' then (s[i] as int + 32) as char else s[i])
  }

  /** `configure`: a property is on when it is set and reads `true` in any case. */
  predicate Flag(property: Option<string>) {
    property.Some? && LowerText(property.value) == "true"
  }

  /** A flag is on for every spelling of `true` and for nothing else. */
  lemma {:induction false} FlagSpellings(s: string)
    ensures Flag(Some(s)) <==> |s| == 4 && (s[0] == 't' || s[0] == 'T') && (s[1] == 'r' || s[1] == 'R')
                                         && (s[2] == 'u' || s[2] == 'U') && (s[3] == 'e' || s[3] == 'E')
  {
    if |s| == 4 {
      var l := LowerText(s);
      assert l == "true" <==> l[0] == 't' && l[1] == 'r' && l[2] == 'u' && l[3] == 'e';
    }
  }

  /** The scheme `http`. */
  const Http: Bytes := [104, 116, 116, 112]

  /** The fragment mark `#`. */
  const Hash: Byte := 35

  /** A `:` with no `.`, `/` or earlier `:` before it, from `offset`, ends a scheme. */
  predicate SchemeColonAt(v: ByteSeq, k: int)
    requires v.Valid()
  {
    v.offset <= k < v.end && Is(v.buf[k], ':')
    && forall j :: v.offset <= j < k ==> !Is(v.buf[j], '.') && !Is(v.buf[j], '/') && !Is(v.buf[j], ':')
  }

  /** The scan of `hasScheme` from position `i`. */
  function SchemeFrom(v: ByteSeq, i: int): bool
    requires v.Valid() && v.offset <= i <= v.end
    decreases v.end - i
  {
    if i == v.end then false
    else if Is(v.buf[i], '.') || Is(v.buf[i], '/') then false
    else if Is(v.buf[i], ':') then true
    else SchemeFrom(v, i + 1)
  }

  /** `hasScheme(url)`: a `:` comes before any `.` or `/`. */
  function HasScheme(v: ByteSeq): bool
    requires v.Valid()
  {
    SchemeFrom(v, v.offset)
  }

  lemma {:induction false} SchemeFromIff(v: ByteSeq, i: int)
    requires v.Valid() && v.offset <= i <= v.end
    requires forall j :: v.offset <= j < i ==> !Is(v.buf[j], '.') && !Is(v.buf[j], '/') && !Is(v.buf[j], ':')
    ensures SchemeFrom(v, i) <==> exists k :: SchemeColonAt(v, k)
    decreases v.end - i
  {
    if i < v.end {
      if Is(v.buf[i], '.') || Is(v.buf[i], '/') {
        NoColonPast(v, i);
      } else if Is(v.buf[i], ':') {
        assert SchemeColonAt(v, i);
      } else {
        SchemeFromIff(v, i + 1);
      }
    } else {
      NoColonPast(v, i);
    }
  }

  /** Once a `.` or `/` is reached, or the end, no later `:` ends a scheme. */
  lemma {:induction false} NoColonPast(v: ByteSeq, i: int)
    requires v.Valid() && v.offset <= i <= v.end
    requires i < v.end ==> Is(v.buf[i], '.') || Is(v.buf[i], '/')
    requires forall j :: v.offset <= j < i ==> !Is(v.buf[j], ':')
    ensures forall k :: !SchemeColonAt(v, k)
  {
    forall k | v.offset <= k < v.end && Is(v.buf[k], ':')
      ensures !SchemeColonAt(v, k)
    {
      assert k > i;
    }
  }

  /** `hasScheme` holds exactly when some `:` ends a scheme. */
  lemma {:induction false} HasSchemeIff(v: ByteSeq)
    requires v.Valid()
    ensures HasScheme(v) <==> exists k :: SchemeColonAt(v, k)
  {
    SchemeFromIff(v, v.offset);
  }

  /** `hasScheme` as the loop the mapper runs. */
  method HasSchemeLoop(v: ByteSeq) returns (r: bool)
    requires v.Valid()
    ensures r == HasScheme(v)
  {
    var i := v.offset;
    while i < v.end
      invariant v.offset <= i <= v.end
      invariant SchemeFrom(v, i) == HasScheme(v)
      decreases v.end - i
    {
      if Is(v.buf[i], '.') || Is(v.buf[i], '/') {
        return false;
      } else if Is(v.buf[i], ':') {
        return true;
      }
      i := i + 1;
    }
    return false;
  }

  /** The mapper's fragment strip: only a `#` after the first character cuts the text. */
  function StripFragment(s: Bytes): (r: Bytes)
    ensures r <= s
    ensures Hash !in s || s[0] == Hash ==> r == s
    ensures r < s ==> s[|r|] == Hash && Hash !in r && |r| > 0
    ensures Hash in r ==> r == s && r[0] == Hash
  {
    var i := IndexOf(s, Hash);
    if i > 0 then s[..i] else s
  }

  /** `resolvedURI` for an absolute link: an empty path becomes `/`, any other path is normalized. */
  function Absolute(u: Uri, ops: UriOps): Option<Uri> {
    if u.path.None? || |u.path.value| == 0 then ops.resolve(u, [47]) else Some(ops.normalize(u))
  }

  /**
   * One `href` value: an absolute link is parsed and completed, then
   * dropped when `httpOnly` and not http, or `dropInternal` and on this
   * host; a relative link is resolved against the base unless
   * `dropInternal`, with no scheme check.  An exception drops the link.
   * So a kept link under `dropInternal` had a scheme and names another
   * host, and under `httpOnly` an absolute link is http.
   */
  function LinkUri(href: ByteSeq, base: Uri, thisHost: Bytes, cfg: Config, ops: UriOps): (r: Option<Uri>)
    requires href.Valid()
    ensures r.Some? && cfg.dropInternal ==> HasScheme(href) && r.value.host != Some(thisHost)
    ensures r.Some? && cfg.httpOnly && HasScheme(href) ==> r.value.scheme == Some(Http)
    ensures !HasScheme(href) ==> r == if cfg.dropInternal then None else ops.resolve(base, href.Text())
  {
    if HasScheme(href) then
      match ops.parse(href.Text())
      case None => None
      case Some(u) =>
        match Absolute(u, ops)
        case None => None
        case Some(w) =>
          if cfg.httpOnly && w.scheme != Some(Http) then None
          else if cfg.dropInternal && w.host == Some(thisHost) then None
          else Some(w)
    else if !cfg.dropInternal then ops.resolve(base, href.Text())
    else None
  }

  /**
   * The `href` values of the attributes of the open tag, in order: the
   * attribute loop of the anchor scan.  The key and value views keep only
   * their case flag from call to call, which is always off.
   */
  function TagHrefs(ep: ElementParser): (r: (seq<ByteSeq>, ElementParser))
    requires ep.Valid()
    ensures r.1.Valid() && r.1.name == ep.name && Advanced(ep.bss, r.1.bss)
    ensures forall i :: 0 <= i < |r.0| ==> r.0[i].Valid()
    decreases ep.bss.end - ep.bss.offset
  {
    var a := NextAttribute(ep, EmptySeq(), EmptySeq());
    if !a.ok then ([], a.parser)
    else
      var rest := TagHrefs(a.parser);
      var h := if Equals(a.key, "href") then [a.value] else [];
      AllValidAppend(h, rest.0);
      (h + rest.0, rest.1)
  }

  /** Two lists of valid views make a list of valid views. */
  lemma {:induction false} AllValidAppend(a: seq<ByteSeq>, b: seq<ByteSeq>)
    requires forall i :: 0 <= i < |a| ==> a[i].Valid()
    requires forall i :: 0 <= i < |b| ==> b[i].Valid()
    ensures forall i :: 0 <= i < |a + b| ==> (a + b)[i].Valid()
  {
    forall i | 0 <= i < |a + b|
      ensures (a + b)[i].Valid()
    {
      if i < |a| {
        assert (a + b)[i] == a[i];
      } else {
        assert (a + b)[i] == b[i - |a|];
      }
    }
  }

  /** The anchor scan: every `href` of every `<a` found from the cursor on, in document order. */
  function AnchorHrefs(ep: ElementParser): (r: seq<ByteSeq>)
    requires ep.Valid() && ep.name == "a"
    ensures forall i :: 0 <= i < |r| ==> r[i].Valid()
    decreases ep.bss.end - ep.bss.offset
  {
    var f := Find(ep);
    if !f.0 then []
    else
      var t := TagHrefs(f.1);
      t.0 + AnchorHrefs(t.1)
  }

  /** The attribute loop of the `<base>` lookup: the first attribute whose key `Equals` "href". */
  function FirstHref(ep: ElementParser): (r: Option<ByteSeq>)
    requires ep.Valid()
    ensures r.Some? ==> r.value.Valid() && r.value.buf == ep.bss.buf
    decreases ep.bss.end - ep.bss.offset
  {
    var a := NextAttribute(ep, EmptySeq(), EmptySeq());
    if !a.ok then None
    else if Equals(a.key, "href") then Some(a.value)
    else FirstHref(a.parser)
  }

  /** `FirstHref` is the first of the tag's `href` values. */
  lemma {:induction false} FirstHrefIsFirst(ep: ElementParser)
    requires ep.Valid()
    ensures FirstHref(ep) == if |TagHrefs(ep).0| == 0 then None else Some(TagHrefs(ep).0[0])
    decreases ep.bss.end - ep.bss.offset
  {
    var a := NextAttribute(ep, EmptySeq(), EmptySeq());
    if a.ok && !Equals(a.key, "href") {
      FirstHrefIsFirst(a.parser);
    }
  }

  /** The `href` of the `<base>` in the first `<head>`, looking at all of its attributes. */
  function BaseHref(bss: State): (r: Option<ByteSeq>)
    requires bss.Valid()
    ensures r.Some? ==> r.value.Valid()
  {
    var h := HeadContent(bss);
    if h.None? then None
    else
      var f := Find(Init(h.value.0, h.value.1, "base"));
      if !f.0 then None else FirstHref(f.1)
  }

  /**
   * The mapper's base URI and host: the `<base href>` when there is one,
   * else the record's own URL; `None` when parsing throws, when
   * `httpOnly` and the base is not http, or when it has no host.
   */
  function BaseOf(bss: State, url: Bytes, cfg: Config, ops: UriOps): (r: Option<(Uri, Bytes)>)
    requires bss.Valid()
    ensures r.Some? ==> r.value.0.host == Some(r.value.1)
    ensures r.Some? && cfg.httpOnly ==> r.value.0.scheme == Some(Http)
  {
    var href := BaseHref(bss);
    var base := if href.Some? then ops.parse(href.value.Text()) else ops.parse(url);
    if base.None? then None
    else if cfg.httpOnly && base.value.scheme != Some(Http) then None
    else if base.value.host.None? then None
    else Some((base.value, base.value.host.value))
  }

  /** The links kept, as the mapper emits them: fragment stripped, in order. */
  function Links(hrefs: seq<ByteSeq>, base: Uri, thisHost: Bytes, cfg: Config, ops: UriOps): (r: seq<Bytes>)
    requires forall i :: 0 <= i < |hrefs| ==> hrefs[i].Valid()
    ensures |r| <= |hrefs|
    decreases |hrefs|
  {
    if |hrefs| == 0 then []
    else
      var rest := Links(hrefs[1..], base, thisHost, cfg, ops);
      match LinkUri(hrefs[0], base, thisHost, cfg, ops)
      case None => rest
      case Some(w) => [StripFragment(w.text)] + rest
  }

  /** Every emitted link is the stripped text of a kept link for one of the `href` values. */
  lemma {:induction false} LinksKept(hrefs: seq<ByteSeq>, base: Uri, thisHost: Bytes, cfg: Config, ops: UriOps)
    requires forall i :: 0 <= i < |hrefs| ==> hrefs[i].Valid()
    ensures forall t :: t in Links(hrefs, base, thisHost, cfg, ops) ==>
              exists i :: 0 <= i < |hrefs| && LinkUri(hrefs[i], base, thisHost, cfg, ops).Some?
                          && t == StripFragment(LinkUri(hrefs[i], base, thisHost, cfg, ops).value.text)
    ensures |Links(hrefs, base, thisHost, cfg, ops)| == |hrefs| ==>
              forall i :: 0 <= i < |hrefs| ==> LinkUri(hrefs[i], base, thisHost, cfg, ops).Some?
    decreases |hrefs|
  {
    if |hrefs| > 0 {
      LinksKept(hrefs[1..], base, thisHost, cfg, ops);
      var rest := Links(hrefs[1..], base, thisHost, cfg, ops);
      forall t | t in Links(hrefs, base, thisHost, cfg, ops)
        ensures exists i :: 0 <= i < |hrefs| && LinkUri(hrefs[i], base, thisHost, cfg, ops).Some?
                            && t == StripFragment(LinkUri(hrefs[i], base, thisHost, cfg, ops).value.text)
      {
        if t in rest {
          var j :| 0 <= j < |hrefs[1..]| && LinkUri(hrefs[1..][j], base, thisHost, cfg, ops).Some?
                   && t == StripFragment(LinkUri(hrefs[1..][j], base, thisHost, cfg, ops).value.text);
          assert hrefs[1..][j] == hrefs[j + 1];
        } else {
          assert LinkUri(hrefs[0], base, thisHost, cfg, ops).Some?;
        }
      }
      if |Links(hrefs, base, thisHost, cfg, ops)| == |hrefs| {
        assert LinkUri(hrefs[0], base, thisHost, cfg, ops).Some?;
        forall i | 0 < i < |hrefs|
          ensures LinkUri(hrefs[i], base, thisHost, cfg, ops).Some?
        {
          assert hrefs[1..][i - 1] == hrefs[i];
        }
      }
    }
  }

  /** A cursor over the response, as `bss.init(responseBytes, offset, offset + length)` sets it. */
  function ResponseCursor(d: Document.Document): (s: State)
    requires d.Valid()
    ensures s.Valid() && s.buf == d.responseBase && s.offset == d.responseOffset
    ensures s.end == d.responseOffset + d.responseLength
  {
    State(d.responseBase, d.responseOffset, d.responseOffset + d.responseLength, false, 0, 0)
  }

  /**
   * Why the mapper throws: the record does not load, or the JVM knows no
   * charset of the name `getValidCharset` hands out (it does not check it).
   */
  datatype MapError = NotLoaded(cause: Document.LoadError) | UnsupportedCharset(name: Bytes)

  /**
   * `map(url, value)`: the stored value is loaded from offset 4; a load
   * error propagates.  Only 200 `text/html` responses count; for those the
   * URL is decoded with the document's charset, which throws when
   * `supported` (the JVM's charset table) rejects the name, even for a
   * response without a body.  Then, given a body, the base URL is emitted
   * followed by every kept anchor link.
   */
  function Map(url: Bytes, value: Bytes, cfg: Config, ops: UriOps, supported: Bytes -> bool): (r: Result<seq<Bytes>, MapError>)
  {
    match Document.Load(value, 4, |value| - 4)
    case Failure(e) => Failure(NotLoaded(e))
    case Success(d) =>
      Document.LoadLayout(value, 4, |value| - 4);
      MapDocument(d, url, cfg, ops, supported)
  }

  /** `map` once the document loaded: the gates, then the base URL and the kept links. */
  function MapDocument(d: Document.Document, url: Bytes, cfg: Config, ops: UriOps, supported: Bytes -> bool): (r: Result<seq<Bytes>, MapError>)
    requires d.Valid()
    ensures var bad := d.responseCode == 200 && d.sniff.contentType == Some(Ascii("text/html"))
                       && !supported(Document.ValidCharset(d));
            && (r.Failure? <==> bad)
            && (bad ==> r == Failure(UnsupportedCharset(Document.ValidCharset(d))))
  {
    if d.responseCode != 200 then Success([])
    else if d.sniff.contentType != Some(Ascii("text/html")) then Success([])
    else if !supported(Document.ValidCharset(d)) then Failure(UnsupportedCharset(Document.ValidCharset(d)))
    else if d.responseLength == 0 then Success([])
    else
      var bss := ResponseCursor(d);
      match BaseOf(bss, url, cfg, ops)
      case None => Success([])
      case Some(b) =>
        var hrefs := AnchorHrefs(Init(NewParser(), bss, "a"));
        Success([StripFragment(b.0.text)] + Links(hrefs, b.0, b.1, cfg, ops))
  }

  /**
   * The mapper throws the load error when the record does not load, and
   * otherwise exactly for a 200 `text/html` response whose charset name the
   * JVM does not support, naming that charset.
   */
  lemma {:induction false} MapFails(url: Bytes, value: Bytes, cfg: Config, ops: UriOps, supported: Bytes -> bool)
    ensures var l := Document.Load(value, 4, |value| - 4);
            l.Failure? ==> Map(url, value, cfg, ops, supported) == Failure(NotLoaded(l.error))
    ensures var l := Document.Load(value, 4, |value| - 4);
            l.Success? ==>
              var d := l.value;
              var bad := d.responseCode == 200 && d.sniff.contentType == Some(Ascii("text/html"))
                         && !supported(Document.ValidCharset(d));
              && (Map(url, value, cfg, ops, supported).Failure? <==> bad)
              && (bad ==> Map(url, value, cfg, ops, supported) == Failure(UnsupportedCharset(Document.ValidCharset(d))))
  {
    match Document.Load(value, 4, |value| - 4)
    case Failure(e) =>
    case Success(d) =>
      Document.LoadLayout(value, 4, |value| - 4);
  }

  /**
   * The mapper emits something only for a loaded 200 `text/html`
   * response with a supported charset and a body, and then first the base URL; with `httpOnly`
   * that base is http, and every later key is a kept link's text.
   */
  lemma {:induction false} MapGate(url: Bytes, value: Bytes, cfg: Config, ops: UriOps, supported: Bytes -> bool)
    ensures var r := Map(url, value, cfg, ops, supported);
            (r.Success? && |r.value| > 0 ==>
                  var d := Document.Load(value, 4, |value| - 4).value;
                  && d.responseCode == 200 && d.sniff.contentType == Some(Ascii("text/html"))
                  && supported(Document.ValidCharset(d)) && d.responseLength > 0
                  && exists base: Uri ::
                       && base.host.Some?
                       && (cfg.httpOnly ==> base.scheme == Some(Http))
                       && r.value[0] == StripFragment(base.text))
  {
    var r := Map(url, value, cfg, ops, supported);
    if r.Success? && |r.value| > 0 {
      var d := Document.Load(value, 4, |value| - 4).value;
      Document.LoadLayout(value, 4, |value| - 4);
      var b := BaseOf(ResponseCursor(d), url, cfg, ops).value;
      assert b.0.host.Some? && r.value[0] == StripFragment(b.0.text);
    }
  }

  /**
   * `reduce`: `int sum += long` narrows after every addition, so the sum
   * wraps at 32 bits; it is emitted unless `excludeSingles` and at most 1.
   */
  function ReduceSum(values: seq<int>): (sum: int)
    decreases |values|
  {
    if |values| == 0 then 0 else Wrap32(ReduceSum(values[..|values| - 1]) + values[|values| - 1])
  }

  function Total(values: seq<int>): int
    decreases |values|
  {
    if |values| == 0 then 0 else Total(values[..|values| - 1]) + values[|values| - 1]
  }

  /** Narrowing after each step is narrowing once at the end. */
  lemma {:induction false} ReduceSumWraps(values: seq<int>)
    ensures ReduceSum(values) == Wrap32(Total(values))
    decreases |values|
  {
    if |values| > 0 {
      var init := values[..|values| - 1];
      ReduceSumWraps(init);
      Wrap32Add(Total(init), values[|values| - 1]);
    }
  }

  lemma {:induction false} Wrap32Add(x: int, y: int)
    ensures Wrap32(Wrap32(x) + y) == Wrap32(x + y)
  {
    var m := 0x1_0000_0000;
    assert (Wrap32(x) - x) % m == 0;
    assert ((Wrap32(x) + y) - (x + y)) % m == 0;
    Wrap32Congruent(Wrap32(x) + y, x + y);
  }

  lemma {:induction false} Wrap32Congruent(a: int, b: int)
    requires (a - b) % 0x1_0000_0000 == 0
    ensures Wrap32(a) == Wrap32(b)
  {
    var m := 0x1_0000_0000;
    var k := (a - b) / m;
    assert a == b + k * m;
    assert a % m == b % m;
  }

  function Reduce(values: seq<int>, excludeSingles: bool): (r: Option<int>)
  {
    var sum := ReduceSum(values);
    if !excludeSingles || sum > 1 then Some(sum) else None
  }

  /**
   * For the mapper's counts, all 1: the reducer emits the number of
   * occurrences, dropping the URLs seen once when `excludeSingles`.
   */
  lemma {:induction false} ReduceCounts(n: nat, excludeSingles: bool)
    requires n <= MaxInt32
    ensures Reduce(seq(n, i => 1), excludeSingles) == if excludeSingles && n <= 1 then None else Some(n)
  {
    OnesTotal(n);
    ReduceSumWraps(seq(n, i => 1));
  }

  lemma {:induction false} OnesTotal(n: nat)
    ensures Total(seq(n, i => 1)) == n
    decreases n
  {
    if n > 0 {
      assert seq(n, i => 1)[..n - 1] == seq(n - 1, i => 1);
      OnesTotal(n - 1);
    }
  }
}
