/**
 * `URIUtils.ComputeHash`: a 64-bit identity hash of a URL held in a scan
 * state.  The URL is first turned into a canonical byte string (fragment
 * dropped, `www.` inserted after the authority, a trailing `index.*` or
 * `default.*` page dropped, a `/` added to an extension-less last segment,
 * the query kept), then digested; MD5 is a parameter.  The first eight digest
 * bytes are folded into a `long` that is shifted once too often.
 */
module UriHash {
  import opened Wrappers
  import opened Bytes
  import opened ByteScan

  /** How many bytes in `[i, j)` are the character `c`. */
  function Count(buf: Bytes, i: int, j: int, c: char): (n: nat)
    requires 0 <= i <= j <= |buf|
    ensures n <= j - i
    decreases j - i
  {
    if i == j then 0 else Count(buf, i, j - 1, c) + (if Is(buf[j - 1], c) then 1 else 0)
  }

  /** No byte of `[i, j)` is `c`. */
  predicate NoneOf(buf: Bytes, i: int, j: int, c: char)
    requires 0 <= i <= j <= |buf|
  {
    forall k :: i <= k < j ==> !Is(buf[k], c)
  }

  /**
   * What the first loop of `ComputeHash` records: how many `/` it counted,
   * where the authority and the last path segment start, and where the
   * query and the fragment are (`-1` for "not seen").
   */
  datatype Marks = Marks(slashes: nat, authority: int, lastComp: int, query: int, fragment: int)

  /** The start of the marks: nothing seen yet. */
  function NoMarks(): Marks {
    Marks(0, -1, -1, -1, -1)
  }

  /**
   * `m` is what the loop knows after reading `[o, i)`: no `#` yet; the first
   * `?`, if any; the `/` counted up to that `?`; the authority just after the
   * second of them and the last segment just after the last.
   */
  predicate Scanned(buf: Bytes, o: int, i: int, m: Marks)
    requires 0 <= o <= i <= |buf|
  {
    var qe := if m.query == -1 then i else m.query;
    && m.fragment == -1
    && NoneOf(buf, o, i, '#')
    && (m.query == -1 ==> NoneOf(buf, o, i, '?'))
    && (m.query != -1 ==> o <= m.query < i && Is(buf[m.query], '?') && NoneOf(buf, o, m.query, '?'))
    && m.slashes == Count(buf, o, qe, '/')
    && (m.authority == -1 <==> m.slashes < 2)
    && (m.authority != -1 ==>
          o < m.authority <= qe && Is(buf[m.authority - 1], '/') && Count(buf, o, m.authority - 1, '/') == 1)
    && (m.lastComp == -1 <==> m.slashes == 0)
    && (m.lastComp != -1 ==>
          o < m.lastComp <= qe && Is(buf[m.lastComp - 1], '/') && NoneOf(buf, m.lastComp, qe, '/'))
  }

  /** One iteration of the loop, before its `#` test: slashes and `?` count only until a query is seen. */
  function Advance(buf: Bytes, i: int, m: Marks): Marks
    requires 0 <= i < |buf|
  {
    if m.query != -1 then m
    else if Is(buf[i], '/') then
      m.(authority := if m.slashes == 1 then i + 1 else m.authority, lastComp := i + 1, slashes := m.slashes + 1)
    else if Is(buf[i], '?') then m.(query := i)
    else m
  }

  /** One more byte that is not `#` keeps the marks describing the bytes read. */
  lemma {:induction false} AdvanceScanned(buf: Bytes, o: int, i: int, m: Marks)
    requires 0 <= o <= i < |buf| && Scanned(buf, o, i, m) && !Is(buf[i], '#')
    ensures Scanned(buf, o, i + 1, Advance(buf, i, m))
  {
    var m1 := Advance(buf, i, m);
    if m.query == -1 && Is(buf[i], '/') {
      assert Count(buf, o, i + 1, '/') == m.slashes + 1;
      if m.slashes == 1 {
        assert Count(buf, o, m1.authority - 1, '/') == 1;
      }
    } else if m.query == -1 && !Is(buf[i], '?') {
      assert Count(buf, o, i + 1, '/') == m.slashes;
    }
  }

  /** The loop from `i` on: it stops at the end or at the first `#`. */
  function ScanFrom(buf: Bytes, o: int, e: int, i: int, m: Marks): (r: Marks)
    requires 0 <= o <= i <= e <= |buf| && Scanned(buf, o, i, m)
    ensures r.fragment == -1 ==> Scanned(buf, o, e, r)
    ensures r.fragment != -1 ==> i <= r.fragment < e && Is(buf[r.fragment], '#')
                                 && Scanned(buf, o, r.fragment, r.(fragment := -1))
    decreases e - i
  {
    if i == e then m
    else if Is(buf[i], '#') then m.(fragment := i)
    else
      AdvanceScanned(buf, o, i, m);
      ScanFrom(buf, o, e, i + 1, Advance(buf, i, m))
  }

  /** The first loop of `ComputeHash` over `[o, e)`. */
  function Scan(buf: Bytes, o: int, e: int): (r: Marks)
    requires 0 <= o <= e <= |buf|
    ensures r.fragment == -1 ==> Scanned(buf, o, e, r)
    ensures r.fragment != -1 ==> o <= r.fragment < e && Is(buf[r.fragment], '#')
                                 && Scanned(buf, o, r.fragment, r.(fragment := -1))
  {
    ScanFrom(buf, o, e, o, NoMarks())
  }

  /** The view, after `index.` or `default.` was skipped, is exactly one of the listed page extensions. */
  predicate PageExtension(s: State)
    requires s.Valid()
  {
    var v := s.View();
    var n := s.end - s.offset;
    || (n == 3 && (StartsWith(v, "asp") || StartsWith(v, "cfm") || StartsWith(v, "jsp")
                   || StartsWith(v, "htm") || StartsWith(v, "php")))
    || (n == 4 && (StartsWith(v, "html") || StartsWith(v, "shtm")))
    || (n == 5 && (StartsWith(v, "dhtml") || StartsWith(v, "shtml") || StartsWith(v, "xhtml")))
  }

  /** The cursor after trying to skip `index.`, then `default.`. */
  function SkipPageName(s: State): (r: Step)
    requires s.Valid()
    ensures r.st.Valid()
    ensures r.ok <==> StartsWith(s.View(), "index.") || StartsWith(s.View(), "default.")
    ensures r.st == s.(offset := r.st.offset)
  {
    var i := StartsWithSkip(s, "index.");
    if i.ok then i else StartsWithSkip(s, "default.")
  }

  /** The segment at the cursor is an index page: `index.` or `default.` and one listed extension. */
  predicate IsIndexPage(s: State)
    requires s.Valid()
  {
    var p := SkipPageName(s);
    p.ok && PageExtension(p.st)
  }

  /**
   * The positions `ComputeHash` works with once an authority was found:
   * `end` is the URL's end with the fragment cut off, the path is hashed
   * up to `pathEnd`, then a `/` if `addSlash`, and `www` says whether
   * `www.` is inserted after the authority prefix.
   */
  datatype Parts = Parts(authority: int, lastComp: int, query: int, end: int,
                         pathEnd: int, addSlash: bool, www: bool)

  /** The well-formedness the positions of `Parts` satisfy within a URL starting at `o`. */
  predicate PartsFit(buf: Bytes, o: int, p: Parts) {
    && 0 <= o < p.authority <= p.lastComp <= p.pathEnd <= p.end <= |buf|
    && (p.query != -1 ==> p.pathEnd <= p.query < p.end)
  }

  /** The end of the path proper: the query, or the end of the URL. */
  function PathLimit(m: Marks, end: int): int {
    if m.query == -1 then end else m.query
  }

  /** Where the URL ends once the fragment is cut off. */
  function ScanEnd(m: Marks, e: int): int {
    if m.fragment != -1 then m.fragment else e
  }

  /** The start of the last path segment; with only the two `/` of `//`, the path is empty. */
  function LastComp(m: Marks, end: int): int {
    if m.slashes == 2 then PathLimit(m, end) else m.lastComp
  }

  /** A `/` is added when the last segment has no `.` and the path does not already end in `/`. */
  predicate AddSlash(buf: Bytes, lastComp: int, limit: int)
    requires 0 <= lastComp <= limit <= |buf| && 0 < limit
  {
    CharIndex(buf, lastComp, limit, '.') == limit && !Is(buf[limit - 1], '/')
  }

  /**
   * Everything `ComputeHash` decides before digesting: an empty view
   * and a missing authority give `None` (the source returns 0); otherwise
   * the positions to hash.
   */
  function Analyse(st: State): (r: Option<Parts>)
    requires st.Valid()
    ensures r.Some? ==> PartsFit(st.buf, st.offset, r.value)
  {
    if st.offset == st.end then None else Locate(st, Scan(st.buf, st.offset, st.end))
  }

  /** The decisions once the scan `m` of the view is known. */
  function Locate(st: State, m: Marks): (r: Option<Parts>)
    requires st.Valid() && m == Scan(st.buf, st.offset, st.end)
    ensures r.Some? ==> PartsFit(st.buf, st.offset, r.value)
  {
    if m.authority == -1 then None
    else
      var end := ScanEnd(m, st.end);
      var lastComp := LastComp(m, end);
      var limit := PathLimit(m, end);
      AuthorityBeforeLastComp(st.buf, st.offset, end, m.(fragment := -1));
      var strip := IsIndexPage(st.(offset := lastComp, end := end));
      Some(Parts(m.authority, lastComp, m.query, end,
                 if strip then lastComp else limit,
                 !strip && AddSlash(st.buf, lastComp, limit),
                 !StartsWith(ByteSeq(st.buf, m.authority, end, st.caseSensitive), "www.")))
  }

  /** Every count of `c` over `[i, k)` splits at any `j` between. */
  lemma {:induction false} CountSplit(buf: Bytes, i: int, j: int, k: int, c: char)
    requires 0 <= i <= j <= k <= |buf|
    ensures Count(buf, i, k, c) == Count(buf, i, j, c) + Count(buf, j, k, c)
    decreases k - j
  {
    if j < k {
      CountSplit(buf, i, j, k - 1, c);
    }
  }

  /** A range holding no `c` counts none. */
  lemma {:induction false} CountNone(buf: Bytes, i: int, j: int, c: char)
    requires 0 <= i <= j <= |buf| && NoneOf(buf, i, j, c)
    ensures Count(buf, i, j, c) == 0
    decreases j - i
  {
    if i < j {
      CountNone(buf, i, j - 1, c);
    }
  }

  /** With at least three slashes, the last segment starts after the authority's slash. */
  lemma {:induction false} AuthorityBeforeLastComp(buf: Bytes, o: int, i: int, m: Marks)
    requires 0 <= o <= i <= |buf| && Scanned(buf, o, i, m) && m.authority != -1
    ensures m.slashes > 2 ==> m.authority < m.lastComp
    ensures m.authority <= m.lastComp
  {
    var qe := if m.query == -1 then i else m.query;
    CountSplit(buf, o, m.authority - 1, qe, '/');
    CountSplit(buf, m.authority - 1, m.authority, qe, '/');
    if m.lastComp == m.authority {
      CountNone(buf, m.authority, qe, '/');
    }
  }

  /**
   * The bytes handed to the digest: the URL up to the authority, `www.`
   * unless already there, the path up to `pathEnd`, maybe a `/`, and the
   * query up to the fragment.  `None` where the source returns 0 at once.
   */
  function HashInput(st: State): (r: Option<Bytes>)
    requires st.Valid()
    ensures r.Some? <==> Analyse(st).Some?
  {
    match Analyse(st)
    case None => None
    case Some(p) => Some(Assemble(st.buf, st.offset, p))
  }

  function WwwPart(p: Parts): Bytes {
    if p.www then Ascii("www.") else []
  }

  function SlashPart(p: Parts): Bytes {
    if p.addSlash then Ascii("/") else []
  }

  function QueryPart(buf: Bytes, o: int, p: Parts): Bytes
    requires PartsFit(buf, o, p)
  {
    if p.query != -1 then buf[p.query..p.end] else []
  }

  /** The five pieces in the order they are fed to the digest. */
  function Assemble(buf: Bytes, o: int, p: Parts): Bytes
    requires PartsFit(buf, o, p)
  {
    buf[o..p.authority] + WwwPart(p) + buf[p.authority..p.pathEnd] + SlashPart(p) + QueryPart(buf, o, p)
  }

  /** Where each piece sits in the assembled input. */
  lemma {:induction false} AssembleLayout(buf: Bytes, o: int, p: Parts)
    requires PartsFit(buf, o, p)
    ensures var x := Assemble(buf, o, p);
            var a := p.authority - o;
            var w := a + |WwwPart(p)|;
            var z := w + (p.pathEnd - p.authority);
            && |x| == z + |SlashPart(p)| + |QueryPart(buf, o, p)|
            && x[..a] == buf[o..p.authority]
            && x[a..w] == WwwPart(p)
            && x[w..z] == buf[p.authority..p.pathEnd]
            && x[z..z + |SlashPart(p)|] == SlashPart(p)
            && x[z + |SlashPart(p)|..] == QueryPart(buf, o, p)
  {
  }

  /** The caller's state afterwards: the view ends at the fragment and the cursor sits on the authority. */
  function HashState(st: State): (r: State)
    requires st.Valid()
    ensures r.Valid() && r.buf == st.buf && r.caseSensitive == st.caseSensitive
    ensures r.end <= st.end
  {
    match Analyse(st)
    case None => st
    case Some(p) => st.(offset := p.authority, end := p.end)
  }

  const Two64: int := 0x1_0000_0000_0000_0000

  /** An MD5 digest: sixteen bytes. */
  type Digest = d: Bytes | |d| == 16 witness seq(16, i => 0)

  /**
   * The fold of lines 167-168 on the unsigned 64-bit pattern of `lval`: or
   * in byte `i`, then shift left by 8.  The low byte of `acc` is always 0,
   * so the `|` is an addition.
   */
  function Fold(d: Bytes, i: nat, acc: nat): (r: nat)
    requires i <= 8 <= |d| && acc < Two64 && acc % 256 == 0
    decreases 8 - i
  {
    if i == 8 then acc
    else
      ShiftKeepsLowByteZero(acc + d[i]);
      Fold(d, i + 1, ((acc + d[i]) * 256) % Two64)
  }

  /** A 64-bit pattern read as a Java `long`. */
  function ToLong(u: int): int {
    if u < Two64 / 2 then u else u - Two64
  }

  /** The `long` that `ComputeHash` returns for a digest. */
  function DigestToLong(d: Digest): int {
    ToLong(Fold(d, 0, 0))
  }

  /** `ComputeHash`: 0 without an authority, otherwise the folded digest of the hash input. */
  function ComputeHash(st: State, md5: Bytes -> Digest): (r: (int, State))
    requires st.Valid()
    ensures r.1 == HashState(st)
    ensures HashInput(st).None? ==> r.0 == 0
    ensures HashInput(st).Some? ==> r.0 == ToLong(256 * BigEndian(md5(HashInput(st).value)[1..8]))
  {
    var h := match HashInput(st) case None => 0 case Some(x) => DigestToLong(md5(x));
    if HashInput(st).Some? then DigestToLongValue(md5(HashInput(st).value)); (h, HashState(st))
    else (h, HashState(st))
  }

  lemma {:induction false} ShiftKeepsLowByteZero(x: nat)
    ensures ((x * 256) % Two64) % 256 == 0
  {
    var y := x * 256;
    assert y == (y / Two64) * Two64 + y % Two64;
    assert Two64 == 256 * 0x100_0000_0000_0000;
    assert y % Two64 == 256 * (x - (y / Two64) * 0x100_0000_0000_0000);
  }

  /** Bytes read as a big-endian number, by Horner's rule from the value `v` already read. */
  function Horner(v: int, s: Bytes): int
    decreases |s|
  {
    if |s| == 0 then v else Horner(v * 256 + s[0], s[1..])
  }

  function BigEndian(s: Bytes): int {
    Horner(0, s)
  }

  function Pow256(n: nat): nat {
    if n == 0 then 1 else 256 * Pow256(n - 1)
  }

  /** The fold without the 64-bit truncation. */
  function FoldWide(d: Bytes, i: nat, acc: int): int
    requires i <= 8 <= |d|
    decreases 8 - i
  {
    if i == 8 then acc else FoldWide(d, i + 1, (acc + d[i]) * 256)
  }

  /** Truncating at every step is truncating once at the end. */
  lemma {:induction false} FoldTruncates(d: Bytes, i: nat, acc: nat)
    requires i <= 8 <= |d| && acc < Two64 && acc % 256 == 0
    ensures Fold(d, i, acc) == FoldWide(d, i, acc) % Two64
    decreases 8 - i
  {
    if i < 8 {
      ShiftKeepsLowByteZero(acc + d[i]);
      var y := (acc + d[i]) * 256;
      FoldTruncates(d, i + 1, y % Two64);
      FoldWideMod(d, i + 1, y);
    }
  }

  /** The wide fold only ever shifts left, so truncation commutes with it. */
  lemma {:induction false} FoldWideMod(d: Bytes, i: nat, acc: nat)
    requires i <= 8 <= |d|
    ensures FoldWide(d, i, acc % Two64) % Two64 == FoldWide(d, i, acc) % Two64
    decreases 8 - i
  {
    if i < 8 {
      var q := acc / Two64;
      var a := acc % Two64;
      assert acc == q * Two64 + a;
      assert (acc + d[i]) * 256 == (a + d[i]) * 256 + (q * 256) * Two64;
      ModMultiple((a + d[i]) * 256, q * 256);
      FoldWideMod(d, i + 1, (a + d[i]) * 256);
      FoldWideMod(d, i + 1, (acc + d[i]) * 256);
    }
  }

  lemma {:induction false} ModMultiple(x: nat, k: nat)
    ensures (x + k * Two64) % Two64 == x % Two64
  {
  }

  /** The wide fold from `256 * v` is 256 times the big-endian value, `v` first. */
  lemma {:induction false} FoldHorner(d: Bytes, i: nat, v: int)
    requires i <= 8 <= |d|
    ensures FoldWide(d, i, 256 * v) == 256 * Horner(v, d[i..8])
    decreases 8 - i
  {
    if i < 8 {
      assert d[i..8][1..] == d[i + 1..8];
      FoldHorner(d, i + 1, v * 256 + d[i]);
    }
  }

  /** Horner's rule from `v` adds `v` shifted past all of `s`. */
  lemma {:induction false} HornerShift(v: int, s: Bytes)
    ensures Horner(v, s) == v * Pow256(|s|) + Horner(0, s)
    decreases |s|
  {
    if |s| > 0 {
      HornerShift(v * 256 + s[0], s[1..]);
      HornerShift(s[0], s[1..]);
      assert Pow256(|s|) == 256 * Pow256(|s| - 1);
    }
  }

  /** `n` bytes make a number below `256^n`. */
  lemma {:induction false} HornerBound(s: Bytes)
    ensures 0 <= Horner(0, s) < Pow256(|s|)
    decreases |s|
  {
    if |s| > 0 {
      var b: int := s[0];
      var p := Pow256(|s| - 1);
      var h := Horner(0, s[1..]);
      assert Horner(0, s) == Horner(b, s[1..]);
      HornerShift(b, s[1..]);
      HornerBound(s[1..]);
      assert Pow256(|s|) == 256 * p;
      ByteTimes(b, p);
    }
  }

  /** A byte times a non-negative number is at most 255 times it. */
  lemma {:induction false} ByteTimes(b: int, p: int)
    requires 0 <= b <= 255 && 0 <= p
    ensures 0 <= b * p <= 255 * p
  {
  }

  /**
   * The value `ComputeHash` derives from a digest: bytes 1 to 7, big-endian,
   * shifted left by one byte.  Byte 0 is shifted out and the low byte is 0.
   */
  lemma {:induction false} DigestToLongValue(d: Digest)
    ensures DigestToLong(d) == ToLong(256 * BigEndian(d[1..8]))
  {
    var w := BigEndian(d[1..8]);
    FoldTruncates(d, 0, 0);
    FoldHorner(d, 0, 0);
    assert d[0..8][1..] == d[1..8];
    assert Horner(0, d[0..8]) == Horner(d[0], d[1..8]);
    HornerShift(d[0], d[1..8]);
    HornerBound(d[1..8]);
    SevenBytes();
    var b0: int := d[0];
    var top: int := b0 * 0x100_0000_0000_0000;
    assert Horner(0, d[0..8]) == top + w;
    assert FoldWide(d, 0, 0) == 256 * top + 256 * w;
    assert 256 * top == b0 * Two64;
    ModMultiple(256 * w, b0);
    assert FoldWide(d, 0, 0) == 256 * w + b0 * Two64;
    assert 0 <= 256 * w < Two64;
    SmallMod(256 * w);
  }

  lemma {:induction false} SmallMod(x: int)
    requires 0 <= x < Two64
    ensures x % Two64 == x
  {
  }

  lemma {:induction false} SevenBytes()
    ensures Pow256(7) == 0x100_0000_0000_0000
  {
    assert Pow256(3) == 0x100_0000;
    assert Pow256(7) == 256 * 256 * 256 * 256 * Pow256(3);
  }

  /** The first digest byte never reaches the hash. */
  lemma {:induction false} FirstDigestByteLost(d1: Digest, d2: Digest)
    requires d1[1..8] == d2[1..8]
    ensures DigestToLong(d1) == DigestToLong(d2)
  {
    DigestToLongValue(d1);
    DigestToLongValue(d2);
  }

  /** The low byte of every hash is 0. */
  lemma {:induction false} HashLowByteZero(d: Digest)
    ensures DigestToLong(d) % 256 == 0
  {
    DigestToLongValue(d);
    var w := BigEndian(d[1..8]);
    if 256 * w >= Two64 / 2 {
      assert 256 * w - Two64 == 256 * (w - 0x100_0000_0000_0000);
      MultipleOf256(w - 0x100_0000_0000_0000);
    } else {
      MultipleOf256(w);
    }
  }

  lemma {:induction false} MultipleOf256(k: int)
    ensures (256 * k) % 256 == 0
  {
  }

  /** Scanning to `k` and then on to `e` is scanning to `e`, when no `#` comes before `k`. */
  lemma {:induction false} ScanSplit(buf: Bytes, o: int, e: int, i: int, k: int, m: Marks)
    requires 0 <= o <= i <= k <= e <= |buf| && Scanned(buf, o, i, m) && NoneOf(buf, i, k, '#')
    ensures ScanFrom(buf, o, k, i, m).fragment == -1
    ensures ScanFrom(buf, o, e, i, m) == ScanFrom(buf, o, e, k, ScanFrom(buf, o, k, i, m))
    decreases k - i
  {
    if i < k {
      AdvanceScanned(buf, o, i, m);
      ScanSplit(buf, o, e, i + 1, k, Advance(buf, i, m));
    }
  }

  /** Bytes that are none of `/`, `?` and `#` leave the marks alone. */
  lemma {:induction false} ScanQuiet(buf: Bytes, o: int, e: int, k: int, m: Marks)
    requires 0 <= o <= k <= e <= |buf| && Scanned(buf, o, k, m)
    requires NoneOf(buf, k, e, '/') && NoneOf(buf, k, e, '?') && NoneOf(buf, k, e, '#')
    ensures ScanFrom(buf, o, e, k, m) == m
    decreases e - k
  {
    if k < e {
      AdvanceScanned(buf, o, k, m);
      assert Advance(buf, k, m) == m;
      ScanQuiet(buf, o, e, k + 1, m);
    }
  }

  /** The scan of a URL with a fragment at `f` is the scan of the URL cut at `f`, plus the fragment. */
  lemma {:induction false} ScanFragment(buf: Bytes, o: int, e: int, f: int)
    requires 0 <= o <= f < e <= |buf| && Is(buf[f], '#') && NoneOf(buf, o, f, '#')
    ensures Scan(buf, o, f).fragment == -1
    ensures Scan(buf, o, e) == Scan(buf, o, f).(fragment := f)
  {
    ScanSplit(buf, o, e, o, f, NoMarks());
  }

  /**
   * Nothing from the first `#` on reaches the digest: the URL hashes as if
   * it ended there, and the caller's view is cut there.
   */
  lemma {:induction false} FragmentIgnored(st: State, f: int)
    requires st.Valid() && st.offset <= f < st.end
    requires Is(st.buf[f], '#') && NoneOf(st.buf, st.offset, f, '#')
    ensures HashInput(st) == HashInput(st.(end := f))
    ensures HashInput(st).Some? ==> HashState(st).end == f
  {
    ScanFragment(st.buf, st.offset, st.end, f);
    assert Analyse(st) == Analyse(st.(end := f));
  }

  /** A byte that matches a character of `www.` is neither `/` nor `?`. */
  lemma {:induction false} WwwByte(b: Byte, c: char, cs: bool)
    requires (c == 'w' || c == '.') && Match(b, c, cs)
    ensures !Is(b, '/') && !Is(b, '?')
  {
  }

  /** A byte that is not `.` does not match `.`, whatever the case flag. */
  lemma {:induction false} NotDotNoMatch(b: Byte, cs: bool)
    requires !Is(b, '.')
    ensures !Match(b, '.', cs)
  {
  }

  /**
   * The `www.` test at the authority `a` gives the same answer on views
   * ending at `k` and at `e >= k`, when a `/` sits at `k - 1` or at `k`.
   */
  lemma {:induction false} WwwTestStable(st: State, a: int, j: int, k: int, e: int)
    requires 0 <= a <= j < e <= |st.buf| && k <= e && k - 1 <= j <= k && Is(st.buf[j], '/')
    ensures StartsWith(ByteSeq(st.buf, a, k, st.caseSensitive), "www.")
        == StartsWith(ByteSeq(st.buf, a, e, st.caseSensitive), "www.")
  {
    if a + 4 > k && a + 4 <= e {
      var i := j - a;
      if Match(st.buf[j], "www."[i], st.caseSensitive) {
        WwwByte(st.buf[j], "www."[i], st.caseSensitive);
      }
    }
  }

  /**
   * An index page hashes like its directory: `http://host/dir/index.html`
   * and `http://host/dir/` give the same hash input, for every listed
   * extension and for `default.` as well.
   */
  lemma {:induction false} IndexPageIsDirectory(st: State, k: int)
    requires st.Valid() && st.offset < k <= st.end
    requires NoneOf(st.buf, st.offset, st.end, '?') && NoneOf(st.buf, st.offset, st.end, '#')
    requires Is(st.buf[k - 1], '/') && NoneOf(st.buf, k, st.end, '/')
    requires Count(st.buf, st.offset, k, '/') >= 3
    requires IsIndexPage(st.(offset := k))
    ensures HashInput(st).Some?
    ensures HashInput(st) == HashInput(st.(end := k))
  {
    var buf, o, e := st.buf, st.offset, st.end;
    ScanSplit(buf, o, e, o, k, NoMarks());
    var m := Scan(buf, o, k);
    ScanQuiet(buf, o, e, k, m);
    assert Scan(buf, o, e) == m;
    assert m.lastComp == k;
    WwwTestStable(st, m.authority, k - 1, k, e);
    IndexPageSide(st, k, m);
    IndexPageSide(st.(end := k), k, m);
  }

  /**
   * The parts of a view whose path ends at the segment `k`, with an index
   * page name there or nothing at all: the path is cut at `k` and no `/`
   * is added.
   */
  lemma {:induction false} IndexPageSide(st: State, k: int, m: Marks)
    requires st.Valid() && st.offset < k <= st.end && m == Scan(st.buf, st.offset, st.end)
    requires m.fragment == -1 && m.authority != -1 && m.query == -1 && m.slashes >= 3 && m.lastComp == k
    requires k == st.end || IsIndexPage(st.(offset := k))
    ensures Analyse(st).Some?
    ensures var p := Analyse(st).value;
            && p.authority == m.authority && p.pathEnd == k && !p.addSlash && p.query == -1
            && p.www == !StartsWith(ByteSeq(st.buf, m.authority, st.end, st.caseSensitive), "www.")
  {
    AuthorityDecision(st, m);
    if k == st.end {
      assert !SkipPageName(st.(offset := k)).ok;
    } else {
      assert IsIndexPage(st.(offset := k, end := st.end));
    }
  }


  /** `index.html` at `k`. */
  predicate IndexHtmlAt(buf: Bytes, k: int) {
    && 0 <= k && k + 10 <= |buf|
    && buf[k] == 105 && buf[k + 1] == 110 && buf[k + 2] == 100 && buf[k + 3] == 101 && buf[k + 4] == 120
    && buf[k + 5] == 46 && buf[k + 6] == 104 && buf[k + 7] == 116 && buf[k + 8] == 109 && buf[k + 9] == 108
  }

  /**
   * A query keeps the index page: the page test measures the segment up to
   * the end of the URL, query included, so `http://host/dir/index.html?q`
   * hashes its path through `index.html` to the `?`, where the same URL
   * without the query hashes as `http://host/dir/`.
   */
  lemma {:induction false} IndexPageKeptBeforeQuery(st: State, k: int)
    requires st.Valid() && st.offset < k && k + 10 < st.end
    requires NoneOf(st.buf, st.offset, st.end, '#') && NoneOf(st.buf, st.offset, k, '?')
    requires Is(st.buf[k - 1], '/') && Count(st.buf, st.offset, k, '/') >= 3
    requires IndexHtmlAt(st.buf, k) && Is(st.buf[k + 10], '?')
    ensures HashInput(st).Some?
    ensures var p := Analyse(st).value;
            p.lastComp == k && p.pathEnd == k + 10 && p.query == k + 10 && !p.addSlash
  {
    var m := Scan(st.buf, st.offset, st.end);
    IndexHtmlPlain(st.buf, st.offset, k);
    SegmentQueryScan(st.buf, st.offset, st.end, k, k + 10);
    QueriedPageKept(st, k, m);
  }

  /** `index.html` holds no `/` and no `?`. */
  lemma {:induction false} IndexHtmlPlain(buf: Bytes, o: int, k: int)
    requires 0 <= o <= k && IndexHtmlAt(buf, k) && NoneOf(buf, o, k, '?')
    ensures NoneOf(buf, k, k + 10, '/') && NoneOf(buf, o, k + 10, '?')
  {
  }

  /** Once a query is seen, only a `#` changes the marks. */
  lemma {:induction false} ScanQueried(buf: Bytes, o: int, e: int, i: int, m: Marks)
    requires 0 <= o <= i <= e <= |buf| && Scanned(buf, o, i, m) && m.query != -1
    requires NoneOf(buf, i, e, '#')
    ensures ScanFrom(buf, o, e, i, m) == m
    decreases e - i
  {
    if i < e {
      AdvanceScanned(buf, o, i, m);
      ScanQueried(buf, o, e, i + 1, m);
    }
  }

  /** With those marks the page test fails and the path runs to the `?`. */
  lemma {:induction false} QueriedPageKept(st: State, k: int, m: Marks)
    requires st.Valid() && st.offset < k && k + 10 < st.end && IndexHtmlAt(st.buf, k)
    requires m == Scan(st.buf, st.offset, st.end)
    requires m.fragment == -1 && m.slashes >= 3 && m.authority != -1 && m.lastComp == k && m.query == k + 10
    ensures HashInput(st).Some?
    ensures var p := Analyse(st).value;
            p.lastComp == k && p.pathEnd == k + 10 && p.query == k + 10 && !p.addSlash
  {
    var s := st.(offset := k);
    QueriedNotPage(s);
    assert CharIndex(st.buf, k, k + 10, '.') == k + 5 by {
      assert Is(st.buf[k + 5], '.');
    }
  }

  /** `index.html` followed by a query is not an index page. */
  lemma {:induction false} QueriedNotPage(s: State)
    requires s.Valid() && s.offset + 10 < s.end && IndexHtmlAt(s.buf, s.offset)
    ensures !IsIndexPage(s)
  {
    var k := s.offset;
    var cs := s.caseSensitive;
    assert StartsWith(s.View(), "index.") by {
      assert forall j :: 0 <= j < 6 ==> Match(s.buf[k + j], "index."[j], cs);
    }
    var p := SkipPageName(s);
    assert p.st.offset == k + 6;
    if p.st.end - p.st.offset == 5 {
      assert !Match(s.buf[k + 6 + 0], "dhtml"[0], cs);
      assert !Match(s.buf[k + 6 + 0], "shtml"[0], cs);
      assert !Match(s.buf[k + 6 + 0], "xhtml"[0], cs);
    }
  }

  /** A byte matching a lower-case letter or `.` of a pattern is not `?`. */
  lemma {:induction false} PatternNotQuery(v: ByteSeq, p: string, k: int)
    requires v.Valid() && StartsWith(v, p) && v.offset <= k < v.offset + |p|
    requires forall n :: 0 <= n < |p| ==> 'a' <= p[n] <= 'z' || p[n] == '.'
    ensures !Is(v.buf[k], '?')
  {
    assert Match(v.buf[v.offset + (k - v.offset)], p[k - v.offset], v.caseSensitive);
  }

  /** No byte of a listed page extension is `?`. */
  lemma {:induction false} ExtensionHasNoQuery(t: State, k: int)
    requires t.Valid() && PageExtension(t) && t.offset <= k < t.end
    ensures !Is(t.buf[k], '?')
  {
    var w := t.View();
    var n := w.end - w.offset;
    if n == 3 {
      if StartsWith(w, "asp") { PatternNotQuery(w, "asp", k); }
      else if StartsWith(w, "cfm") { PatternNotQuery(w, "cfm", k); }
      else if StartsWith(w, "jsp") { PatternNotQuery(w, "jsp", k); }
      else if StartsWith(w, "htm") { PatternNotQuery(w, "htm", k); }
      else { PatternNotQuery(w, "php", k); }
    } else if n == 4 {
      if StartsWith(w, "html") { PatternNotQuery(w, "html", k); }
      else { PatternNotQuery(w, "shtm", k); }
    } else {
      if StartsWith(w, "dhtml") { PatternNotQuery(w, "dhtml", k); }
      else if StartsWith(w, "shtml") { PatternNotQuery(w, "shtml", k); }
      else { PatternNotQuery(w, "xhtml", k); }
    }
  }

  /** Every byte of an index page is a letter or `.`, so none is `?`. */
  lemma {:induction false} PageHasNoQuery(s: State, k: int)
    requires s.Valid() && IsIndexPage(s) && s.offset <= k < s.end
    ensures !Is(s.buf[k], '?')
  {
    var p := SkipPageName(s);
    var v := s.View();
    if k < p.st.offset {
      if StartsWith(v, "index.") {
        assert p.st.offset == s.offset + 6;
        PatternNotQuery(v, "index.", k);
      } else {
        assert p.st.offset == s.offset + 8;
        PatternNotQuery(v, "default.", k);
      }
    } else {
      ExtensionHasNoQuery(p.st, k);
    }
  }

  /**
   * Index stripping never fires on a URL with a query: the last segment then
   * runs into the query's `?`, which no index page contains, so the path is
   * hashed up to the query.
   */
  lemma {:induction false} QueryNeverStripped(st: State)
    requires st.Valid() && Analyse(st).Some? && Analyse(st).value.query != -1
    ensures Analyse(st).value.pathEnd == Analyse(st).value.query
  {
    var m := Scan(st.buf, st.offset, st.end);
    var end := ScanEnd(m, st.end);
    var lastComp := LastComp(m, end);
    var r := Analyse(st).value;
    assert r.lastComp == lastComp && r.end == end && r.query == m.query;
    var s := st.(offset := lastComp, end := end);
    assert Is(st.buf[m.query], '?') && lastComp <= m.query < end;
    if IsIndexPage(s) {
      PageHasNoQuery(s, m.query);
    }
  }

  /**
   * A directory followed by a query gets its `/` before the query:
   * `http://host/dir?q` hashes its path to the `?`, adds `/`, then the
   * query, which is the input of `http://host/dir/?q`.
   */
  lemma {:induction false} DirectoryBeforeQueryGetsSlash(st: State, k: int, q: int)
    requires st.Valid() && st.offset < k < q < st.end
    requires NoneOf(st.buf, st.offset, st.end, '#') && NoneOf(st.buf, st.offset, q, '?') && Is(st.buf[q], '?')
    requires Is(st.buf[k - 1], '/') && NoneOf(st.buf, k, q, '/') && NoneOf(st.buf, k, q, '.')
    requires Count(st.buf, st.offset, k, '/') >= 3
    ensures HashInput(st).Some?
    ensures var p := Analyse(st).value;
            p.lastComp == k && p.pathEnd == q && p.query == q && p.addSlash
  {
    var m := Scan(st.buf, st.offset, st.end);
    SegmentQueryScan(st.buf, st.offset, st.end, k, q);
    NoDotBeforeQueryNoPage(st, k, q);
    assert CharIndex(st.buf, k, q, '.') == q;
  }

  /**
   * A path ending in `/` right before the query is hashed as it stands:
   * `http://host/dir/?q` hashes its path to the `?`, adds nothing, then the
   * query, the same bytes `DirectoryBeforeQueryGetsSlash` gives for
   * `http://host/dir?q`.
   */
  lemma {:induction false} SlashBeforeQueryKept(st: State, q: int)
    requires st.Valid() && st.offset < q < st.end
    requires NoneOf(st.buf, st.offset, st.end, '#') && NoneOf(st.buf, st.offset, q, '?') && Is(st.buf[q], '?')
    requires Is(st.buf[q - 1], '/') && Count(st.buf, st.offset, q, '/') >= 3
    ensures HashInput(st).Some?
    ensures var p := Analyse(st).value;
            p.lastComp == q && p.pathEnd == q && p.query == q && !p.addSlash
  {
    SegmentQueryScan(st.buf, st.offset, st.end, q, q);
    NoDotBeforeQueryNoPage(st, q, q);
  }

  /** The scan of a URL whose last segment `[k, q)` is followed by a query at `q`. */
  lemma {:induction false} SegmentQueryScan(buf: Bytes, o: int, e: int, k: int, q: int)
    requires 0 <= o < k <= q < e <= |buf|
    requires NoneOf(buf, o, e, '#') && NoneOf(buf, o, q, '?') && Is(buf[q], '?')
    requires Is(buf[k - 1], '/') && NoneOf(buf, k, q, '/') && Count(buf, o, k, '/') >= 3
    ensures var m := Scan(buf, o, e);
            m.fragment == -1 && m.slashes >= 3 && m.authority != -1 && m.lastComp == k && m.query == q
  {
    ScanSplit(buf, o, e, o, k, NoMarks());
    var m0 := Scan(buf, o, k);
    assert m0.lastComp == k;
    ScanSplit(buf, o, e, k, q, m0);
    ScanQuiet(buf, o, q, k, m0);
    AdvanceScanned(buf, o, q, m0);
    var m1 := m0.(query := q);
    assert Advance(buf, q, m0) == m1;
    ScanQueried(buf, o, e, q + 1, m1);
  }

  /** A segment without `.` that a `?` ends is not an index page, query or not. */
  lemma {:induction false} NoDotBeforeQueryNoPage(st: State, k: int, q: int)
    requires 0 <= k <= q < st.end <= |st.buf| && NoneOf(st.buf, k, q, '.') && Is(st.buf[q], '?')
    ensures !SkipPageName(st.(offset := k)).ok
  {
    NoPageName(st, k, q, "index.");
    NoPageName(st, k, q, "default.");
  }

  /** A page name ending in `.` cannot match a segment without `.` that a `?` ends. */
  lemma {:induction false} NoPageName(st: State, k: int, q: int, name: string)
    requires 0 <= k <= q < st.end <= |st.buf| && NoneOf(st.buf, k, q, '.') && Is(st.buf[q], '?')
    requires name == "index." || name == "default."
    ensures !StartsWith(st.(offset := k).View(), name)
  {
    var cs := st.caseSensitive;
    var n := |name| - 1;
    if k + |name| <= st.end {
      if q - k < n {
        assert !Match(st.buf[k + (q - k)], name[q - k], cs);
      } else {
        assert name[n] == '.';
        NotDotNoMatch(st.buf[k + n], cs);
      }
    }
  }

  /** A last segment without `.` is never an index page. */
  lemma {:induction false} NoDotNoPage(st: State, k: int, e: int)
    requires 0 <= k <= e <= |st.buf| && NoneOf(st.buf, k, e, '.')
    ensures !SkipPageName(st.(offset := k, end := e)).ok
  {
    var cs := st.caseSensitive;
    if k + 6 <= e {
      assert "index."[5] == '.';
      NotDotNoMatch(st.buf[k + 5], cs);
    }
    if k + 8 <= e {
      assert "default."[7] == '.';
      NotDotNoMatch(st.buf[k + 7], cs);
    }
  }

  /** What a URL needs for `DirectoryGetsSlash`: its view, without the `/` that the buffer holds next. */
  predicate SlashlessDirectory(st: State, k: int) {
    && st.Valid() && st.offset < k <= st.end < |st.buf| && Is(st.buf[st.end], '/')
    && NoneOf(st.buf, st.offset, st.end, '?') && NoneOf(st.buf, st.offset, st.end, '#')
    && Is(st.buf[k - 1], '/') && NoneOf(st.buf, k, st.end, '/') && !Is(st.buf[st.end - 1], '/')
    && (Count(st.buf, st.offset, k, '/') == 2
        || (Count(st.buf, st.offset, k, '/') > 2 && NoneOf(st.buf, k, st.end, '.')))
  }

  /** The scans of the directory with and without its `/`. */
  lemma {:induction false} DirectoryScans(st: State, k: int)
    requires SlashlessDirectory(st, k)
    ensures var m := Scan(st.buf, st.offset, st.end);
            && m == Scan(st.buf, st.offset, k)
            && m.lastComp == k && m.query == -1 && m.fragment == -1 && m.slashes >= 2 && m.authority != -1
            && Scan(st.buf, st.offset, st.end + 1) == Advance(st.buf, st.end, m)
  {
    var buf, o, e := st.buf, st.offset, st.end;
    ScanSplit(buf, o, e, o, k, NoMarks());
    var m := Scan(buf, o, k);
    ScanQuiet(buf, o, e, k, m);
    ScanSplit(buf, o, e + 1, o, e, NoMarks());
  }

  /** Without the `/`: the path runs to the end of the view and a `/` is added. */
  lemma {:induction false} DirectoryWithoutSlash(st: State, k: int)
    requires SlashlessDirectory(st, k)
    ensures Analyse(st).Some?
    ensures var p := Analyse(st).value;
            && p.authority == Scan(st.buf, st.offset, st.end).authority
            && p.pathEnd == st.end && p.addSlash && p.query == -1
            && p.www == !StartsWith(ByteSeq(st.buf, p.authority, st.end, st.caseSensitive), "www.")
  {
    var buf, o, e := st.buf, st.offset, st.end;
    DirectoryScans(st, k);
    var m := Scan(buf, o, e);
    if m.slashes == 2 {
      assert !SkipPageName(st.(offset := e, end := e)).ok;
    } else {
      NoDotNoPage(st, k, e);
    }
  }

  /** With the `/`: the path runs to it and nothing is added. */
  lemma {:induction false} DirectoryWithSlash(st: State, k: int)
    requires SlashlessDirectory(st, k)
    ensures Analyse(st.(end := st.end + 1)).Some?
    ensures var q := Analyse(st.(end := st.end + 1)).value;
            && q.authority == Scan(st.buf, st.offset, st.end).authority
            && q.pathEnd == st.end + 1 && !q.addSlash && q.query == -1
            && q.www == !StartsWith(ByteSeq(st.buf, q.authority, st.end + 1, st.caseSensitive), "www.")
  {
    var e := st.end;
    DirectoryScans(st, k);
    assert !SkipPageName(st.(offset := e + 1, end := e + 1)).ok;
  }

  /**
   * A directory without its final `/` hashes like the directory with it:
   * `http://host/dir` and `http://host/dir/`, and `http://host` and
   * `http://host/`, give the same hash input.
   */
  lemma {:induction false} DirectoryGetsSlash(st: State, k: int)
    requires SlashlessDirectory(st, k)
    ensures HashInput(st).Some?
    ensures HashInput(st) == HashInput(st.(end := st.end + 1))
  {
    DirectoryParts(st, k);
    AssembleSlash(st.buf, st.offset, Analyse(st).value, Analyse(st.(end := st.end + 1)).value);
  }

  /** The decisions for the directory with and without its `/` differ only in where the `/` comes from. */
  lemma {:induction false} DirectoryParts(st: State, k: int)
    requires SlashlessDirectory(st, k)
    ensures Analyse(st).Some? && Analyse(st.(end := st.end + 1)).Some?
    ensures var p := Analyse(st).value;
            var q := Analyse(st.(end := st.end + 1)).value;
            && p.authority == q.authority && p.www == q.www && p.query == q.query == -1
            && p.addSlash && !q.addSlash && q.pathEnd == p.pathEnd + 1 && Is(st.buf[p.pathEnd], '/')
  {
    var e := st.end;
    DirectoryWithoutSlash(st, k);
    DirectoryWithSlash(st, k);
    var p := Analyse(st).value;
    WwwTestStable(st, p.authority, e, e, e + 1);
  }

  /** Adding the `/` byte to the path, or appending `/` after it, assembles the same input. */
  lemma {:induction false} AssembleSlash(buf: Bytes, o: int, p: Parts, q: Parts)
    requires PartsFit(buf, o, p) && PartsFit(buf, o, q)
    requires p.authority == q.authority && p.www == q.www && p.query == q.query == -1
    requires p.addSlash && !q.addSlash && q.pathEnd == p.pathEnd + 1 && Is(buf[p.pathEnd], '/')
    ensures Assemble(buf, o, p) == Assemble(buf, o, q)
  {
    SlashByte(buf, p.authority, p.pathEnd);
  }

  /** A `/` byte extends a slice by exactly `Ascii("/")`. */
  lemma {:induction false} SlashByte(buf: Bytes, a: int, e: int)
    requires 0 <= a <= e < |buf| && Is(buf[e], '/')
    ensures buf[a..e + 1] == buf[a..e] + Ascii("/")
  {
    assert Ascii("/")[0] == Code('/') == buf[e];
  }

  /** The byte `Ascii` gives a character matches that character. */
  lemma {:induction false} AsciiMatches(c: char, cs: bool)
    requires c == 'w' || c == '.'
    ensures Match(Code(c), c, cs)
  {
  }

  /**
   * Right after the URL's authority prefix the hash input always reads
   * `www.` (under the view's case flag): `http://host/` and
   * `http://www.host/` agree there.
   */
  lemma {:induction false} WwwAlwaysThere(st: State)
    requires st.Valid() && HashInput(st).Some?
    ensures var x := HashInput(st).value;
            var a := Analyse(st).value.authority - st.offset;
            a + 4 <= |x| && MatchAt(x, a, "www.", st.caseSensitive)
  {
    var p := Analyse(st).value;
    assert HashInput(st).value == Assemble(st.buf, st.offset, p);
    if !p.www {
      WwwRoom(st);
    }
    WwwAssembled(st.buf, st.offset, st.caseSensitive, p);
  }

  /** The assembled input reads `www.` after the authority prefix: added, or already in the path. */
  lemma {:induction false} WwwAssembled(buf: Bytes, o: int, cs: bool, p: Parts)
    requires PartsFit(buf, o, p)
    requires !p.www ==> p.authority + 4 <= p.pathEnd && MatchAt(buf, p.authority, "www.", cs)
    ensures var x := Assemble(buf, o, p);
            var a := p.authority - o;
            a + 4 <= |x| && MatchAt(x, a, "www.", cs)
  {
    var x := Assemble(buf, o, p);
    var a := p.authority - o;
    AssembleLayout(buf, o, p);
    if p.www {
      forall i | 0 <= i < 4
        ensures Match(x[a + i], "www."[i], cs)
      {
        assert x[a + i] == x[a..a + 4][i] == Ascii("www.")[i] == Code("www."[i]);
        AsciiMatches("www."[i], cs);
      }
    } else {
      var z := a + (p.pathEnd - p.authority);
      forall i | 0 <= i < 4
        ensures Match(x[a + i], "www."[i], cs)
      {
        assert x[a + i] == x[a..z][i] == buf[p.authority..p.pathEnd][i];
      }
    }
  }

  /** When the URL already has `www.`, the hashed path covers it. */
  lemma {:induction false} WwwRoom(st: State)
    requires st.Valid() && Analyse(st).Some? && !Analyse(st).value.www
    ensures var p := Analyse(st).value;
            p.authority + 4 <= p.pathEnd && MatchAt(st.buf, p.authority, "www.", st.caseSensitive)
  {
    var buf, o, cs := st.buf, st.offset, st.caseSensitive;
    var p := Analyse(st).value;
    var m := Scan(buf, o, st.end);
    var end := p.end;
    assert Scanned(buf, o, end, m.(fragment := -1));
    AuthorityBeforeLastComp(buf, o, end, m.(fragment := -1));
    assert StartsWith(ByteSeq(buf, p.authority, end, cs), "www.");
    forall j | p.authority <= j < p.authority + 4
      ensures !Is(buf[j], '/') && !Is(buf[j], '?')
    {
      WwwByte(buf[j], "www."[j - p.authority], cs);
    }
    if m.slashes == 2 {
      if m.query != -1 {
        assert Is(buf[m.query], '?') && m.query >= p.authority;
      }
    } else {
      assert Is(buf[m.lastComp - 1], '/') && m.lastComp - 1 >= p.authority;
    }
    assert p.lastComp >= p.authority + 4;
  }

  /** Buffers with the same first `n` bytes count `c` alike in `[o, j)`, for `j <= n`. */
  lemma {:induction false} CountPrefix(b1: Bytes, b2: Bytes, n: int, o: int, j: int, c: char)
    requires 0 <= o <= j <= n <= |b1| && n <= |b2| && b1[..n] == b2[..n]
    ensures Count(b1, o, j, c) == Count(b2, o, j, c)
    decreases j - o
  {
    if o < j {
      assert b1[j - 1] == b1[..n][j - 1] == b2[j - 1];
      CountPrefix(b1, b2, n, o, j - 1, c);
    }
  }

  /** Only one position follows the second `/` of a URL. */
  lemma {:induction false} AuthorityUnique(buf: Bytes, o: int, a: int, b: int)
    requires 0 <= o < a <= |buf| && o < b <= |buf|
    requires Is(buf[a - 1], '/') && Count(buf, o, a - 1, '/') == 1
    requires Is(buf[b - 1], '/') && Count(buf, o, b - 1, '/') == 1
    ensures a == b
  {
    if a < b {
      CountSplit(buf, o, a - 1, b - 1, '/');
      CountSplit(buf, a - 1, a, b - 1, '/');
    } else if b < a {
      CountSplit(buf, o, b - 1, a - 1, '/');
      CountSplit(buf, b - 1, b, a - 1, '/');
    }
  }

  /**
   * The `www.` test at the authority `a` answers alike in two buffers that
   * agree from `a` through a `/` at `j`.
   */
  lemma {:induction false} WwwTestAgrees(b1: Bytes, b2: Bytes, n: int, a: int, j: int, e1: int, e2: int, cs: bool)
    requires 0 <= a <= j < n <= |b1| && n <= |b2| && b1[..n] == b2[..n]
    requires j < e1 <= |b1| && j < e2 <= |b2| && Is(b1[j], '/')
    ensures StartsWith(ByteSeq(b1, a, e1, cs), "www.") == StartsWith(ByteSeq(b2, a, e2, cs), "www.")
  {
    if j < a + 4 {
      assert b2[j] == b2[..n][j] == b1[j];
      if StartsWith(ByteSeq(b1, a, e1, cs), "www.") {
        WwwByte(b1[j], "www."[j - a], cs);
      }
      if StartsWith(ByteSeq(b2, a, e2, cs), "www.") {
        WwwByte(b2[j], "www."[j - a], cs);
      }
    } else {
      forall k | a <= k < a + 4
        ensures b1[k] == b2[k]
      {
        assert b1[k] == b1[..n][k];
      }
    }
  }

  /** `buf` with one `/` byte inserted at `q`: `dir?q` becomes `dir/?q`. */
  function InsertSlash(buf: Bytes, q: int): (r: Bytes)
    requires 0 <= q <= |buf|
    ensures |r| == |buf| + 1 && r[..q] == buf[..q] && r[q + 1..] == buf[q..] && Is(r[q], '/')
  {
    buf[..q] + [Code('/')] + buf[q..]
  }

  /**
   * The URL `[o, e)` of `buf` ends its path with the segment `[k, q)`, which
   * holds no `/`, follows at least three `/` and is followed by the query at
   * `q`; there is no fragment.
   */
  predicate SegmentBeforeQuery(buf: Bytes, o: int, k: int, q: int, e: int) {
    && 0 <= o < k <= q < e <= |buf|
    && NoneOf(buf, o, e, '#') && NoneOf(buf, o, q, '?') && Is(buf[q], '?')
    && Is(buf[k - 1], '/') && NoneOf(buf, k, q, '/') && Count(buf, o, k, '/') >= 3
  }

  /** How the decisions for `dir?q` (`p1`) and `dir/?q` (`p2`) line up, the query at `q` in the first. */
  predicate InsertedLayout(p1: Parts, p2: Parts, q: int) {
    && p1.authority == p2.authority && p1.www == p2.www && p1.end + 1 == p2.end
    && p1.pathEnd == p1.query == q && p1.addSlash
    && p2.pathEnd == p2.query == q + 1 && !p2.addSlash
  }

  /**
   * `http://host/dir?q` and `http://host/dir/?q` give the same hash input:
   * the first gets its `/` added before the query, the second has it.
   */
  lemma {:induction false} QueryDirectoryGetsSlash(s1: State, s2: State, k: int, q: int)
    requires s1.Valid() && SegmentBeforeQuery(s1.buf, s1.offset, k, q, s1.end) && k < q && NoneOf(s1.buf, k, q, '.')
    requires s2.buf == InsertSlash(s1.buf, q) && s2.offset == s1.offset && s2.end == s1.end + 1
    requires s2.caseSensitive == s1.caseSensitive
    ensures HashInput(s1).Some?
    ensures HashInput(s1) == HashInput(s2)
  {
    InsertedParts(s1, s2, k, q);
    AssembleInserted(s1.buf, s1.offset, Analyse(s1).value, Analyse(s2).value, q);
  }

  /** The decisions for `dir?q` and `dir/?q`. */
  lemma {:induction false} InsertedParts(s1: State, s2: State, k: int, q: int)
    requires s1.Valid() && SegmentBeforeQuery(s1.buf, s1.offset, k, q, s1.end) && k < q && NoneOf(s1.buf, k, q, '.')
    requires s2.buf == InsertSlash(s1.buf, q) && s2.offset == s1.offset && s2.end == s1.end + 1
    requires s2.caseSensitive == s1.caseSensitive
    ensures Analyse(s1).Some? && Analyse(s2).Some?
    ensures InsertedLayout(Analyse(s1).value, Analyse(s2).value, q)
  {
    QueryDirectoryParts(s1, k, q);
    InsertSlashBytes(s1.buf, s2.buf, s1.offset, k, q, s1.end);
    QuerySlashParts(s2, q + 1);
    PrefixScans(s1.buf, s2.buf, s1.offset, k, q, s1.end, s2.end, s1.caseSensitive);
    SameDecision(s1, s2);
  }

  /** `DirectoryBeforeQueryGetsSlash` for a segment given as `SegmentBeforeQuery`. */
  lemma {:induction false} QueryDirectoryParts(st: State, k: int, q: int)
    requires st.Valid() && SegmentBeforeQuery(st.buf, st.offset, k, q, st.end) && k < q && NoneOf(st.buf, k, q, '.')
    ensures Analyse(st).Some?
    ensures var p := Analyse(st).value;
            p.pathEnd == q && p.query == q && p.addSlash
  {
    DirectoryBeforeQueryGetsSlash(st, k, q);
  }

  /** `SlashBeforeQueryKept` for an empty segment given as `SegmentBeforeQuery`. */
  lemma {:induction false} QuerySlashParts(st: State, q: int)
    requires st.Valid() && SegmentBeforeQuery(st.buf, st.offset, q, q, st.end)
    ensures Analyse(st).Some?
    ensures var p := Analyse(st).value;
            p.pathEnd == q && p.query == q && !p.addSlash
  {
    SlashBeforeQueryKept(st, q);
  }

  /** `dir/?q` is again a segment before a query: the empty one after the inserted `/`. */
  lemma {:induction false} InsertSlashBytes(b1: Bytes, b2: Bytes, o: int, k: int, q: int, e: int)
    requires SegmentBeforeQuery(b1, o, k, q, e) && k < q && b2 == InsertSlash(b1, q)
    ensures SegmentBeforeQuery(b2, o, q + 1, q + 1, e + 1)
  {
    forall j | o <= j < e + 1
      ensures !Is(b2[j], '#')
    {
      if j < q {
        assert b2[j] == b2[..q][j] == b1[j];
      } else if j > q {
        assert b2[j] == b2[q + 1..][j - q - 1] == b1[j - 1];
      }
    }
    CountPrefix(b1, b2, q, o, k, '/');
    CountSplit(b2, o, k, q + 1, '/');
  }

  /**
   * The scans of `[o, e1)` in `b1` and of `[o, e2)` in `b2` find no
   * fragment and the same authority, and the `www.` tests there agree.
   */
  predicate ScansAgree(b1: Bytes, b2: Bytes, o: int, e1: int, e2: int, cs: bool)
    requires 0 <= o <= e1 <= |b1| && o <= e2 <= |b2|
  {
    var m1 := Scan(b1, o, e1);
    var m2 := Scan(b2, o, e2);
    && m1.fragment == m2.fragment == -1 && m1.authority != -1 && m1.authority == m2.authority
    && StartsWith(ByteSeq(b1, m1.authority, e1, cs), "www.") == StartsWith(ByteSeq(b2, m1.authority, e2, cs), "www.")
  }

  /** The scans of `dir?q` and `dir/?q` agree on the authority and on the `www.` test. */
  lemma {:induction false} InsertedScans(s1: State, s2: State, k: int, q: int)
    requires s1.Valid() && SegmentBeforeQuery(s1.buf, s1.offset, k, q, s1.end) && k < q
    requires s2.buf == InsertSlash(s1.buf, q) && s2.offset == s1.offset && s2.end == s1.end + 1
    ensures ScansAgree(s1.buf, s2.buf, s1.offset, s1.end, s2.end, s1.caseSensitive)
  {
    InsertSlashBytes(s1.buf, s2.buf, s1.offset, k, q, s1.end);
    PrefixScans(s1.buf, s2.buf, s1.offset, k, q, s1.end, s2.end, s1.caseSensitive);
  }

  /**
   * Two URLs that agree up to the query mark `q` of the first, whose last
   * segments both end at a query, have the same authority and `www.` test.
   */
  lemma {:induction false} PrefixScans(b1: Bytes, b2: Bytes, o: int, k: int, q: int, e1: int, e2: int, cs: bool)
    requires SegmentBeforeQuery(b1, o, k, q, e1) && k < q
    requires SegmentBeforeQuery(b2, o, q + 1, q + 1, e2) && b1[..q] == b2[..q]
    ensures ScansAgree(b1, b2, o, e1, e2, cs)
  {
    SegmentQueryScan(b1, o, e1, k, q);
    SegmentQueryScan(b2, o, e2, q + 1, q + 1);
    var m1 := Scan(b1, o, e1);
    var m2 := Scan(b2, o, e2);
    AuthorityBeforeLastComp(b1, o, e1, m1);
    var a := m1.authority;
    CountPrefix(b1, b2, q, o, a - 1, '/');
    AuthorityUnique(b2, o, a, m2.authority);
    WwwTestAgrees(b1, b2, q, a, k - 1, e1, e2, cs);
  }

  /** Two views whose scans agree take the same authority and `www.` decisions. */
  lemma {:induction false} SameDecision(s1: State, s2: State)
    requires s1.Valid() && s2.Valid() && s1.offset == s2.offset && s1.offset < s1.end && s2.offset < s2.end
    requires s1.caseSensitive == s2.caseSensitive
    requires ScansAgree(s1.buf, s2.buf, s1.offset, s1.end, s2.end, s1.caseSensitive)
    ensures Analyse(s1).Some? && Analyse(s2).Some?
    ensures Analyse(s1).value.authority == Analyse(s2).value.authority
    ensures Analyse(s1).value.www == Analyse(s2).value.www
    ensures Analyse(s1).value.end == s1.end && Analyse(s2).value.end == s2.end
  {
    AuthorityDecision(s1, Scan(s1.buf, s1.offset, s1.end));
    AuthorityDecision(s2, Scan(s2.buf, s2.offset, s2.end));
  }

  /** Without a fragment, the authority is where the scan put it and the `www.` test reads the view from there. */
  lemma {:induction false} AuthorityDecision(st: State, m: Marks)
    requires st.Valid() && st.offset < st.end && m == Scan(st.buf, st.offset, st.end)
    requires m.fragment == -1 && m.authority != -1
    ensures Analyse(st).Some?
    ensures && Analyse(st).value.authority == m.authority && Analyse(st).value.end == st.end
            && Analyse(st).value.www == !StartsWith(ByteSeq(st.buf, m.authority, st.end, st.caseSensitive), "www.")
  {
  }

  /** Hashing `dir` and adding `/`, or hashing `dir/`, assembles the same bytes. */
  lemma {:induction false} AssembleInserted(b1: Bytes, o: int, p1: Parts, p2: Parts, q: int)
    requires 0 <= q <= |b1|
    requires PartsFit(b1, o, p1) && PartsFit(InsertSlash(b1, q), o, p2) && InsertedLayout(p1, p2, q)
    ensures Assemble(b1, o, p1) == Assemble(InsertSlash(b1, q), o, p2)
  {
    var b2 := InsertSlash(b1, q);
    var a := p1.authority;
    assert b2[o..a] == b1[o..a];
    assert b2[a..q + 1] == b1[a..q] + Ascii("/");
    assert b2[q + 1..p2.end] == b1[q..p1.end];
  }

  /** `buf` cut at `e`, with `www.` inserted at `a` and `/` appended: `http://host` becomes `http://www.host/`. */
  function WwwSlashed(buf: Bytes, a: int, e: int): (r: Bytes)
    requires 0 <= a <= e <= |buf|
    ensures |r| == e + 5 && r[..a] == buf[..a] && r[a..a + 4] == Ascii("www.") && r[a + 4..e + 4] == buf[a..e]
    ensures Is(r[e + 4], '/')
  {
    buf[..a] + Ascii("www.") + buf[a..e] + Ascii("/")
  }

  /**
   * The URL `[o, e)` of `buf` is a bare host: two `/` up to `a`, the second
   * at `a - 1`, none after it, and neither a query nor a fragment.
   */
  predicate BareHost(buf: Bytes, o: int, a: int, e: int) {
    && 0 <= o < a < e <= |buf|
    && Is(buf[a - 1], '/') && Count(buf, o, a, '/') == 2 && NoneOf(buf, a, e, '/')
    && NoneOf(buf, o, e, '?') && NoneOf(buf, o, e, '#')
  }

  /**
   * `http://host` and `http://www.host/` give the same hash input: the
   * first gets `www.` inserted and a `/` added, the second already has both.
   */
  lemma {:induction false} BareHostMatchesWww(s1: State, s2: State, a: int)
    requires s1.Valid() && BareHost(s1.buf, s1.offset, a, s1.end)
    requires !StartsWith(ByteSeq(s1.buf, a, s1.end, s1.caseSensitive), "www.")
    requires s2.buf == WwwSlashed(s1.buf, a, s1.end) && s2.offset == s1.offset && s2.end == s1.end + 5
    requires s2.caseSensitive == s1.caseSensitive
    ensures HashInput(s1).Some?
    ensures HashInput(s1) == HashInput(s2)
  {
    BareHostParts(s1, a);
    WwwHostParts(s1, s2, a);
    AssembleWww(s1.buf, s1.offset, a, s1.end, Analyse(s1).value, Analyse(s2).value);
  }

  /** `http://host`: the authority at `a`, the whole host hashed, `www.` and `/` added. */
  lemma {:induction false} BareHostParts(s1: State, a: int)
    requires s1.Valid() && BareHost(s1.buf, s1.offset, a, s1.end)
    requires !StartsWith(ByteSeq(s1.buf, a, s1.end, s1.caseSensitive), "www.")
    ensures Analyse(s1).Some?
    ensures var p := Analyse(s1).value;
            p.authority == a && p.pathEnd == p.end == s1.end && p.query == -1 && p.addSlash && p.www
  {
    var buf, o, e := s1.buf, s1.offset, s1.end;
    var m := Scan(buf, o, e);
    assert m.fragment == -1;
    assert m.query == -1;
    CountSplit(buf, o, a, e, '/');
    CountNone(buf, a, e, '/');
    CountSplit(buf, o, a - 1, a, '/');
    assert Count(buf, a - 1, a, '/') == 1;
    AuthorityUnique(buf, o, a, m.authority);
    assert !SkipPageName(s1.(offset := e, end := e)).ok;
    assert !Is(buf[e - 1], '/');
  }

  /** `http://www.host/`: the authority at `a`, everything hashed as it stands. */
  lemma {:induction false} WwwHostParts(s1: State, s2: State, a: int)
    requires s1.Valid() && BareHost(s1.buf, s1.offset, a, s1.end)
    requires s2.buf == WwwSlashed(s1.buf, a, s1.end) && s2.offset == s1.offset && s2.end == s1.end + 5
    ensures Analyse(s2).Some?
    ensures var p := Analyse(s2).value;
            p.authority == a && p.pathEnd == p.end == s2.end && p.query == -1 && !p.addSlash && !p.www
  {
    var b2, o, e := s2.buf, s1.offset, s1.end;
    WwwHostScan(s1.buf, o, a, e, s2.caseSensitive);
    AuthorityDecision(s2, Scan(b2, o, e + 5));
    assert !SkipPageName(s2.(offset := e + 5, end := e + 5)).ok;
  }

  /** The scan of `http://www.host/`: three `/`, the authority at `a`, the last segment empty at the end. */
  lemma {:induction false} WwwHostScan(b1: Bytes, o: int, a: int, e: int, cs: bool)
    requires BareHost(b1, o, a, e)
    ensures var b2 := WwwSlashed(b1, a, e);
            var m := Scan(b2, o, e + 5);
            && m.fragment == -1 && m.query == -1 && m.slashes == 3 && m.authority == a && m.lastComp == e + 5
            && StartsWith(ByteSeq(b2, a, e + 5, cs), "www.")
  {
    var b2 := WwwSlashed(b1, a, e);
    WwwSlashedBytes(b1, a, e, o);
    WwwHostSlashes(b1, o, a, e);
    var m := Scan(b2, o, e + 5);
    assert m.fragment == -1;
    assert m.query == -1;
    AuthorityUnique(b2, o, a, m.authority);
    assert m.lastComp == e + 5;
    WwwPrefix(b1, a, e, cs);
  }

  /** `http://www.host/` has three `/`: the two before the authority, both kept, and the appended one. */
  lemma {:induction false} WwwHostSlashes(b1: Bytes, o: int, a: int, e: int)
    requires BareHost(b1, o, a, e) && NoneOf(WwwSlashed(b1, a, e), a, e + 4, '/')
    ensures var b2 := WwwSlashed(b1, a, e);
            && Count(b2, o, e + 5, '/') == 3 && Count(b2, o, a - 1, '/') == 1
            && Is(b2[a - 1], '/') && Is(b2[e + 4], '/')
  {
    var b2 := WwwSlashed(b1, a, e);
    CountPrefix(b1, b2, a, o, a, '/');
    CountSplit(b2, o, a, e + 5, '/');
    CountSplit(b2, a, e + 4, e + 5, '/');
    CountNone(b2, a, e + 4, '/');
    assert Count(b2, e + 4, e + 5, '/') == 1;
    CountPrefix(b1, b2, a, o, a - 1, '/');
    CountSplit(b1, o, a - 1, a, '/');
    assert Count(b1, a - 1, a, '/') == 1;
  }

  /** The inserted `www.` passes the `www.` test under either case flag. */
  lemma {:induction false} WwwPrefix(b1: Bytes, a: int, e: int, cs: bool)
    requires 0 <= a <= e <= |b1|
    ensures StartsWith(ByteSeq(WwwSlashed(b1, a, e), a, e + 5, cs), "www.")
  {
    var b2 := WwwSlashed(b1, a, e);
    forall i | 0 <= i < 4
      ensures Match(b2[a + i], "www."[i], cs)
    {
      assert b2[a + i] == b2[a..a + 4][i] == Code("www."[i]);
      AsciiMatches("www."[i], cs);
    }
  }

  /** The inserted `www.` and the copied host hold no `/`, `?` or `#`, and nothing before them does either. */
  lemma {:induction false} WwwSlashedBytes(buf: Bytes, a: int, e: int, o: int)
    requires BareHost(buf, o, a, e)
    ensures var r := WwwSlashed(buf, a, e);
            && NoneOf(r, a, e + 4, '/') && NoneOf(r, o, e + 5, '?') && NoneOf(r, o, e + 5, '#')
  {
    var r := WwwSlashed(buf, a, e);
    forall j | o <= j < e + 5
      ensures (a <= j < e + 4 ==> !Is(r[j], '/')) && !Is(r[j], '?') && !Is(r[j], '#')
    {
      if j < a {
        assert r[j] == r[..a][j] == buf[j];
      } else if j < a + 4 {
        assert r[j] == r[a..a + 4][j - a] == Code("www."[j - a]);
      } else if j < e + 4 {
        assert r[j] == r[a + 4..e + 4][j - a - 4] == buf[j - 4];
      }
    }
  }

  /** Both layouts give the URL up to the authority, `www.`, the host, then `/`. */
  lemma {:induction false} AssembleWww(b1: Bytes, o: int, a: int, e: int, p1: Parts, p2: Parts)
    requires 0 <= o < a < e <= |b1|
    requires PartsFit(b1, o, p1) && PartsFit(WwwSlashed(b1, a, e), o, p2)
    requires p1.authority == p2.authority == a && p1.pathEnd == p1.end == e && p1.query == -1 && p1.addSlash && p1.www
    requires p2.pathEnd == p2.end == e + 5 && p2.query == -1 && !p2.addSlash && !p2.www
    ensures Assemble(b1, o, p1) == Assemble(WwwSlashed(b1, a, e), o, p2)
  {
    var b2 := WwwSlashed(b1, a, e);
    assert b2[o..a] == b1[o..a];
    assert b2[a..e + 5] == Ascii("www.") + b1[a..e] + Ascii("/");
  }

  /** The path that is hashed holds no `?`, and the query starts with one. */
  lemma {:induction false} QueryFree(st: State)
    requires st.Valid() && Analyse(st).Some?
    ensures var p := Analyse(st).value;
            && NoneOf(st.buf, st.offset, p.pathEnd, '?')
            && (p.query != -1 ==> Is(st.buf[p.query], '?'))
  {
    var m := Scan(st.buf, st.offset, st.end);
    var p := Analyse(st).value;
    assert Scanned(st.buf, st.offset, p.end, m.(fragment := -1));
  }

  /** A position with no `c` before it and `c` at it (or the end) is what `CharIndex` finds. */
  lemma {:induction false} FirstIndex(x: Bytes, c: char, j: int)
    requires 0 <= j <= |x| && NoneOf(x, 0, j, c) && (j < |x| ==> Is(x[j], c))
    ensures CharIndex(x, 0, |x|, c) == j
  {
  }

  /**
   * The query, from `?` to the fragment, ends the hash input verbatim, and
   * the first `?` of the input is where it starts; without a query the
   * input has no `?`.
   */
  lemma {:induction false} QueryIsSuffix(st: State)
    requires st.Valid() && HashInput(st).Some?
    ensures var x := HashInput(st).value;
            var q := QueryPart(st.buf, st.offset, Analyse(st).value);
            && |q| <= |x| && x[|x| - |q|..] == q
            && CharIndex(x, 0, |x|, '?') == |x| - |q|
  {
    QueryFree(st);
    AssembleQuery(st.buf, st.offset, Analyse(st).value);
  }

  lemma {:induction false} AssembleQuery(buf: Bytes, o: int, p: Parts)
    requires PartsFit(buf, o, p) && NoneOf(buf, o, p.pathEnd, '?')
    requires p.query != -1 ==> Is(buf[p.query], '?')
    ensures var x := Assemble(buf, o, p);
            var q := QueryPart(buf, o, p);
            && |q| <= |x| && x[|x| - |q|..] == q
            && CharIndex(x, 0, |x|, '?') == |x| - |q|
  {
    var x := Assemble(buf, o, p);
    var q := QueryPart(buf, o, p);
    AssembleLayout(buf, o, p);
    NoMarkBeforeQuery(buf, o, p);
    if |q| > 0 {
      assert x[|x| - |q|] == q[0] == buf[p.query];
    }
    FirstIndex(x, '?', |x| - |q|);
  }

  /** No `?` precedes the query in the hash input. */
  lemma {:induction false} NoMarkBeforeQuery(buf: Bytes, o: int, p: Parts)
    requires PartsFit(buf, o, p) && NoneOf(buf, o, p.pathEnd, '?')
    ensures |QueryPart(buf, o, p)| <= |Assemble(buf, o, p)|
    ensures NoneOf(Assemble(buf, o, p), 0, |Assemble(buf, o, p)| - |QueryPart(buf, o, p)|, '?')
  {
    var x := Assemble(buf, o, p);
    var q := QueryPart(buf, o, p);
    AssembleLayout(buf, o, p);
    var a := p.authority - o;
    var w := a + |WwwPart(p)|;
    var z := w + (p.pathEnd - p.authority);
    NoneOfCopy(x, 0, buf[o..p.authority], '?');
    NoneOfCopy(x, a, WwwPart(p), '?');
    NoneOfCopy(x, w, buf[p.authority..p.pathEnd], '?');
    NoneOfCopy(x, z, SlashPart(p), '?');
    NoneOfJoin(x, 0, a, w, '?');
    NoneOfJoin(x, 0, w, z, '?');
    NoneOfJoin(x, 0, z, z + |SlashPart(p)|, '?');
  }

  /** A copy of a span without `c` has no `c` either. */
  lemma {:induction false} NoneOfCopy(x: Bytes, lo: int, y: Bytes, c: char)
    requires 0 <= lo && lo + |y| <= |x| && x[lo..lo + |y|] == y
    requires forall k :: 0 <= k < |y| ==> !Is(y[k], c)
    ensures NoneOf(x, lo, lo + |y|, c)
  {
    forall k | lo <= k < lo + |y|
      ensures !Is(x[k], c)
    {
      assert x[k] == y[k - lo];
    }
  }

  lemma {:induction false} NoneOfJoin(x: Bytes, i: int, j: int, k: int, c: char)
    requires 0 <= i <= j <= k <= |x| && NoneOf(x, i, j, c) && NoneOf(x, j, k, c)
    ensures NoneOf(x, i, k, c)
  {
  }

  /**
   * URLs whose queries differ never share a hash input; in particular a
   * URL with a query and one without never do.
   */
  lemma {:induction false} QueriesSeparate(s1: State, s2: State)
    requires s1.Valid() && s2.Valid() && HashInput(s1).Some? && HashInput(s2).Some?
    requires QueryPart(s1.buf, s1.offset, Analyse(s1).value) != QueryPart(s2.buf, s2.offset, Analyse(s2).value)
    ensures HashInput(s1) != HashInput(s2)
  {
    QueryIsSuffix(s1);
    QueryIsSuffix(s2);
  }


  /** The first `?` or `#` at or after `i`, or `e`. */
  function MarkIndex(buf: Bytes, i: int, e: int): (j: int)
    requires 0 <= i <= e <= |buf|
    ensures i <= j <= e
    ensures NoneOf(buf, i, j, '?') && NoneOf(buf, i, j, '#')
    ensures j < e ==> Is(buf[j], '?') || Is(buf[j], '#')
    decreases e - i
  {
    if i < e && !Is(buf[i], '?') && !Is(buf[i], '#') then MarkIndex(buf, i + 1, e) else i
  }

  /** The scan's query-or-end is the first `?` or `#`. */
  lemma {:induction false} ScanStopsAtMark(buf: Bytes, o: int, e: int)
    requires 0 <= o <= e <= |buf|
    ensures var m := Scan(buf, o, e);
            PathLimit(m, ScanEnd(m, e)) == MarkIndex(buf, o, e)
  {
    var m := Scan(buf, o, e);
    var end := ScanEnd(m, e);
    assert Scanned(buf, o, end, m.(fragment := -1));
  }

  /**
   * `ComputeHash` returns 0 without digesting exactly when the view is
   * empty or fewer than two `/` come before the first `?` or `#`.
   */
  lemma {:induction false} NoAuthorityNoHash(st: State)
    requires st.Valid()
    ensures HashInput(st).None?
        <==> st.offset == st.end || Count(st.buf, st.offset, MarkIndex(st.buf, st.offset, st.end), '/') < 2
  {
    ScanStopsAtMark(st.buf, st.offset, st.end);
    var m := Scan(st.buf, st.offset, st.end);
    assert Scanned(st.buf, st.offset, ScanEnd(m, st.end), m.(fragment := -1));
  }

}
