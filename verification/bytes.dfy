/**
 * Bytes as the Java code sees them: an array element is a signed byte that
 * is promoted to `int` before every comparison with a `char`, and the
 * character classes come from `java.lang.Character`.  Stored values are kept
 * unsigned (0..255); `Signed` recovers the Java value.
 */
module Bytes {

  type Byte = x: int | 0 <= x < 256
  type Bytes = seq<Byte>

  /** The byte a Latin-1 character literal denotes (non-Latin-1 never occurs in the patterns). */
  function Code(c: char): Byte {
    if c as int < 256 then c as int else 0
  }

  /** A string constant as the bytes `String.getBytes` yields for ASCII text. */
  function Ascii(s: string): (r: Bytes)
    ensures |r| == |s|
    ensures forall i :: 0 <= i < |s| ==> r[i] == Code(s[i])
  {
    seq(|s|, i requires 0 <= i < |s| => Code(s[i]))
  }

  /** The value of a byte after Java's sign-extending promotion to `int`. */
  function Signed(b: Byte): int {
    if b < 128 then b else b - 256
  }

  /** `buf[i] == c` in Java: a negative byte never equals a character. */
  predicate Is(b: Byte, c: char) {
    Signed(b) == c as int
  }

  /** `Character.isWhitespace` on a promoted byte: 9..13, 28..31 and space. */
  predicate IsWhitespace(b: Byte) {
    (9 <= b <= 13) || (28 <= b <= 32)
  }

  /** `Character.isDigit` on a promoted byte: only the ASCII digits. */
  predicate IsDigit(b: Byte) {
    48 <= b <= 57
  }

  predicate IsUpperLetter(b: Byte) {
    65 <= b <= 90
  }

  predicate IsLowerLetter(b: Byte) {
    97 <= b <= 122
  }

  /** `Character.isLetterOrDigit` on a promoted byte: only ASCII letters and digits. */
  predicate IsLetterOrDigit(b: Byte) {
    IsDigit(b) || IsUpperLetter(b) || IsLowerLetter(b)
  }

  /** `Character.toLowerCase(int)` restricted to the values a byte can take. */
  function LowerCode(v: int): int {
    if 65 <= v <= 90 then v + 32 else v
  }

  /** `Character.toUpperCase(int)` restricted to the values a byte can take. */
  function UpperCode(v: int): int {
    if 97 <= v <= 122 then v - 32 else v
  }

  /**
   * The case-insensitive test of the scanner: the byte matches when its
   * lower-case or its upper-case form equals the pattern character.
   */
  predicate MatchFolded(b: Byte, c: char) {
    LowerCode(Signed(b)) == c as int || UpperCode(Signed(b)) == c as int
  }

  /** One byte against one pattern character, honouring the view's case flag. */
  predicate Match(b: Byte, c: char, caseSensitive: bool) {
    if caseSensitive then Is(b, c) else MatchFolded(b, c)
  }

  /** `String.toLowerCase` on ASCII text. */
  function Lower(s: Bytes): (r: Bytes)
    ensures |r| == |s|
    ensures forall i :: 0 <= i < |s| ==> r[i] == LowerCode(s[i])
  {
    seq(|s|, i requires 0 <= i < |s| => LowerCode(s[i]))
  }

  /** `String.toUpperCase` on ASCII text. */
  function Upper(s: Bytes): (r: Bytes)
    ensures |r| == |s|
    ensures forall i :: 0 <= i < |s| ==> r[i] == UpperCode(s[i])
  {
    seq(|s|, i requires 0 <= i < |s| => UpperCode(s[i]))
  }

  /** The first index at or after `i` holding a byte above space, or `|s|`. */
  function TrimLead(s: Bytes, i: nat): (k: nat)
    requires i <= |s|
    ensures i <= k <= |s| && (k < |s| ==> s[k] > 32)
    decreases |s| - i
  {
    if i < |s| && s[i] <= 32 then TrimLead(s, i + 1) else i
  }

  /** The end of `s[lo..j]` once trailing bytes up to space are dropped. */
  function TrimTail(s: Bytes, lo: nat, j: nat): (k: nat)
    requires lo <= j <= |s|
    ensures lo <= k <= j && (k > lo ==> s[k - 1] > 32)
    decreases j
  {
    if j > lo && s[j - 1] <= 32 then TrimTail(s, lo, j - 1) else j
  }

  /** `String.trim`: drops bytes up to and including space from both ends. */
  function Trim(s: Bytes): (r: Bytes)
    ensures |r| <= |s|
    ensures |r| > 0 ==> r[0] > 32 && r[|r| - 1] > 32
    ensures exists i, j :: 0 <= i <= j <= |s| && r == s[i..j]
  {
    var i := TrimLead(s, 0);
    var j := TrimTail(s, i, |s|);
    s[i..j]
  }

  /** Text without a byte up to space at either end is left as it is. */
  lemma {:induction false} TrimUnchanged(s: Bytes)
    requires |s| > 0 ==> s[0] > 32 && s[|s| - 1] > 32
    ensures Trim(s) == s
  {
    assert TrimLead(s, 0) == 0;
    assert TrimTail(s, 0, |s|) == |s|;
  }

  /** The first index of `b` in `s`, or -1 (`String.indexOf`). */
  function IndexOf(s: Bytes, b: Byte): (r: int)
    ensures -1 <= r < |s|
    ensures r >= 0 ==> s[r] == b
    ensures r == -1 <==> b !in s
    ensures forall k :: 0 <= k < r ==> s[k] != b
    decreases |s|
  {
    if |s| == 0 then -1
    else if s[0] == b then 0
    else
      var r := IndexOf(s[1..], b);
      if r == -1 then -1 else r + 1
  }

  /** The last index of `b` in `s`, or -1 (`String.lastIndexOf`). */
  function LastIndexOf(s: Bytes, b: Byte): (r: int)
    ensures -1 <= r < |s|
    ensures r >= 0 ==> s[r] == b
    ensures r == -1 <==> b !in s
    ensures forall k :: r < k < |s| ==> s[k] != b
    decreases |s|
  {
    if |s| == 0 then -1
    else if s[|s| - 1] == b then |s| - 1
    else LastIndexOf(s[..|s| - 1], b)
  }

  /** The decimal value of a run of ASCII digits. */
  function DecimalValue(s: Bytes): nat
    decreases |s|
  {
    if |s| == 0 then 0
    else DecimalValue(s[..|s| - 1]) * 10 + (if IsDigit(s[|s| - 1]) then s[|s| - 1] - 48 else 0)
  }

  const MaxInt32: int := 0x7FFF_FFFF

  /** Java's `(int)` narrowing of an integer value: two's-complement wrap-around. */
  function Wrap32(x: int): (r: int)
    ensures -0x8000_0000 <= r <= MaxInt32
    ensures (r - x) % 0x1_0000_0000 == 0
    ensures -0x8000_0000 <= x <= MaxInt32 ==> r == x
  {
    var u := x % 0x1_0000_0000;
    if u <= MaxInt32 then u else u - 0x1_0000_0000
  }
}
