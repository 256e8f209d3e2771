/**
 * `HDFSWriterDocument` as a Hadoop `Writable`: `write` emits the
 * (reconstructed) record behind its big-endian length, `readFields` reads
 * the length, that many bytes, and loads them.
 */
module Writable {
  import opened Wrappers
  import opened Bytes
  import opened Document
  import opened RoundTrip
  import PoolMember

  /** `write(out)`: the record after `reconstructDocument`, framed by its length. */
  function WriteDoc(d: Document): (r: Bytes)
    requires d.Valid()
    ensures |r| == |Reconstruct(d).buf| + 4 && r[4..] == Reconstruct(d).buf
  {
    PoolMember.Frame(Reconstruct(d).buf)
  }

  /** The ways `readFields` can fail: the stream ends early, the length is negative, or `load` throws. */
  datatype ReadError = EndOfStream | NegativeLength | LoadFailed(error: LoadError)

  /** `readFields(in)`: `readInt`, `new byte[length]`, `readFully`, then `load(docBytes, 0, length)`. */
  function ReadFields(v: Bytes): (r: Result<Document, ReadError>)
    ensures |v| < 4 ==> r == Failure(EndOfStream)
    ensures |v| >= 4 ==> var n := PoolMember.ReadInt(v[..4]);
              && (r.Success? <==> 0 <= n <= |v| - 4 && Load(v[4..4 + n], 0, n).Success?)
              && (r.Success? ==> r.value == Load(v[4..4 + n], 0, n).value)
  {
    if |v| < 4 then Failure(EndOfStream)
    else
      var n := PoolMember.ReadInt(v[..4]);
      if n < 0 then Failure(NegativeLength)
      else if |v| - 4 < n then Failure(EndOfStream)
      else match Load(v[4..4 + n], 0, n)
        case Failure(e) => Failure(LoadFailed(e))
        case Success(d) => Success(d)
  }

  /**
   * A modified document written out and read back has the same fields,
   * request and response, whatever follows it in the stream.
   */
  lemma {:induction false} ReadWritten(d: Document, rest: Bytes)
    requires d.Valid() && d.isModified && Reloadable(d)
    requires |Reconstruct(d).buf| <= MaxInt32
    ensures var r := ReadFields(WriteDoc(d) + rest);
            && r.Success?
            && r.value.fields == d.fields
            && r.value.Request() == d.Request()
            && r.value.Response() == d.Response()
  {
    var b := Reconstruct(d).buf;
    var v := WriteDoc(d) + rest;
    PoolMember.FrameRoundTrip(b);
    assert v[..4] == PoolMember.Frame(b)[..4];
    assert v[4..4 + |b|] == b;
    ReloadReconstructed(d);
  }
}
