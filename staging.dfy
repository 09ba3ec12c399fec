/**
 * The staging file: a temporary file that holds the ciphertext so it can
 * be MACed in full before it is emitted or decrypted. It has one offset,
 * used by writes and reads alike, which `Seek(0, 0)` moves back to the start.
 */
module Staging {
  import opened Bytes
  import opened Streams

  /** The scratch directory: whether ioutil.TempFile succeeds there, and how much a file there can hold. */
  datatype TempSpace = TempSpace(available: bool, capacity: Capacity)

  /** The contents of a file after writing b at offset pos: the bytes before pos stay, b replaces what follows, the file grows if needed. */
  function Overwrite(data: seq<byte>, pos: nat, b: seq<byte>): (r: seq<byte>)
    requires pos <= |data|
    ensures |r| == if pos + |b| <= |data| then |data| else pos + |b|
    ensures r[..pos] == data[..pos] && r[pos..pos + |b|] == b
    ensures r[pos + |b|..] == if pos + |b| <= |data| then data[pos + |b|..] else []
  {
    data[..pos] + b + (if pos + |b| <= |data| then data[pos + |b|..] else [])
  }

  class StagingFile {
    var data: seq<byte>
    var pos: nat
    const capacity: Capacity

    ghost predicate Valid()
      reads this
    {
      pos <= |data| && Fits(capacity, |data|)
    }

    /** ioutil.TempFile: a new, empty file. */
    constructor (capacity: Capacity)
      ensures Valid() && data == [] && pos == 0 && this.capacity == capacity
    {
      data := [];
      pos := 0;
      this.capacity := capacity;
    }

    /** Write b at the offset; when the file would outgrow its capacity, only the part that fits is written and the write fails. */
    method Write(b: seq<byte>) returns (ok: bool)
      requires Valid()
      modifies this
      ensures Valid()
      ensures ok <==> Fits(capacity, old(pos) + |b|)
      ensures var a := Accepted(Less(capacity, old(pos)), b);
        data == Overwrite(old(data), old(pos), a) && pos == old(pos) + |a|
    {
      var a := Accepted(Less(capacity, pos), b);
      ok := Fits(capacity, pos + |b|);
      data := Overwrite(data, pos, a);
      pos := pos + |a|;
    }

    /** tmp.Seek(0, 0): back to the start; the contents stay. */
    method Rewind()
      requires Valid()
      modifies this`pos
      ensures Valid() && pos == 0
    {
      pos := 0;
    }

    /** Reading the file from the offset to its end (io.Copy from the file); reads of a regular file do not fail here. */
    method ReadRest() returns (b: seq<byte>)
      requires Valid()
      modifies this`pos
      ensures Valid()
      ensures b == old(data[pos..]) && pos == |data|
    {
      b := data[pos..];
      pos := |data|;
    }
  }
}
