/**
 * The io.Reader and io.Writer objects the pipeline reads from and writes
 * to. A reader yields a fixed byte string and then either EOF or, when it
 * is broken, a read error; a writer accepts bytes until its capacity is
 * used up and then reports a short write.
 */
module Streams {
  import opened Bytes

  /** How many more bytes a destination accepts. */
  datatype Capacity = Unlimited | Limited(bytes: nat)

  predicate Fits(c: Capacity, n: nat) {
    c.Unlimited? || n <= c.bytes
  }

  /** The capacity left after n more bytes. */
  function Less(c: Capacity, n: nat): (r: Capacity)
    requires Fits(c, n)
  {
    match c
    case Unlimited => Unlimited
    case Limited(k) => Limited(k - n)
  }

  /** Room for a and then b is room for a + b. */
  lemma FitsSplit(c: Capacity, a: nat, b: nat)
    ensures Fits(c, a) ==> (Fits(Less(c, a), b) <==> Fits(c, a + b))
    ensures !Fits(c, a) ==> !Fits(c, a + b)
  {
  }

  /** What a destination with the given room keeps of a write of b: all of it, or as much as fits. */
  function Accepted(room: Capacity, b: seq<byte>): (a: seq<byte>)
    ensures |a| <= |b| && a == b[..|a|]
    ensures a == b <==> Fits(room, |b|)
    ensures !Fits(room, |b|) ==> |a| == room.bytes
  {
    if Fits(room, |b|) then b else b[..room.bytes]
  }

  /** Writing a and then b keeps what one write of a + b keeps: writes stop at the first short one. */
  lemma AcceptedConcat(room: Capacity, a: seq<byte>, b: seq<byte>)
    ensures Fits(room, |a|) ==> Accepted(room, a + b) == a + Accepted(Less(room, |a|), b)
    ensures !Fits(room, |a|) ==> Accepted(room, a + b) == Accepted(room, a)
  {
    if Fits(room, |a|) && !Fits(room, |a + b|) {
      assert (a + b)[..room.bytes] == a + b[..room.bytes - |a|];
    }
  }

  /** What a reader still has to give: its remaining bytes, and whether a read error follows them. */
  datatype Source = Source(data: seq<byte>, broken: bool)

  class Reader {
    const data: seq<byte>
    const broken: bool
    var pos: nat

    ghost predicate Valid()
      reads this
    {
      pos <= |data|
    }

    function Remaining(): Source
      reads this
      requires Valid()
    {
      Source(data[pos..], broken)
    }

    constructor (data: seq<byte>, broken: bool)
      ensures Valid() && this.data == data && this.broken == broken && pos == 0
      ensures Remaining() == Source(data, broken)
    {
      this.data := data;
      this.broken := broken;
      pos := 0;
    }

    /** io.ReadFull and io.CopyN: exactly n bytes, or an error after taking what there was. */
    method ReadFull(n: nat) returns (b: seq<byte>, ok: bool)
      requires Valid()
      modifies this`pos
      ensures Valid()
      ensures ok <==> n <= |old(Remaining()).data|
      ensures b == old(Remaining()).data[..Min(n, |old(Remaining()).data|)]
      ensures Remaining() == Source(old(Remaining()).data[|b|..], broken)
    {
      var take := Min(n, |data| - pos);
      b := data[pos..pos + take];
      pos := pos + take;
      ok := take == n;
    }

    /** Draining io.LimitReader(r, n): at most n bytes; running out early is an error only if the reader is broken. */
    method ReadAtMost(n: nat) returns (b: seq<byte>, ok: bool)
      requires Valid()
      modifies this`pos
      ensures Valid()
      ensures ok <==> n <= |old(Remaining()).data| || !broken
      ensures b == old(Remaining()).data[..Min(n, |old(Remaining()).data|)]
      ensures Remaining() == Source(old(Remaining()).data[|b|..], broken)
    {
      var take := Min(n, |data| - pos);
      b := data[pos..pos + take];
      pos := pos + take;
      ok := take == n || !broken;
    }

    /** io.Copy from the reader: everything up to EOF, or everything it yields and then its error. */
    method ReadAll() returns (b: seq<byte>, ok: bool)
      requires Valid()
      modifies this`pos
      ensures Valid()
      ensures ok == !broken
      ensures b == old(Remaining()).data
      ensures Remaining() == Source([], broken)
    {
      b := data[pos..];
      pos := |data|;
      ok := !broken;
    }
  }

  class Writer {
    var written: seq<byte>
    const limit: Capacity

    ghost predicate Valid()
      reads this
    {
      Fits(limit, |written|)
    }

    /** How many more bytes the writer accepts. */
    function Room(): Capacity
      reads this
      requires Valid()
    {
      Less(limit, |written|)
    }

    constructor (limit: Capacity)
      ensures Valid() && written == [] && this.limit == limit && Room() == limit
    {
      written := [];
      this.limit := limit;
    }

    /** w.Write(b): fails with a short write when b does not fit, keeping the part that did. */
    method Write(b: seq<byte>) returns (ok: bool)
      requires Valid()
      modifies this`written
      ensures Valid()
      ensures ok <==> Fits(old(Room()), |b|)
      ensures written == old(written) + Accepted(old(Room()), b)
      ensures ok ==> Room() == Less(old(Room()), |b|)
    {
      ok := Fits(Room(), |b|);
      written := written + Accepted(Room(), b);
    }
  }
}
