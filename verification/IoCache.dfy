/**
  The buffered paths of IO_CACHE: `my_b_read`, `my_b_get`, `my_b_write`, `my_b_tell` and
  `my_b_bytes_in_cache`.  When a request does not fit the buffer the macros call a function
  from elsewhere; here they report that and leave the cache alone.
 */
module IoCaches {
  import opened Options
  import opened ByteOrder

  /** `writing` says which pair of pointers current_pos and current_end refer to. */
  datatype Cache = Cache(buffer: seq<byte>, readPos: nat, readEnd: nat, writePos: nat, writeEnd: nat,
                         requestPos: nat, posInFile: nat, writing: bool)
  {
    predicate Valid() {
      && readPos <= readEnd <= |buffer| && writePos <= writeEnd <= |buffer|
      && requestPos <= CurrentPos()
    }

    function CurrentPos(): nat {
      if writing then writePos else readPos
    }

    function CurrentEnd(): nat {
      if writing then writeEnd else readEnd
    }

    function Tell(): int {
      posInFile + (CurrentPos() - requestPos)
    }

    function BytesInCache(): int {
      CurrentEnd() - CurrentPos()
    }
  }

  datatype Request = Get | Read(count: nat) | Write(bytes: seq<byte>)

  predicate Fits(c: Cache, r: Request) {
    match r
    case Get => c.readPos != c.readEnd
    case Read(n) => c.readPos + n <= c.readEnd
    case Write(b) => c.writePos + |b| <= c.writeEnd
  }

  function After(c: Cache, r: Request): Cache
    requires c.Valid() && Fits(c, r)
  {
    match r
    case Get => c.(readPos := c.readPos + 1)
    case Read(n) => c.(readPos := c.readPos + n)
    case Write(b) =>
      c.(buffer := c.buffer[..c.writePos] + b + c.buffer[c.writePos + |b|..], writePos := c.writePos + |b|)
  }

  function Delivered(c: Cache, r: Request): seq<byte>
    requires c.Valid() && Fits(c, r)
  {
    match r
    case Get => [c.buffer[c.readPos]]
    case Read(n) => c.buffer[c.readPos..c.readPos + n]
    case Write(_) => []
  }

  class IoCache {
    var buffer: array<byte>
    var readPos: nat
    var readEnd: nat
    var writePos: nat
    var writeEnd: nat
    var requestPos: nat
    var posInFile: nat
    const writing: bool

    ghost function State(): Cache
      reads this, buffer
    {
      Cache(buffer[..], readPos, readEnd, writePos, writeEnd, requestPos, posInFile, writing)
    }

    method MyBRead(dst: array<byte>, count: nat) returns (done: bool)
      requires State().Valid() && dst != buffer && count <= dst.Length
      modifies `readPos, dst
      ensures done == Fits(old(State()), Read(count))
      ensures State() == if done then After(old(State()), Read(count)) else old(State())
      ensures dst[..] == (if done then Delivered(old(State()), Read(count)) else old(dst[..count])) + old(dst[count..])
    {
      if readPos + count <= readEnd {
        forall i | 0 <= i < count {
          dst[i] := buffer[readPos + i];
        }
        readPos := readPos + count;
        return true;
      }
      return false;
    }

    method MyBGet() returns (b: Option<byte>)
      requires State().Valid()
      modifies `readPos
      ensures b.Some? == Fits(old(State()), Get)
      ensures State() == if b.Some? then After(old(State()), Get) else old(State())
      ensures b.Some? ==> [b.value] == Delivered(old(State()), Get)
    {
      if readPos != readEnd {
        readPos := readPos + 1;
        return Some(buffer[readPos - 1]);
      }
      return None;
    }

    method MyBWrite(src: array<byte>, count: nat) returns (done: bool)
      requires State().Valid() && src != buffer && count <= src.Length
      modifies `writePos, buffer
      ensures done == Fits(old(State()), Write(src[..count]))
      ensures State() == if done then After(old(State()), Write(src[..count])) else old(State())
    {
      if writePos + count <= writeEnd {
        forall i | 0 <= i < count {
          buffer[writePos + i] := src[i];
        }
        writePos := writePos + count;
        return true;
      }
      return false;
    }
  }

  // ----- sequences of requests that fit

  ghost predicate Run(cs: seq<Cache>, rs: seq<Request>) {
    && |cs| == |rs| + 1 && cs[0].Valid()
    && forall i :: 0 <= i < |rs| ==> cs[i].Valid() && Fits(cs[i], rs[i]) && cs[i + 1] == After(cs[i], rs[i])
  }

  ghost function AllDelivered(cs: seq<Cache>, rs: seq<Request>): seq<byte>
    requires Run(cs, rs)
  {
    if rs == [] then []
    else
      var n := |rs| - 1;
      AllDelivered(cs[..|rs|], rs[..n]) + Delivered(cs[n], rs[n])
  }

  function AllWritten(rs: seq<Request>): seq<byte> {
    if rs == [] then []
    else
      var n := |rs| - 1;
      AllWritten(rs[..n]) + if rs[n].Write? then rs[n].bytes else []
  }

  /** From `c` to `d` the bytes `out` were read: the next ones in the buffer, and nothing else moved. */
  ghost predicate HasRead(c: Cache, d: Cache, out: seq<byte>) {
    && c.readPos <= d.readPos <= |c.buffer|
    && d == c.(readPos := d.readPos)
    && out == c.buffer[c.readPos..d.readPos]
  }

  /** From `c` to `d` the bytes `b` were written: after the filled region, and nothing else moved. */
  ghost predicate HasWritten(c: Cache, d: Cache, b: seq<byte>) {
    && c.writePos + |b| <= |c.buffer|
    && d == c.(writePos := c.writePos + |b|,
               buffer := c.buffer[..c.writePos] + b + c.buffer[c.writePos + |b|..])
  }

  lemma ReadOnce(c: Cache, d: Cache, out: seq<byte>, r: Request)
    requires HasRead(c, d, out) && d.Valid() && Fits(d, r) && !r.Write?
    ensures HasRead(c, After(d, r), out + Delivered(d, r))
  {
  }

  lemma BufferWrittenOnce(was: seq<byte>, p: nat, b: seq<byte>, more: seq<byte>)
    requires p + |b| + |more| <= |was|
    ensures var q := p + |b|;
            var now := was[..p] + b + was[q..];
            now[..q] + more + now[q + |more|..] == was[..p] + (b + more) + was[q + |more|..]
  {
    var q := p + |b|;
    var now := was[..p] + b + was[q..];
    assert now[..q] == was[..p] + b;
    assert now[q + |more|..] == was[q + |more|..];
  }

  lemma WrittenOnce(c: Cache, d: Cache, b: seq<byte>, more: seq<byte>)
    requires HasWritten(c, d, b) && d.Valid() && Fits(d, Write(more))
    ensures HasWritten(c, After(d, Write(more)), b + more)
  {
    BufferWrittenOnce(c.buffer, c.writePos, b, more);
  }

  lemma {:induction false} ReadsAreConsecutive(cs: seq<Cache>, rs: seq<Request>)
    requires Run(cs, rs)
    requires forall i :: 0 <= i < |rs| ==> !rs[i].Write?
    ensures HasRead(cs[0], cs[|rs|], AllDelivered(cs, rs))
  {
    if rs != [] {
      var n := |rs| - 1;
      ReadsAreConsecutive(cs[..|rs|], rs[..n]);
      assert cs[..|rs|][n] == cs[n];
      ReadOnce(cs[0], cs[n], AllDelivered(cs[..|rs|], rs[..n]), rs[n]);
    }
  }

  lemma {:induction false} WritesAreConsecutive(cs: seq<Cache>, rs: seq<Request>)
    requires Run(cs, rs)
    requires forall i :: 0 <= i < |rs| ==> rs[i].Write?
    ensures HasWritten(cs[0], cs[|rs|], AllWritten(rs))
  {
    if rs == [] {
      var c := cs[0];
      assert c.buffer[..c.writePos] + [] + c.buffer[c.writePos..] == c.buffer;
    } else {
      var n := |rs| - 1;
      WritesAreConsecutive(cs[..|rs|], rs[..n]);
      assert cs[..|rs|][n] == cs[n];
      WrittenOnce(cs[0], cs[n], AllWritten(rs[..n]), rs[n].bytes);
    }
  }

  /** Where the position counts from, and what fits without a refill. */
  lemma PositionsAre(c: Cache)
    requires c.Valid()
    ensures c.CurrentPos() == c.requestPos ==> c.Tell() == c.posInFile
    ensures c.Tell() - c.posInFile == (if c.writing then c.writePos else c.readPos) - c.requestPos
    ensures forall n: nat :: !c.writing ==> (Fits(c, Read(n)) <==> n <= c.BytesInCache())
    ensures !c.writing ==> (Fits(c, Get) <==> c.BytesInCache() > 0)
    ensures forall b :: c.writing ==> (Fits(c, Write(b)) <==> |b| <= c.BytesInCache())
  {
  }

  /**
    Reads of any sizes hand out consecutive bytes of the buffer while position plus remainder
    stays put; writes of any sizes fill it with their concatenation while the position grows by
    exactly their total length.
   */
  lemma RequestsConserve(cs: seq<Cache>, rs: seq<Request>)
    requires Run(cs, rs)
    ensures !cs[0].writing && (forall i :: 0 <= i < |rs| ==> !rs[i].Write?) ==>
              && HasRead(cs[0], cs[|rs|], AllDelivered(cs, rs))
              && cs[|rs|].Tell() + cs[|rs|].BytesInCache() == cs[0].Tell() + cs[0].BytesInCache()
    ensures cs[0].writing && (forall i :: 0 <= i < |rs| ==> rs[i].Write?) ==>
              && HasWritten(cs[0], cs[|rs|], AllWritten(rs))
              && cs[|rs|].Tell() == cs[0].Tell() + |AllWritten(rs)|
              && cs[|rs|].BytesInCache() == cs[0].BytesInCache() - |AllWritten(rs)|
  {
    if forall i :: 0 <= i < |rs| ==> !rs[i].Write? {
      ReadsAreConsecutive(cs, rs);
    }
    if forall i :: 0 <= i < |rs| ==> rs[i].Write? {
      WritesAreConsecutive(cs, rs);
    }
  }
}
