/** The byte cursor the TAP parser reads through: a fixed buffer and a position
    that every read advances. */
module Stream {
  import opened Binary

  /** `ArrayBuffer.prototype.slice(from, from + len)`: both ends are clamped to the
      buffer, so it never fails and may return fewer than `len` bytes. */
  function Slice(buf: seq<byte>, from: nat, len: nat): (r: seq<byte>)
    ensures |r| == if from >= |buf| then 0 else if from + len <= |buf| then len else |buf| - from
    ensures forall k :: 0 <= k < |r| ==> r[k] == buf[from + k]
  {
    if from >= |buf| then []
    else if from + len <= |buf| then buf[from..from + len]
    else buf[from..]
  }

  class TapeStream {
    const buf: seq<byte>
    var pos: nat

    constructor (buffer: seq<byte>)
      ensures buf == buffer && pos == 0
    {
      buf := buffer;
      pos := 0;
    }

    /** Copies up to `len` bytes; the position moves by `len` even past the end. */
    method ReadBytes(len: nat) returns (r: seq<byte>)
      modifies this
      ensures r == Slice(buf, old(pos), len)
      ensures pos == old(pos) + len
    {
      r := Slice(buf, pos, len);
      pos := pos + len;
    }

    /** `getUint8` at the position: a RangeError past the end, leaving the position. */
    method ReadU1() returns (r: Result<byte>)
      modifies this
      ensures old(pos) < |buf| ==> r == Ok(buf[old(pos)]) && pos == old(pos) + 1
      ensures old(pos) >= |buf| ==> r == Err(RangeError) && pos == old(pos)
    {
      if pos >= |buf| {
        return Err(RangeError);
      }
      r := Ok(buf[pos]);
      pos := pos + 1;
    }

    /** Little-endian `getUint16` at the position: a RangeError unless two bytes remain. */
    method ReadU2le() returns (r: Result<int>)
      modifies this
      ensures old(pos) + 2 <= |buf| ==> r == Ok(U16At(buf, old(pos))) && pos == old(pos) + 2
      ensures old(pos) + 2 > |buf| ==> r == Err(RangeError) && pos == old(pos)
    {
      if pos + 2 > |buf| {
        return Err(RangeError);
      }
      r := Ok(buf[pos] as int + 256 * buf[pos + 1] as int);
      pos := pos + 2;
    }

    predicate IsEof()
      reads this
    {
      pos >= |buf|
    }
  }
}
