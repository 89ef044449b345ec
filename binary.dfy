/** Byte-level building blocks shared by the tape and sprite codecs: the byte type,
    the wrap-around stores of a JavaScript `DataView`/`Uint8Array`, little-endian
    16-bit fields, the XOR fold used as a tape checksum and `String.trim`. */
module Binary {

  /** An 8-bit value, kept as an integer so that field arithmetic stays linear.
      Bitwise operations go through `bv8` in the few functions that need them. */
  type byte = x: int | 0 <= x < 256

  /** Failure kinds of the data layer. `RangeError` is what `DataView.getUint8` and
      `DataView.getUint16` throw past the end of their buffer. */
  datatype Error =
    | RangeError
    | NothingToSave
    | NoFilename
    | SpriteDataTooLarge(size: int)

  datatype Result<T> = Ok(value: T) | Err(error: Error)

  datatype Option<T> = None | Some(value: T)

  /** The byte that a `Uint8Array` element or `setUint8` stores for the number `x`:
      JavaScript's ToUint8, that is `x` modulo 256. */
  function ToByte(x: int): (b: byte)
    ensures b == x % 256
    ensures 0 <= x < 256 ==> b == x
  {
    x % 256
  }

  /** The two bytes `setUint16(_, x, true)` stores: `x` reduced modulo 65536
      (ToUint16), low byte first. */
  function U16LE(x: int): (r: seq<byte>)
    ensures |r| == 2
    ensures r[0] as int + 256 * r[1] as int == x % 65536
  {
    var v := x % 65536;
    [v % 256, v / 256]
  }

  /** The value `getUint16(pos, true)` reads: the two bytes at `pos`, little-endian. */
  function U16At(s: seq<byte>, pos: nat): (v: int)
    requires pos + 2 <= |s|
    ensures 0 <= v < 65536
  {
    s[pos] as int + 256 * s[pos + 1] as int
  }

  lemma {:induction false} U16RoundTrip(x: int, s: seq<byte>, pos: nat)
    requires pos + 2 <= |s| && s[pos..pos + 2] == U16LE(x)
    ensures U16At(s, pos) == x % 65536
  {
    assert s[pos] == s[pos..pos + 2][0] && s[pos + 1] == s[pos..pos + 2][1];
  }

  lemma ByteRoundTrip(b: byte)
    ensures (b as bv8) as int == b
  {
    if b < 128 {
      if b < 64 { } else { }
    } else {
      if b < 192 { } else { }
    }
  }

  /** A value that fits 16 bits reads back unchanged. */
  lemma U16Exact(x: int, s: seq<byte>, pos: nat)
    requires 0 <= x < 65536
    requires pos + 2 <= |s| && s[pos..pos + 2] == U16LE(x)
    ensures U16At(s, pos) == x
  {
    U16RoundTrip(x, s, pos);
  }

  /** The two halves of a slice, as slices of the whole. */
  lemma SubSlice(s: seq<byte>, i: nat, j: nat, k: nat)
    requires i + k <= j <= |s|
    ensures s[i..j][..k] == s[i..i + k] && s[i..j][k..] == s[i + k..j]
  {
  }

  /** JavaScript's `^` on two byte values. */
  function XorByte(a: byte, b: byte): byte
  {
    ((a as bv8) ^ (b as bv8)) as int
  }

  /** XOR of the first `n` bytes of `s`, folded from the left as `checksum ^= byte` does. */
  function XorUpTo(s: seq<byte>, n: nat): byte
    requires n <= |s|
  {
    if n == 0 then 0 else XorByte(XorUpTo(s, n - 1), s[n - 1])
  }

  /** XOR of every byte of `s`. */
  function Xor(s: seq<byte>): byte
  {
    XorUpTo(s, |s|)
  }

  /** The single-byte code points `String.prototype.trim` removes, once a byte has been
      decoded by `TextDecoder("ascii")` (windows-1252): TAB, LF, VT, FF, CR, SPACE, NBSP. */
  predicate IsJsSpace(b: byte)
  {
    (9 <= b <= 13) || b == 32 || b == 160
  }

  function TrimStart(s: seq<byte>): (r: seq<byte>)
    ensures |r| <= |s| && r == s[|s| - |r|..]
    ensures r == [] || !IsJsSpace(r[0])
    ensures forall i :: 0 <= i < |s| - |r| ==> IsJsSpace(s[i])
  {
    if s != [] && IsJsSpace(s[0]) then TrimStart(s[1..]) else s
  }

  function TrimEnd(s: seq<byte>): (r: seq<byte>)
    ensures |r| <= |s| && r == s[..|r|]
    ensures r == [] || !IsJsSpace(r[|r| - 1])
    ensures forall i :: |r| <= i < |s| ==> IsJsSpace(s[i])
  {
    if s != [] && IsJsSpace(s[|s| - 1]) then TrimEnd(s[..|s| - 1]) else s
  }

  /** `String.prototype.trim` on a byte string: whitespace removed at both ends. The
      result is the middle of `s`, starting after the leading whitespace and followed
      only by whitespace. */
  function Trim(s: seq<byte>): (r: seq<byte>)
    ensures |r| <= |s|
    ensures r == [] || (!IsJsSpace(r[0]) && !IsJsSpace(r[|r| - 1]))
    ensures var i := |s| - |TrimStart(s)|;
      && i + |r| <= |s| && r == s[i..i + |r|]
      && (forall k :: 0 <= k < i ==> IsJsSpace(s[k]))
      && (forall k :: i + |r| <= k < |s| ==> IsJsSpace(s[k]))
  {
    var t := TrimStart(s);
    var r := TrimEnd(t);
    TrimMiddle(s, t, r, |s| - |t|);
    r
  }

  /** Trimming the front, then the back, leaves a middle slice of the string with no
      whitespace at either end. */
  lemma TrimMiddle(s: seq<byte>, t: seq<byte>, r: seq<byte>, i: nat)
    requires i + |t| == |s| && t == s[i..] && (t == [] || !IsJsSpace(t[0]))
    requires |r| <= |t| && r == t[..|r|] && (r == [] || !IsJsSpace(r[|r| - 1]))
    requires forall k :: |r| <= k < |t| ==> IsJsSpace(t[k])
    ensures i + |r| <= |s| && r == s[i..i + |r|]
    ensures r == [] || (!IsJsSpace(r[0]) && !IsJsSpace(r[|r| - 1]))
    ensures forall k :: i + |r| <= k < |s| ==> IsJsSpace(s[k])
  {
    assert r != [] ==> r[0] == t[0];
    forall k | i + |r| <= k < |s|
      ensures IsJsSpace(s[k])
    {
      assert s[k] == t[k - i];
    }
  }

  /** A string with no whitespace at either end, followed by spaces only, trims back to itself. */
  lemma {:induction false} TrimPadded(name: seq<byte>, pad: seq<byte>)
    requires name == [] || (!IsJsSpace(name[0]) && !IsJsSpace(name[|name| - 1]))
    requires forall k :: 0 <= k < |pad| ==> pad[k] == 32
    ensures Trim(name + pad) == name
  {
    if name == [] {
      assert name + pad == pad;
      AllSpacesTrimStart(pad);
    } else {
      assert TrimStart(name + pad) == name + pad;
      TrimEndPad(name, pad);
    }
  }

  lemma {:induction false} AllSpacesTrimStart(pad: seq<byte>)
    requires forall k :: 0 <= k < |pad| ==> pad[k] == 32
    ensures TrimStart(pad) == [] && TrimEnd(TrimStart(pad)) == []
  {
    if pad != [] {
      AllSpacesTrimStart(pad[1..]);
    }
  }

  lemma {:induction false} TrimEndPad(name: seq<byte>, pad: seq<byte>)
    requires name != [] && !IsJsSpace(name[|name| - 1])
    requires forall k :: 0 <= k < |pad| ==> pad[k] == 32
    ensures TrimEnd(name + pad) == name
    decreases |pad|
  {
    if pad == [] {
      assert name + pad == name;
    } else {
      assert (name + pad)[..|name + pad| - 1] == name + pad[..|pad| - 1];
      TrimEndPad(name, pad[..|pad| - 1]);
    }
  }
}
