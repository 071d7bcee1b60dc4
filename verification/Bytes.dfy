/** Bytes, and 32-bit words kept in them with the lowest byte first. */
module Bytes {

  type byte = x: int | 0 <= x < 256
  type word = x: int | 0 <= x < 0x1_0000_0000

  /** Writing data into a block at an offset. */
  function Patched(b: seq<byte>, offset: nat, data: seq<byte>): seq<byte>
    requires offset + |data| <= |b|
  {
    b[..offset] + data + b[offset + |data|..]
  }

  /** struct.pack("I", v), on a little-endian machine. */
  function Pack(v: word): (r: seq<byte>)
    ensures |r| == 4
  {
    [v % 256, v / 256 % 256, v / 256 / 256 % 256, v / 256 / 256 / 256]
  }

  function Unpack(s: seq<byte>): word
    requires |s| == 4
  {
    var b0: int, b1: int, b2: int, b3: int := s[0], s[1], s[2], s[3];
    b0 + 256 * b1 + 65536 * b2 + 16777216 * b3
  }

  lemma UnpackPack(v: word)
    ensures Unpack(Pack(v)) == v
  {
  }

  /** The i-th word of a block. */
  function WordAt(b: seq<byte>, i: nat): word
    requires 4 * i + 4 <= |b|
  {
    Unpack(b[4 * i..4 * i + 4])
  }

  function WithWord(b: seq<byte>, i: nat, v: word): seq<byte>
    requires 4 * i + 4 <= |b|
  {
    Patched(b, 4 * i, Pack(v))
  }

  lemma WordWritten(b: seq<byte>, i: nat, v: word)
    requires 4 * i + 4 <= |b|
    ensures |WithWord(b, i, v)| == |b|
    ensures forall j: nat {:trigger WordAt(b, j)} {:trigger WordAt(WithWord(b, i, v), j)} :: 4 * j + 4 <= |b| ==>
              WordAt(WithWord(b, i, v), j) == if j == i then v else WordAt(b, j)
  {
    UnpackPack(v);
    var b' := WithWord(b, i, v);
    forall j: nat | 4 * j + 4 <= |b| ensures WordAt(b', j) == if j == i then v else WordAt(b, j) {
      if j == i {
        assert b'[4 * j..4 * j + 4] == Pack(v);
      } else {
        assert b'[4 * j..4 * j + 4] == b[4 * j..4 * j + 4];
      }
    }
  }

  /** The bytes of several words in a row. */
  function PackAll(ws: seq<word>): (r: seq<byte>)
    ensures |r| == 4 * |ws|
  {
    if ws == [] then [] else PackAll(ws[..|ws| - 1]) + Pack(ws[|ws| - 1])
  }

  lemma {:induction false} PackAllAt(ws: seq<word>, rest: seq<byte>, i: nat)
    requires i < |ws|
    ensures WordAt(PackAll(ws) + rest, i) == ws[i]
  {
    var n := |ws| - 1;
    var last := Pack(ws[n]);
    assert PackAll(ws) + rest == PackAll(ws[..n]) + (last + rest);
    if i == n {
      UnpackPack(ws[n]);
      assert (PackAll(ws) + rest)[4 * i..4 * i + 4] == last;
    } else {
      PackAllAt(ws[..n], last + rest, i);
    }
  }
}
