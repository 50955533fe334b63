/** Byte buffers and the two ways a file object changes or reveals one: a read
    after a seek, and a write after a seek. */
module Bytes {

  newtype byte = x: int | 0 <= x < 256

  function Max(a: int, b: int): int { if a < b then b else a }

  /** `n` zero bytes: what the operating system puts in a gap left by a write past the end. */
  function Zeros(n: nat): (z: seq<byte>)
    ensures |z| == n
    ensures forall i :: 0 <= i < n ==> z[i] == 0
  {
    seq(n, _ => 0 as byte)
  }

  /** What `f.seek(offset); f.read(length)` returns on a file holding `buf`:
      the bytes from `offset` on, at most `length` of them, fewer when the file
      ends first, none at or past the end; a negative `length` reads to the end. */
  function ReadAt(buf: seq<byte>, offset: nat, length: int): (r: seq<byte>)
    ensures offset >= |buf| ==> r == []
    ensures offset < |buf| && length < 0 ==> |r| == |buf| - offset
    ensures offset < |buf| && length >= 0 ==> |r| == if offset + length <= |buf| then length else |buf| - offset
    ensures forall i :: 0 <= i < |r| ==> offset + i < |buf| && r[i] == buf[offset + i]
  {
    if offset >= |buf| then []
    else if length < 0 || offset + length > |buf| then buf[offset..]
    else buf[offset..offset + length]
  }

  /** The buffer after `f.seek(offset); f.write(data)`: `data` replaces the bytes
      at `[offset, offset + |data|)`, the file grows when the write runs past the
      end, and a gap between the old end and `offset` reads as zeros.  Writing
      nothing changes nothing, not even when `offset` lies past the end. */
  function WriteAt(buf: seq<byte>, offset: nat, data: seq<byte>): (r: seq<byte>)
    ensures |data| == 0 ==> r == buf
    ensures |data| > 0 ==> |r| == Max(|buf|, offset + |data|)
    ensures |data| > 0 ==> forall i :: 0 <= i < |r| ==>
      r[i] == if offset <= i < offset + |data| then data[i - offset]
              else if i < |buf| then buf[i]
              else 0
  {
    if |data| == 0 then buf
    else
      var head := if offset <= |buf| then buf[..offset] else buf + Zeros(offset - |buf|);
      var tail := if offset + |data| < |buf| then buf[offset + |data|..] else [];
      head + data + tail
  }

  /** Reading back the range just written yields exactly what was written. */
  lemma ReadBackWrite(buf: seq<byte>, offset: nat, data: seq<byte>)
    ensures ReadAt(WriteAt(buf, offset, data), offset, |data|) == data
  {
    var r := WriteAt(buf, offset, data);
    if |data| > 0 {
      var got := ReadAt(r, offset, |data|);
      assert |got| == |data|;
      forall i | 0 <= i < |data| ensures got[i] == data[i] {
        assert got[i] == r[offset + i];
      }
    }
  }

  /** A read of a range that a write does not touch sees the old bytes. */
  lemma ReadElsewhere(buf: seq<byte>, offset: nat, data: seq<byte>, from: nat, length: nat)
    requires from + length <= |buf|
    requires from + length <= offset || offset + |data| <= from
    ensures ReadAt(WriteAt(buf, offset, data), from, length) == ReadAt(buf, from, length)
  {
    var before := ReadAt(buf, from, length);
    var after := ReadAt(WriteAt(buf, offset, data), from, length);
    if |data| > 0 && length > 0 {
      assert |after| == |before|;
      forall i | 0 <= i < length ensures after[i] == before[i] { }
    }
  }

  /** A write from the start of the file, as a metadata flush does it, leaves the
      written bytes followed by whatever the file held beyond them: it does not
      truncate. */
  lemma WriteAtStart(buf: seq<byte>, data: seq<byte>)
    requires |data| > 0
    ensures WriteAt(buf, 0, data) == data + (if |data| < |buf| then buf[|data|..] else [])
  {
    var r := WriteAt(buf, 0, data);
    var expected := data + (if |data| < |buf| then buf[|data|..] else []);
    assert |r| == |expected|;
    forall i | 0 <= i < |r| ensures r[i] == expected[i] { }
  }
}
