/** The few operations of Node's Buffer that the encoders use, on a Dafny
    array of bytes. Each write method requires what Node checks before writing
    (Node throws a RangeError otherwise) and says that the cells it writes
    hold the encoding of the value while every other cell is unchanged. */
module NodeBuffer {
  import opened Bytes

  /** Buffer.alloc(size): a fresh buffer of `size` zero bytes. */
  method Alloc(size: nat) returns (buf: array<byte>)
    ensures fresh(buf)
    ensures buf[..] == seq(size, _ => 0)
  {
    buf := new byte[size](_ => 0);
  }

  /** Overwrite buf[offset .. offset + |bytes|] with `bytes`. */
  method Put(buf: array<byte>, bytes: seq<byte>, offset: nat)
    requires offset + |bytes| <= buf.Length
    modifies buf
    ensures buf[..] == old(buf[..offset]) + bytes + old(buf[offset + |bytes|..])
  {
    forall k | 0 <= k < |bytes| {
      buf[offset + k] := bytes[k];
    }
    assert buf[..] == old(buf[..offset]) + bytes + old(buf[offset + |bytes|..]);
  }

  /** buf.writeUInt8(value, offset) */
  method WriteUInt8(buf: array<byte>, value: nat, offset: nat)
    requires value < 256 && offset + 1 <= buf.Length
    modifies buf
    ensures buf[..] == old(buf[..offset]) + [value] + old(buf[offset + 1..])
  {
    Put(buf, [value], offset);
  }

  /** buf.writeUInt16LE(value, offset) */
  method WriteUInt16LE(buf: array<byte>, value: nat, offset: nat)
    requires value < U16_LIMIT && offset + 2 <= buf.Length
    modifies buf
    ensures buf[..] == old(buf[..offset]) + U16LE(value) + old(buf[offset + 2..])
  {
    Put(buf, U16LE(value), offset);
  }

  /** buf.writeUInt32LE(value, offset) */
  method WriteUInt32LE(buf: array<byte>, value: nat, offset: nat)
    requires value < U32_LIMIT && offset + 4 <= buf.Length
    modifies buf
    ensures buf[..] == old(buf[..offset]) + U32LE(value) + old(buf[offset + 4..])
  {
    Put(buf, U32LE(value), offset);
  }

  /** buf.writeUInt32BE(value, offset) */
  method WriteUInt32BE(buf: array<byte>, value: nat, offset: nat)
    requires value < U32_LIMIT && offset + 4 <= buf.Length
    modifies buf
    ensures buf[..] == old(buf[..offset]) + U32BE(value) + old(buf[offset + 4..])
  {
    Put(buf, U32BE(value), offset);
  }

  /** A string of ASCII characters, which buf.write(string, offset) stores one
      byte per character. */
  predicate IsAscii(s: string)
  {
    forall k :: 0 <= k < |s| ==> s[k] as int < 128
  }

  function AsciiBytes(s: string): (r: seq<byte>)
    requires IsAscii(s)
    ensures |r| == |s|
  {
    seq(|s|, k requires 0 <= k < |s| => s[k] as int)
  }

  function AsciiDecode(bytes: seq<byte>): (s: string)
    ensures |s| == |bytes|
  {
    seq(|bytes|, k requires 0 <= k < |bytes| => bytes[k] as char)
  }

  lemma AsciiRoundTrip(s: string)
    requires IsAscii(s)
    ensures AsciiDecode(AsciiBytes(s)) == s
  {
  }

  /** buf.write(string, offset), for an ASCII string that fits. */
  method WriteAscii(buf: array<byte>, s: string, offset: nat)
    requires IsAscii(s) && offset + |s| <= buf.Length
    modifies buf
    ensures buf[..] == old(buf[..offset]) + AsciiBytes(s) + old(buf[offset + |s|..])
  {
    Put(buf, AsciiBytes(s), offset);
  }

  /** data.copy(buf, offset), for data that fits. */
  method CopyInto(data: seq<byte>, buf: array<byte>, offset: nat)
    requires offset + |data| <= buf.Length
    modifies buf
    ensures buf[..] == old(buf[..offset]) + data + old(buf[offset + |data|..])
  {
    Put(buf, data, offset);
  }
}
