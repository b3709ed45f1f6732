/** The buffer an image is written to: a byte string with a position, as `QBuffer` keeps it. */
module DciDevice {
  import opened Bytes

  class Device {
    var buffer: seq<Byte>
    var pos: nat

    constructor (buffer: seq<Byte>)
      ensures this.buffer == buffer && pos == 0
    {
      this.buffer, pos := buffer, 0;
    }

    /** Bytes behind the position are replaced; the buffer grows at the end. */
    method Write(b: seq<Byte>) returns (n: nat)
      requires pos <= |buffer|
      modifies this
      ensures n == |b| && pos == old(pos) + n && pos <= |buffer|
      ensures buffer == Overwrite(old(buffer), old(pos), b)
    {
      buffer := Overwrite(buffer, pos, b);
      pos := pos + |b|;
      n := |b|;
    }

    /** Seeking past the end fills the gap with zeros. */
    method Seek(p: nat)
      modifies this
      ensures pos == p && pos <= |buffer|
      ensures buffer == Padded(old(buffer), p)
    {
      if p > |buffer| {
        buffer := buffer + Zeros(p - |buffer|);
      }
      pos := p;
    }
  }
}
