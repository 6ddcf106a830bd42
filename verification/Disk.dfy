/** An ideal disk: a flat array of bytes, moved to and from the FS buffer by `rw_sector`. */
module Disks {
  type byte = bv8

  const SECTOR_SIZE: nat := 512
  const FSBUF_SIZE: nat := 0x100000

  class Disk {
    const data: array<byte>
    const fsbuf: array<byte>

    ghost predicate Valid() {
      data != fsbuf && fsbuf.Length == FSBUF_SIZE
    }

    constructor (size: nat)
      ensures Valid() && data.Length == size && fresh(data) && fresh(fsbuf)
    {
      data := new byte[size];
      fsbuf := new byte[FSBUF_SIZE];
    }

    /** The disk as it will be once the first `len` bytes of the buffer are written back at `pos`. */
    ghost function View(pos: nat, len: nat): (v: seq<byte>)
      requires pos + len <= data.Length && len <= fsbuf.Length
      reads data, fsbuf
      ensures |v| == data.Length
    {
      data[..pos] + fsbuf[..len] + data[pos + len..]
    }

    /** rw_sector with DEV_READ. */
    method Read(pos: nat, len: nat)
      requires Valid() && pos + len <= data.Length && len <= FSBUF_SIZE
      modifies fsbuf
      ensures fsbuf[..len] == data[pos..pos + len] && fsbuf[len..] == old(fsbuf[len..])
      ensures View(pos, len) == data[..]
    {
      forall i | 0 <= i < len {
        fsbuf[i] := data[pos + i];
      }
    }

    /** rw_sector with DEV_WRITE. */
    method Write(pos: nat, len: nat)
      requires Valid() && pos + len <= data.Length && len <= FSBUF_SIZE
      modifies data
      ensures data[..] == old(View(pos, len))
    {
      forall i | 0 <= i < len {
        data[pos + i] := fsbuf[i];
      }
    }

    /** Changing one buffered byte changes the same byte of the view. */
    method Poke(i: nat, x: byte, ghost pos: nat, ghost len: nat)
      requires Valid() && i < len <= FSBUF_SIZE && pos + len <= data.Length
      modifies fsbuf
      ensures View(pos, len) == old(View(pos, len))[pos + i := x]
      ensures fsbuf[..] == old(fsbuf[..])[i := x]
    {
      fsbuf[i] := x;
    }
  }
}
