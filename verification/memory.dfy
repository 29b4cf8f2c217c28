// The objects of the library: blocks of bytes, the regions counted by reference
// that lie in them, and the pages that show windows of regions.
module Memory {
  newtype byte = x: int | 0 <= x < 256

  // memcpy between two different blocks
  method CopyBytes(dst: array<byte>, to: nat, src: array<byte>, from: nat, n: nat)
    requires dst != src && to + n <= dst.Length && from + n <= src.Length
    modifies dst
    ensures dst[..] == old(dst[..to]) + src[from..from + n] + old(dst[to + n..])
  {
    forall k | 0 <= k < n { dst[to + k] := src[from + k]; }
  }

  class Data {
    const mem: array<byte>
    const base: nat
    const len: nat
    const owned: bool
    var useCount: nat

    constructor (mem: array<byte>, base: nat, len: nat, owned: bool)
      ensures this.mem == mem && this.base == base && this.len == len && this.owned == owned && useCount == 1
    {
      this.mem, this.base, this.len, this.owned, useCount := mem, base, len, owned, 1;
    }
  }

  class Page {
    var data: Data?
    var off: nat
    var len: nat
    var prev: Page?
    var next: Page?

    constructor ()
      ensures data == null && off == len == 0 && prev == next == null
    {
      data, off, len, prev, next := null, 0, 0, null, null;
    }
  }
}
