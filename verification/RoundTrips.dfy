/** Compressing and decompressing again, for both compressors of tools/ProgramStore whose decompressors are there. */
module RoundTrips {
  import opened Bytes
  import LC = LzoCompressor
  import LD = LzoDecompressor
  import LS = LzoCheckedDecompressor
  import ZC = LzrwCompressor
  import ZD = LzrwDecompressor

  /** The first `n` bytes of `a` in a new buffer, with nothing behind them. */
  method Copied(a: array<byte>, n: nat) returns (b: array<byte>)
    requires n <= a.Length
    ensures fresh(b) && b.Length == n && b[..n] == a[..n]
  {
    b := new byte[n];
    forall i | 0 <= i < n {
      b[i] := a[i];
    }
  }

  /** lzo1x_decompress undoes lzo1x_1_compress, whatever the dictionary held before and whatever the hash functions. */
  method Lzo(src: array<byte>, dict: array<int>, hash: LC.Hashing) returns (back: array<byte>, len: nat, code: LD.Code)
    requires hash.Fits(dict.Length)
    modifies dict
    ensures code == LD.LZO_E_OK && len <= back.Length && back[..len] == src[..] == old(src[..])
  {
    var n := src.Length;
    var out := new byte[2 * n + 96];
    var op := LC.Compress(src, n, out, dict, hash);
    var packed := Copied(out, op);
    assert packed[..] == out[..op];
    back := new byte[n];
    code, len := LD.Decompress(packed, op, back);
  }

  /** lzo1x_decompress_safe does so too, with an output limit of exactly the length of the source, and without reading
      a byte behind the compressed data. */
  method LzoChecked(src: array<byte>, dict: array<int>, hash: LC.Hashing)
    returns (back: array<byte>, len: nat, code: LD.Code)
    requires hash.Fits(dict.Length)
    modifies dict
    ensures code == LD.LZO_E_OK && len <= back.Length && back[..len] == src[..] == old(src[..])
  {
    var n := src.Length;
    var out := new byte[2 * n + 96];
    var op := LC.Compress(src, n, out, dict, hash);
    var packed := Copied(out, op);
    back := new byte[n];
    ghost var past;
    LS.StreamIsWhole(packed[..op], n);
    code, len, past := LS.DecompressSafe(packed, op, back, n);
  }

  /** Where the checked decoder finds a stream, whether or not bytes follow it, the unchecked one gives the same. */
  method LzoAgree(inp: array<byte>, in_len: nat, limit: nat)
    returns (safe: LD.Code, bytes: array<byte>, len: nat, code: LD.Code, same: array<byte>, same_len: nat)
    requires in_len <= inp.Length && (in_len == 0 ==> 1 <= inp.Length && inp[0] <= 17)
    requires in_len + 6 <= inp.Length || !LS.TearsFromStart(inp[..in_len], limit)
    ensures len <= bytes.Length && same_len <= same.Length
    ensures safe == LD.LZO_E_OK || safe == LD.LZO_E_INPUT_NOT_CONSUMED ==>
              code == safe && same[..same_len] == bytes[..len]
  {
    bytes, same := new byte[limit], new byte[limit];
    var stream := Copied(inp, in_len);
    assert stream[..] == inp[..in_len];
    ghost var past;
    safe, len, past := LS.DecompressSafe(inp, in_len, bytes, limit);
    code, same_len := safe, 0;
    if safe == LD.LZO_E_OK || safe == LD.LZO_E_INPUT_NOT_CONSUMED {
      code, same_len := LD.Decompress(stream, in_len, same);
    }
  }

  /** Decompression undoes Compression, for every nonempty source and every hash function. */
  method Lzrw(src: array<byte>, n: nat, table: array<int>, hash: (byte, byte, byte) -> ZC.Slot)
    returns (back: array<byte>, len: nat)
    requires 1 <= n && n + 2 <= src.Length && table.Length == ZC.HASH_TABLE_SIZE
    modifies table
    ensures len <= back.Length && back[..len] == src[..n] == old(src[..n])
  {
    var out := new byte[n + 6];
    var y := ZC.Compression(src, out, n, table, hash);
    back := new byte[n];
    assert out[..y][0] == out[0];
    len := ZD.Decompression(out, back, y);
  }
}
