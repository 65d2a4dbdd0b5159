/** The copy of LZ77 decoders: the bytes to copy may include those the copy itself writes. */
module Overlap {
  import opened Bytes

  /** Append `len` bytes, each a copy of the one `off` places back: the copy may overlap itself. */
  function Copy(out: seq<byte>, off: nat, len: nat): (r: seq<byte>)
    requires 1 <= off <= |out|
    ensures |r| == |out| + len && out <= r
    decreases len
  {
    if len == 0 then out else Copy(out + [out[|out| - off]], off, len - 1)
  }

  lemma {:induction false} CopyOneMore(out: seq<byte>, off: nat, len: nat)
    requires 1 <= off <= |out|
    ensures Copy(out, off, len + 1) ==
            Copy(out, off, len) + [Copy(out, off, len)[|out| + len - off]]
    decreases len
  {
    if len > 0 {
      CopyOneMore(out + [out[|out| - off]], off, len - 1);
    }
  }

  /** Byte by byte, so that a match may run into what it has just written. */
  method CopyMatch(out: array<byte>, op: nat, off: nat, len: nat)
    requires 1 <= off <= op && op + len <= out.Length
    modifies out
    ensures out[..op + len] == Copy(old(out[..op]), off, len)
    ensures forall i :: op + len <= i < out.Length ==> out[i] == old(out[i])
  {
    ghost var was := out[..op];
    var k := 0;
    while k < len
      invariant 0 <= k <= len
      invariant out[..op + k] == Copy(was, off, k)
      invariant forall i :: op + len <= i < out.Length ==> out[i] == old(out[i])
    {
      ghost var c := out[..op + k];
      CopyOneMore(was, off, k);
      out[op + k] := out[op + k - off];
      assert out[..op + k + 1] == c + [c[op + k - off]];
      k := k + 1;
    }
  }

  lemma {:induction false} CopyRest(out: seq<byte>, off: nat, k: nat, l: nat)
    requires 1 <= off <= |out|
    ensures Copy(out, off, k + l) == Copy(Copy(out, off, k), off, l)
    decreases k
  {
    if k > 0 {
      CopyRest(out + [out[|out| - off]], off, k - 1, l);
    }
  }

  /** A copy no longer than its distance is a slice of what is there. */
  lemma {:induction false} CopyApart(out: seq<byte>, off: nat, len: nat)
    requires 1 <= off <= |out| && len <= off
    ensures Copy(out, off, len) == out + out[|out| - off..|out| - off + len]
  {
    if len > 0 {
      CopyApart(out, off, len - 1);
      CopyOneMore(out, off, len - 1);
    }
  }

  /** Copying from `off` back reproduces a source that repeats itself at that distance. */
  lemma {:induction false} CopyReproduces(src: seq<byte>, i: nat, off: nat, len: nat)
    requires 1 <= off <= i && i + len <= |src|
    requires forall k :: i <= k < i + len ==> src[k] == src[k - off]
    ensures Copy(src[..i], off, len) == src[..i + len]
    decreases len
  {
    if len > 0 {
      assert src[..i] + [src[..i][i - off]] == src[..i + 1];
      CopyReproduces(src, i + 1, off, len - 1);
    }
  }
}
