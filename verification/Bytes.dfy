/** The unsigned char of the C sources, and an Option for results that may be missing. */
module Bytes {
  type byte = x: int | 0 <= x < 256

  datatype Option<+T> = None | Some(value: T)

  /** The bytes `x` stand in `s` at position `i`. */
  ghost predicate At(s: seq<byte>, i: nat, x: seq<byte>) {
    i + |x| <= |s| && forall k {:trigger x[k]} :: 0 <= k < |x| ==> s[i + k] == x[k]
  }

  lemma {:induction false} AtConcat(s: seq<byte>, i: nat, x: seq<byte>, y: seq<byte>)
    requires At(s, i, x + y)
    ensures At(s, i, x) && At(s, i + |x|, y)
  {
    forall k | 0 <= k < |x| ensures s[i + k] == x[k] {
      assert (x + y)[k] == x[k];
    }
    forall k | 0 <= k < |y| ensures s[i + |x| + k] == y[k] {
      assert (x + y)[|x| + k] == y[k];
    }
  }
}
