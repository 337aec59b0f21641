/** Bytes, and the ASCII folding the scanner matches under. */
module Bytes {
  type byte = b: int | 0 <= b < 256

  function Fold(b: byte): byte {
    if 'A' as int <= b <= 'Z' as int then b + 32 else b
  }

  function FoldAll(s: seq<byte>): (r: seq<byte>)
    ensures |r| == |s|
  {
    seq(|s|, i requires 0 <= i < |s| => Fold(s[i]))
  }

  predicate IsSuffix<T(==)>(u: seq<T>, s: seq<T>) {
    |u| <= |s| && s[|s| - |u|..] == u
  }

  predicate IsProperSuffix<T(==)>(u: seq<T>, s: seq<T>) {
    |u| < |s| && s[|s| - |u|..] == u
  }
}
