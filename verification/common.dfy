/** Shared value types: optional values, results, bytes and the bounds of
    the 32-bit signed integers the program stores ports in. */
module Common {

  /** A value that may be absent (Rust's `Option`). */
  datatype Option<+T> = None | Some(value: T)

  /** A success value or an error value (Rust's `Result`). */
  datatype Result<+T, +E> = Success(value: T) | Failure(error: E)

  /** An octet as read from a channel or a file. */
  newtype byte = b: int | 0 <= b < 256

  type Bytes = seq<byte>

  const I32Min: int := -0x8000_0000
  const I32Max: int := 0x7FFF_FFFF

  /** Rust's `i32`. */
  type int32 = x: int | I32Min <= x <= I32Max

  /** Concatenation of a sequence of sequences, first to last. */
  function Flatten<T>(xs: seq<seq<T>>): seq<T>
  {
    if |xs| == 0 then [] else Flatten(xs[..|xs| - 1]) + xs[|xs| - 1]
  }

  lemma {:induction false} FlattenAppend<T>(xs: seq<seq<T>>, ys: seq<seq<T>>)
    ensures Flatten(xs + ys) == Flatten(xs) + Flatten(ys)
    decreases |ys|
  {
    if |ys| == 0 {
      assert xs + ys == xs;
    } else {
      var init := ys[..|ys| - 1];
      assert (xs + ys)[..|xs + ys| - 1] == xs + init;
      FlattenAppend(xs, init);
    }
  }
}
