/** Shared value types: bytes, optional values and results, and concatenation of
    a list of pieces (how a stream is cut up is irrelevant exactly when only the
    concatenation matters). */
module Basics {

  type Byte = b: int | 0 <= b < 256
  type Bytes = seq<Byte>

  datatype Option<+T> = None | Some(value: T)

  datatype Result<+T, +E> = Ok(value: T) | Err(error: E)

  function Max(a: int, b: int): int {
    if a >= b then a else b
  }

  function Min(a: int, b: int): int {
    if a <= b then a else b
  }

  lemma Regroup<T>(a: seq<T>, b: seq<T>, c: seq<T>)
    ensures a + b + c == a + (b + c)
  {
  }

  /** The pieces one after the other. */
  function Flatten<T>(pieces: seq<seq<T>>): seq<T> {
    if pieces == [] then [] else pieces[0] + Flatten(pieces[1..])
  }

  lemma {:induction false} FlattenAppend<T>(xs: seq<seq<T>>, ys: seq<seq<T>>)
    ensures Flatten(xs + ys) == Flatten(xs) + Flatten(ys)
  {
    if xs == [] {
      assert xs + ys == ys;
    } else {
      assert (xs + ys)[1..] == xs[1..] + ys;
      FlattenAppend(xs[1..], ys);
    }
  }

  lemma FlattenSnoc<T>(xs: seq<seq<T>>, y: seq<T>)
    ensures Flatten(xs + [y]) == Flatten(xs) + y
  {
    FlattenAppend(xs, [y]);
    assert Flatten([y]) == y;
  }

  /** The bytes of `content` that a positioned read of `length` bytes at `offset` sees. */
  function Slice(content: Bytes, offset: nat, length: int): (r: Bytes)
    ensures |r| == Max(0, Min(length, |content| - offset))
    ensures forall k :: 0 <= k < |r| ==> r[k] == content[offset + k]
  {
    if length <= 0 || offset >= |content| then []
    else content[offset..Min(offset + length, |content|)]
  }
}
