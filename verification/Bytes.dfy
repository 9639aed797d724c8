/** The byte and the few sequence facts that several components share. */
module Bytes {

  type byte = x: int | 0 <= x < 256

  datatype Option<+T> = None | Some(value: T)

  /** The concatenation of a list of blocks. */
  function Flatten<T>(blocks: seq<seq<T>>): seq<T> {
    if blocks == [] then [] else blocks[0] + Flatten(blocks[1..])
  }

  lemma {:induction false} FlattenAppend<T>(xs: seq<seq<T>>, ys: seq<seq<T>>)
    ensures Flatten(xs + ys) == Flatten(xs) + Flatten(ys)
  {
    if xs == [] {
      assert xs + ys == ys;
    } else {
      FlattenAppend(xs[1..], ys);
      assert (xs + ys)[1..] == xs[1..] + ys;
      assert Flatten(xs + ys) == xs[0] + (Flatten(xs[1..]) + Flatten(ys));
    }
  }

  lemma FlattenSnoc<T>(xs: seq<seq<T>>, y: seq<T>)
    ensures Flatten(xs + [y]) == Flatten(xs) + y
  {
    FlattenAppend(xs, [y]);
    assert Flatten([y]) == y + Flatten([]);
  }

  /** If block `k` is all there is from `k` on, the blocks after it are empty. */
  lemma NothingLeft<T>(blocks: seq<seq<T>>, k: nat)
    requires k < |blocks| && |Flatten(blocks[k..])| == |blocks[k]|
    ensures Flatten(blocks) == Flatten(blocks[..k + 1])
  {
    FlattenAppend(blocks[..k + 1], blocks[k + 1..]);
    assert blocks == blocks[..k + 1] + blocks[k + 1..];
    assert blocks[k..][1..] == blocks[k + 1..];
  }

  lemma LinkStep<T>(blocks: seq<seq<T>>, k: nat)
    requires k < |blocks|
    ensures Flatten(blocks[..k + 1]) == Flatten(blocks[..k]) + blocks[k]
    ensures Flatten(blocks[k..]) == blocks[k] + Flatten(blocks[k + 1..])
    ensures Flatten(blocks) == Flatten(blocks[..k]) + Flatten(blocks[k..])
  {
    hide Flatten;
    FlattenAppend(blocks[..k], blocks[k..]);
    assert blocks == blocks[..k] + blocks[k..];
    FlattenSnoc(blocks[..k], blocks[k]);
    assert blocks[..k + 1] == blocks[..k] + [blocks[k]];
    FlattenHead(blocks[k..]);
    assert blocks[k..][1..] == blocks[k + 1..];
  }

  lemma FlattenHead<T>(blocks: seq<seq<T>>)
    requires blocks != []
    ensures Flatten(blocks) == blocks[0] + Flatten(blocks[1..])
  {
  }
}
