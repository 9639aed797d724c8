/** lwIP packet buffers: a payload, the bytes used of it, and the rest of the chain. */
module Pbufs {
  import opened Bytes

  // lwipopts.h
  const ETH_PAD_SIZE: nat := 2
  const PBUF_POOL_BUFSIZE: nat := 256

  /** The memory of the payload is part of the buffer, as for pool and RAM pbufs. */
  class Pbuf {
    var payload: seq<byte>
    var len: nat
    var totLen: nat
    var next: Pbuf?
    var ref: nat

    /** A buffer as `pbuf_alloc` returns it: one link of `n` bytes with one reference. */
    constructor (n: nat)
      ensures |payload| == n
      ensures len == totLen == n && next == null && ref == 1
    {
      payload := seq(n, _ => 0);
      len, totLen, next, ref := n, n, null, 1;
    }

    /** The used part of the payload. */
    function Data(): seq<byte>
      reads this`payload, this`len
    {
      if len <= |payload| then payload[..len] else payload
    }
  }

  /** The links of a chain in order: each names the next, and counts the bytes from itself on. */
  ghost predicate Chain(ps: seq<Pbuf>)
    reads ps`payload, ps`len, ps`totLen, ps`next
  {
    && ps != []
    && (forall i :: 0 <= i < |ps| ==> ps[i].len <= |ps[i].payload|)
    && (forall i :: 0 <= i < |ps| - 1 ==> ps[i].next == ps[i + 1])
    && ps[|ps| - 1].next == null
    && (forall i :: 0 <= i < |ps| - 1 ==> ps[i].totLen == ps[i].len + ps[i + 1].totLen)
    && ps[|ps| - 1].totLen == ps[|ps| - 1].len
  }

  /** The used payload of every link. */
  ghost function Blocks(ps: seq<Pbuf>): (b: seq<seq<byte>>)
    reads ps`payload, ps`len
    ensures |b| == |ps| && forall i :: 0 <= i < |ps| ==> b[i] == ps[i].Data()
  {
    if ps == [] then [] else [ps[0].Data()] + Blocks(ps[1..])
  }

  /** The payload a chain stands for. */
  ghost function Contents(ps: seq<Pbuf>): seq<byte>
    reads ps`payload, ps`len
  {
    Flatten(Blocks(ps))
  }

  /** What lwIP is handed: the payload, and whether links and counts make a chain. */
  datatype Delivery = Delivery(contents: seq<byte>, sound: bool)

  /** tot_len of every link is the number of bytes from it to the end of the chain. */
  lemma {:induction false} TotalIsLength(ps: seq<Pbuf>, k: nat)
    requires Chain(ps) && k < |ps|
    ensures ps[k].totLen == |Flatten(Blocks(ps)[k..])|
    decreases |ps| - k
  {
    var b := Blocks(ps);
    if k + 1 < |ps| {
      TotalIsLength(ps, k + 1);
      assert b[k..][1..] == b[k + 1..];
    } else {
      assert b[k..] == [b[k]];
      assert Flatten(b[k..]) == b[k] + Flatten(b[k..][1..]);
    }
  }

  /** A chain with the payloads `blocks`, link by link. */
  ghost predicate Linked(ps: seq<Pbuf>, blocks: seq<seq<byte>>)
    reads ps
  {
    && |ps| == |blocks| > 0
    && (forall i :: 0 <= i < |ps| ==> ps[i].len <= |ps[i].payload| && ps[i].payload[..ps[i].len] == blocks[i])
    && (forall i :: 0 <= i < |ps| ==> ps[i].totLen == |Flatten(blocks[i..])|)
    && (forall i :: 0 <= i < |ps| - 1 ==> ps[i].next == ps[i + 1])
    && ps[|ps| - 1].next == null
  }

  lemma ChainIsLinked(ps: seq<Pbuf>)
    requires Chain(ps)
    ensures Linked(ps, Blocks(ps))
  {
    forall i | 0 <= i < |ps|
      ensures ps[i].totLen == |Flatten(Blocks(ps)[i..])|
    {
      TotalIsLength(ps, i);
    }
  }

  /** What a link of the chain contributes, and that the last one is where tot_len equals len. */
  lemma LinkFacts(ps: seq<Pbuf>, blocks: seq<seq<byte>>, k: nat)
    requires Linked(ps, blocks) && k < |ps|
    ensures |blocks| == |ps| && ps[k].len == |blocks[k]| <= |ps[k].payload|
    ensures ps[k].payload[..ps[k].len] == blocks[k]
    ensures ps[k].totLen == |Flatten(blocks[k..])|
    ensures Flatten(blocks[..k + 1]) == Flatten(blocks[..k]) + blocks[k]
    ensures |Flatten(blocks[..k])| + |blocks[k]| <= |Flatten(blocks)|
    ensures ps[k].totLen != ps[k].len ==> k + 1 < |ps| && ps[k].next == ps[k + 1]
  {
    LinkStep(blocks, k);
    if k + 1 == |ps| {
      assert blocks[k + 1..] == [];
    }
  }

  lemma {:induction false} BlocksAre(ps: seq<Pbuf>, blocks: seq<seq<byte>>)
    requires |ps| == |blocks|
    requires forall i :: 0 <= i < |ps| ==> ps[i].len <= |ps[i].payload| && ps[i].payload[..ps[i].len] == blocks[i]
    ensures Blocks(ps) == blocks && Contents(ps) == Flatten(blocks)
  {
  }

  lemma NextLink(ps: seq<Pbuf>, blocks: seq<seq<byte>>, k: nat)
    requires Linked(ps, blocks) && k < |ps|
    ensures ps[k].next == if k + 1 < |ps| then ps[k + 1] else null
  {
  }
}
