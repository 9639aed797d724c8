/** Transmit side of the WINC1500 lwIP glue (winc1500netif.c): flatten, send with bounded retries, release. */
module WincTransmit {
  import opened Bytes
  import opened Pbufs

  const WINC_TX_BUF_SIZE: nat := 1536
  const TRIES: nat := 100

  /** hif_msg_t: either a single pbuf, held by a reference of its own, or bytes of the transmit buffer. */
  datatype Message = Message(pbuf: Option<Pbuf>, payload: seq<byte>)

  /** Attempts at `frame`: at most 100, all failures but possibly the last, and fewer than 100 only after success. */
  predicate Attempted(frame: seq<byte>, tries: seq<(seq<byte>, bool)>) {
    && 1 <= |tries| <= 100
    && (forall i :: 0 <= i < |tries| ==> tries[i].0 == frame)
    && (forall i :: 0 <= i < |tries| - 1 ==> !tries[i].1)
    && (|tries| < 100 ==> tries[|tries| - 1].1)
  }

  class Sender {
    var txBuf: seq<byte>
    // every call of m2m_wifi_send_ethernet_pkt: the bytes given and whether it succeeded
    ghost var wire: seq<(seq<byte>, bool)>

    ghost predicate Valid()
      reads this
    {
      |txBuf| == WINC_TX_BUF_SIZE
    }

    constructor ()
      ensures Valid() && wire == []
    {
      txBuf := seq(WINC_TX_BUF_SIZE, _ => 0);
      wire := [];
    }

    /** `m2m_wifi_send_ethernet_pkt` */
    method SendPacket(payload: seq<byte>) returns (ok: bool)
      modifies this`wire
      ensures wire == old(wire) + [(payload, ok)]
    {
      ok := *;
      wire := wire + [(payload, ok)];
    }

    /** `winc_netif_tx_from_queue` */
    method TxFromQueue(msg: Message)
      requires msg.pbuf.Some? ==> msg.pbuf.value.ref > 1
      modifies this`wire, (if msg.pbuf.Some? then {msg.pbuf.value} else {})`ref
      ensures |old(wire)| < |wire| && wire[..|old(wire)|] == old(wire)
      ensures Attempted(msg.payload, wire[|old(wire)|..])
      ensures msg.pbuf.Some? ==> msg.pbuf.value.ref == old(msg.pbuf.value.ref) - 1
    {
      ghost var before := wire;
      var tries := 0;
      while true
        invariant 0 <= tries < TRIES
        invariant msg.pbuf.Some? ==> msg.pbuf.value.ref == old(msg.pbuf.value.ref)
        invariant |wire| == |before| + tries && wire[..|before|] == before
        invariant forall i :: |before| <= i < |wire| ==> wire[i] == (msg.payload, false)
        decreases TRIES - tries
      {
        var ok := SendPacket(msg.payload);
        if ok {
          break;
        }
        tries := tries + 1;
        if tries == TRIES {
          break;
        }
      }
      if msg.pbuf.Some? {
        // pbuf_free: the reference taken for the message is dropped, the caller's stays
        msg.pbuf.value.ref := msg.pbuf.value.ref - 1;
      }
    }

    /** The copy loop over the chain, whose payloads are `blocks`. */
    method CopyChain(p: Pbuf, ghost ps: seq<Pbuf>, ghost blocks: seq<seq<byte>>) returns (n: nat)
      requires Valid() && |ps| == |blocks| > 0 && Linked(ps, blocks) && ps[0] == p
      requires p.totLen <= WINC_TX_BUF_SIZE
      modifies this`txBuf
      ensures Valid() && n == |Flatten(blocks)| <= WINC_TX_BUF_SIZE && txBuf[..n] == Flatten(blocks)
    {
      hide Linked;
      LinkFacts(ps, blocks, 0);
      assert blocks[0..] == blocks;
      var q: Pbuf? := p;
      n := 0;
      ghost var k := 0;
      while q != null
        invariant Valid() && Linked(ps, blocks) && 0 <= k <= |ps|
        invariant q == if k < |ps| then ps[k] else null
        invariant n == |Flatten(blocks[..k])| <= WINC_TX_BUF_SIZE
        invariant txBuf[..n] == Flatten(blocks[..k])
        decreases |ps| - k
      {
        LinkFacts(ps, blocks, k);
        txBuf := txBuf[..n] + q.payload[..q.len] + txBuf[n + q.len..];
        n := n + q.len;
        NextLink(ps, blocks, k);
        q := q.next;
        k := k + 1;
      }
      assert blocks[..k] == blocks;
    }

    /**
     * `winc_netif_tx`: too long a chain is refused; any other is sent without
     * its pad, as often as it takes but at most a hundred times. The chain and
     * its reference count are the caller's again afterwards.
     */
    method Tx(p: Pbuf, ghost ps: seq<Pbuf>) returns (ok: bool)
      requires Valid() && Chain(ps) && ps[0] == p && p.ref > 0 && ETH_PAD_SIZE <= p.totLen
      modifies this, p`ref
      ensures Valid() && p.ref == old(p.ref)
      ensures ok <==> p.totLen <= 1536
      ensures !ok ==> wire == old(wire)
      ensures ok ==> |old(wire)| < |wire| && wire[..|old(wire)|] == old(wire)
      ensures ok ==> |old(Contents(ps))| == p.totLen
                     && Attempted(old(Contents(ps))[2..], wire[|old(wire)|..])
    {
      if p.totLen > WINC_TX_BUF_SIZE {
        return false;
      }
      hide Chain, Linked, Attempted;
      ghost var blocks := Blocks(ps);
      ChainIsLinked(ps);
      LinkFacts(ps, blocks, 0);
      assert blocks[0..] == blocks;
      var msg;
      if p.totLen == p.len {
        NothingLeft(blocks, 0);
        assert Flatten(blocks[..1]) == blocks[0];
        msg := Message(Some(p), p.payload[..p.len][ETH_PAD_SIZE..]);
      } else {
        var n := CopyChain(p, ps, blocks);
        msg := Message(None, txBuf[..n][ETH_PAD_SIZE..]);
      }
      if msg.pbuf.Some? {
        p.ref := p.ref + 1;
      }
      TxFromQueue(msg);
      ok := true;
    }
  }
}
