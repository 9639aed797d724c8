/**
 * The input side of tls_interface.c: blocks from the transport are queued in a
 * bounded FIFO, and the TLS library reads them back with sizes of its own.
 */
module TlsInput {
  import opened Bytes

  datatype Error = Success | NotFound | NoMem

  /** The result of `interface_transport_read`: the bytes, or the end-of-file code. */
  datatype Reading = Bytes(data: seq<byte>) | Eof

  /** The bounded FIFO of the SDK. */
  class Fifo {
    const capacity: nat
    var bytes: seq<byte>

    ghost predicate Valid()
      reads this
    {
      |bytes| <= capacity
    }

    constructor (size: nat)
      ensures Valid() && capacity == size && bytes == []
    {
      capacity, bytes := size, [];
    }

    /** `app_fifo_write`; without data it only reports the free space. */
    method Write(data: Option<seq<byte>>, size: nat) returns (err: Error, done: nat)
      requires Valid() && (data.Some? ==> size <= |data.value|)
      modifies this
      ensures Valid()
      ensures err == if |old(bytes)| == capacity then NoMem else Success
      ensures err == Success && data.None? ==> bytes == old(bytes) && done == capacity - |bytes|
      ensures err == Success && data.Some? ==>
                done == (if size <= capacity - |old(bytes)| then size else capacity - |old(bytes)|)
                && bytes == old(bytes) + data.value[..done]
      ensures err != Success ==> bytes == old(bytes) && done == 0
    {
      var available := capacity - |bytes|;
      if available == 0 {
        return NoMem, 0;
      }
      if data.None? {
        return Success, available;
      }
      done := 0;
      while done < size && done < available
        invariant done <= size && done <= available && bytes == old(bytes) + data.value[..done]
      {
        bytes := bytes + [data.value[done]];
        done := done + 1;
      }
      err := Success;
    }

    /** `app_fifo_read`; without a buffer it only reports what is there. */
    method Read(buffer: bool, size: nat) returns (err: Error, done: nat, data: seq<byte>)
      requires Valid()
      modifies this
      ensures Valid()
      ensures err == if old(bytes) == [] then NotFound else Success
      ensures err != Success || !buffer ==> bytes == old(bytes) && done == |bytes| && data == []
      ensures err == Success && buffer ==>
                done == (if size <= |old(bytes)| then size else |old(bytes)|)
                && data == old(bytes)[..done] && bytes == old(bytes)[done..]
    {
      data := [];
      if bytes == [] || !buffer {
        return if bytes == [] then NotFound else Success, |bytes|, [];
      }
      done := 0;
      while done < size && bytes != []
        invariant done <= size && done <= |old(bytes)|
        invariant data == old(bytes)[..done] && bytes == old(bytes)[done..]
      {
        data, bytes := data + [bytes[0]], bytes[1..];
        done := done + 1;
      }
      err := Success;
    }
  }

  class Interface {
    const stream: bool
    const input: Fifo
    ghost var queued: seq<seq<byte>>     // the blocks accepted so far
    ghost var returned: seq<seq<byte>>   // what the reads returned so far

    /** Nothing is lost, repeated or reordered. */
    ghost predicate Valid()
      reads this, input
    {
      input.Valid() && Flatten(queued) == Flatten(returned) + input.bytes
    }

    constructor (isStream: bool, size: nat)
      ensures Valid() && stream == isStream && input.capacity == size && fresh(input)
      ensures queued == [] && returned == [] && input.bytes == []
    {
      stream := isStream;
      input := new Fifo(size);
      queued, returned := [], [];
    }

    /** `interface_transport_read` */
    method TransportRead(size: nat) returns (r: Reading)
      requires Valid()
      modifies this, input
      ensures Valid() && queued == old(queued)
      // A stream read takes the size asked for or nothing, a datagram read what there is, up to that size.
      ensures var fifo := old(input.bytes);
              r == if fifo == [] || (stream && |fifo| < size) then Eof
                   else if |fifo| < size then Bytes(fifo) else Bytes(fifo[..size])
      ensures r.Eof? ==> input.bytes == old(input.bytes) && returned == old(returned)
      ensures r.Bytes? ==> input.bytes == old(input.bytes)[|r.data|..] && returned == old(returned) + [r.data]
      ensures r.Bytes? && stream ==> |r.data| == size
    {
      var err, available, nothing := input.Read(false, 0);
      if (!stream && available > 0) || (stream && available >= size) {
        var length, data;
        err, length, data := input.Read(true, size);
        if err == Success {
          FlattenSnoc(returned, data);
          assert Flatten(queued) == Flatten(returned) + (data + input.bytes);
          returned := returned + [data];
          return Bytes(data);
        }
      }
      return Eof;
    }

    /** `nrf_tls_input`; `demands` are the sizes the TLS library asks for when it is run on. */
    method Input(data: seq<byte>, demands: seq<nat>) returns (err: Error)
      requires Valid()
      modifies this, input
      ensures Valid()
      ensures err == if |old(input.bytes)| == input.capacity then NoMem else Success
      // All of the block or nothing.
      ensures queued == if err == Success && |data| <= input.capacity - |old(input.bytes)|
                        then old(queued) + [data] else old(queued)
      // Nothing is queued in spite of success exactly if there is some room, but too little.
      ensures err == Success && queued == old(queued) <==> 0 < input.capacity - |old(input.bytes)| < |data|
      ensures old(returned) <= returned && |returned| <= |old(returned)| + |demands|
      ensures err != Success ==> returned == old(returned) && input.bytes == old(input.bytes)
    {
      var actual;
      err, actual := input.Write(None, 0);
      if err == Success {
        if |data| <= actual {
          ghost var before := input.bytes;
          err, actual := input.Write(Some(data), |data|);
          assert data[..|data|] == data;
          FlattenSnoc(queued, data);
          assert Flatten(returned) + before + data == Flatten(returned) + (before + data);
          queued := queued + [data];
        }
        Continue(demands);
      }
    }

    /** `interface_continue`, as far as it reads. */
    method Continue(demands: seq<nat>)
      requires Valid()
      modifies this, input
      ensures Valid() && queued == old(queued)
      ensures old(returned) <= returned && |returned| <= |old(returned)| + |demands|
    {
      for i := 0 to |demands|
        invariant Valid() && queued == old(queued)
        invariant old(returned) <= returned && |returned| <= |old(returned)| + i
      {
        var r := TransportRead(demands[i]);
      }
    }
  }

  /** `nrf_tls_input` on the table of interfaces. */
  method TlsInput(table: seq<Interface?>, id: nat, data: seq<byte>, demands: seq<nat>) returns (err: Error)
    requires id < |table| && table[id] != null ==> table[id].Valid()
    modifies if id < |table| && table[id] != null then {table[id], table[id].input} else {}
    ensures id < |table| && table[id] != null ==> table[id].Valid()
    ensures err == if id >= |table| || table[id] == null then NotFound
                   else if |old(table[id].input.bytes)| == table[id].input.capacity then NoMem else Success
    ensures err != NotFound ==>
              && table[id].queued
                 == (if err == Success && |data| <= table[id].input.capacity - |old(table[id].input.bytes)|
                     then old(table[id].queued) + [data] else old(table[id].queued))
              && old(table[id].returned) <= table[id].returned
  {
    err := NotFound;
    if id < |table| && table[id] != null {
      err := table[id].Input(data, demands);
    }
  }

  /** The same bytes cut at the same places give the same pieces. */
  lemma {:induction false} ReadsIgnoreCuts(r1: seq<seq<byte>>, f1: seq<byte>, r2: seq<seq<byte>>, f2: seq<byte>)
    requires Flatten(r1) + f1 == Flatten(r2) + f2
    requires |r1| == |r2| && forall i :: 0 <= i < |r1| ==> |r1[i]| == |r2[i]|
    ensures r1 == r2 && f1 == f2
  {
    if r1 != [] {
      var n := |r1[0]|;
      assert Flatten(r1) + f1 == r1[0] + (Flatten(r1[1..]) + f1);
      assert Flatten(r2) + f2 == r2[0] + (Flatten(r2[1..]) + f2);
      assert r1[0] == (Flatten(r1) + f1)[..n];
      assert r2[0] == (Flatten(r2) + f2)[..n];
      assert Flatten(r1[1..]) + f1 == (Flatten(r1) + f1)[n..];
      assert Flatten(r2[1..]) + f2 == (Flatten(r2) + f2)[n..];
      ReadsIgnoreCuts(r1[1..], f1, r2[1..], f2);
      assert r1 == [r1[0]] + r1[1..] && r2 == [r2[0]] + r2[1..];
    } else {
      assert Flatten(r1) + f1 == f1 && Flatten(r2) + f2 == f2;
    }
  }

  /**
   * Two connections into which the same bytes were queued, cut into blocks in
   * any way, and from which the same sizes were read, have returned the same
   * and hold the same.
   */
  lemma ConnectionsIgnoreCuts(a: Interface, b: Interface)
    requires a.Valid() && b.Valid() && Flatten(a.queued) == Flatten(b.queued)
    requires |a.returned| == |b.returned| && forall i :: 0 <= i < |a.returned| ==> |a.returned[i]| == |b.returned[i]|
    ensures a.returned == b.returned && a.input.bytes == b.input.bytes
  {
    ReadsIgnoreCuts(a.returned, a.input.bytes, b.returned, b.input.bytes);
  }
}
