/** The wired side of the bridge (main/ethernet/wenet_ethernet.c): the
    bounded queue of received frames that the radio worker drains, the
    driver's input path that fills it, and the link event handler that
    flips the link flag and flushes the queue. */
module WenetEthernet {
  import opened Esp

  /** `ETH_RECEIVE_QUEUE_SIZE`: the queue's fixed capacity. */
  const QueueSize: nat := 50

  /** `raw_data_t` as the input path fills it: the driver's buffer and its
      length. Neither field is written after the record is filled. */
  class RawData {
    const data: array<byte>
    const dataLength: uint32

    constructor (data: array<byte>, dataLength: uint32)
      ensures this.data == data && this.dataLength == dataLength
    {
      this.data := data;
      this.dataLength := dataLength;
    }
  }

  /** The `ETH_EVENT` ids the handler switches on. */
  datatype EthEvent = EthConnected | EthDisconnected | EthStart | EthStop | OtherEthEvent(id: int)

  /** `xQueueSend` on the bounded queue: accepted at the tail when there is
      room, rejected (queue unchanged) when it is full. */
  function Offer<T>(q: seq<T>, x: T): (r: (seq<T>, bool))
    ensures |q| <= |r.0| && r.0[..|q|] == q
    ensures r.1 <==> |q| < QueueSize
    ensures r.1 ==> |r.0| == |q| + 1 && r.0[|q|] == x
    ensures !r.1 ==> r.0 == q
    ensures |q| <= QueueSize ==> |r.0| <= QueueSize
  {
    if |q| < QueueSize then (q + [x], true) else (q, false)
  }

  /** A burst of offers with no dequeue in between. */
  function OfferAll<T>(q: seq<T>, xs: seq<T>): seq<T>
    decreases |xs|
  {
    if xs == [] then q else OfferAll(Offer(q, xs[0]).0, xs[1..])
  }

  function Min(a: nat, b: nat): nat
  {
    if a <= b then a else b
  }

  /** Under a burst the queue keeps what it held, accepts the first
      offers in arrival order while there is room, and rejects all the
      later ones: it never grows past its capacity. */
  lemma {:induction false} OfferAllKeepsOldest<T>(q: seq<T>, xs: seq<T>)
    requires |q| <= QueueSize
    ensures OfferAll(q, xs) == q + xs[..Min(QueueSize - |q|, |xs|)]
    ensures |OfferAll(q, xs)| <= QueueSize
    decreases |xs|
  {
    if xs != [] {
      var (q', accepted) := Offer(q, xs[0]);
      OfferAllKeepsOldest(q', xs[1..]);
      if accepted {
        assert q + xs[..Min(QueueSize - |q|, |xs|)]
            == q' + xs[1..][..Min(QueueSize - |q'|, |xs| - 1)];
      }
    }
  }

  /** The allocations a sequence of queued records holds: each record and
      its data buffer. */
  ghost function HeldBy(rs: seq<RawData>): set<object>
  {
    (set i | 0 <= i < |rs| :: rs[i] as object) + (set i | 0 <= i < |rs| :: rs[i].data as object)
  }

  /** The data buffers of a sequence of records. */
  ghost function DataOf(rs: seq<RawData>): set<object>
  {
    set i | 0 <= i < |rs| :: rs[i].data as object
  }

  lemma DataOfSnoc(rs: seq<RawData>, k: nat)
    requires k < |rs|
    ensures DataOf(rs[..k + 1]) == DataOf(rs[..k]) + {rs[k].data}
  {
    var a, b := rs[..k + 1], rs[..k];
    assert a[k] == rs[k];
    forall o | o in DataOf(a) ensures o in DataOf(b) + {rs[k].data} {
      var i :| 0 <= i < |a| && o == a[i].data;
      if i < k { assert a[i] == b[i]; }
    }
    forall o | o in DataOf(b) ensures o in DataOf(a) {
      var i :| 0 <= i < |b| && o == b[i].data;
      assert a[i] == b[i];
    }
  }

  /** The objects of a sequence of buffers, as a set. */
  ghost function Allocs(ds: seq<array<byte>>): set<object>
  {
    set i | 0 <= i < |ds| :: ds[i] as object
  }

  /** No buffer occurs twice in `ds`. */
  ghost predicate Distinct(ds: seq<array<byte>>)
  {
    forall i, j | 0 <= i < j < |ds| :: ds[i] != ds[j]
  }

  lemma AllocsSnoc(ds: seq<array<byte>>, d: array<byte>)
    ensures Allocs(ds + [d]) == Allocs(ds) + {d}
  {
    var a := ds + [d];
    assert a[|ds|] == d;
    forall o | o in Allocs(a) ensures o in Allocs(ds) + {d} {
      var i :| 0 <= i < |a| && o == a[i];
      if i < |ds| { assert a[i] == ds[i]; }
    }
    forall o | o in Allocs(ds) ensures o in Allocs(a) {
      var i :| 0 <= i < |ds| && o == ds[i];
      assert a[i] == ds[i];
    }
  }

  lemma HeldBySnoc(rs: seq<RawData>, k: nat)
    requires k < |rs|
    ensures HeldBy(rs[..k + 1]) == HeldBy(rs[..k]) + {rs[k], rs[k].data}
  {
    var a, b := rs[..k + 1], rs[..k];
    assert a[k] == rs[k];
    forall o | o in HeldBy(a) ensures o in HeldBy(b) + {rs[k], rs[k].data} {
      var i :| 0 <= i < |a| && (o == a[i] || o == a[i].data);
      if i < k { assert a[i] == b[i]; }
    }
    forall o | o in HeldBy(b) ensures o in HeldBy(a) {
      var i :| 0 <= i < |b| && (o == b[i] || o == b[i].data);
      assert a[i] == b[i];
    }
  }

  /** The live set `live` after the first `k` of the queued records
      `recs` have been taken from a heap whose live set was `live0`:
      each taken record and its buffer freed, or, when `leaking`, only
      its buffer freed and one new buffer per record (`leaked`, all
      different) left allocated. */
  ghost predicate Drain(recs: seq<RawData>, live0: set<object>, leaked: seq<array<byte>>, k: nat,
                        live: set<object>, leaking: bool)
  {
    k <= |recs| &&
    (forall i | 0 <= i < |recs| :: recs[i] in live0 && recs[i].data in live0) &&
    (!leaking ==> live == live0 - HeldBy(recs[..k])) &&
    (leaking ==>
       |leaked| == k && Distinct(leaked) && live == live0 - DataOf(recs[..k]) + Allocs(leaked) &&
       forall i | 0 <= i < k :: leaked[i] !in live0)
  }

  /** Taking one more record and freeing it with its buffer. */
  lemma DrainReleased(recs: seq<RawData>, live0: set<object>, leaked: seq<array<byte>>, k: nat,
                      live: set<object>, live': set<object>)
    requires Drain(recs, live0, leaked, k, live, false) && k < |recs|
    requires live' == live - {recs[k], recs[k].data}
    ensures Drain(recs, live0, leaked, k + 1, live', false)
  {
    HeldBySnoc(recs, k);
  }

  /** Taking one more record, freeing its buffer and leaving a new one. */
  lemma DrainLeaked(recs: seq<RawData>, live0: set<object>, leaked: seq<array<byte>>, k: nat,
                    live: set<object>, live': set<object>, newData: array<byte>)
    requires Drain(recs, live0, leaked, k, live, true) && k < |recs|
    requires newData !in live0 && newData !in live && live' == live - {recs[k].data} + {newData}
    ensures Drain(recs, live0, leaked + [newData], k + 1, live', true)
  {
    DataOfSnoc(recs, k);
    AllocsSnoc(leaked, newData);
    assert forall i | 0 <= i < |leaked| :: leaked[i] in Allocs(leaked);
  }

  /** Every record of `rs` is live and none of their buffers is. */
  ghost predicate RecordsWithoutBuffers(rs: seq<RawData>, live: set<object>)
  {
    forall i | 0 <= i < |rs| :: rs[i] in live && rs[i].data !in live
  }

  /** With every record taken while leaking: each record is still live,
      each buffer is not. */
  lemma DrainedLeaking(recs: seq<RawData>, live0: set<object>, leaked: seq<array<byte>>, live: set<object>)
    requires Drain(recs, live0, leaked, |recs|, live, true)
    ensures |leaked| == |recs| && Distinct(leaked)
    ensures live == live0 - DataOf(recs) + Allocs(leaked)
    ensures RecordsWithoutBuffers(recs, live)
  {
    assert recs[..|recs|] == recs;
    forall i | 0 <= i < |recs| ensures recs[i] in live && recs[i].data !in live {
      assert recs[i].data in DataOf(recs);
      assert forall j | 0 <= j < |leaked| :: leaked[j] != recs[i].data;
      assert recs[i] as object !in DataOf(recs);
    }
  }

  /** The frames a sequence of queued records carries, in queue order. */
  ghost function FramesOf(rs: seq<RawData>): (frames: seq<seq<byte>>)
    requires forall i | 0 <= i < |rs| :: rs[i].dataLength <= rs[i].data.Length
    reads set i | 0 <= i < |rs| :: rs[i].data
    ensures |frames| == |rs|
    ensures forall i | 0 <= i < |rs| :: frames[i] == rs[i].data[..rs[i].dataLength]
    decreases |rs|
  {
    if rs == [] then []
    else FramesOf(rs[..|rs| - 1]) + [rs[|rs| - 1].data[..rs[|rs| - 1].dataLength]]
  }

  /** The module statics of wenet_ethernet.c that the core uses:
      `eth_receive_queue`, `eth_connected`, and the driver's transmit
      calls (`esp_eth_transmit`) as a ghost log. */
  class EthernetModule {
    var queue: seq<RawData>
    var connected: bool
    ghost var txLog: seq<seq<byte>>
    const heap: Heap

    /** The queue never holds more than its capacity; each queued record
        and its buffer are live allocations owned by the queue alone. */
    ghost predicate Valid()
      reads this, heap
    {
      |queue| <= QueueSize &&
      (forall i | 0 <= i < |queue| ::
         queue[i] in heap.live && queue[i].data in heap.live &&
         queue[i].dataLength <= queue[i].data.Length) &&
      (forall i, j | 0 <= i < j < |queue| ::
         queue[i] != queue[j] && queue[i].data != queue[j].data)
    }

    ghost function Held(): set<object>
      reads this
    {
      HeldBy(queue)
    }

    /** `xQueueCreate(ETH_RECEIVE_QUEUE_SIZE, ...)` in `ethernet_init`, with
        `eth_connected` at its initial `false`. */
    constructor (heap: Heap)
      ensures Valid() && this.heap == heap
      ensures queue == [] && !connected && txLog == []
    {
      this.heap := heap;
      queue := [];
      connected := false;
      txLog := [];
    }

    /** `ethernet_input_path`: wrap the driver's buffer in a new record and
        offer it to the queue. On a full queue the buffer is freed but the
        record allocated for it is not: it stays live and unreachable. */
    method InputPath(buffer: array<byte>, len: uint32) returns (status: EspErr, ghost record: RawData)
      requires Valid()
      requires len <= buffer.Length
      requires buffer in heap.live && buffer !in Held()
      modifies this`queue, heap
      ensures Valid()
      ensures fresh(record) && record.data == buffer && record.dataLength == len
      ensures (queue, status == EspOk) == Offer(old(queue), record)
      ensures status == EspOk ==> heap.live == old(heap.live) + {record}
      ensures status == EspFail ==> heap.live == old(heap.live) - {buffer} + {record}
      ensures status == EspFail ==> record in heap.live && record !in Held()
    {
      var newData := new RawData(buffer, len);
      heap.Malloc(newData);
      record := newData;
      if |queue| < QueueSize {
        queue := queue + [newData];
        status := EspOk;
      } else {
        heap.Free(buffer);
        status := EspFail;
      }
    }

    /** `xQueueReceive` once a record is queued: the oldest one. */
    method Receive() returns (record: RawData)
      requires Valid() && queue != []
      modifies this`queue
      ensures Valid()
      ensures record == old(queue[0]) && queue == old(queue[1..])
      ensures record in heap.live && record.data in heap.live && record !in Held() && record.data !in Held()
      ensures Held() == old(Held()) - {record, record.data}
    {
      record := queue[0];
      queue := queue[1..];
      assert old(Held()) == Held() + {record, record.data};
    }

    /** `xQueueReset`: drop every queued record without freeing it or its
        buffer; all of them stay live and nothing refers to them any more. */
    method ResetQueue()
      requires Valid()
      modifies this`queue
      ensures Valid() && queue == []
      ensures old(Held()) <= heap.live && Held() == {}
    {
      queue := [];
    }

    /** `ethernet_event_handler`: link up flushes the queue and then sets
        the flag, link down clears the flag and then flushes the queue, any
        other event changes nothing. */
    method EventHandler(event: EthEvent)
      requires Valid()
      modifies this`queue, this`connected
      ensures Valid()
      ensures event == EthConnected ==> queue == [] && connected
      ensures event == EthDisconnected ==> queue == [] && !connected
      ensures event != EthConnected && event != EthDisconnected ==>
        queue == old(queue) && connected == old(connected)
      ensures old(Held()) <= heap.live
    {
      match event
      case EthConnected =>
        ResetQueue();
        connected := true;
      case EthDisconnected =>
        connected := false;
        ResetQueue();
      case _ =>
    }

    /** `malloc` of an allocation the queue does not hold. */
    ghost method Track(o: object)
      requires Valid() && o !in heap.live
      modifies heap
      ensures Valid() && heap.live == old(heap.live) + {o}
    {
      heap.Malloc(o);
    }

    /** `free` of an allocation the queue does not hold. */
    ghost method Release(o: object)
      requires Valid() && o in heap.live && o !in Held()
      modifies heap
      ensures Valid() && heap.live == old(heap.live) - {o}
    {
      forall i | 0 <= i < |queue|
        ensures queue[i] != o && queue[i].data != o
      {
        assert queue[i] in Held() && queue[i].data in Held();
      }
      heap.Free(o);
    }

    /** `esp_eth_transmit(eth_handle, frame, |frame|)`, recorded. */
    ghost method Transmit(frame: seq<byte>)
      modifies this`txLog
      ensures txLog == old(txLog) + [frame]
    {
      txLog := txLog + [frame];
    }
  }
}
