/** What the receiver panel reports: the most recent rejects and the spans that arrived, per transport. */
module Receiver {

  const REJECT_RING_CAPACITY: nat := 100

  datatype RejectRecord = RejectRecord(reason: string, at: nat)

  datatype Transport = GrpcV4317 | HttpProtobufV4318 | HttpJsonV4318

  datatype ArrivalCounts = ArrivalCounts(grpc: nat, httpProtobuf: nat, httpJson: nat) {
    function Of(t: Transport): nat {
      match t
      case GrpcV4317 => grpc
      case HttpProtobufV4318 => httpProtobuf
      case HttpJsonV4318 => httpJson
    }

    function Record(t: Transport, spans: nat): (counts: ArrivalCounts)
      ensures forall u :: counts.Of(u) == Of(u) + if u == t then spans else 0
    {
      match t
      case GrpcV4317 => this.(grpc := grpc + spans)
      case HttpProtobufV4318 => this.(httpProtobuf := httpProtobuf + spans)
      case HttpJsonV4318 => this.(httpJson := httpJson + spans)
    }
  }

  // The last `REJECT_RING_CAPACITY` of everything ever pushed, oldest first.
  function Recent(history: seq<RejectRecord>): seq<RejectRecord> {
    if |history| <= REJECT_RING_CAPACITY then history else history[|history| - REJECT_RING_CAPACITY..]
  }

  /** The ring is the end of the history: all of it, or its last hundred records. */
  lemma RecentIsSuffix(history: seq<RejectRecord>)
    ensures |Recent(history)| == if |history| < 100 then |history| else 100
    ensures Recent(history) == history[|history| - |Recent(history)|..]
  {
    assert history[0..] == history;
  }

  // Making room after every push keeps the same records as cutting the history once.
  lemma RecentPush(history: seq<RejectRecord>, record: RejectRecord)
    ensures Recent(history + [record])
         == (if |Recent(history)| == REJECT_RING_CAPACITY then Recent(history)[1..] else Recent(history)) + [record]
    ensures Recent(Recent(history) + [record]) == Recent(history + [record])
  {
  }

  // Ring buffer of rejects plus arrival counts, shared by every handler.
  class ReceiverState {
    var ring: seq<RejectRecord>
    var arrivals: ArrivalCounts
    ghost var history: seq<RejectRecord>

    ghost predicate Valid()
      reads this
    {
      ring == Recent(history)
    }

    constructor ()
      ensures Valid() && history == [] && arrivals == ArrivalCounts(0, 0, 0)
    {
      ring, history, arrivals := [], [], ArrivalCounts(0, 0, 0);
    }

    // At capacity the oldest record makes way.
    method PushReject(reason: string, at: nat)
      requires Valid()
      modifies this`ring, this`history
      ensures Valid()
      ensures history == old(history) + [RejectRecord(reason, at)]
      ensures |ring| == if |history| < 100 then |history| else 100
      ensures ring == history[|history| - |ring|..]
    {
      hide Recent;
      RecentPush(history, RejectRecord(reason, at));
      RecentIsSuffix(history + [RejectRecord(reason, at)]);
      if |ring| == REJECT_RING_CAPACITY {
        ring := ring[1..];
      }
      ring := ring + [RejectRecord(reason, at)];
      history := history + [RejectRecord(reason, at)];
    }

    method RecordArrival(t: Transport, spans: nat)
      modifies this`arrivals
      ensures forall u :: arrivals.Of(u) == old(arrivals).Of(u) + if u == t then spans else 0
      ensures arrivals.grpc == old(arrivals).grpc + if t == GrpcV4317 then spans else 0
      ensures arrivals.httpProtobuf == old(arrivals).httpProtobuf + if t == HttpProtobufV4318 then spans else 0
      ensures arrivals.httpJson == old(arrivals).httpJson + if t == HttpJsonV4318 then spans else 0
    {
      arrivals := arrivals.Record(t, spans);
    }
  }
}
