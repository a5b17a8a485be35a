// The records that the writer streams of a request emit.
module FcgiFraming {
  import opened FcgiRecords

  // A record of stream data, padded to a multiple of eight bytes.
  function DataRecord(kind: Byte, id: nat, data: seq<Byte>): (r: Record)
    ensures |r.padding| < 8 && (|r.content| + |r.padding|) % 8 == 0
  {
    Record(kind, id, data, Zeros(AlignInt8(|data|) - |data|))
  }

  // A writer stream: what its buffer holds, whether it has put anything on the connection, and whether it is closed.
  datatype Out = Out(kind: Byte, pend: seq<Byte>, any: bool, closed: bool)

  predicate Ready(o: Out, id: nat, cap: nat) {
    id < 0x10000 && 0 < cap <= MAX_LENGTH && |o.pend| <= cap
  }

  // Bytes go into the buffer; a record leaves it only when there is no room for the next byte.
  function PutOut(o: Out, id: nat, cap: nat, s: seq<Byte>): (r: (seq<Record>, Out))
    requires Ready(o, id, cap)
    ensures Ready(r.1, id, cap)
    decreases |s|, |o.pend|
  {
    var room := cap - |o.pend|;
    if o.closed then ([], o)
    else if |s| <= room then ([], o.(pend := o.pend + s))
    else
      var (rs, last) := PutOut(o.(pend := [], any := true), id, cap, s[room..]);
      ([DataRecord(o.kind, id, o.pend + s[..room])] + rs, last)
  }

  function PendingRecord(o: Out, id: nat): seq<Record> {
    if o.pend == [] then [] else [DataRecord(o.kind, id, o.pend)]
  }

  function FlushOut(o: Out, id: nat): (seq<Record>, Out) {
    if o.closed then ([], o)
    else (PendingRecord(o, id), o.(pend := [], any := o.any || o.pend != []))
  }

  // The end of a stream; standard error needs none if nothing was written to it.
  function StreamEnd(o: Out, id: nat): seq<Record> {
    if o.kind == STDERR && o.pend == [] && !o.any then [] else [Record(o.kind, id, [], [])]
  }

  function RequestEnd(id: nat, nWriters: int, appStatus: nat): seq<Record>
    requires id < 0x10000 && appStatus < 0x1_0000_0000
  {
    if nWriters == 1 then [EndRequest(id, appStatus, REQUEST_COMPLETE)] else []
  }

  function CloseOut(o: Out, id: nat, nWriters: int, appStatus: nat): seq<Record>
    requires id < 0x10000 && appStatus < 0x1_0000_0000
  {
    if o.closed then [] else PendingRecord(o, id) + StreamEnd(o, id) + RequestEnd(id, nWriters, appStatus)
  }

  lemma {:induction false} DataRecordFine(kind: Byte, id: nat, data: seq<Byte>)
    requires id < 0x10000 && |data| <= MAX_LENGTH
    ensures Fine(DataRecord(kind, id, data))
  {}

  lemma {:induction false} PutFine(o: Out, id: nat, cap: nat, s: seq<Byte>)
    requires Ready(o, id, cap)
    ensures AllFine(PutOut(o, id, cap, s).0)
    decreases |s|, |o.pend|
  {
    var room := cap - |o.pend|;
    if !o.closed && |s| > room {
      DataRecordFine(o.kind, id, o.pend + s[..room]);
      PutFine(o.(pend := [], any := true), id, cap, s[room..]);
    }
  }

  lemma {:induction false} CloseFine(o: Out, id: nat, cap: nat, nWriters: int, appStatus: nat)
    requires Ready(o, id, cap) && appStatus < 0x1_0000_0000
    ensures AllFine(PendingRecord(o, id)) && AllFine(StreamEnd(o, id)) && AllFine(CloseOut(o, id, nWriters, appStatus))
  {
    DataRecordFine(o.kind, id, o.pend);
  }

  // Filling the buffer to the brim first.
  lemma {:induction false} PutSplit(o: Out, id: nat, cap: nat, s: seq<Byte>, k: nat)
    requires Ready(o, id, cap) && !o.closed && k <= |s| && |o.pend| + k <= cap
    ensures PutOut(o, id, cap, s) == PutOut(o.(pend := o.pend + s[..k]), id, cap, s[k..])
  {
    var room := cap - |o.pend|;
    if |s| <= room {
      assert s[..k] + s[k..] == s;
      assert o.pend + s[..k] + s[k..] == o.pend + s;
    } else {
      assert s[k..][room - k..] == s[room..];
      assert s[..k] + s[k..][..room - k] == s[..room];
      assert o.pend + s[..k] + s[k..][..room - k] == o.pend + s[..room];
    }
  }

  // Writing on when the buffer is full.
  lemma {:induction false} PutFull(o: Out, id: nat, cap: nat, s: seq<Byte>)
    requires Ready(o, id, cap) && !o.closed && |o.pend| == cap && s != []
    ensures var (rs, last) := PutOut(FlushOut(o, id).1, id, cap, s);
            PutOut(o, id, cap, s) == (FlushOut(o, id).0 + rs, last)
  {
    assert s[0..] == s && o.pend + s[..0] == o.pend;
  }
}
