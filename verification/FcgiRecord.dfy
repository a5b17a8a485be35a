// Records of the FastCGI protocol (section 3.3 of the FastCGI Specification 1.0) and the connection that carries them.
module FcgiRecords {

  type Byte = x: int | 0 <= x < 256

  const VERSION_1: Byte := 1
  const HEADER_LEN: nat := 8
  const MAX_LENGTH: nat := 0xffff

  const BEGIN_REQUEST: Byte := 1
  const END_REQUEST: Byte := 3
  const PARAMS: Byte := 4
  const STDIN: Byte := 5
  const STDOUT: Byte := 6
  const STDERR: Byte := 7
  const GET_VALUES: Byte := 9
  const GET_VALUES_RESULT: Byte := 10
  const UNKNOWN_TYPE: Byte := 11

  const REQUEST_COMPLETE: Byte := 0
  const CANT_MPX_CONN: Byte := 1

  const RESPONDER: nat := 1
  const AUTHORIZER: nat := 2
  const FILTER: nat := 3

  function Ascii(s: string): (b: seq<Byte>)
    ensures |b| == |s|
  {
    seq(|s|, i requires 0 <= i < |s| => s[i] as int % 256)
  }

  datatype Record = Record(kind: Byte, id: nat, content: seq<Byte>, padding: seq<Byte>)

  predicate Fine(r: Record) {
    r.id < 0x10000 && |r.content| <= MAX_LENGTH && |r.padding| < 256
  }

  // MakeHeader.
  function MakeHeader(kind: Byte, id: nat, contentLength: nat, paddingLength: nat): (h: seq<Byte>)
    requires id < 0x10000 && contentLength <= MAX_LENGTH && paddingLength < 256
    ensures |h| == HEADER_LEN
  {
    [VERSION_1, kind, id / 256, id % 256, contentLength / 256, contentLength % 256, paddingLength, 0]
  }

  function Encode(r: Record): (s: seq<Byte>)
    requires Fine(r)
    ensures |s| == HEADER_LEN + |r.content| + |r.padding|
  {
    MakeHeader(r.kind, r.id, |r.content|, |r.padding|) + r.content + r.padding
  }

  predicate AllFine(rs: seq<Record>) {
    forall i :: 0 <= i < |rs| ==> Fine(rs[i])
  }

  function EncodeAll(rs: seq<Record>): seq<Byte>
    requires AllFine(rs)
  {
    if rs == [] then [] else Encode(rs[0]) + EncodeAll(rs[1..])
  }

  lemma {:induction false} EncodeCat(a: seq<Record>, b: seq<Record>)
    requires AllFine(a) && AllFine(b)
    ensures AllFine(a + b) && EncodeAll(a + b) == EncodeAll(a) + EncodeAll(b)
  {
    if a == [] {
      assert a + b == b;
    } else {
      hide Encode, Fine;
      assert (a + b)[1..] == a[1..] + b;
      EncodeCat(a[1..], b);
    }
  }

  function Zeros(n: nat): (s: seq<Byte>)
    ensures |s| == n && forall i :: 0 <= i < n ==> s[i] == 0
  {
    if n == 0 then [] else Zeros(n - 1) + [0]
  }

  // The body of an END_REQUEST record; a status is taken as its 32 bits.
  function MakeEndRequestBody(appStatus: nat, protocolStatus: Byte): (s: seq<Byte>)
    requires appStatus < 0x1_0000_0000
    ensures |s| == 8
  {
    [appStatus / 0x100_0000, appStatus / 0x1_0000 % 256, appStatus / 256 % 256, appStatus % 256, protocolStatus, 0, 0, 0]
  }

  function EndRequest(id: nat, appStatus: nat, protocolStatus: Byte): (r: Record)
    requires id < 0x10000 && appStatus < 0x1_0000_0000
    ensures Fine(r)
  {
    Record(END_REQUEST, id, MakeEndRequestBody(appStatus, protocolStatus), [])
  }

  // --- What the bytes say, by section 3.3 of the FastCGI Specification 1.0: numbers have their high byte first ---

  function Two(hi: int, lo: int): int {
    hi * 256 + lo
  }

  function Four(a: int, b: int, c: int, d: int): int {
    a * 0x100_0000 + b * 0x1_0000 + c * 0x100 + d
  }

  // These bytes are one record.
  predicate OnWire(s: seq<Byte>, r: Record) {
    var n := |r.content|;
    && |s| == 8 + n + |r.padding| && s[0] == 1 && s[1] == r.kind && Two(s[2], s[3]) == r.id
    && Two(s[4], s[5]) == n && s[6] == |r.padding| && s[8..8 + n] == r.content && s[8 + n..] == r.padding
  }

  lemma {:induction false} EncodeOnWire(r: Record)
    requires Fine(r)
    ensures OnWire(Encode(r), r)
  {}

  // By section 5.5: an END_REQUEST record for this request.
  predicate Ends(r: Record, id: nat, appStatus: nat, protocolStatus: nat) {
    && r.kind == 3 && r.id == id && r.padding == [] && |r.content| == 8
    && Four(r.content[0], r.content[1], r.content[2], r.content[3]) == appStatus
    && r.content[4] == protocolStatus
  }

  lemma {:induction false} EndRequestEnds(id: nat, appStatus: nat, protocolStatus: Byte)
    requires id < 0x10000 && appStatus < 0x1_0000_0000
    ensures Ends(EndRequest(id, appStatus, protocolStatus), id, appStatus, protocolStatus)
  {
    assert appStatus / 256 / 256 == appStatus / 0x1_0000 && appStatus / 0x1_0000 / 256 == appStatus / 0x100_0000;
  }

  // AlignInt8, where n + 7 does not wrap.
  function AlignInt8(n: nat): (m: nat)
    ensures m % 8 == 0 && n <= m < n + 8
  {
    (n + 7) / 8 * 8
  }

  // Both ends of a connection: what the peer has still to send, and what it has been sent.
  class Conn {
    var input: seq<Byte>
    var output: seq<Byte>

    constructor (input: seq<Byte>)
      ensures this.input == input && output == []
    {
      this.input, output := input, [];
    }

    // OS_Read: any positive number of bytes up to the end of the input, where it is 0; -1 for an error at any time.
    method Read(buff: array<Byte>) returns (count: int)
      requires buff.Length > 0
      modifies this`input, buff
      ensures -1 <= count <= buff.Length
      ensures count == 0 ==> old(input) == []
      ensures count > 0 ==> count <= |old(input)| && input == old(input)[count..] && buff[..count] == old(input)[..count]
      ensures count <= 0 ==> input == old(input) && buff[..] == old(buff[..])
    {
      if * {
        return -1;
      }
      if input == [] {
        return 0;
      }
      count :| 0 < count <= |input| && count <= buff.Length;
      forall i | 0 <= i < count {
        buff[i] := input[i];
      }
      input := input[count..];
    }

    // OS_Write: any positive number of bytes; -1 for an error at any time.
    method Write(s: seq<Byte>) returns (wrote: int)
      requires s != []
      modifies this`output
      ensures wrote == -1 || 0 < wrote <= |s|
      ensures output == old(output) + if wrote > 0 then s[..wrote] else []
    {
      if * {
        return -1;
      }
      wrote :| 0 < wrote <= |s|;
      output := output + s[..wrote];
    }

    // write_it_all: everything, in as many writes as it takes, unless one fails.
    method WriteItAll(s: seq<Byte>) returns (ok: bool)
      modifies this`output
      ensures ok ==> output == old(output) + s
      ensures !ok ==> exists n :: 0 <= n < |s| && output == old(output) + s[..n]
    {
      var n := 0;
      while n < |s|
        invariant n <= |s| && output == old(output) + s[..n]
      {
        var wrote := Write(s[n..]);
        if wrote < 0 {
          return false;
        }
        assert s[n..][..wrote] == s[n..n + wrote] && s[..n] + s[n..n + wrote] == s[..n + wrote];
        n := n + wrote;
      }
      assert s[..n] == s;
      return true;
    }
  }
}
