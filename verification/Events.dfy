/** The record that the kernel probes emit, with the field widths of the C struct. */
module Events {
  const TWO_TO_THE_64: int := 0x1_0000_0000_0000_0000

  type U8 = x: int | 0 <= x < 0x100
  type U16 = x: int | 0 <= x < 0x1_0000
  type U32 = x: int | 0 <= x < 0x1_0000_0000
  type U64 = x: int | 0 <= x < 0x1_0000_0000_0000_0000

  /** The named event types; every other value of the 32-bit field takes the `default` branches. */
  datatype Kind =
    | NetRx | NapiPoll | EthernetRx | IrqEntry | SoftirqEntry
    | IpRcv | NetfilterHook | RouteLookup
    | TcpV4Rcv | TcpStateMachine | TcpDataQueue
    | SockDefReadable | SchedWakeup | SchedSwitch
    | NginxHttpParse | NginxReverseProxy | NginxBackendSocket | NginxResponseGen | NginxResponseTx
    | Accept4Enter | Accept4Exit | RecvfromEnter | RecvfromExit | SendtoEnter | SendtoExit
    | TcpSendmsg | TcpWriteXmit | IpOutput | NetDevQueue
    | Other(code: U32)

  datatype Event = Event(
    timestamp: U64, pid: U32, tid: U32, uid: U32, gid: U32, cpu: U32, kind: Kind,
    saddr: U32, daddr: U32, sport: U16, dport: U16, packetLen: U16,
    socketCookie: U64, socketPtr: U64, protocol: U8, tcpFlags: U8,
    seqNo: U32, ackSeq: U32, comm: string)

  /** What `memset` to zero leaves in an event. */
  const ZERO_EVENT: Event :=
    Event(0, 0, 0, 0, 0, 0, Other(0), 0, 0, 0, 0, 0, 0, 0, 0, 0, 0, 0, "")

  /** Subtraction of two `uint64_t` values. */
  function Sub64(a: U64, b: U64): U64 {
    (a - b) % TWO_TO_THE_64
  }

  /** Addition of two `uint64_t` values. */
  function Add64(a: U64, b: U64): U64 {
    (a + b) % TWO_TO_THE_64
  }

  lemma SumsWrap(a: nat, b: nat)
    ensures (a % TWO_TO_THE_64 + b % TWO_TO_THE_64) % TWO_TO_THE_64 == (a + b) % TWO_TO_THE_64
  {}

  lemma SmallIsKept(a: nat)
    requires a < TWO_TO_THE_64
    ensures a % TWO_TO_THE_64 == a
  {}

  lemma FullTurns(a: U64, b: U64, d: nat)
    ensures (a - b + TWO_TO_THE_64 * d) % TWO_TO_THE_64 == Sub64(a, b)
    ensures Sub64(a, b) == if a < b then a - b + TWO_TO_THE_64 else a - b
  {}

  /** The events of one socket, in order. */
  function OfSocket(history: seq<Event>, socket: U64): seq<Event> {
    if history == [] then []
    else
      var e := history[|history| - 1];
      var before := OfSocket(history[..|history| - 1], socket);
      if e.socketPtr == socket then before + [e] else before
  }

  lemma {:induction false} OfSocketIsOfSocket(history: seq<Event>, s: U64)
    ensures forall i | 0 <= i < |OfSocket(history, s)| :: OfSocket(history, s)[i].socketPtr == s
  {
    if history != [] {
      OfSocketIsOfSocket(history[..|history| - 1], s);
    }
  }

  /** `OfSocket` picks exactly the events of the socket, each once, in order. */
  lemma {:induction false} OfSocketPositions(history: seq<Event>, s: U64) returns (ps: seq<nat>)
    ensures |ps| == |OfSocket(history, s)| && forall j, k | 0 <= j < k < |ps| :: ps[j] < ps[k]
    ensures forall k | 0 <= k < |ps| :: ps[k] < |history| && OfSocket(history, s)[k] == history[ps[k]]
    ensures forall i: nat | i < |history| :: i in ps <==> history[i].socketPtr == s
  {
    if history == [] {
      ps := [];
    } else {
      var n := |history| - 1;
      ps := OfSocketPositions(history[..n], s);
      if history[n].socketPtr == s {
        ps := ps + [n];
      }
    }
  }
}
