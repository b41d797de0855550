/** Per-socket connection state: an open-addressed table, and the fold over the event history that it computes. */
module ConnectionTables {
  import opened Events
  import opened ProbeTable
  import opened Wrappers

  datatype ConnState = New | Accept | Active | Closed

  datatype Address = Address(saddr: U32, daddr: U32, sport: U16, dport: U16)

  datatype ConnectionEntry = ConnectionEntry(
    socket: U64, state: ConnState, firstSeen: U64, pid: U32, address: Address, lastEvent: Event, eventCount: U64)

  const ZERO_ENTRY := ConnectionEntry(0, New, 0, 0, Address(0, 0, 0, 0), ZERO_EVENT, 0)

  type Connections = map<U64, ConnectionEntry>

  function AddressOf(e: Event): Address {
    Address(e.saddr, e.daddr, e.sport, e.dport)
  }

  predicate IsActivity(k: Kind) {
    k.TcpDataQueue? || k.SockDefReadable? || k.RecvfromEnter? || k.SendtoEnter? || k.TcpSendmsg?
  }

  /** The entry that a socket gets when it is first seen, before its first event is recorded. */
  function Opened(e: Event): ConnectionEntry {
    ConnectionEntry(e.socketPtr, New, e.timestamp, e.pid, AddressOf(e), ZERO_EVENT, 0)
  }

  function Recorded(entry: ConnectionEntry, e: Event): ConnectionEntry {
    entry.(
      lastEvent := e,
      eventCount := Add64(entry.eventCount, 1),
      address := if e.saddr != 0 then AddressOf(e) else entry.address,
      state :=
        if e.kind.Accept4Exit? then Accept
        else if IsActivity(e.kind) && (entry.state.New? || entry.state.Accept?) then Active
        else entry.state)
  }

  /** One event applied to the abstract table. */
  function Observe(m: Connections, e: Event): Connections {
    var s := e.socketPtr;
    if s == 0 then m
    else if s in m then m[s := Recorded(m[s], e)]
    else if |m| < SIZE then m[s := Recorded(Opened(e), e)]
    else m
  }

  function Run(history: seq<Event>): Connections {
    if history == [] then map[]
    else Observe(Run(history[..|history| - 1]), history[|history| - 1])
  }

  // ---------- What the fold computes ----------

  /** The distinct nonzero sockets of a history, in order of appearance. */
  function SocketsSeen(history: seq<Event>): seq<U64> {
    if history == [] then []
    else
      var before := SocketsSeen(history[..|history| - 1]);
      var s := history[|history| - 1].socketPtr;
      if s != 0 && s !in before then before + [s] else before
  }

  /** `SocketsSeen` lists each nonzero socket of the history once, ordered by first appearance. */
  lemma {:induction false} SocketsSeenMeaning(history: seq<Event>)
    ensures forall i, j | 0 <= i < j < |SocketsSeen(history)| :: SocketsSeen(history)[i] != SocketsSeen(history)[j]
    ensures forall s: U64 :: s in SocketsSeen(history) <==> s != 0 && OfSocket(history, s) != []
    ensures forall n | 0 <= n <= |history| :: SocketsSeen(history[..n]) <= SocketsSeen(history)
  {
    if history != [] {
      var front := history[..|history| - 1];
      SocketsSeenMeaning(front);
      forall n | 0 <= n <= |history| ensures SocketsSeen(history[..n]) <= SocketsSeen(history) {
        if n < |history| {
          assert history[..n] == front[..n];
        } else {
          assert history[..n] == history;
        }
      }
    }
  }

  /** The keys of the table are the first 1024 distinct nonzero sockets of the history. */
  lemma {:induction false} KeysAreTheFirstSockets(history: seq<Event>)
    ensures Run(history).Keys == AdmittedSet(SocketsSeen(history))
    ensures |AdmittedSet(SocketsSeen(history))| == |Admitted(SocketsSeen(history))|
  {
    if history != [] {
      var front := history[..|history| - 1];
      KeysAreTheFirstSockets(front);
      AdmittedAfter(SocketsSeen(front), history[|history| - 1].socketPtr);
    }
  }

  /** What an entry records, stated on the events of its own socket. */
  ghost predicate Summarises(entry: ConnectionEntry, own: seq<Event>)
    requires own != []
  {
    var n := |own|;
    && entry.firstSeen == own[0].timestamp && entry.pid == own[0].pid && entry.socket == own[0].socketPtr
    && entry.lastEvent == own[n - 1]
    && entry.eventCount == n % TWO_TO_THE_64
    && entry.address.saddr == own[LastAddressed(own)].saddr && entry.address.daddr == own[LastAddressed(own)].daddr
    && entry.address.sport == own[LastAddressed(own)].sport && entry.address.dport == own[LastAddressed(own)].dport
    && entry.state == StateAfter(own)
  }

  /** The last event that carries a source address, or the first event if none does. */
  function LastAddressed(own: seq<Event>): (i: nat)
    requires own != []
    ensures i < |own|
  {
    if |own| == 1 || own[|own| - 1].saddr != 0 then |own| - 1 else LastAddressed(own[..|own| - 1])
  }

  lemma {:induction false} LastAddressedMeaning(own: seq<Event>)
    requires own != []
    ensures var i := LastAddressed(own);
      && (own[i].saddr != 0 || i == 0)
      && forall j | i < j < |own| :: own[j].saddr == 0
  {
    if |own| > 1 && own[|own| - 1].saddr == 0 {
      LastAddressedMeaning(own[..|own| - 1]);
    }
  }

  function StateAfter(own: seq<Event>): (s: ConnState)
    ensures s != Closed
  {
    if own == [] then New
    else
      var k := own[|own| - 1].kind;
      if k.Accept4Exit? then Accept else if IsActivity(k) then Active else StateAfter(own[..|own| - 1])
  }

  /** Without an event that moves it the connection stays new. */
  lemma {:induction false} NoLifecycleIsNew(own: seq<Event>)
    requires forall i | 0 <= i < |own| ::
      own[i].kind !in [Accept4Exit, TcpDataQueue, SockDefReadable, RecvfromEnter, SendtoEnter, TcpSendmsg]
    ensures StateAfter(own) == New
  {
    if own != [] {
      NoLifecycleIsNew(own[..|own| - 1]);
    }
  }

  /** Otherwise the last such event alone decides. */
  lemma {:induction false} LastLifecycleDecides(own: seq<Event>, i: nat)
    requires i < |own|
    requires forall j | i < j < |own| ::
      own[j].kind !in [Accept4Exit, TcpDataQueue, SockDefReadable, RecvfromEnter, SendtoEnter, TcpSendmsg]
    ensures own[i].kind == Accept4Exit ==> StateAfter(own) == Accept
    ensures own[i].kind in [TcpDataQueue, SockDefReadable, RecvfromEnter, SendtoEnter, TcpSendmsg] ==>
      StateAfter(own) == Active
  {
    if i < |own| - 1 {
      LastLifecycleDecides(own[..|own| - 1], i);
    }
  }

  lemma LastAddressedSnoc(own: seq<Event>, e: Event)
    requires own != []
    ensures LastAddressed(own + [e]) == if e.saddr != 0 then |own| else LastAddressed(own)
  {
    assert (own + [e])[..|own|] == own;
  }

  lemma StateAfterSnoc(own: seq<Event>, e: Event)
    ensures StateAfter(own + [e]) ==
      if e.kind.Accept4Exit? then Accept else if IsActivity(e.kind) then Active else StateAfter(own)
  {
    assert (own + [e])[..|own|] == own;
  }

  lemma CountOneMore(n: nat)
    ensures Add64(n % TWO_TO_THE_64, 1) == (n + 1) % TWO_TO_THE_64
  {
    SmallIsKept(1);
    SumsWrap(n, 1);
  }

  lemma RecordedKeepsSummary(entry: ConnectionEntry, own: seq<Event>, e: Event)
    requires own != [] && Summarises(entry, own) && e.socketPtr == own[0].socketPtr
    ensures Summarises(Recorded(entry, e), own + [e])
  {
    LastAddressedSnoc(own, e);
    StateAfterSnoc(own, e);
    CountOneMore(|own|);
  }

  /** Whole-run refinement: every entry summarises exactly the events of its own socket. */
  lemma {:induction false} EntriesSummariseTheirSockets(history: seq<Event>, s: U64)
    requires s in Run(history)
    ensures s != 0 && OfSocket(history, s) != [] && Summarises(Run(history)[s], OfSocket(history, s))
  {
    var front, e := history[..|history| - 1], history[|history| - 1];
    if s in Run(front) {
      EntriesSummariseTheirSockets(front, s);
      if e.socketPtr == s {
        OfSocketIsOfSocket(front, s);
        RecordedKeepsSummary(Run(front)[s], OfSocket(front, s), e);
      }
    } else {
      NotHeldMeansUnseen(front, s);
      assert OfSocket(history, s) == [e];
    }
  }

  /** While the table has room, a socket is absent only because it never occurred. */
  lemma {:induction false} NotHeldMeansUnseen(history: seq<Event>, s: U64)
    requires s != 0 && s !in Run(history) && |Run(history)| < SIZE
    ensures OfSocket(history, s) == []
  {
    KeysAreTheFirstSockets(history);
    SocketsSeenMeaning(history);
  }

  // ---------- The table itself ----------

  class ConnectionTable {
    const table: array<ConnectionEntry>
    const occupied: array<bool>
    ghost var Contents: Connections

    /** The key held by each slot. */
    ghost var Slots: Keys

    ghost predicate Valid()
      reads this, table, occupied
    {
      && table.Length == occupied.Length == SIZE
      && WellFormed(Slots)
      && Contents.Keys == Held(Slots)
      && forall i | 0 <= i < SIZE ::
        if occupied[i] then
          && Slots[i] == Some(table[i].socket)
          && table[i].socket in Contents && Contents[table[i].socket] == table[i]
        else
          Slots[i] == None
    }

    constructor ()
      ensures Valid() && fresh(table) && fresh(occupied) && Contents == map[]
    {
      table := new ConnectionEntry[SIZE](_ => ZERO_ENTRY);
      occupied := new bool[SIZE](_ => false);
      Contents := map[];
      Slots := seq(SIZE, _ => None);
    }

    /** The slot of `socket`, or nothing: the full-ring scan agrees with the abstract map. */
    method Find(socket: U64) returns (r: Option<nat>)
      requires Valid()
      ensures r.Some? <==> socket in Contents
      ensures r.Some? ==> r.value < SIZE && occupied[r.value] && table[r.value] == Contents[socket]
    {
      var idx := HashSocket(socket);
      var start := idx;
      ghost var d := 0;
      while true
        invariant 0 <= d < SIZE && idx == Probe(start, d) && start == HashSocket(socket)
        invariant forall c | 0 <= c < d :: Slots[Probe(start, c)] != Some(socket)
        decreases SIZE - d
      {
        if occupied[idx] && table[idx].socket == socket {
          return Some(idx);
        }
        idx := (idx + 1) % SIZE;
        d := d + 1;
        if idx == start {
          break;
        }
      }
      forall i | 0 <= i < SIZE ensures Slots[i] != Some(socket) {
        assert Probe(start, Distance(start, i)) == i;
      }
      return None;
    }

    /** The first free slot in probe order; there is none exactly when 1024 sockets are held. */
    method AllocSlot(socket: U64) returns (r: Option<nat>)
      requires Valid()
      ensures r.None? <==> |Contents| == 1024
      ensures r.Some? ==> FirstFree(Slots, socket, r.value)
    {
      var idx := HashSocket(socket);
      var start := idx;
      ghost var d := 0;
      FullExactlyAtCapacity(Slots);
      while true
        invariant 0 <= d < SIZE && idx == Probe(start, d) && start == HashSocket(socket)
        invariant forall c | 0 <= c < d :: Slots[Probe(start, c)].Some?
        decreases SIZE - d
      {
        if !occupied[idx] {
          assert FirstFreeAt(Slots, socket, d);
          return Some(idx);
        }
        idx := (idx + 1) % SIZE;
        d := d + 1;
        if idx == start {
          break;
        }
      }
      forall i | 0 <= i < SIZE ensures Slots[i].Some? {
        assert Probe(start, Distance(start, i)) == i;
      }
      return None;
    }

    /** Sets up the entry of a socket that has none, in the first free slot in probe order. */
    method Claim(idx: nat, e: Event)
      requires Valid() && e.socketPtr !in Contents && FirstFree(Slots, e.socketPtr, idx)
      modifies this, table, occupied
      ensures Valid() && idx < SIZE && occupied[idx] && table[idx] == Opened(e)
      ensures Contents == old(Contents)[e.socketPtr := Opened(e)]
    {
      ClaimKeepsWellFormed(Slots, e.socketPtr, idx);
      occupied[idx] := true;
      table[idx] := ZERO_ENTRY;
      table[idx] := table[idx].(socket := e.socketPtr, state := New, firstSeen := e.timestamp, pid := e.pid,
        address := AddressOf(e));
      Slots := Slots[idx := Some(e.socketPtr)];
      Contents := Contents[e.socketPtr := table[idx]];
    }

    /** Opens an entry for a socket that has none, if a slot is free. */
    method Open(e: Event) returns (slot: Option<nat>)
      requires Valid() && e.socketPtr !in Contents
      modifies this, table, occupied
      ensures Valid()
      ensures slot.None? <==> |old(Contents)| == 1024
      ensures slot.None? ==> Contents == old(Contents)
      ensures slot.Some? ==>
        && slot.value < SIZE && occupied[slot.value] && table[slot.value] == Opened(e)
        && Contents == old(Contents)[e.socketPtr := Opened(e)]
    {
      slot := AllocSlot(e.socketPtr);
      if slot.Some? {
        Claim(slot.value, e);
      }
    }

    /** Records one event in the entry at `idx`. */
    method Record(idx: nat, e: Event)
      requires Valid()
      requires idx < SIZE && occupied[idx] && table[idx].socket == e.socketPtr
      modifies this, table
      ensures Valid()
      ensures Contents == old(Contents)[e.socketPtr := Recorded(old(Contents)[e.socketPtr], e)]
    {
      var entry := table[idx].(lastEvent := e, eventCount := Add64(table[idx].eventCount, 1));
      if e.saddr != 0 {
        entry := entry.(address := AddressOf(e));
      }
      if e.kind.Accept4Exit? {
        entry := entry.(state := Accept);
      } else if IsActivity(e.kind) {
        if entry.state.New? || entry.state.Accept? {
          entry := entry.(state := Active);
        }
      }
      table[idx] := entry;
      Contents := Contents[e.socketPtr := entry];
    }

    method Update(e: Event)
      requires Valid()
      modifies this, table, occupied
      ensures Valid()
      ensures Contents == Observe(old(Contents), e)
    {
      if e.socketPtr == 0 {
        return;
      }
      FullExactlyAtCapacity(Slots);
      var slot := Find(e.socketPtr);
      if slot.None? {
        slot := Open(e);
        if slot.None? {
          return;
        }
      }
      Record(slot.value, e);
    }
  }
}
