/** Bounded per-socket request timelines: the recording rules, and the open-addressed table that stores them. */
module Timelines {
  import opened Events
  import opened ProbeTable
  import opened Wrappers

  const MAX_EVENTS := 64

  datatype TimelineEntry = TimelineEntry(e: Event, deltaNs: U64)

  const ZERO_TIMELINE_ENTRY := TimelineEntry(ZERO_EVENT, 0)

  type EntryBuffer = b: seq<TimelineEntry> | |b| == MAX_EVENTS witness seq(MAX_EVENTS, _ => ZERO_TIMELINE_ENTRY)

  const ZERO_BUFFER: EntryBuffer := seq(MAX_EVENTS, _ => ZERO_TIMELINE_ENTRY)

  /** One slot of the table; entries at and after `count` are left over from earlier requests. */
  datatype Timeline = Timeline(
    socket: U64, entries: EntryBuffer, count: nat, startTs: U64, active: bool, occupied: bool)

  const ZERO_TIMELINE := Timeline(0, ZERO_BUFFER, 0, 0, false, false)

  datatype Metrics = Metrics(
    requestCount: U64, totalLatencyNs: U64, maxLatencyNs: U64, minLatencyNs: U64, totalEvents: U64)

  const ZERO_METRICS := Metrics(0, 0, 0, 0, 0)

  // ---------- The abstract recorder ----------

  datatype Recording = Recording(startTs: U64, active: bool, entries: seq<TimelineEntry>)

  /** A finished timeline handed to the exporters. */
  datatype Export = Export(socket: U64, entries: seq<TimelineEntry>)

  datatype State = State(held: map<U64, Recording>, exported: seq<Export>, metrics: Metrics)

  const INITIAL_STATE := State(map[], [], ZERO_METRICS)

  function TotalNs(entries: seq<TimelineEntry>): U64 {
    if |entries| < 2 then 0 else Sub64(entries[|entries| - 1].e.timestamp, entries[0].e.timestamp)
  }

  function DeltaAfter(entries: seq<TimelineEntry>, e: Event): U64 {
    if entries == [] then 0 else Sub64(e.timestamp, entries[|entries| - 1].e.timestamp)
  }

  function Appended(entries: seq<TimelineEntry>, e: Event): seq<TimelineEntry> {
    if |entries| >= MAX_EVENTS then entries else entries + [TimelineEntry(e, DeltaAfter(entries, e))]
  }

  function Measured(m: Metrics, entries: seq<TimelineEntry>): Metrics {
    var total := TotalNs(entries);
    var n := Add64(m.requestCount, 1);
    Metrics(
      n,
      Add64(m.totalLatencyNs, total),
      if total > m.maxLatencyNs then total else m.maxLatencyNs,
      if n == 1 || total < m.minLatencyNs then total else m.minLatencyNs,
      Add64(m.totalEvents, |entries| % TWO_TO_THE_64))
  }

  function Started(st: State, socket: U64, e: Event): State {
    if socket == 0 || (socket !in st.held && |st.held| == SIZE) then st
    else st.(held := st.held[socket := Recording(e.timestamp, true, Appended([], e))])
  }

  function Added(st: State, socket: U64, e: Event): State {
    if socket == 0 || socket !in st.held || !st.held[socket].active then st
    else
      var r := st.held[socket];
      st.(held := st.held[socket := r.(entries := Appended(r.entries, e))])
  }

  function Finished(st: State, socket: U64, e: Event, minSteps: nat): State {
    if socket == 0 || socket !in st.held || !st.held[socket].active then st
    else
      var r := st.held[socket];
      var done := Appended(r.entries, e);
      var closed := st.(held := st.held[socket := Recording(r.startTs, false, [])]);
      if |done| < minSteps then closed
      else closed.(exported := st.exported + [Export(socket, done)], metrics := Measured(st.metrics, done))
  }

  // ---------- The table itself ----------

  ghost function View(t: Timeline): Recording
    requires t.count <= MAX_EVENTS
  {
    Recording(t.startTs, t.active, t.entries[..t.count])
  }

  class TimelineTable {
    const slots: array<Timeline>
    const minSteps: nat
    var metrics: Metrics
    /** What the exporters were given, oldest first. */
    var exported: seq<Export>
    ghost var Slots: Keys
    ghost var Held: map<U64, Recording>

    ghost predicate Valid()
      reads this, slots
    {
      && slots.Length == SIZE
      && WellFormed(Slots)
      && Held.Keys == ProbeTable.Held(Slots)
      && forall i | 0 <= i < SIZE ::
        if slots[i].occupied then
          && slots[i].count <= MAX_EVENTS && Slots[i] == Some(slots[i].socket)
          && slots[i].socket in Held && Held[slots[i].socket] == View(slots[i])
        else
          Slots[i] == None
    }

    ghost function Abstract(): State
      reads this
    {
      State(Held, exported, metrics)
    }

    constructor (minSteps: nat)
      ensures Valid() && fresh(slots) && this.minSteps == minSteps && Abstract() == INITIAL_STATE
    {
      this.minSteps := minSteps;
      slots := new Timeline[SIZE](_ => ZERO_TIMELINE);
      metrics, exported := ZERO_METRICS, [];
      Slots := seq(SIZE, _ => None);
      Held := map[];
    }

    method Find(socket: U64) returns (r: Option<nat>)
      requires Valid()
      ensures r.Some? <==> socket in Held
      ensures r.Some? ==> r.value < SIZE && slots[r.value].occupied && slots[r.value].socket == socket
    {
      var idx := HashSocket(socket);
      var start := idx;
      ghost var d := 0;
      while true
        invariant 0 <= d < SIZE && idx == Probe(start, d) && start == HashSocket(socket)
        invariant forall c | 0 <= c < d :: Slots[Probe(start, c)] != Some(socket)
        decreases SIZE - d
      {
        if slots[idx].occupied && slots[idx].socket == socket {
          return Some(idx);
        }
        idx := (idx + 1) % SIZE;
        d := d + 1;
        if idx == start {
          break;
        }
      }
      forall i | 0 <= i < SIZE ensures Slots[i] != Some(socket) {
        assert Probe(start, Distance(start, i)) == i;
      }
      return None;
    }

    /** The first free slot in probe order; there is none exactly when 1024 sockets are held. */
    method FindFree(socket: U64) returns (r: Option<nat>)
      requires Valid()
      ensures r.None? <==> |Held| == 1024
      ensures r.Some? ==> FirstFree(Slots, socket, r.value)
    {
      var idx := HashSocket(socket);
      var start := idx;
      ghost var d := 0;
      FullExactlyAtCapacity(Slots);
      while true
        invariant 0 <= d < SIZE && idx == Probe(start, d) && start == HashSocket(socket)
        invariant forall c | 0 <= c < d :: Slots[Probe(start, c)].Some?
        decreases SIZE - d
      {
        if !slots[idx].occupied {
          assert FirstFreeAt(Slots, socket, d);
          return Some(idx);
        }
        idx := (idx + 1) % SIZE;
        d := d + 1;
        if idx == start {
          break;
        }
      }
      forall i | 0 <= i < SIZE ensures Slots[i].Some? {
        assert Probe(start, Distance(start, i)) == i;
      }
      return None;
    }

    /** Claims the first free slot for a socket that has none; fails exactly when 1024 sockets are held. */
    method Create(socket: U64) returns (r: Option<nat>)
      requires Valid() && socket !in Held
      modifies this`Slots, this`Held, slots
      ensures Valid()
      ensures r.None? <==> |old(Held)| == 1024
      ensures r.None? ==> Held == old(Held)
      ensures r.Some? ==> r.value < SIZE && slots[r.value].occupied && slots[r.value].socket == socket
      ensures r.Some? ==> Held == old(Held)[socket := Recording(0, false, [])]
    {
      r := FindFree(socket);
      if r.Some? {
        Claim(r.value, socket);
      }
    }

    method Claim(idx: nat, socket: U64)
      requires Valid() && socket !in Held && FirstFree(Slots, socket, idx)
      modifies this`Slots, this`Held, slots
      ensures Valid()
      ensures idx < SIZE && slots[idx].occupied && slots[idx].socket == socket
      ensures Held == old(Held)[socket := Recording(0, false, [])]
    {
      ClaimKeepsWellFormed(Slots, socket, idx);
      slots[idx] := ZERO_TIMELINE;
      slots[idx] := slots[idx].(socket := socket);
      slots[idx] := slots[idx].(occupied := true);
      Slots := Slots[idx := Some(socket)];
      Held := Held[socket := View(slots[idx])];
    }

    /** Rewrites the timeline in a slot; every other socket's recording is untouched. */
    method Put(idx: nat, t: Timeline)
      requires Valid() && idx < SIZE && slots[idx].occupied
      requires t.occupied && t.socket == slots[idx].socket && t.count <= MAX_EVENTS
      modifies this`Held, slots
      ensures Valid() && slots[idx] == t
      ensures Held == old(Held)[t.socket := View(t)]
    {
      slots[idx] := t;
      Held := Held[t.socket := View(t)];
    }

    method Append(idx: nat, e: Event)
      requires Valid() && idx < SIZE && slots[idx].occupied
      modifies this`Held, slots
      ensures Valid()
      ensures slots[idx].occupied && slots[idx].socket == old(slots[idx].socket)
      ensures slots[idx].startTs == old(slots[idx].startTs)
      ensures slots[idx].count <= MAX_EVENTS && Held[slots[idx].socket] == View(slots[idx])
      ensures var r := old(View(slots[idx]));
        Held == old(Held)[old(slots[idx].socket) := r.(entries := Appended(r.entries, e))]
    {
      var tl := slots[idx];
      if tl.count >= MAX_EVENTS {
        assert Held == Held[tl.socket := View(tl)];
        return;
      }
      var delta := if tl.count == 0 then 0 else Sub64(e.timestamp, tl.entries[tl.count - 1].e.timestamp);
      var filled := tl.(entries := tl.entries[tl.count := TimelineEntry(e, delta)], count := tl.count + 1);
      assert filled.entries[..filled.count] == tl.entries[..tl.count] + [TimelineEntry(e, delta)];
      Put(idx, filled);
    }

    method UpdateMetrics(tl: Timeline)
      requires tl.count <= MAX_EVENTS
      modifies this`metrics
      ensures metrics == Measured(old(metrics), tl.entries[..tl.count])
    {
      var total := if tl.count < 2 then 0
                   else Sub64(tl.entries[tl.count - 1].e.timestamp, tl.entries[0].e.timestamp);
      assert total == TotalNs(tl.entries[..tl.count]) && |tl.entries[..tl.count]| % TWO_TO_THE_64 == tl.count;
      metrics := metrics.(requestCount := Add64(metrics.requestCount, 1));
      metrics := metrics.(totalLatencyNs := Add64(metrics.totalLatencyNs, total));
      metrics := metrics.(totalEvents := Add64(metrics.totalEvents, tl.count));
      if metrics.requestCount == 1 || total < metrics.minLatencyNs {
        metrics := metrics.(minLatencyNs := total);
      }
      if total > metrics.maxLatencyNs {
        metrics := metrics.(maxLatencyNs := total);
      }
    }

    /** Opens a new request in a slot, discarding the previous one. */
    method Restart(idx: nat, e: Event)
      requires Valid() && idx < SIZE && slots[idx].occupied
      modifies this`Held, slots
      ensures Valid()
      ensures Held == old(Held)[old(slots[idx].socket) := Recording(e.timestamp, true, Appended([], e))]
    {
      Put(idx, slots[idx].(count := 0, startTs := e.timestamp, active := true));
      Append(idx, e);
    }

    method Start(socket: U64, e: Event)
      requires Valid()
      modifies this`Slots, this`Held, slots
      ensures Valid() && Abstract() == Started(old(Abstract()), socket, e)
    {
      if socket == 0 {
        return;
      }
      FullExactlyAtCapacity(Slots);
      var slot := Find(socket);
      if slot.None? {
        slot := Create(socket);
        if slot.None? {
          return;
        }
      }
      Restart(slot.value, e);
      assert Held == old(Held)[socket := Recording(e.timestamp, true, Appended([], e))];
    }

    method AddEvent(socket: U64, e: Event)
      requires Valid()
      modifies this`Held, slots
      ensures Valid() && Abstract() == Added(old(Abstract()), socket, e)
    {
      if socket == 0 {
        return;
      }
      var slot := Find(socket);
      if slot.None? || !slots[slot.value].active {
        return;
      }
      Append(slot.value, e);
    }

    /** Hands a finished timeline to the exporters. */
    method Publish(tl: Timeline)
      requires tl.count <= MAX_EVENTS
      modifies this`exported, this`metrics
      ensures exported == old(exported) + [Export(tl.socket, View(tl).entries)]
      ensures metrics == Measured(old(metrics), View(tl).entries)
    {
      exported := exported + [Export(tl.socket, tl.entries[..tl.count])];
      UpdateMetrics(tl);
    }

    /** Closes the request recorded in a slot, publishing it unless it is too short. */
    method Close(idx: nat)
      requires Valid() && idx < SIZE && slots[idx].occupied
      modifies this`Held, this`exported, this`metrics, slots
      ensures Valid()
      ensures Held == old(Held)[old(slots[idx].socket) := Recording(old(slots[idx].startTs), false, [])]
      ensures var done := old(View(slots[idx])).entries;
        if |done| < minSteps then
          exported == old(exported) && metrics == old(metrics)
        else
          exported == old(exported) + [Export(old(slots[idx].socket), done)] && metrics == Measured(old(metrics), done)
    {
      if slots[idx].count >= minSteps {
        Publish(slots[idx]);
      }
      Put(idx, slots[idx].(active := false, count := 0));
    }

    /** Records the closing event in a slot, and closes the request. */
    method FinishAt(idx: nat, e: Event)
      requires Valid() && idx < SIZE && slots[idx].occupied
      modifies this`Held, this`exported, this`metrics, slots
      ensures Valid()
      ensures Held == old(Held)[old(slots[idx].socket) := Recording(old(slots[idx].startTs), false, [])]
      ensures var done := Appended(old(View(slots[idx])).entries, e);
        if |done| < minSteps then
          exported == old(exported) && metrics == old(metrics)
        else
          exported == old(exported) + [Export(old(slots[idx].socket), done)] && metrics == Measured(old(metrics), done)
    {
      Append(idx, e);
      Close(idx);
    }

    method Finish(socket: U64, e: Event)
      requires Valid()
      modifies this, slots
      ensures Valid() && Abstract() == Finished(old(Abstract()), socket, e, minSteps)
    {
      if socket == 0 {
        return;
      }
      var slot := Find(socket);
      if slot.None? || !slots[slot.value].active {
        return;
      }
      FinishAt(slot.value, e);
      assert Held == old(Held)[socket := Recording(old(Held[socket]).startTs, false, [])];
    }
  }
}
