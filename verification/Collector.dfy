/** The ring-buffer callback: every event goes to the connection table, the timelines and the queue. */
module Collectors {
  import opened Events
  import opened TimelineHistory
  import ConnectionTables
  import EventQueues
  import Timelines

  function FirstQueued(history: seq<Event>): seq<Event> {
    if |history| <= EventQueues.QUEUE_SIZE then history else history[..EventQueues.QUEUE_SIZE]
  }

  class Collector {
    const cfg: Config
    const connections: ConnectionTables.ConnectionTable
    const timelines: Timelines.TimelineTable
    const queue: EventQueues.EventQueue
    ghost var History: seq<Event>

    /** The whole mutable state is a function of the event history. */
    ghost predicate Valid()
      reads this, connections, connections.table, connections.occupied, timelines, timelines.slots
      reads queue, queue.buffer
    {
      && connections.Valid() && timelines.Valid() && queue.Valid()
      && timelines.minSteps == cfg.minSteps
      && connections.Contents == ConnectionTables.Run(History)
      && timelines.Abstract() == Run(cfg, History)
      && queue.Contents == FirstQueued(History)
    }

    constructor (cfg: Config)
      ensures Valid() && this.cfg == cfg && History == []
      ensures fresh({connections, connections.table, connections.occupied})
      ensures fresh({timelines, timelines.slots, queue, queue.buffer})
    {
      this.cfg := cfg;
      connections := new ConnectionTables.ConnectionTable();
      timelines := new Timelines.TimelineTable(cfg.minSteps);
      queue := new EventQueues.EventQueue();
      History := [];
    }

    /** The switch of the callback: start, finish or extend the socket's timeline. */
    method BuildTimeline(e: Event)
      requires timelines.Valid() && timelines.minSteps == cfg.minSteps
      modifies timelines, timelines.slots
      ensures timelines.Valid() && timelines.Abstract() == Dispatch(cfg, old(timelines.Abstract()), e)
    {
      if e.kind.TcpV4Rcv? {
        if cfg.filterPort == 0 || e.dport == cfg.filterPort || e.sport == cfg.filterPort {
          timelines.Start(e.socketPtr, e);
        }
      } else if e.kind.TcpSendmsg? {
        timelines.Finish(e.socketPtr, e);
      } else {
        timelines.AddEvent(e.socketPtr, e);
      }
    }

    method UpdateConnections(e: Event)
      requires connections.Valid() && timelines.Valid() && queue.Valid()
      modifies connections, connections.table, connections.occupied
      ensures connections.Valid() && connections.Contents == ConnectionTables.Observe(old(connections.Contents), e)
      ensures timelines.Valid() && queue.Valid()
    {
      connections.Update(e);
    }

    method UpdateTimelines(e: Event)
      requires connections.Valid() && timelines.Valid() && queue.Valid() && timelines.minSteps == cfg.minSteps
      modifies timelines, timelines.slots
      ensures connections.Valid() && queue.Valid()
      ensures timelines.Valid() && timelines.Abstract() == Dispatch(cfg, old(timelines.Abstract()), e)
    {
      BuildTimeline(e);
    }

    method Enqueue(e: Event)
      requires connections.Valid() && timelines.Valid() && queue.Valid()
      modifies queue, queue.buffer
      ensures connections.Valid() && timelines.Valid() && queue.Valid()
      ensures queue.Contents ==
        if |old(queue.Contents)| < EventQueues.QUEUE_SIZE then old(queue.Contents) + [e] else old(queue.Contents)
    {
      var _ := queue.Push(e);
    }

    method HandleEvent(e: Event)
      requires Valid()
      modifies this`History, connections, connections.table, connections.occupied, timelines, timelines.slots
      modifies queue, queue.buffer
      ensures Valid() && History == old(History) + [e]
    {
      UpdateConnections(e);
      UpdateTimelines(e);
      Enqueue(e);
      RunSnoc(cfg, History, e);
      History := History + [e];
    }
  }

  lemma RunSnoc(cfg: Config, history: seq<Event>, e: Event)
    ensures ConnectionTables.Run(history + [e]) == ConnectionTables.Observe(ConnectionTables.Run(history), e)
    ensures Run(cfg, history + [e]) == Dispatch(cfg, Run(cfg, history), e)
    ensures FirstQueued(history + [e]) ==
      if |FirstQueued(history)| < EventQueues.QUEUE_SIZE then FirstQueued(history) + [e] else FirstQueued(history)
  {
    var all := history + [e];
    assert all[..|all| - 1] == history;
  }
}
