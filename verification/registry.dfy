/** The server's terminal registry (server.js:538-774): `terminals` maps a
    socket id to the terminals that socket created, ids come from one global
    counter, and every terminal owns a PTY process, a performance-stats record
    and an output batcher. Socket.IO handlers and PTY callbacks become the
    events of one step function; spawning, writing to, resizing and killing a
    PTY, and `socket.emit`, become the effects it returns. */
module TerminalRegistry {
  import opened Wrappers
  import opened OutputBatcher

  type SocketId = string

  /** The terminal id `term_<socket>_<counter>`. The counter is global and
      the decimal suffix holds no `_`, so the text is determined by, and
      determines, the counter value. */
  datatype TermId = TermId(socket: SocketId, n: nat)

  /** `terminals[socket.id][terminalId]`; the PTY process is the id itself. */
  datatype Entry = Entry(clientTerminalId: string)

  /** `performanceStats.get(terminalId)`. */
  datatype Stats = Stats(bytesTransferred: nat, messagesCount: nat, startTime: int)

  /** The server's terminal state. `batchers` keeps the batcher closure of
      every terminal ever created (its timer outlives the terminal), and
      `live` the PTY processes that have not reported their exit yet. */
  datatype Server = Server(
    terminals: map<SocketId, map<TermId, Entry>>,
    counter: nat,
    stats: map<TermId, Stats>,
    batchers: map<TermId, Batcher>,
    live: set<TermId>)

  const Initial := Server(map[], 0, map[], map[], {})

  /** Messages the server emits on a socket. */
  datatype Message =
    | ConnectionSuccess(id: SocketId)
    | Created(terminalId: TermId, clientTerminalId: string)
    | Data(terminalId: TermId, data: Bytes)
    | Exited(terminalId: TermId, code: int)
    | Closed(terminalId: TermId)
    | StatsReport(terminalId: TermId, messages: nat, runtime: int)

  /** What a step does to the outside world. */
  datatype Effect =
    | Emit(to: SocketId, msg: Message)
    | Spawn(terminalId: TermId, cols: int, rows: int)
    | Write(terminalId: TermId, input: string)
    | Resize(terminalId: TermId, cols: int, rows: int)
    | Kill(terminalIds: set<TermId>)

  /** Socket.IO events, PTY callbacks and timer expiries. Optional numbers
      are the request's `cols`/`rows` fields, `None` when absent. */
  datatype Event =
    | Connect(socket: SocketId)
    | Create(socket: SocketId, clientTerminalId: string, requestedCols: Option<int>, requestedRows: Option<int>, now: int)
    | Input(socket: SocketId, terminalId: TermId, input: string)
    | ResizeRequest(socket: SocketId, terminalId: TermId, cols: int, rows: int)
    | CloseRequest(socket: SocketId, terminalId: TermId)
    | Disconnect(socket: SocketId)
    | PtyData(terminalId: TermId, data: Bytes)
    | FlushTimer(terminalId: TermId)
    | PtyExit(terminalId: TermId, code: int)
    | StatsTick(terminalId: TermId, now: int)

  /** The socket owns `id`. */
  predicate Owns(s: Server, socket: SocketId, id: TermId)
  {
    socket in s.terminals && id in s.terminals[socket]
  }

  /** Every entry sits under the socket that created it and has a live
      process. */
  ghost predicate EntriesOwned(terminals: map<SocketId, map<TermId, Entry>>, live: set<TermId>)
  {
    forall sock, id :: sock in terminals && id in terminals[sock] ==> id.socket == sock && id in live
  }

  /** Every id ever handed out is at most the counter, distinct ids carry
      distinct counter values, and every batcher is between events. */
  ghost predicate BatchersSound(batchers: map<TermId, Batcher>, counter: nat)
  {
    && (forall id :: id in batchers ==> 1 <= id.n <= counter)
    && (forall a, b :: a in batchers && b in batchers && a.n == b.n ==> a == b)
    && (forall id :: id in batchers ==> Valid(batchers[id]))
  }

  /** Registry invariant: entries are owned and live, stats exist exactly
      for live processes, every live process has a batcher, and the
      batchers are sound. */
  ghost predicate Inv(s: Server)
  {
    && EntriesOwned(s.terminals, s.live)
    && s.live <= s.batchers.Keys
    && s.stats.Keys == s.live
    && BatchersSound(s.batchers, s.counter)
  }

  /** `connection`: confirm with `connection-success` and start the socket
      with `terminals[socket.id] = {}`. */
  function OnConnect(s: Server, socket: SocketId): (r: (Server, seq<Effect>))
    ensures r.0.terminals == s.terminals[socket := map[]]
    ensures r.0.counter == s.counter && r.0.live == s.live && r.0.batchers == s.batchers
    ensures r.1 == [Emit(socket, ConnectionSuccess(socket))]
  {
    (s.(terminals := s.terminals[socket := map[]]), [Emit(socket, ConnectionSuccess(socket))])
  }

  /** `terminal:create`: bump the counter, spawn the PTY, start its stats and
      batcher, record the entry and confirm with `terminal:created`. A socket
      without a map is one already disconnected, and Socket.IO delivers no
      event after `disconnect`, so that branch is never taken; the code would
      bump the counter, spawn and start the stats before throwing there. */
  function OnCreate(s: Server, socket: SocketId, clientTerminalId: string,
                    cols: Option<int>, rows: Option<int>, now: int): (r: (Server, seq<Effect>))
    ensures socket !in s.terminals ==> r == (s, [])
    ensures socket in s.terminals ==>
      var id := TermId(socket, s.counter + 1);
      && r.0.counter == s.counter + 1
      && r.0.terminals == s.terminals[socket := s.terminals[socket][id := Entry(clientTerminalId)]]
      && r.0.stats == s.stats[id := Stats(0, 0, now)]
      && r.0.batchers == s.batchers[id := OutputBatcher.Initial]
      && r.0.live == s.live + {id}
      && r.1 == [Spawn(id, OrDefault(cols, 80), OrDefault(rows, 24)), Emit(socket, Created(id, clientTerminalId))]
  {
    if socket !in s.terminals then (s, [])
    else
      var n := s.counter + 1;
      var id := TermId(socket, n);
      (Server(s.terminals[socket := s.terminals[socket][id := Entry(clientTerminalId)]],
              n,
              s.stats[id := Stats(0, 0, now)],
              s.batchers[id := OutputBatcher.Initial],
              s.live + {id}),
       [Spawn(id, OrDefault(cols, 80), OrDefault(rows, 24)), Emit(socket, Created(id, clientTerminalId))])
  }

  /** `terminal:data`: keystrokes reach the PTY only of a terminal this socket owns. */
  function OnInput(s: Server, socket: SocketId, id: TermId, input: string): (r: (Server, seq<Effect>))
    ensures r.0 == s
    ensures Owns(s, socket, id) ==> r.1 == [Write(id, input)]
    ensures !Owns(s, socket, id) ==> r.1 == []
  {
    if Owns(s, socket, id) then (s, [Write(id, input)]) else (s, [])
  }

  /** `terminal:resize`: the requested size is passed on unchanged. */
  function OnResize(s: Server, socket: SocketId, id: TermId, cols: int, rows: int): (r: (Server, seq<Effect>))
    ensures r.0 == s
    ensures Owns(s, socket, id) ==> r.1 == [Resize(id, cols, rows)]
    ensures !Owns(s, socket, id) ==> r.1 == []
  {
    if Owns(s, socket, id) then (s, [Resize(id, cols, rows)]) else (s, [])
  }

  /** `terminal:close`: kill the PTY, drop the entry and emit `terminal:closed`.
      The process is still live until its exit callback runs. */
  function OnClose(s: Server, socket: SocketId, id: TermId): (r: (Server, seq<Effect>))
    ensures !Owns(s, socket, id) ==> r == (s, [])
    ensures Owns(s, socket, id) ==>
      && r.0 == s.(terminals := s.terminals[socket := s.terminals[socket] - {id}])
      && r.1 == [Kill({id}), Emit(socket, Closed(id))]
  {
    if Owns(s, socket, id) then
      (s.(terminals := s.terminals[socket := s.terminals[socket] - {id}]),
       [Kill({id}), Emit(socket, Closed(id))])
    else (s, [])
  }

  /** `disconnect`: kill every terminal of the socket and forget the socket. */
  function OnDisconnect(s: Server, socket: SocketId): (r: (Server, seq<Effect>))
    ensures socket !in s.terminals ==> r == (s, [])
    ensures socket in s.terminals ==>
      && r.0 == s.(terminals := s.terminals - {socket})
      && r.1 == [Kill(s.terminals[socket].Keys)]
  {
    if socket in s.terminals then
      (s.(terminals := s.terminals - {socket}), [Kill(s.terminals[socket].Keys)])
    else (s, [])
  }

  /** Stats after one more PTY chunk, when the terminal still has stats. */
  function Count(stats: map<TermId, Stats>, id: TermId, size: nat): (r: map<TermId, Stats>)
    ensures r.Keys == stats.Keys
    ensures forall other :: other in stats && other != id ==> r[other] == stats[other]
    ensures id in stats ==>
      && r[id].bytesTransferred == stats[id].bytesTransferred + size
      && r[id].messagesCount == stats[id].messagesCount + 1
      && r[id].startTime == stats[id].startTime
  {
    if id in stats then
      var st := stats[id];
      stats[id := st.(bytesTransferred := st.bytesTransferred + size, messagesCount := st.messagesCount + 1)]
    else stats
  }

  /** The `terminal:data` messages a batcher step sends to the owning socket. */
  function DataMessages(id: TermId, m: Option<Bytes>): (r: seq<Effect>)
    ensures m.None? ==> r == []
    ensures m.Some? ==> r == [Emit(id.socket, Data(id, m.value))]
  {
    if m.Some? then [Emit(id.socket, Data(id, m.value))] else []
  }

  /** A PTY `data` callback: count it and hand it to the batcher. */
  function OnPtyData(s: Server, id: TermId, data: Bytes): (r: (Server, seq<Effect>))
    ensures id !in s.live || id !in s.batchers ==> r == (s, [])
    ensures id in s.live && id in s.batchers ==>
      var step := OutputBatcher.Step(s.batchers[id], Chunk(data));
      && r.0 == s.(stats := Count(s.stats, id, |data|), batchers := s.batchers[id := step.0])
      && r.1 == DataMessages(id, step.1)
  {
    if id !in s.live || id !in s.batchers then (s, [])
    else
      var step := OutputBatcher.Step(s.batchers[id], Chunk(data));
      (s.(stats := Count(s.stats, id, |data|), batchers := s.batchers[id := step.0]),
       DataMessages(id, step.1))
  }

  /** The batch timer of a terminal fires. Nothing cancels it on exit, close
      or disconnect, so it may still flush afterwards. */
  function OnFlushTimer(s: Server, id: TermId): (r: (Server, seq<Effect>))
    ensures id !in s.batchers ==> r == (s, [])
    ensures id in s.batchers ==>
      var step := OutputBatcher.Step(s.batchers[id], TimerFire);
      && r.0 == s.(batchers := s.batchers[id := step.0])
      && r.1 == DataMessages(id, step.1)
  {
    if id !in s.batchers then (s, [])
    else
      var step := OutputBatcher.Step(s.batchers[id], TimerFire);
      (s.(batchers := s.batchers[id := step.0]), DataMessages(id, step.1))
  }

  /** The PTY exit callback: drop the stats, drop the entry if it is still
      there, and always emit `terminal:exit`. A process reports its exit once. */
  function OnPtyExit(s: Server, id: TermId, code: int): (r: (Server, seq<Effect>))
    ensures id !in s.live ==> r == (s, [])
    ensures id in s.live ==>
      && r.0.live == s.live - {id}
      && r.0.stats == s.stats - {id}
      && r.0.batchers == s.batchers && r.0.counter == s.counter
      && (Owns(s, id.socket, id) ==> r.0.terminals == s.terminals[id.socket := s.terminals[id.socket] - {id}])
      && (!Owns(s, id.socket, id) ==> r.0.terminals == s.terminals)
      && r.1 == [Emit(id.socket, Exited(id, code))]
  {
    if id !in s.live then (s, [])
    else
      var terminals :=
        if Owns(s, id.socket, id) then s.terminals[id.socket := s.terminals[id.socket] - {id}]
        else s.terminals;
      (s.(terminals := terminals, stats := s.stats - {id}, live := s.live - {id}),
       [Emit(id.socket, Exited(id, code))])
  }

  /** The 5-second stats interval: report the message count and the run time
      while the stats record exists (the interval is cleared on exit). */
  function OnStatsTick(s: Server, id: TermId, now: int): (r: (Server, seq<Effect>))
    ensures r.0 == s
    ensures id !in s.stats ==> r.1 == []
    ensures id in s.stats ==>
      r.1 == [Emit(id.socket, StatsReport(id, s.stats[id].messagesCount, now - s.stats[id].startTime))]
  {
    if id in s.stats then
      (s, [Emit(id.socket, StatsReport(id, s.stats[id].messagesCount, now - s.stats[id].startTime))])
    else (s, [])
  }

  /** One event. */
  function Step(s: Server, e: Event): (Server, seq<Effect>)
  {
    match e
    case Connect(socket) => OnConnect(s, socket)
    case Create(socket, client, cols, rows, now) => OnCreate(s, socket, client, cols, rows, now)
    case Input(socket, id, input) => OnInput(s, socket, id, input)
    case ResizeRequest(socket, id, cols, rows) => OnResize(s, socket, id, cols, rows)
    case CloseRequest(socket, id) => OnClose(s, socket, id)
    case Disconnect(socket) => OnDisconnect(s, socket)
    case PtyData(id, data) => OnPtyData(s, id, data)
    case FlushTimer(id) => OnFlushTimer(s, id)
    case PtyExit(id, code) => OnPtyExit(s, id, code)
    case StatsTick(id, now) => OnStatsTick(s, id, now)
  }

  /** The initial registry satisfies the invariant. */
  lemma InitialInv()
    ensures Inv(Initial)
  {
  }

  /** Creating a terminal keeps the invariant. */
  lemma CreateInv(s: Server, socket: SocketId, client: string, cols: Option<int>, rows: Option<int>, now: int)
    requires Inv(s)
    ensures Inv(OnCreate(s, socket, client, cols, rows, now).0)
  {
    if socket in s.terminals {
      var id := TermId(socket, s.counter + 1);
      var r := Server(s.terminals[socket := s.terminals[socket][id := Entry(client)]],
                      s.counter + 1,
                      s.stats[id := Stats(0, 0, now)],
                      s.batchers[id := OutputBatcher.Initial],
                      s.live + {id});
      assert Inv(r) by {
        AddEntry(s.terminals, s.live, socket, id, Entry(client));
        InitialValid();
        AddBatcher(s.batchers, s.counter, id, OutputBatcher.Initial);
      }
      assert OnCreate(s, socket, client, cols, rows, now).0 == r;
    }
  }

  /** An entry for a new live terminal of the socket keeps entries owned. */
  lemma AddEntry(terminals: map<SocketId, map<TermId, Entry>>, live: set<TermId>,
                 socket: SocketId, id: TermId, e: Entry)
    requires EntriesOwned(terminals, live)
    requires socket in terminals && id.socket == socket
    ensures EntriesOwned(terminals[socket := terminals[socket][id := e]], live + {id})
  {
    var updated := terminals[socket := terminals[socket][id := e]];
    forall sock: SocketId, t: TermId | sock in updated && t in updated[sock]
      ensures t.socket == sock && t in live + {id}
    {
      if t != id {
        assert t in terminals[sock];
      }
    }
  }

  /** A fresh batcher is between events. */
  lemma InitialValid()
    ensures Valid(OutputBatcher.Initial)
  {
    assert Concat(OutputBatcher.Initial.dataBuffer) == [];
  }

  /** A batcher for the next counter value keeps the batchers sound. */
  lemma AddBatcher(m: map<TermId, Batcher>, counter: nat, id: TermId, b: Batcher)
    requires BatchersSound(m, counter)
    requires id.n == counter + 1 && Valid(b)
    ensures BatchersSound(m[id := b], counter + 1)
  {
    var m' := m[id := b];
    forall x, y | x in m' && y in m' && x.n == y.n
      ensures x == y
    {
      if x != id && y != id {
        assert x in m && y in m;
      }
    }
  }

  /** Replacing one valid batcher by another keeps the batchers sound. */
  lemma UpdateBatcher(m: map<TermId, Batcher>, counter: nat, id: TermId, b: Batcher, m': map<TermId, Batcher>)
    requires id in m && m' == m[id := b]
    requires BatchersSound(m, counter)
    requires Valid(b)
    ensures m'.Keys == m.Keys
    ensures BatchersSound(m', counter)
  {
    forall x, y | x in m' && y in m' && x.n == y.n
      ensures x == y
    {
      assert x in m && y in m;
    }
  }

  /** A PTY chunk keeps the invariant. */
  lemma PtyDataInv(s: Server, id: TermId, data: Bytes)
    requires Inv(s)
    ensures Inv(OnPtyData(s, id, data).0)
  {
    if id in s.live && id in s.batchers {
      var step := OutputBatcher.Step(s.batchers[id], Chunk(data));
      StepValid(s.batchers[id], Chunk(data));
      UpdateBatcher(s.batchers, s.counter, id, step.0, s.batchers[id := step.0]);
    }
  }

  /** A timer expiry keeps the invariant. */
  lemma FlushTimerInv(s: Server, id: TermId)
    requires Inv(s)
    ensures Inv(OnFlushTimer(s, id).0)
  {
    if id in s.batchers {
      StepValid(s.batchers[id], TimerFire);
      var step := OutputBatcher.Step(s.batchers[id], TimerFire);
      UpdateBatcher(s.batchers, s.counter, id, step.0, s.batchers[id := step.0]);
    }
  }

  /** A connection keeps the invariant: its table starts empty. */
  lemma ConnectInv(s: Server, socket: SocketId)
    requires Inv(s)
    ensures Inv(OnConnect(s, socket).0)
  {
    var r := OnConnect(s, socket).0;
    forall sock, id | sock in r.terminals && id in r.terminals[sock]
      ensures id.socket == sock && id in r.live
    {
      assert id in s.terminals[sock];
    }
  }

  /** Closing keeps the invariant: it only removes an entry. */
  lemma CloseInv(s: Server, socket: SocketId, id: TermId)
    requires Inv(s)
    ensures Inv(OnClose(s, socket, id).0)
  {
    var r := OnClose(s, socket, id).0;
    forall sock, t | sock in r.terminals && t in r.terminals[sock]
      ensures t.socket == sock && t in r.live
    {
      assert t in s.terminals[sock];
    }
  }

  /** A process exit keeps the invariant: the entry, if any, goes with the
      process and its stats. */
  lemma ExitInv(s: Server, id: TermId, code: int)
    requires Inv(s)
    ensures Inv(OnPtyExit(s, id, code).0)
  {
    var r := OnPtyExit(s, id, code).0;
    if id in s.live {
      forall sock, t | sock in r.terminals && t in r.terminals[sock]
        ensures t.socket == sock && t in r.live
      {
        assert t in s.terminals[sock];
      }
    }
  }

  /** Disconnecting keeps the invariant: it only forgets a table. */
  lemma DisconnectInv(s: Server, socket: SocketId)
    requires Inv(s)
    ensures Inv(OnDisconnect(s, socket).0)
  {
    var r := OnDisconnect(s, socket).0;
    forall sock, t | sock in r.terminals && t in r.terminals[sock]
      ensures t.socket == sock && t in r.live
    {
      assert t in s.terminals[sock];
    }
  }

  /** Every event keeps the registry invariant. */
  lemma StepInv(s: Server, e: Event)
    requires Inv(s)
    ensures Inv(Step(s, e).0)
  {
    match e
    case Create(socket, client, cols, rows, now) => CreateInv(s, socket, client, cols, rows, now);
    case PtyData(id, data) => PtyDataInv(s, id, data);
    case FlushTimer(id) => FlushTimerInv(s, id);
    case CloseRequest(socket, id) => CloseInv(s, socket, id);
    case PtyExit(id, code) => ExitInv(s, id, code);
    case Disconnect(socket) => DisconnectInv(s, socket);
    case Connect(socket) => ConnectInv(s, socket);
    case Input(_, _, _) =>
    case ResizeRequest(_, _, _, _) =>
    case StatsTick(_, _) =>
  }

  /** Running a sequence of events, collecting every effect in order. */
  function RunEvents(s: Server, events: seq<Event>): (Server, seq<Effect>)
    decreases |events|
  {
    if |events| == 0 then (s, [])
    else
      var prev := RunEvents(s, events[..|events| - 1]);
      var step := Step(prev.0, events[|events| - 1]);
      (step.0, prev.1 + step.1)
  }

  /** Every reachable registry satisfies the invariant. */
  lemma {:induction false} RunEventsInv(s: Server, events: seq<Event>)
    requires Inv(s)
    ensures Inv(RunEvents(s, events).0)
    decreases |events|
  {
    if |events| > 0 {
      RunEventsInv(s, events[..|events| - 1]);
      StepInv(RunEvents(s, events[..|events| - 1]).0, events[|events| - 1]);
    }
  }

  /** A new terminal gets an id no terminal has ever had: its counter value
      is larger than that of every id handed out before. */
  lemma CreateGivesFreshId(s: Server, socket: SocketId, client: string, cols: Option<int>, rows: Option<int>, now: int)
    requires Inv(s)
    requires socket in s.terminals
    ensures var id := TermId(socket, s.counter + 1);
      && id !in s.batchers
      && (forall prior :: prior in s.batchers ==> prior.n < id.n)
      && Owns(OnCreate(s, socket, client, cols, rows, now).0, socket, id)
  {
  }

  /** Ids are never reused: the counter never decreases and no id is ever
      forgotten, so a later create can never hand out an earlier id. */
  lemma StepKeepsHistory(s: Server, e: Event)
    ensures Step(s, e).0.counter >= s.counter
    ensures s.batchers.Keys <= Step(s, e).0.batchers.Keys
  {
  }

  /** Data, resize and close addressed to an id another socket created do
      nothing at all. */
  lemma ForeignIdIgnored(s: Server, e: Event)
    requires Inv(s)
    requires e.Input? || e.ResizeRequest? || e.CloseRequest?
    requires e.terminalId.socket != e.socket
    ensures Step(s, e) == (s, [])
  {
    assert !Owns(s, e.socket, e.terminalId);
  }

  /** Closing an owned terminal kills it, removes it and emits
      `terminal:closed`; closing it again changes nothing and emits nothing. */
  lemma CloseTwice(s: Server, socket: SocketId, id: TermId)
    requires Owns(s, socket, id)
    ensures var first := OnClose(s, socket, id);
      && !Owns(first.0, socket, id)
      && first.1 == [Kill({id}), Emit(socket, Closed(id))]
      && OnClose(first.0, socket, id) == (first.0, [])
  {
  }

  /** The exit callback removes the entry and the stats and emits
      `terminal:exit` once; a repeated exit report does nothing. */
  lemma ExitOnce(s: Server, id: TermId, code: int)
    requires Inv(s)
    requires id in s.live
    ensures var first := OnPtyExit(s, id, code);
      && (forall sock :: !Owns(first.0, sock, id))
      && id !in first.0.stats
      && first.1 == [Emit(id.socket, Exited(id, code))]
      && OnPtyExit(first.0, id, code) == (first.0, [])
  {
    var r := OnPtyExit(s, id, code).0;
    forall sock ensures !Owns(r, sock, id) {
      if Owns(s, sock, id) {
        assert sock == id.socket;
      }
    }
  }

  /** Disconnecting kills every terminal of the socket, forgets the socket,
      and leaves every other socket's terminals as they were. */
  lemma DisconnectKillsAll(s: Server, socket: SocketId)
    requires socket in s.terminals
    ensures var r := OnDisconnect(s, socket);
      && socket !in r.0.terminals
      && r.1 == [Kill(s.terminals[socket].Keys)]
      && (forall other :: other != socket && other in s.terminals ==>
            other in r.0.terminals && r.0.terminals[other] == s.terminals[other])
  {
  }

  /** PTY output reaches only the socket that created the terminal, and the
      bytes of a chunk are counted in its stats. */
  lemma OutputGoesToOwner(s: Server, id: TermId, data: Bytes)
    requires Inv(s)
    requires id in s.live
    ensures var r := OnPtyData(s, id, data);
      && (forall i :: 0 <= i < |r.1| ==> r.1[i] == Emit(id.socket, Data(id, r.1[i].msg.data)))
      && r.0.stats[id].messagesCount == s.stats[id].messagesCount + 1
      && r.0.stats[id].bytesTransferred == s.stats[id].bytesTransferred + |data|
  {
  }
}
