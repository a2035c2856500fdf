/** The browser's terminal list (public/app.js:169-172, 210, 390-392,
    594-631, 784-833). Terminals are numbered by a client-side counter
    (`terminal-<n>`, shown as `bash-<n>`), kept in creation order (the key
    order of the `terminals` object), and bound to a server terminal id once
    `terminal:created` names them. Output is routed to the first terminal
    bound to the id it carries; keystrokes go out only from a bound terminal
    while the socket is connected. The last terminal cannot be closed. */
module ClientTerminals {
  import opened Wrappers

  type ServerId = string

  /** `terminals[terminal-<n>]`: its number and the server id it is bound to. */
  datatype Term = Term(n: nat, socketId: Option<ServerId>)

  datatype Client = Client(terms: seq<Term>, counter: nat, active: Option<nat>)

  const Initial := Client([], 0, None)

  /** What the client sends on the socket. */
  datatype Request =
    | CreateSession(clientTerminalId: nat)
    | SendData(terminalId: ServerId, data: string)
    | CloseSession(terminalId: ServerId)

  /** Position of terminal `n` in the list, or -1. */
  function Position(terms: seq<Term>, n: nat): (i: int)
    ensures -1 <= i < |terms|
    ensures i >= 0 ==> terms[i].n == n
    ensures i == -1 <==> forall j :: 0 <= j < |terms| ==> terms[j].n != n
    decreases |terms|
  {
    if |terms| == 0 then -1
    else if terms[|terms| - 1].n == n then |terms| - 1
    else Position(terms[..|terms| - 1], n)
  }

  /** The list holds terminal `n`. */
  predicate Has(c: Client, n: nat)
  {
    Position(c.terms, n) >= 0
  }

  /** The client's consistency: numbers are distinct and at most the counter,
      and the active terminal, if any, is in the list. */
  predicate ClientInv(c: Client)
  {
    && (forall i, j :: 0 <= i < j < |c.terms| ==> c.terms[i].n != c.terms[j].n)
    && (forall i :: 0 <= i < |c.terms| ==> 1 <= c.terms[i].n <= c.counter)
    && (c.active.Some? ==> Has(c, c.active.value))
    && (|c.terms| > 0 ==> c.active.Some?)
  }

  /** `createNewTerminal`: a new unbound terminal with the next number is
      appended and becomes active. No request leaves yet: the session is
      asked for when the 300 ms timer set here fires (`SessionTimer`). */
  function Create(c: Client): (r: Client)
    ensures r.counter == c.counter + 1
    ensures r.terms == c.terms + [Term(c.counter + 1, None)]
    ensures r.active == Some(c.counter + 1)
  {
    var n := c.counter + 1;
    Client(c.terms + [Term(n, None)], n, Some(n))
  }

  /** `createTerminalSession(terminal-<n>)` when the creation timer fires:
      a server terminal is requested only if terminal `n` still exists and
      the socket is connected at that moment. */
  function SessionTimer(c: Client, n: nat, connected: bool): (out: seq<Request>)
    ensures |out| <= 1
    ensures |out| == 1 <==> Has(c, n) && connected
    ensures |out| == 1 ==> out[0] == CreateSession(n)
  {
    if Has(c, n) && connected then [CreateSession(n)] else []
  }

  /** The 100 ms timer that the `connection-success` handler sets; the server
      sends that event on every connection. It calls `createTerminalSession`
      for every terminal in the list, bound or not, in creation order; each
      call finds its terminal, so each asks for a session when connected. */
  function ReconnectTimer(c: Client, connected: bool): (out: seq<Request>)
    ensures |out| == (if connected then |c.terms| else 0)
    ensures forall i :: 0 <= i < |out| ==> out[i] == CreateSession(c.terms[i].n)
  {
    if connected then seq(|c.terms|, i requires 0 <= i < |c.terms| => CreateSession(c.terms[i].n))
    else []
  }

  /** `terminal:created`: bind the named terminal, if it still exists. */
  function OnCreated(c: Client, clientTerminalId: nat, terminalId: ServerId): (r: Client)
    ensures r.counter == c.counter && r.active == c.active && |r.terms| == |c.terms|
    ensures forall i :: 0 <= i < |c.terms| ==> r.terms[i].n == c.terms[i].n
    ensures var k := Position(c.terms, clientTerminalId);
      && (forall i :: 0 <= i < |c.terms| && i != k ==> r.terms[i] == c.terms[i])
      && (k >= 0 ==> r.terms[k].socketId == Some(terminalId))
  {
    var i := Position(c.terms, clientTerminalId);
    if i == -1 then c
    else c.(terms := c.terms[i := c.terms[i].(socketId := Some(terminalId))])
  }

  /** `Object.values(terminals).find(t => t.socketId === terminalId)`: the
      first terminal bound to the server id. */
  function Route(terms: seq<Term>, terminalId: ServerId): (i: int)
    ensures -1 <= i < |terms|
    ensures i >= 0 ==> terms[i].socketId == Some(terminalId)
    ensures forall j :: 0 <= j < |terms| && (i == -1 || j < i) ==> terms[j].socketId != Some(terminalId)
    decreases |terms|
  {
    if |terms| == 0 then -1
    else
      var i := Route(terms[1..], terminalId);
      if terms[0].socketId == Some(terminalId) then 0
      else if i == -1 then -1
      else i + 1
  }

  /** `terminal.onData`: keystrokes leave only from a bound terminal while
      the socket is connected. */
  function Input(c: Client, n: nat, connected: bool, data: string): (out: seq<Request>)
    ensures |out| <= 1
    ensures |out| == 1 <==> connected && Has(c, n) && c.terms[Position(c.terms, n)].socketId.Some?
                               && c.terms[Position(c.terms, n)].socketId.value != ""
    ensures |out| == 1 ==> out[0] == SendData(c.terms[Position(c.terms, n)].socketId.value, data)
  {
    var i := Position(c.terms, n);
    if connected && i >= 0 && c.terms[i].socketId.Some? && c.terms[i].socketId.value != "" then
      [SendData(c.terms[i].socketId.value, data)]
    else []
  }

  /** The list without position `i`. */
  function Remove(terms: seq<Term>, i: int): (r: seq<Term>)
    requires 0 <= i < |terms|
    ensures |r| == |terms| - 1
    ensures forall j :: 0 <= j < i ==> r[j] == terms[j]
    ensures forall j :: i <= j < |r| ==> r[j] == terms[j + 1]
  {
    terms[..i] + terms[i + 1..]
  }

  /** `closeTerminal`: refused for the last terminal; otherwise the server
      session is closed when bound and connected, the terminal is dropped,
      and if it was active the first remaining one becomes active. */
  function Close(c: Client, n: nat, connected: bool): (r: (Client, seq<Request>))
    ensures |c.terms| <= 1 || !Has(c, n) ==> r == (c, [])
    ensures |c.terms| > 1 && Has(c, n) ==>
      var i := Position(c.terms, n);
      && r.0.terms == Remove(c.terms, i)
      && r.0.counter == c.counter
      && (c.active == Some(n) ==> r.0.active == Some(r.0.terms[0].n))
      && (c.active != Some(n) ==> r.0.active == c.active)
      && (r.1 != [] <==> connected && c.terms[i].socketId.Some? && c.terms[i].socketId.value != "")
      && (r.1 != [] ==> r.1 == [CloseSession(c.terms[i].socketId.value)])
  {
    if |c.terms| <= 1 then (c, [])
    else
      var i := Position(c.terms, n);
      if i == -1 then (c, [])
      else
        var t := c.terms[i];
        var out := if connected && t.socketId.Some? && t.socketId.value != "" then [CloseSession(t.socketId.value)] else [];
        var terms := Remove(c.terms, i);
        var active := if c.active == Some(n) then Some(terms[0].n) else c.active;
        (Client(terms, c.counter, active), out)
  }

  /** A terminal whose number is fresh has no position yet. */
  lemma FreshNumberAbsent(c: Client)
    requires ClientInv(c)
    ensures Position(c.terms, c.counter + 1) == -1
  {
  }

  /** Creating keeps the client consistent. */
  lemma CreateInv(c: Client)
    requires ClientInv(c)
    ensures ClientInv(Create(c))
  {
    var r := Create(c);
    assert r.terms[|r.terms| - 1].n == c.counter + 1;
  }

  /** The position of a terminal in a list with distinct numbers is the
      one holding it. */
  lemma PositionUnique(terms: seq<Term>, i: int)
    requires forall a, b :: 0 <= a < b < |terms| ==> terms[a].n != terms[b].n
    requires 0 <= i < |terms|
    ensures Position(terms, terms[i].n) == i
  {
  }

  /** Closing keeps the client consistent. */
  lemma CloseInv(c: Client, n: nat, connected: bool)
    requires ClientInv(c)
    ensures ClientInv(Close(c, n, connected).0)
  {
    if |c.terms| > 1 && Has(c, n) {
      var i := Position(c.terms, n);
      var terms := Remove(c.terms, i);
      RemoveKeepsNumbers(c.terms, i, c.counter);
      if c.active == Some(n) {
        PositionUnique(terms, 0);
      } else if c.active.Some? {
        SurvivorKept(c.terms, i, Position(c.terms, c.active.value));
      }
    }
  }

  /** Dropping one terminal keeps the numbers distinct and in range. */
  lemma RemoveKeepsNumbers(terms: seq<Term>, i: int, counter: nat)
    requires 0 <= i < |terms|
    requires forall a, b :: 0 <= a < b < |terms| ==> terms[a].n != terms[b].n
    requires forall a :: 0 <= a < |terms| ==> 1 <= terms[a].n <= counter
    ensures var r := Remove(terms, i);
      && (forall a, b :: 0 <= a < b < |r| ==> r[a].n != r[b].n)
      && (forall a :: 0 <= a < |r| ==> 1 <= r[a].n <= counter)
  {
    RemoveKeepsDistinct(terms, i);
  }

  /** Dropping one terminal keeps the numbers distinct. */
  lemma RemoveKeepsDistinct(terms: seq<Term>, i: int)
    requires 0 <= i < |terms|
    requires forall a, b :: 0 <= a < b < |terms| ==> terms[a].n != terms[b].n
    ensures var r := Remove(terms, i);
      forall a, b :: 0 <= a < b < |r| ==> r[a].n != r[b].n
  {
    var r := Remove(terms, i);
    forall a, b | 0 <= a < b < |r| ensures r[a].n != r[b].n {
      var a', b' := if a < i then a else a + 1, if b < i then b else b + 1;
      assert r[a] == terms[a'] && r[b] == terms[b'];
    }
  }

  /** A terminal other than the dropped one keeps a position. */
  lemma SurvivorKept(terms: seq<Term>, i: int, k: int)
    requires 0 <= i < |terms| && 0 <= k < |terms| && k != i
    requires forall a, b :: 0 <= a < b < |terms| ==> terms[a].n != terms[b].n
    ensures Position(Remove(terms, i), terms[k].n) >= 0
  {
    var r := Remove(terms, i);
    var k' := if k < i then k else k - 1;
    assert r[k'] == terms[k];
    RemoveKeepsDistinct(terms, i);
    PositionUnique(r, k');
  }

  /** Binding keeps the client consistent. */
  lemma OnCreatedInv(c: Client, clientTerminalId: nat, terminalId: ServerId)
    requires ClientInv(c)
    ensures ClientInv(OnCreated(c, clientTerminalId, terminalId))
  {
    var r := OnCreated(c, clientTerminalId, terminalId);
    if c.active.Some? {
      PositionUnique(r.terms, Position(c.terms, c.active.value));
    }
  }

  /** There is always a terminal left: closing never empties a non-empty list. */
  lemma CloseKeepsOne(c: Client, n: nat, connected: bool)
    requires |c.terms| >= 1
    ensures |Close(c, n, connected).0.terms| >= 1
  {
  }

  /** Once the server's `terminal:created` binds a terminal to a server id
      no other terminal carries, that terminal's output reaches it. */
  lemma BoundOutputReachesTerminal(c: Client, n: nat, terminalId: ServerId)
    requires ClientInv(c) && Has(c, n)
    requires forall j :: 0 <= j < |c.terms| ==> c.terms[j].socketId != Some(terminalId)
    ensures var r := OnCreated(c, n, terminalId);
      Route(r.terms, terminalId) == Position(c.terms, n)
  {
  }

  /** Creating and then closing the new terminal before its timer fires
      leaves no request behind: the timer finds the terminal gone. */
  lemma ClosedBeforeTimerRequestsNothing(c: Client, connected: bool, connectedLater: bool)
    requires ClientInv(c) && |c.terms| >= 1
    ensures var created := Create(c);
      var closed := Close(created, c.counter + 1, connected);
      && !Has(closed.0, c.counter + 1)
      && closed.1 == []
      && SessionTimer(closed.0, c.counter + 1, connectedLater) == []
  {
    var created := Create(c);
    CreateInv(c);
    PositionUnique(created.terms, |c.terms|);
    var closed := Close(created, c.counter + 1, connected).0;
    RemoveKeepsDistinct(created.terms, |c.terms|);
    assert forall j :: 0 <= j < |closed.terms| ==> closed.terms[j] == c.terms[j];
  }

  /** A terminal that is still there when its timer fires asks for exactly
      one server session, under its own number, when connected. */
  lemma TimerRequestsOwnSession(c: Client, connected: bool)
    requires ClientInv(c)
    ensures var created := Create(c);
      SessionTimer(created, c.counter + 1, connected) == (if connected then [CreateSession(c.counter + 1)] else [])
  {
    PositionUnique(Create(c).terms, |c.terms|);
    CreateInv(c);
  }

  /** The reconnection timer is the creation timer run for every terminal
      of the list: each terminal's request is the one its own creation timer
      would send at that moment. */
  lemma ReconnectIsEveryTimer(c: Client, connected: bool)
    requires ClientInv(c)
    ensures forall i :: 0 <= i < |c.terms| ==>
      SessionTimer(c, c.terms[i].n, connected) == (if connected then [ReconnectTimer(c, connected)[i]] else [])
  {
    forall i | 0 <= i < |c.terms|
      ensures SessionTimer(c, c.terms[i].n, connected) == (if connected then [ReconnectTimer(c, connected)[i]] else [])
    {
      PositionUnique(c.terms, i);
    }
  }

  /** A connection confirmed while a new terminal's creation timer is still
      pending (a first connection slower than the terminal start-up, or a
      reconnection): both timers ask for a session for that terminal. The
      server answers each with its own id; the second `terminal:created`
      rebinds the terminal, and output of the first session then reaches no
      terminal at all. */
  lemma DoubleRequestOrphansFirst(c: Client, first: ServerId, second: ServerId)
    requires ClientInv(c)
    requires first != second
    requires forall j :: 0 <= j < |c.terms| ==> c.terms[j].socketId != Some(first)
    ensures var created := Create(c);
      var n := c.counter + 1;
      var bound := OnCreated(OnCreated(created, n, first), n, second);
      && SessionTimer(created, n, true) == [CreateSession(n)]
      && ReconnectTimer(created, true)[|c.terms|] == CreateSession(n)
      && bound.terms[|c.terms|].socketId == Some(second)
      && Route(bound.terms, first) == -1
  {
    var created := Create(c);
    var n := c.counter + 1;
    CreateInv(c);
    PositionUnique(created.terms, |c.terms|);
    var once := OnCreated(created, n, first);
    assert Position(once.terms, n) == |c.terms| by {
      PositionUnique(once.terms, |c.terms|);
    }
    var bound := OnCreated(once, n, second);
    forall j | 0 <= j < |bound.terms| ensures bound.terms[j].socketId != Some(first) {
      if j < |c.terms| {
        assert bound.terms[j] == c.terms[j];
      }
    }
  }

  /** A terminal with no server id sends nothing, whatever is typed. */
  lemma UnboundInputDropped(c: Client, n: nat, connected: bool, data: string)
    requires Has(c, n) && c.terms[Position(c.terms, n)].socketId.None?
    ensures Input(c, n, connected, data) == []
  {
  }
}
