/** `withTransaction`, `withActingUser` and `withServiceRole` as concurrent callers stepping over a shared pool, with
    every query allowed to fail and every connection allowed to die. */
module TransactionPool {
  import opened Common

  type ConnId = nat
  type CallerId = nat

  datatype Role = Authenticated | ServiceRole

  /** A transaction in which a statement has failed is aborted: it can only be rolled back. */
  datatype Transaction = NoTransaction | Open(aborted: bool)

  /** A server session. `role` and `claims` are what SET LOCAL has put in force until the transaction ends. */
  datatype Connection = Connection(alive: bool, tx: Transaction, role: Option<Role>, claims: Option<string>)

  const FRESH := Connection(true, NoTransaction, None, None)

  predicate Clean(c: Connection) {
    c.tx == NoTransaction && c.role == None && c.claims == None
  }

  /** COMMIT, ROLLBACK and losing the session all end the transaction and what was local to it. */
  function Ended(c: Connection): Connection {
    Connection(c.alive, NoTransaction, None, None)
  }

  function Dead(): Connection {
    Connection(false, NoTransaction, None, None)
  }

  /** Which of the two entry points was called. */
  datatype Entry = ActingUser(claims: string) | AsService

  function RoleOf(e: Entry): Role {
    if e.ActingUser? then Authenticated else ServiceRole
  }

  function ClaimsOf(e: Entry): Option<string> {
    if e.ActingUser? then Some(e.claims) else None
  }

  datatype Outcome = Returned | ThrewConnect | ThrewBegin | ThrewRun | ThrewCommit | ThrewRollback

  /** What became of the caller's statements. A COMMIT whose session is lost may have gone through or not. */
  datatype Effect = Pending | Committed | RolledBack | Indeterminate

  /** Where a caller is in withTransaction. */
  datatype Place =
    | Waiting
    | Connected(conn: ConnId)
    | SettingRole(conn: ConnId)
    | SettingClaims(conn: ConnId)
    | InCallback(conn: ConnId)
    | RollingBack(conn: ConnId)
    | Committing(conn: ConnId)
    | Releasing(conn: ConnId, pending: Outcome)
    | Finished(outcome: Outcome)

  datatype Caller = Caller(entry: Entry, place: Place, acquired: nat, released: nat, queryFailed: bool, effect: Effect)

  function NewCaller(e: Entry): Caller {
    Caller(e, Waiting, 0, 0, false, Pending)
  }

  datatype Pool = Pool(conns: map<ConnId, Connection>, idle: set<ConnId>, callers: map<CallerId, Caller>)

  predicate Holds(c: Caller) {
    !c.place.Waiting? && !c.place.Finished?
  }

  /** How a query ends: it succeeds, the server refuses it, or the session is lost with it. */
  datatype Reply = Success | Refused | SessionLost

  datatype Action =
    | Arrive(caller: CallerId, entry: Entry)
    | TakeIdle(caller: CallerId, conn: ConnId)
    | OpenNew(caller: CallerId, conn: ConnId)
    | ConnectFails(caller: CallerId)
    | Query(caller: CallerId, reply: Reply)   // the next query of the wrapper, or one of the callback's
    | CallbackReturns(caller: CallerId)
    | CallbackThrows(caller: CallerId)
    | Release(caller: CallerId)
    | LoseSession(conn: ConnId)               // any session, at any moment

  // ---- One step ----

  function Move(p: Pool, id: CallerId, place: Place): Pool
    requires id in p.callers
  {
    p.(callers := p.callers[id := p.callers[id].(place := place)])
  }

  function SetConn(p: Pool, conn: ConnId, c: Connection): Pool {
    p.(conns := p.conns[conn := c])
  }

  function SetEffect(p: Pool, id: CallerId, e: Effect): Pool
    requires id in p.callers
  {
    p.(callers := p.callers[id := p.callers[id].(effect := e)])
  }

  function Acquire(p: Pool, id: CallerId, conn: ConnId): Pool
    requires id in p.callers
  {
    var c := p.callers[id];
    p.(callers := p.callers[id := c.(place := Connected(conn), acquired := c.acquired + 1)])
  }

  /** A lost session answers nothing any more; an aborted transaction refuses every statement of its own. */
  predicate CanReply(c: Connection, reply: Reply) {
    match reply
    case Success => c.alive
    case Refused => c.alive
    case SessionLost => true
  }

  function AfterRefusal(c: Connection): Connection {
    if c.tx.Open? then c.(tx := Open(true)) else c
  }

  /** A statement inside the transaction: on failure the transaction is aborted or the session gone. */
  function Statement(c: Connection, reply: Reply, done: Connection): Connection {
    match reply
    case Success => done
    case Refused => AfterRefusal(c)
    case SessionLost => Dead()
  }

  predicate StatementCanSucceed(c: Connection) {
    c.tx.Open? && !c.tx.aborted
  }

  function QueryStep(p: Pool, id: CallerId, reply: Reply): Option<Pool>
    requires id in p.callers
  {
    var me := p.callers[id];
    if !Holds(me) || me.place.Releasing? || me.place.conn !in p.conns then None
    else
      var k := me.place.conn;
      var c := p.conns[k];
      if !CanReply(c, reply) then None
      else
        match me.place
        case Connected(_) =>
          if reply.Success? then Some(Move(SetConn(p, k, c.(tx := Open(false))), id, SettingRole(k)))
          else Some(Move(SetConn(p, k, Statement(c, reply, c)), id, Releasing(k, ThrewBegin)))
        case SettingRole(_) =>
          if reply.Success? && !StatementCanSucceed(c) then None
          else
            var q := SetConn(p, k, Statement(c, reply, c.(role := Some(RoleOf(me.entry)))));
            if reply.Success? then Some(Move(q, id, if me.entry.ActingUser? then SettingClaims(k) else InCallback(k)))
            else Some(Move(q, id, RollingBack(k)))
        case SettingClaims(_) =>
          if reply.Success? && !StatementCanSucceed(c) then None
          else
            var q := SetConn(p, k, Statement(c, reply, c.(claims := ClaimsOf(me.entry))));
            Some(Move(q, id, if reply.Success? then InCallback(k) else RollingBack(k)))
        case InCallback(_) =>
          if reply.Success? && !StatementCanSucceed(c) then None
          else
            var q := SetConn(p, k, Statement(c, reply, c));
            Some(q.(callers := q.callers[id := me.(queryFailed := me.queryFailed || !reply.Success?)]))
        case RollingBack(_) =>
          var q := SetEffect(SetConn(p, k, if reply.SessionLost? then Dead() else Ended(c)), id, RolledBack);
          Some(Move(q, id, Releasing(k, if reply.Success? then ThrewRun else ThrewRollback)))
        case Committing(_) =>
          var effect :=
            if reply.SessionLost? then Indeterminate
            else if reply.Success? && StatementCanSucceed(c) then Committed
            else RolledBack;
          var q := SetEffect(SetConn(p, k, if reply.SessionLost? then Dead() else Ended(c)), id, effect);
          Some(Move(q, id, Releasing(k, if reply.Success? then Returned else ThrewCommit)))
  }

  /** None when the action is not possible now. */
  function Step(p: Pool, a: Action): Option<Pool> {
    match a
    case Arrive(id, entry) =>
      if id in p.callers then None else Some(p.(callers := p.callers[id := NewCaller(entry)]))
    case TakeIdle(id, conn) =>
      if id in p.callers && p.callers[id].place.Waiting?
         && conn in p.idle && conn in p.conns && p.conns[conn].alive then
        Some(Acquire(p.(idle := p.idle - {conn}), id, conn))
      else None
    case OpenNew(id, conn) =>
      if id in p.callers && p.callers[id].place.Waiting? && conn !in p.conns then
        Some(Acquire(SetConn(p, conn, FRESH), id, conn))
      else None
    case ConnectFails(id) =>
      if id in p.callers && p.callers[id].place.Waiting? then Some(Move(p, id, Finished(ThrewConnect))) else None
    case Query(id, reply) => if id in p.callers then QueryStep(p, id, reply) else None
    case CallbackReturns(id) =>
      if id in p.callers && p.callers[id].place.InCallback? then
        Some(Move(p, id, Committing(p.callers[id].place.conn)))
      else None
    case CallbackThrows(id) =>
      if id in p.callers && p.callers[id].place.InCallback? then
        Some(Move(p, id, RollingBack(p.callers[id].place.conn)))
      else None
    case Release(id) =>
      if id in p.callers && p.callers[id].place.Releasing? then
        var me := p.callers[id];
        var done := me.(place := Finished(me.place.pending), released := me.released + 1);
        Some(p.(callers := p.callers[id := done], idle := p.idle + {me.place.conn}))
      else None
    case LoseSession(conn) =>
      if conn in p.conns then Some(SetConn(p, conn, Dead())) else None
  }

  function Run(p: Pool, actions: seq<Action>): Option<Pool> {
    if actions == [] then Some(p)
    else
      var init := Run(p, actions[..|actions| - 1]);
      if init.None? then None else Step(init.value, actions[|actions| - 1])
  }

  const EMPTY := Pool(map[], {}, map[])

  // ---- What every step keeps ----

  /** A connection as a caller at this place has left it, if its session is still there. */
  predicate SessionFits(c: Connection, me: Caller) {
    match me.place
    case Connected(_) => Clean(c)
    case SettingRole(_) => c.tx == Open(false) && c.role == None && c.claims == None
    case SettingClaims(_) => c.tx == Open(false) && c.role == Some(RoleOf(me.entry)) && c.claims == None
    case InCallback(_) =>
      c.tx == Open(me.queryFailed) && c.role == Some(RoleOf(me.entry)) && c.claims == ClaimsOf(me.entry)
    case RollingBack(_) => c.tx.Open?
    case Committing(_) => c.tx == Open(me.queryFailed)
    case Releasing(_, _) => Clean(c)
    case _ => true
  }

  /** What the caller's books say, wherever it is. */
  predicate BooksFit(me: Caller) {
    match me.place
    case Waiting => me.acquired == 0 && me.released == 0 && me.effect == Pending && !me.queryFailed
    case Releasing(_, pending) =>
      me.acquired == 1 && me.released == 0 && pending != ThrewConnect && OutcomeFits(me, pending)
    case Finished(outcome) =>
      me.released == me.acquired == (if outcome == ThrewConnect then 0 else 1) && OutcomeFits(me, outcome)
    case Connected(_) => me.acquired == 1 && me.released == 0 && me.effect == Pending && !me.queryFailed
    case SettingRole(_) => me.acquired == 1 && me.released == 0 && me.effect == Pending && !me.queryFailed
    case SettingClaims(_) => me.acquired == 1 && me.released == 0 && me.effect == Pending && !me.queryFailed
    case _ => me.acquired == 1 && me.released == 0 && me.effect == Pending
  }

  /** How the outcome a caller sees relates to what happened to its statements. */
  predicate OutcomeFits(me: Caller, outcome: Outcome) {
    match outcome
    case Returned => me.effect == if me.queryFailed then RolledBack else Committed
    case ThrewRun => me.effect == RolledBack
    case ThrewRollback => me.effect == RolledBack
    case ThrewCommit => me.effect == RolledBack || me.effect == Indeterminate
    case ThrewConnect => me.effect == Pending
    case ThrewBegin => me.effect == Pending
  }

  predicate CallerFits(p: Pool, me: Caller) {
    && BooksFit(me)
    && (Holds(me) ==> me.place.conn in p.conns && me.place.conn !in p.idle)
    && (Holds(me) && me.place.conn in p.conns ==>
          var c := p.conns[me.place.conn];
          (c.alive ==> SessionFits(c, me)) && (!c.alive ==> Clean(c)))
  }

  ghost predicate Invariant(p: Pool) {
    && (forall k :: k in p.idle ==> k in p.conns && Clean(p.conns[k]))
    && (forall id :: id in p.callers ==> CallerFits(p, p.callers[id]))
    && (forall i, j :: i in p.callers && j in p.callers && i != j && Holds(p.callers[i]) && Holds(p.callers[j]) ==>
          p.callers[i].place.conn != p.callers[j].place.conn)
  }

  /** A step that touches one caller and one connection, which no other caller holds, keeps the invariant if it leaves
      these two in order. */
  lemma OneCallerMoves(p: Pool, q: Pool, id: CallerId, k: ConnId)
    requires Invariant(p)
    requires id in q.callers && q.callers == p.callers[id := q.callers[id]]
    requires forall j :: j in p.conns ==> j in q.conns && (j != k ==> q.conns[j] == p.conns[j])
    requires forall j :: j in q.idle ==> j in p.idle || j == k
    requires k in q.idle ==> k in q.conns && Clean(q.conns[k])
    requires forall j :: j in p.callers && j != id && Holds(p.callers[j]) ==> p.callers[j].place.conn != k
    requires Holds(q.callers[id]) ==> q.callers[id].place.conn == k
    requires CallerFits(q, q.callers[id])
    ensures Invariant(q)
  {
    forall j | j in q.callers && j != id ensures CallerFits(q, q.callers[j]) {
      assert CallerFits(p, p.callers[j]);
    }
  }

  lemma QueryKeepsInvariant(p: Pool, id: CallerId, reply: Reply)
    requires Invariant(p) && id in p.callers && QueryStep(p, id, reply).Some?
    ensures Invariant(QueryStep(p, id, reply).value)
  {
    var me, q := p.callers[id], QueryStep(p, id, reply).value;
    assert CallerFits(p, me);
    QueryTouchesItsOwn(p, id, reply);
    QueryLeavesOrder(p, id, reply);
    OneCallerMoves(p, q, id, me.place.conn);
  }

  lemma QueryTouchesItsOwn(p: Pool, id: CallerId, reply: Reply)
    requires id in p.callers && QueryStep(p, id, reply).Some?
    ensures var me, q := p.callers[id], QueryStep(p, id, reply).value;
            && id in q.callers && q.callers == p.callers[id := q.callers[id]]
            && q.conns == p.conns[me.place.conn := q.conns[me.place.conn]] && q.idle == p.idle
            && Holds(q.callers[id]) && q.callers[id].place.conn == me.place.conn
  {
  }

  lemma QueryLeavesOrder(p: Pool, id: CallerId, reply: Reply)
    requires id in p.callers && CallerFits(p, p.callers[id]) && QueryStep(p, id, reply).Some?
    ensures var q := QueryStep(p, id, reply).value;
            id in q.callers && CallerFits(q, q.callers[id])
  {
    if p.callers[id].place.Committing? || p.callers[id].place.RollingBack? {
      EndingLeavesOrder(p, id, reply);
    }
  }

  lemma EndingLeavesOrder(p: Pool, id: CallerId, reply: Reply)
    requires id in p.callers && CallerFits(p, p.callers[id]) && QueryStep(p, id, reply).Some?
    requires p.callers[id].place.Committing? || p.callers[id].place.RollingBack?
    ensures CallerFits(QueryStep(p, id, reply).value, QueryStep(p, id, reply).value.callers[id])
  {
  }

  lemma AcquiringKeepsInvariant(p: Pool, a: Action, id: CallerId, conn: ConnId)
    requires Invariant(p) && Step(p, a).Some?
    requires a == TakeIdle(id, conn) || a == OpenNew(id, conn)
    ensures Invariant(Step(p, a).value)
  {
    forall j | j in p.callers && Holds(p.callers[j]) ensures p.callers[j].place.conn != conn {
      assert CallerFits(p, p.callers[j]);
    }
    assert CallerFits(p, p.callers[id]);
    OneCallerMoves(p, Step(p, a).value, id, conn);
  }

  lemma LeavingKeepsInvariant(p: Pool, a: Action, id: CallerId)
    requires Invariant(p) && Step(p, a).Some?
    requires a == CallbackReturns(id) || a == CallbackThrows(id) || a == Release(id)
    ensures Invariant(Step(p, a).value)
  {
    assert CallerFits(p, p.callers[id]);
    OneCallerMoves(p, Step(p, a).value, id, p.callers[id].place.conn);
  }

  lemma StepKeepsInvariant(p: Pool, a: Action)
    requires Invariant(p) && Step(p, a).Some?
    ensures Invariant(Step(p, a).value)
  {
    var q := Step(p, a).value;
    match a {
      case Arrive(id, entry) =>
        forall j | j in q.callers ensures CallerFits(q, q.callers[j]) {
          if j != id { assert CallerFits(p, p.callers[j]); }
        }
      case TakeIdle(id, conn) => AcquiringKeepsInvariant(p, a, id, conn);
      case OpenNew(id, conn) => AcquiringKeepsInvariant(p, a, id, conn);
      case ConnectFails(id) =>
        assert CallerFits(p, p.callers[id]);
        forall j | j in q.callers ensures CallerFits(q, q.callers[j]) {
          if j != id { assert CallerFits(p, p.callers[j]); }
        }
      case Query(id, reply) => QueryKeepsInvariant(p, id, reply);
      case CallbackReturns(id) => LeavingKeepsInvariant(p, a, id);
      case CallbackThrows(id) => LeavingKeepsInvariant(p, a, id);
      case Release(id) => LeavingKeepsInvariant(p, a, id);
      case LoseSession(conn) =>
        forall j | j in q.callers ensures CallerFits(q, q.callers[j]) {
          assert CallerFits(p, p.callers[j]);
        }
    }
  }

  lemma {:induction false} RunKeepsInvariant(actions: seq<Action>)
    requires Run(EMPTY, actions).Some?
    ensures Invariant(Run(EMPTY, actions).value)
  {
    if actions != [] {
      RunKeepsInvariant(actions[..|actions| - 1]);
      StepKeepsInvariant(Run(EMPTY, actions[..|actions| - 1]).value, actions[|actions| - 1]);
    }
  }

  // ---- Over every run ----

  /** No connection waiting in the pool is inside a transaction or carries anyone's role or claims; every connection
      taken has been given back exactly once by the time its caller is done, and is held by one caller until then. */
  lemma NothingLeaks(actions: seq<Action>, p: Pool)
    requires Run(EMPTY, actions) == Some(p)
    ensures forall k :: k in p.idle ==>
              k in p.conns && p.conns[k].tx == NoTransaction && p.conns[k].role == None && p.conns[k].claims == None
    ensures forall id :: id in p.callers ==>
              var me := p.callers[id];
              && me.acquired <= 1 && me.released == (if Holds(me) then 0 else me.acquired)
              && (Holds(me) ==> me.acquired == 1 && me.place.conn !in p.idle)
    ensures forall i, j :: i in p.callers && j in p.callers && i != j && Holds(p.callers[i]) && Holds(p.callers[j]) ==>
              p.callers[i].place.conn != p.callers[j].place.conn
  {
    RunKeepsInvariant(actions);
    forall id | id in p.callers ensures BooksFit(p.callers[id]) && CallerFits(p, p.callers[id]) {
      assert CallerFits(p, p.callers[id]);
    }
  }

  /** While a callback runs on a live session, the session carries the role and claims of that very caller: an acting
      user is authenticated with its own claims, the service has its role and no claims. */
  lemma CallbackRunsAsItsCaller(actions: seq<Action>, p: Pool, id: CallerId)
    requires Run(EMPTY, actions) == Some(p)
    requires id in p.callers && p.callers[id].place.InCallback?
    ensures var me := p.callers[id];
            && me.place.conn in p.conns
            && (p.conns[me.place.conn].alive ==>
                  && p.conns[me.place.conn].tx.Open?
                  && match me.entry
                     case ActingUser(claims) =>
                       p.conns[me.place.conn].role == Some(Authenticated)
                       && p.conns[me.place.conn].claims == Some(claims)
                     case AsService =>
                       p.conns[me.place.conn].role == Some(ServiceRole) && p.conns[me.place.conn].claims == None)
  {
    RunKeepsInvariant(actions);
    assert CallerFits(p, p.callers[id]);
  }

  /** What a finished caller may conclude. A throwing callback means rolled back. A normal return means committed
      exactly when no query of the callback had failed: a COMMIT of an aborted transaction succeeds and rolls back. */
  lemma OutcomesMeanWhatTheySay(actions: seq<Action>, p: Pool, id: CallerId)
    requires Run(EMPTY, actions) == Some(p)
    requires id in p.callers && p.callers[id].place.Finished?
    ensures var me, outcome := p.callers[id], p.callers[id].place.outcome;
            && (outcome == Returned ==> (me.effect == Committed <==> !me.queryFailed))
            && (outcome == Returned ==> me.effect == Committed || me.effect == RolledBack)
            && (outcome == ThrewRun || outcome == ThrewRollback ==> me.effect == RolledBack)
            && (outcome == ThrewCommit ==> me.effect != Committed)
            && (me.effect == Committed ==> outcome == Returned)
  {
    RunKeepsInvariant(actions);
    assert CallerFits(p, p.callers[id]);
  }

  lemma RunAppends(start: Pool, actions: seq<Action>, a: Action)
    requires Run(start, actions).Some?
    ensures Run(start, actions + [a]) == Step(Run(start, actions).value, a)
  {
    assert (actions + [a])[..|actions|] == actions;
  }

  /** The run that shows it: the callback swallows a failed query and returns; the call returns; nothing is
      committed. */
  lemma SwallowedFailureReturnsWithoutCommit()
    ensures exists actions :: Run(EMPTY, actions).Some?
              && var p := Run(EMPTY, actions).value;
                 0 in p.callers && p.callers[0].place == Finished(Returned) && p.callers[0].effect == RolledBack
  {
    var opening := [Arrive(0, AsService), OpenNew(0, 0), Query(0, Success), Query(0, Success)];
    var p1 := Step(EMPTY, opening[0]).value;
    var p2 := Step(p1, opening[1]).value;
    var p3 := Step(p2, opening[2]).value;
    var p4 := Step(p3, opening[3]).value;
    assert p4.callers[0].place == InCallback(0) && p4.conns[0].tx == Open(false) && p4.conns[0].alive;
    RunAppends(EMPTY, [], opening[0]);
    RunAppends(EMPTY, [] + [opening[0]], opening[1]);
    RunAppends(EMPTY, [] + [opening[0]] + [opening[1]], opening[2]);
    var a4 := [] + [opening[0]] + [opening[1]] + [opening[2]] + [opening[3]];
    RunAppends(EMPTY, [] + [opening[0]] + [opening[1]] + [opening[2]], opening[3]);
    assert Run(EMPTY, a4) == Some(p4);
    SwallowAndReturn(a4, p4);
  }

  lemma SwallowAndReturn(actions: seq<Action>, p: Pool)
    requires Run(EMPTY, actions) == Some(p) && 0 in p.callers && p.callers[0].place == InCallback(0)
    requires 0 in p.conns && p.conns[0].alive && p.conns[0].tx == Open(false)
    ensures exists more :: Run(EMPTY, more).Some?
              && var q := Run(EMPTY, more).value;
                 0 in q.callers && q.callers[0].place == Finished(Returned) && q.callers[0].effect == RolledBack
  {
    var p5, p6 := SwallowFailure(p);
    var p7, p8 := CommitAborted(p6);
    var a5 := actions + [Query(0, Refused)];
    var a6 := a5 + [CallbackReturns(0)];
    var a7 := a6 + [Query(0, Success)];
    RunAppends(EMPTY, actions, Query(0, Refused));
    RunAppends(EMPTY, a5, CallbackReturns(0));
    RunAppends(EMPTY, a6, Query(0, Success));
    RunAppends(EMPTY, a7, Release(0));
    assert Run(EMPTY, a7 + [Release(0)]) == Some(p8);
  }

  lemma SwallowFailure(p: Pool) returns (q: Pool, r: Pool)
    requires 0 in p.callers && p.callers[0].place == InCallback(0)
    requires 0 in p.conns && p.conns[0].alive && p.conns[0].tx == Open(false)
    ensures Step(p, Query(0, Refused)) == Some(q) && Step(q, CallbackReturns(0)) == Some(r)
    ensures 0 in r.callers && r.callers[0].place == Committing(0)
    ensures 0 in r.conns && r.conns[0].alive && r.conns[0].tx == Open(true)
  {
    q := Step(p, Query(0, Refused)).value;
    r := Step(q, CallbackReturns(0)).value;
  }

  lemma CommitAborted(p: Pool) returns (q: Pool, r: Pool)
    requires 0 in p.callers && p.callers[0].place == Committing(0)
    requires 0 in p.conns && p.conns[0].alive && p.conns[0].tx == Open(true)
    ensures Step(p, Query(0, Success)) == Some(q) && Step(q, Release(0)) == Some(r)
    ensures 0 in r.callers && r.callers[0].place == Finished(Returned) && r.callers[0].effect == RolledBack
  {
    q := Step(p, Query(0, Success)).value;
    r := Step(q, Release(0)).value;
  }

  // ---- How the callback ended decides ----

  /** COMMIT is under way or has been the caller's last query. */
  predicate Commits(me: Caller) {
    match me.place
    case Committing(_) => true
    case Releasing(_, pending) => pending == Returned || pending == ThrewCommit
    case Finished(outcome) => outcome == Returned || outcome == ThrewCommit
    case _ => false
  }

  /** ROLLBACK is under way or has been the caller's last query. */
  predicate RollsBack(me: Caller) {
    match me.place
    case RollingBack(_) => true
    case Releasing(_, pending) => me.effect == RolledBack && (pending == ThrewRun || pending == ThrewRollback)
    case Finished(outcome) => me.effect == RolledBack && (outcome == ThrewRun || outcome == ThrewRollback)
    case _ => false
  }

  /** What the run so far says of this caller's callback. */
  ghost predicate EndsAccordingly(actions: seq<Action>, p: Pool, id: CallerId) {
    && (CallbackReturns(id) in actions <==> id in p.callers && Commits(p.callers[id]))
    && (CallbackThrows(id) in actions ==> id in p.callers && RollsBack(p.callers[id]))
  }

  lemma StepEndsAccordingly(actions: seq<Action>, p: Pool, a: Action, id: CallerId)
    requires EndsAccordingly(actions, p, id) && Step(p, a).Some?
    ensures EndsAccordingly(actions + [a], Step(p, a).value, id)
  {
    assert forall b :: b in actions + [a] <==> b in actions || b == a;
    match a {
      case Query(other, reply) =>
        QueryTouchesItsOwn(p, other, reply);
        if other == id { QueryEndsAccordingly(p, id, reply); }
      case _ =>
    }
  }

  lemma QueryEndsAccordingly(p: Pool, id: CallerId, reply: Reply)
    requires id in p.callers && QueryStep(p, id, reply).Some?
    ensures var q := QueryStep(p, id, reply).value;
            && id in q.callers
            && (Commits(q.callers[id]) <==> Commits(p.callers[id]))
            && (RollsBack(p.callers[id]) ==> RollsBack(q.callers[id]))
  {
  }

  /** In every run, a caller comes to COMMIT exactly when its callback has returned, and once its callback has thrown it
      comes to ROLLBACK: it sees an error and none of its statements is kept. */
  lemma {:induction false} CallbackDecides(actions: seq<Action>, p: Pool, id: CallerId)
    requires Run(EMPTY, actions) == Some(p)
    ensures CallbackReturns(id) in actions <==> id in p.callers && Commits(p.callers[id])
    ensures CallbackThrows(id) in actions ==> id in p.callers && RollsBack(p.callers[id])
  {
    if actions != [] {
      var init, a := actions[..|actions| - 1], actions[|actions| - 1];
      CallbackDecides(init, Run(EMPTY, init).value, id);
      StepEndsAccordingly(init, Run(EMPTY, init).value, a, id);
      assert actions == init + [a];
    }
  }

  /** A call that nothing disturbs: BEGIN, the role, the claims of an acting user, then COMMIT. */
  function Undisturbed(id: CallerId, conn: ConnId, entry: Entry): seq<Action> {
    [TakeIdle(id, conn), Query(id, Success), Query(id, Success)]
    + (if entry.ActingUser? then [Query(id, Success)] else [])
    + [CallbackReturns(id), Query(id, Success), Release(id)]
  }

  /** The caller is here, on this open session of its own role and claims. */
  ghost predicate At(p: Pool, id: CallerId, me: Caller, c: Connection) {
    id in p.callers && p.callers[id] == me && Holds(me) && me.place.conn in p.conns && p.conns[me.place.conn] == c
  }

  lemma OpeningSucceeds(p: Pool, id: CallerId, me: Caller)
    requires me.place.Connected? && At(p, id, me, FRESH)
    ensures var k := me.place.conn;
            var c := FRESH.(tx := Open(false), role := Some(RoleOf(me.entry)), claims := ClaimsOf(me.entry));
            var actions := [Query(id, Success), Query(id, Success)]
                           + if me.entry.ActingUser? then [Query(id, Success)] else [];
            var r := Run(p, actions);
            r.Some? && At(r.value, id, me.(place := InCallback(k)), c) && r.value.idle == p.idle
  {
    var p1 := Step(p, Query(id, Success)).value;
    var p2 := Step(p1, Query(id, Success)).value;
    RunAppends(p, [], Query(id, Success));
    RunAppends(p, [] + [Query(id, Success)], Query(id, Success));
    var two := [Query(id, Success), Query(id, Success)];
    assert [] + [Query(id, Success)] + [Query(id, Success)] == two;
    if me.entry.ActingUser? {
      RunAppends(p, two, Query(id, Success));
    } else {
      assert two + [] == two;
    }
  }

  lemma ClosingSucceeds(p: Pool, id: CallerId, me: Caller, c: Connection)
    requires me.place.InCallback? && At(p, id, me, c) && c.alive && c.tx == Open(false)
    ensures var k := me.place.conn;
            var r := Run(p, [CallbackReturns(id), Query(id, Success), Release(id)]);
            && r.Some? && id in r.value.callers && r.value.idle == p.idle + {k}
            && k in r.value.conns && r.value.conns[k] == FRESH
            && r.value.callers[id].place == Finished(Returned) && r.value.callers[id].effect == Committed
  {
    var actions := [CallbackReturns(id), Query(id, Success), Release(id)];
    RunAppends(p, [], actions[0]);
    RunAppends(p, [] + [actions[0]], actions[1]);
    RunAppends(p, [] + [actions[0]] + [actions[1]], actions[2]);
    assert [] + [actions[0]] + [actions[1]] + [actions[2]] == actions;
  }

  lemma {:induction false} RunsConcatenate(start: Pool, first: seq<Action>, second: seq<Action>)
    requires Run(start, first).Some?
    ensures Run(start, first + second) == Run(Run(start, first).value, second)
    decreases |second|
  {
    if second == [] {
      assert first + second == first;
    } else {
      RunsConcatenate(start, first, second[..|second| - 1]);
      assert (first + second)[..|first + second| - 1] == first + second[..|second| - 1];
    }
  }

  /** From every orderly state and for either kind of caller, a call that nothing disturbs commits, returns, and leaves
      the connection as it found it. */
  lemma UndisturbedCallCommits(p: Pool, id: CallerId, conn: ConnId)
    requires Invariant(p) && id in p.callers && p.callers[id].place.Waiting?
    requires conn in p.idle && p.conns[conn].alive
    ensures var end := Run(p, Undisturbed(id, conn, p.callers[id].entry));
            && end.Some? && id in end.value.callers
            && end.value.callers[id].place == Finished(Returned) && end.value.callers[id].effect == Committed
            && end.value.idle == p.idle && conn in end.value.conns && end.value.conns[conn] == p.conns[conn]
  {
    var entry := p.callers[id].entry;
    var taking := [TakeIdle(id, conn)];
    var opening := [Query(id, Success), Query(id, Success)] + if entry.ActingUser? then [Query(id, Success)] else [];
    var closing := [CallbackReturns(id), Query(id, Success), Release(id)];
    assert Clean(p.conns[conn]) && p.conns[conn] == FRESH;
    RunAppends(p, [], TakeIdle(id, conn));
    assert [] + [TakeIdle(id, conn)] == taking;
    var p1 := Run(p, taking).value;
    OpeningSucceeds(p1, id, p1.callers[id]);
    var p2 := Run(p1, opening).value;
    ClosingSucceeds(p2, id, p2.callers[id], p2.conns[conn]);
    RunsConcatenate(p, taking, opening);
    RunsConcatenate(p, taking + opening, closing);
    assert taking + opening + closing == Undisturbed(id, conn, entry);
  }

  /** However the last query ends, a caller whose callback is over gives its connection back in two steps. */
  lemma CallbackOverMeansReleased(p: Pool, id: CallerId, reply: Reply)
    requires Invariant(p) && id in p.callers
    requires p.callers[id].place.Committing? || p.callers[id].place.RollingBack?
    requires Step(p, Query(id, reply)).Some?
    ensures var k, q := p.callers[id].place.conn, Step(p, Query(id, reply)).value;
            var end := Step(q, Release(id));
            && end.Some?
            && id in end.value.callers && end.value.callers[id].place.Finished?
            && end.value.callers[id].released == 1 && k in end.value.idle
  {
    assert CallerFits(p, p.callers[id]);
  }

  /** And some reply is always possible, so no caller is stuck with a connection. */
  lemma QueriesAlwaysEnd(p: Pool, id: CallerId)
    requires Invariant(p) && id in p.callers && Holds(p.callers[id]) && !p.callers[id].place.Releasing?
    ensures Step(p, Query(id, SessionLost)).Some?
    ensures p.conns[p.callers[id].place.conn].alive ==> Step(p, Query(id, Refused)).Some?
    ensures p.conns[p.callers[id].place.conn].alive && !p.callers[id].queryFailed ==> Step(p, Query(id, Success)).Some?
  {
    assert CallerFits(p, p.callers[id]);
  }
}
