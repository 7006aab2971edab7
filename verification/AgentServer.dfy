/**
 The AgentBridge request handlers on top of the store. A request takes the store's lock several
 times: to authenticate its sender, to look up the recipient, and to insert or change a message.
 Each of those critical sections is one event here, so a run is any interleaving of any number of
 requests, with a failed write or a crash possible after every primitive disk operation.
 */
module AgentServer {
  import opened Common
  import opened AtomicFiles
  import opened AgentStore

  const DEFAULT_TTL := 3600
  const MAX_TTL := 86400 * 7
  const MAX_BODY := 256 * 1024

  datatype SendRequest = SendRequest(
    recipient: string, taskId: string, kind: string, body: string, ttlSeconds: int, idempotencyKey: string)

  datatype Response = Created(msg: Message) | BadRequest | RecipientNotFound | InternalError

  predicate SizesOk(r: SendRequest) {
    && 0 < |r.recipient| <= 100
    && 0 < |r.taskId| <= 100
    && |r.idempotencyKey| <= 100
    && 0 < |r.body| <= MAX_BODY
  }

  predicate KindOk(kind: string) {
    kind in {"instruction", "acknowledgement", "progress", "result", "error", "question", "answer",
             "shutdown_notice"}
  }

  function LifetimeSeconds(ttl: int): int {
    if ttl <= 0 then DEFAULT_TTL else if ttl > MAX_TTL then MAX_TTL else ttl
  }

  /** The clock is read twice, for the creation time and for the expiry. */
  function NewMessage(id: string, sender: string, r: SendRequest, created: Time, read: Time): Message {
    Message(id, sender, r.recipient, r.taskId, r.kind, r.body, r.idempotencyKey, created,
            read + LifetimeSeconds(r.ttlSeconds) * SECOND, Pending, None, None, None)
  }

  /** Creating a message for an authenticated sender, when no other request runs in between. */
  method HandleMessages(store: Store, sender: string, r: SendRequest, id: string, created: Time, read: Time,
                        steps: nat) returns (response: Response)
    requires store.Valid() && sender in store.agents
    modifies store`messages, store.agentsFile, store.messagesFile
    ensures store.Valid()
    ensures store.Abstract() ==
            if SizesOk(r) && r.recipient in old(store.agents) && KindOk(r.kind)
            then Added(old(store.Abstract()), NewMessage(id, sender, r, created, read), steps)
            else old(store.Abstract())
    ensures response ==
            if !SizesOk(r) then BadRequest
            else if r.recipient !in old(store.agents) then RecipientNotFound
            else if !KindOk(r.kind) then BadRequest
            else match AddReply(old(store.Abstract()), NewMessage(id, sender, r, created, read), steps)
              case Done(msg) => Created(msg)
              case _ => InternalError
  {
    if |r.recipient| == 0 || |r.recipient| > 100 {
      return BadRequest;
    }
    if |r.taskId| == 0 || |r.taskId| > 100 {
      return BadRequest;
    }
    if |r.idempotencyKey| > 100 {
      return BadRequest;
    }
    if |r.body| == 0 || |r.body| > MAX_BODY {
      return BadRequest;
    }
    var recipient := store.GetAgent(r.recipient);
    if recipient.None? {
      return RecipientNotFound;
    }
    if !KindOk(r.kind) {
      return BadRequest;
    }
    var ttl := r.ttlSeconds;
    if ttl <= 0 {
      ttl := DEFAULT_TTL;
    } else if ttl > MAX_TTL {
      ttl := MAX_TTL;
    }
    var msg := Message(id, sender, r.recipient, r.taskId, r.kind, r.body, r.idempotencyKey, created,
                       read + ttl * SECOND, Pending, None, None, None);
    var reply := store.AddMessage(msg, steps);
    response := if reply.Done? then Created(reply.msg) else InternalError;
  }

  datatype ActionResponse = Changed(msg: Message) | NotFoundPage | ForbiddenPage | ServerError

  /** Acting on a message; only a terminal action's request body, and so its result, is read. */
  method HandleMessageAction(store: Store, agent: string, id: string, action: string, body: Option<string>,
                             now: Time, steps: nat) returns (response: ActionResponse)
    requires store.Valid()
    modifies store`messages, store.agentsFile, store.messagesFile
    ensures store.Valid()
    ensures var result := if action in {"complete", "fail"} then body else None;
            && store.Abstract() == Acted(old(store.Abstract()), id, agent, action, result, now, steps)
            && response == match ActReply(old(store.Abstract()), id, agent, action, result, now, steps)
                           case Done(msg) => Changed(msg)
                           case NotFound => NotFoundPage
                           case InvalidAction => NotFoundPage
                           case Forbidden => ForbiddenPage
                           case Unsaved => ServerError
  {
    var result := None;
    if action == "complete" || action == "fail" {
      result := body;
    }
    var reply := store.TransitionMessage(id, agent, action, result, now, steps);
    match reply
    case Done(msg) => return Changed(msg);
    case NotFound => return NotFoundPage;
    case Forbidden => return ForbiddenPage;
    case InvalidAction => return NotFoundPage;
    case Unsaved => return ServerError;
  }

  // ----- Interleaved requests -----

  datatype Op =
    | Idle
    | Register(name: string, tokenHash: string, at: Time)
    | Authenticate(agent: string)
    | CheckRequest(sender: string, request: SendRequest)
    | Send(id: string, sender: string, request: SendRequest, created: Time, read: Time)
    | Act(id: string, agent: string, action: string, result: Option<string>, at: Time)

  /** One critical section; its save, if any, gets `steps` operations far, then the process may die. */
  datatype Event = Event(op: Op, steps: nat, crash: bool)

  /**
   The store, plus what requests still in flight have established: agents that authenticated and
   requests whose recipient check passed. Both are lost with the process.
   */
  datatype System = System(store: State, authenticated: set<string>, checked: set<(string, SendRequest)>)

  function Start(): System {
    System(State(Memory(map[], map[]), Disk(Slot(Missing, Missing), Slot(Missing, Missing))), {}, {})
  }

  ghost function StoreAfter(s: System, op: Op, steps: nat): State {
    match op
    case Register(name, tokenHash, at) => Registered(s.store, name, tokenHash, at, steps)
    case Send(id, sender, request, created, read) =>
      if (sender, request) in s.checked
      then Added(s.store, NewMessage(id, sender, request, created, read), steps)
      else s.store
    case Act(id, agent, action, result, at) =>
      if agent in s.authenticated then Acted(s.store, id, agent, action, result, at, steps) else s.store
    case _ => s.store
  }

  ghost function Apply(s: System, e: Event): System {
    var store := StoreAfter(s, e.op, e.steps);
    if e.crash then
      System(State(Recovered(store.disk), store.disk), {}, {})
    else
      match e.op
      case Authenticate(agent) =>
        if agent in s.store.mem.agents then s.(authenticated := s.authenticated + {agent}) else s
      case CheckRequest(sender, request) =>
        if sender in s.authenticated && SizesOk(request) && request.recipient in s.store.mem.agents
           && KindOk(request.kind)
        then s.(checked := s.checked + {(sender, request)}) else s
      case _ => s.(store := store)
  }

  ghost function Run(s: System, es: seq<Event>): System
    decreases |es|
  {
    if es == [] then s else Run(Apply(s, es[0]), es[1..])
  }

  predicate CrashFree(es: seq<Event>) {
    forall e | e in es :: !e.crash
  }

  function Messages(s: System): Messages {
    s.store.mem.messages
  }

  /** The messages a restart would find. */
  function Saved(s: System): Messages {
    Recovered(s.store.disk).messages
  }

  ghost predicate Inv(s: System) {
    && Consistent(s.store)
    && s.authenticated <= s.store.mem.agents.Keys
    && (forall c | c in s.checked :: c.0 in s.store.mem.agents && c.1.recipient in s.store.mem.agents)
  }

  lemma StartInv()
    ensures Inv(Start())
  {
  }

  /** The store's part of an event keeps it consistent and moves memory and disk only forward. */
  ghost predicate Advances(a: State, b: State) {
    && Consistent(b)
    && Below(a.mem.messages, b.mem.messages)
    && Below(Recovered(a.disk).messages, Recovered(b.disk).messages)
    && a.mem.agents.Keys <= b.mem.agents.Keys
  }

  lemma AdvancesReflexive(a: State)
    requires Consistent(a)
    ensures Advances(a, a)
  {
    BelowReflexive(a.mem.messages);
    BelowReflexive(Recovered(a.disk).messages);
  }

  lemma SendAdvances(s: System, op: Op, steps: nat)
    requires Inv(s) && op.Send? && (op.sender, op.request) in s.checked
    ensures Advances(s.store, StoreAfter(s, op, steps))
  {
    var c := (op.sender, op.request);
    assert c in s.checked && c.0 in s.store.mem.agents && c.1.recipient in s.store.mem.agents;
    AddKeeps(s.store, NewMessage(op.id, op.sender, op.request, op.created, op.read), steps);
  }

  lemma StoreStep(s: System, op: Op, steps: nat)
    requires Inv(s)
    ensures Advances(s.store, StoreAfter(s, op, steps))
  {
    if op.Register? {
      BelowReflexive(Messages(s));
      RegisterKeeps(s.store, op.name, op.tokenHash, op.at, steps);
    } else if op.Send? && (op.sender, op.request) in s.checked {
      SendAdvances(s, op, steps);
    } else if op.Act? && op.agent in s.authenticated {
      ActKeeps(s.store, op.id, op.agent, op.action, op.result, op.at, steps);
    } else {
      AdvancesReflexive(s.store);
    }
  }

  lemma ApplyKeeps(s: System, e: Event)
    requires Inv(s)
    ensures Inv(Apply(s, e))
    ensures Below(Saved(s), Saved(Apply(s, e)))
    ensures !e.crash ==> Below(Messages(s), Messages(Apply(s, e)))
  {
    var store := StoreAfter(s, e.op, e.steps);
    StoreStep(s, e.op, e.steps);
    if e.crash {
      RestartKeepsConsistency(store);
    } else {
      var s' := Apply(s, e);
      assert s'.store == store;
      forall c | c in s'.checked ensures c.0 in store.mem.agents && c.1.recipient in store.mem.agents {
        assert c in s.checked || c.0 in s.authenticated;
      }
    }
  }

  /**
   Whatever a restart would have found at one moment is never lost or rolled back: not by any
   interleaving of requests, failed saves, crashes or restarts that follows.
   */
  lemma {:induction false} RunKeeps(s: System, es: seq<Event>)
    requires Inv(s)
    ensures Inv(Run(s, es))
    ensures Below(Saved(s), Saved(Run(s, es))) && Below(Saved(s), Messages(Run(s, es)))
    ensures CrashFree(es) ==> Below(Messages(s), Messages(Run(s, es)))
    decreases |es|
  {
    if es == [] {
      BelowReflexive(Saved(s));
      BelowReflexive(Messages(s));
    } else {
      var s' := Apply(s, es[0]);
      ApplyKeeps(s, es[0]);
      RunKeeps(s', es[1..]);
      BelowTransitive(Saved(s), Saved(s'), Saved(Run(s, es)));
      BelowTransitive(Saved(s), Saved(s'), Messages(Run(s, es)));
      if CrashFree(es) {
        BelowTransitive(Messages(s), Messages(s'), Messages(Run(s, es)));
      }
    }
  }

  ghost predicate Reachable(s: System) {
    exists es :: s == Run(Start(), es)
  }

  lemma ReachableInv(s: System)
    requires Reachable(s)
    ensures Inv(s)
  {
    var es :| s == Run(Start(), es);
    StartInv();
    RunKeeps(Start(), es);
  }

  /**
   Durability: what a restart would have found at one moment of any run is never lost or rolled
   back, in memory or on disk, by any interleaving of requests, failed saves, crashes or restarts.
   */
  lemma NothingSavedIsLost(s: System, es: seq<Event>)
    requires Reachable(s)
    ensures Below(Saved(s), Saved(Run(s, es))) && Below(Saved(s), Messages(Run(s, es)))
  {
    ReachableInv(s);
    RunKeeps(s, es);
  }

  /** While the process lives a record keeps its identity and moves through its life cycle one way. */
  lemma RecordsOnlyMoveForward(s: System, es: seq<Event>, id: string)
    requires Reachable(s) && CrashFree(es) && id in Messages(s)
    ensures id in Messages(Run(s, es))
    ensures var a, b := Messages(s)[id], Messages(Run(s, es))[id];
            && Rank(a.status) <= Rank(b.status) && (Terminal(a.status) ==> b == a)
            && (a.acknowledgedAt.Some? ==> b.acknowledgedAt == a.acknowledgedAt)
            && (b.id, b.sender, b.recipient, b.taskId, b.kind) == (a.id, a.sender, a.recipient, a.taskId, a.kind)
            && (b.body, b.idempotencyKey) == (a.body, a.idempotencyKey)
            && (b.createdAt, b.expiresAt) == (a.createdAt, a.expiresAt)
  {
    ReachableInv(s);
    RunKeeps(s, es);
    assert Evolves(Messages(s)[id], Messages(Run(s, es))[id]);
  }

  /** In memory, and on disk wherever a crash may strike, every message's parties are registered. */
  lemma ReferentialIntegrity(es: seq<Event>)
    ensures var s := Run(Start(), es);
            && RefersTo(Messages(s), s.store.mem.agents)
            && Loadable(s.store.disk)
            && RefersTo(Saved(s), Recovered(s.store.disk).agents)
            && Recovered(s.store.disk).agents.Keys <= s.store.mem.agents.Keys
  {
    StartInv();
    RunKeeps(Start(), es);
  }

  /** Every record a run can produce has progress fields that agree with its status. */
  lemma LifecycleInvariant(es: seq<Event>, id: string)
    requires id in Messages(Run(Start(), es))
    ensures var m := Messages(Run(Start(), es))[id];
            && m.id == id && m.status != Expired
            && (m.completedAt.Some? <==> m.status == Completed || m.status == Failed)
            && (m.status == Acknowledged ==> m.acknowledgedAt.Some?)
            && (m.result.Some? ==> m.status == Completed || m.status == Failed)
  {
    StartInv();
    RunKeeps(Start(), es);
  }

  /** A completed or failed record that was returned without error is the record for ever after. */
  lemma TerminalRecordIsDurable(s: System, e: Event, es: seq<Event>, r: Message)
    requires Reachable(s) && e.op.Act? && !e.crash && e.op.agent in s.authenticated
    requires ActReply(s.store, e.op.id, e.op.agent, e.op.action, e.op.result, e.op.at, e.steps) == Done(r)
    requires Terminal(r.status)
    ensures var later := Run(Apply(s, e), es);
            && e.op.id in Messages(later) && Messages(later)[e.op.id] == r
            && e.op.id in Saved(later) && Saved(later)[e.op.id] == r
  {
    ReachableInv(s);
    var s' := Apply(s, e);
    ApplyKeeps(s, e);
    assert Saved(s') == Messages(s') && Messages(s')[e.op.id] == r;
    RunKeeps(s', es);
    assert Evolves(Saved(s')[e.op.id], Saved(Run(s', es))[e.op.id]);
    assert Evolves(Saved(s')[e.op.id], Messages(Run(s', es))[e.op.id]);
  }

  /**
   The first terminal action wins: while the process lives, and for ever once the record is on
   disk, every later known action by the recipient gets that same record or a failed save.
   */
  lemma FirstTerminalActionWins(s: System, es: seq<Event>, id: string, action: string,
                                result: Option<string>, now: Time, steps: nat)
    requires Reachable(s) && id in Messages(s) && Terminal(Messages(s)[id].status) && KnownAction(action)
    requires CrashFree(es) || (id in Saved(s) && Saved(s)[id] == Messages(s)[id])
    ensures var m := Messages(s)[id];
            var later := Run(s, es);
            && id in Messages(later) && Messages(later)[id] == m
            && ActReply(later.store, id, m.recipient, action, result, now, steps) ==
               (if steps < SAVE_STEPS then Unsaved else Done(m))
  {
    ReachableInv(s);
    RunKeeps(s, es);
    if CrashFree(es) {
      assert Evolves(Messages(s)[id], Messages(Run(s, es))[id]);
    } else {
      assert Evolves(Saved(s)[id], Messages(Run(s, es))[id]);
    }
  }

  /** Without a crash a stored message changes only through a known action of its own recipient. */
  lemma OnlyTheRecipientChangesAMessage(s: System, e: Event, id: string)
    requires !e.crash && id in Messages(s)
    ensures id in Messages(Apply(s, e))
    ensures Messages(Apply(s, e))[id] != Messages(s)[id] ==>
              && e.op.Act? && e.op.id == id && KnownAction(e.op.action)
              && e.op.agent == Messages(s)[id].recipient && e.op.agent in s.authenticated
              && !Terminal(Messages(s)[id].status)
              && Messages(Apply(s, e))[id] == Transitioned(Messages(s)[id], e.op.action, e.op.result, e.op.at)
  {
  }

  // ----- Idempotent send -----

  lemma EarlierIsTheOne(ms: AgentStore.Messages, id: string)
    requires KeysUnique(ms) && id in ms && ms[id].idempotencyKey != ""
    ensures Earlier(ms, ms[id].sender, ms[id].idempotencyKey) == Some(ms[id])
  {
    assert SentAs(ms[id], ms[id].sender, ms[id].idempotencyKey);
  }

  /** In every reachable state, on disk too, a sender's non-empty key names at most one message. */
  lemma AtMostOneMessagePerKey(es: seq<Event>)
    ensures KeysUnique(Messages(Run(Start(), es))) && KeysUnique(Saved(Run(Start(), es)))
  {
    StartInv();
    RunKeeps(Start(), es);
  }

  /**
   Once a keyed message is stored, every later send by that sender with that key is answered with
   the same message ID and stores nothing: in this process always, and across restarts once the
   message is on disk.
   */
  lemma ResendReturnsSameMessage(s: System, es: seq<Event>, id: string, again: Message, steps: nat)
    requires Reachable(s) && id in Messages(s) && Messages(s)[id].idempotencyKey != ""
    requires CrashFree(es) || id in Saved(s)
    requires SentAs(again, Messages(s)[id].sender, Messages(s)[id].idempotencyKey)
    ensures var later := Run(s, es);
            && AddReply(later.store, again, steps).Done?
            && AddReply(later.store, again, steps).msg.id == id
            && Added(later.store, again, steps) == later.store
  {
    ReachableInv(s);
    RunKeeps(s, es);
    var ms := Messages(Run(s, es));
    if CrashFree(es) {
      assert Evolves(Messages(s)[id], ms[id]);
    } else {
      assert Evolves(Saved(s)[id], Messages(s)[id]) && Evolves(Saved(s)[id], ms[id]);
    }
    EarlierIsTheOne(ms, id);
  }

  /** The two limits on a request, and the kinds of message there are. */
  ghost predicate WellFormedRequest(r: SendRequest) {
    && 1 <= |r.recipient| <= 100 && 1 <= |r.taskId| <= 100 && |r.idempotencyKey| <= 100 && 1 <= |r.body| <= 262144
    && (r.kind in {"instruction", "acknowledgement", "progress", "result"} ||
        r.kind in {"error", "question", "answer", "shutdown_notice"})
  }

  /** A request gets as far as the insert exactly if it is well formed and both its parties are registered. */
  lemma RequestAdmittedExactly(s: System, sender: string, r: SendRequest, steps: nat)
    requires (sender, r) !in s.checked
    ensures (sender, r) in Apply(s, Event(CheckRequest(sender, r), steps, false)).checked <==>
              sender in s.authenticated && r.recipient in s.store.mem.agents && WellFormedRequest(r)
  {
  }

  /** A message lives for the seconds asked for, up to a week; for an hour if none were. */
  function Lifetime(ttl: int): Time {
    if 1 <= ttl <= 604800 then ttl * SECOND else if ttl > 604800 then 604800 * SECOND else 3600 * SECOND
  }

  /**
   From an admitted send to the inbox: the new message carries what was asked for, and is listed for its
   recipient and nobody else, exactly until its lifetime is over.
   */
  lemma SentMessageIsListedExactly(s: System, e: Event, agent: string, now: Time)
    requires e.op.Send? && !e.crash && (e.op.sender, e.op.request) in s.checked
    requires e.op.id !in Messages(s)
    requires e.op.request.idempotencyKey == "" ||
             forall id | id in Messages(s) :: !SentAs(Messages(s)[id], e.op.sender, e.op.request.idempotencyKey)
    ensures var s', r := Apply(s, e), e.op.request;
            && e.op.id in Messages(s')
            && var m := Messages(s')[e.op.id];
            && (m.id, m.sender, m.recipient, m.taskId) == (e.op.id, e.op.sender, r.recipient, r.taskId)
            && (m.kind, m.body, m.idempotencyKey, m.createdAt) == (r.kind, r.body, r.idempotencyKey, e.op.created)
            && m.acknowledgedAt.None? && m.completedAt.None? && m.result.None?
            && (Listed(m, agent, now) <==> agent == r.recipient && now < e.op.read + Lifetime(r.ttlSeconds))
  {
    var msg := NewMessage(e.op.id, e.op.sender, e.op.request, e.op.created, e.op.read);
    SendOutcome(s.store, msg, e.steps);
    assert Novel(Messages(s), msg);
  }

  /** A first send whose save completed puts the message on disk, so the lemma above applies to it. */
  lemma SavedSendIsOnDisk(s: System, e: Event)
    requires e.op.Send? && !e.crash && e.steps >= SAVE_STEPS
    requires (e.op.sender, e.op.request) in s.checked
    requires Novel(Messages(s), NewMessage(e.op.id, e.op.sender, e.op.request, e.op.created, e.op.read))
    ensures var msg := NewMessage(e.op.id, e.op.sender, e.op.request, e.op.created, e.op.read);
            && AddReply(s.store, msg, e.steps) == Done(msg)
            && Saved(Apply(s, e)) == Messages(Apply(s, e)) == Messages(s)[e.op.id := msg]
  {
    SendOutcome(s.store, NewMessage(e.op.id, e.op.sender, e.op.request, e.op.created, e.op.read), e.steps);
  }

  ghost predicate Survives(s: System, es: seq<Event>, id: string) {
    id in Messages(Run(s, es))
  }

  /** A stored message outlives every future of the process if and only if it is on disk now. */
  lemma SurvivesExactlyIfOnDisk(s: System, id: string)
    requires Reachable(s) && id in Messages(s)
    ensures (forall es :: Survives(s, es, id)) <==> id in Saved(s)
  {
    ReachableInv(s);
    if id in Saved(s) {
      forall es ensures Survives(s, es, id) {
        RunKeeps(s, es);
      }
    } else {
      var crash := Event(Idle, 0, true);
      assert Run(s, [crash]) == Run(Apply(s, crash), [crash][1..]) == Apply(s, crash);
      assert !Survives(s, [crash], id);
    }
  }

  /** A resend that finds the earlier message changes nothing at all, whatever its save could have done. */
  lemma HitSavesNothing(s: System, e: Event)
    requires e.op.Send? && !e.crash && Earlier(Messages(s), e.op.sender, e.op.request.idempotencyKey).Some?
    ensures Apply(s, e) == s && Saved(Apply(s, e)) == Saved(s)
  {
  }

  /**
   So an acknowledged message can be lost: both agents register, one sends with a key, the save fails
   before its first operation, and the resend is answered without error although nothing is on disk.
   */
  lemma UnsavedAcknowledgementHappens(r: SendRequest, again: Message, at: Time, steps: nat)
    requires SizesOk(r) && KindOk(r.kind) && r.idempotencyKey != "" && SentAs(again, "alice", r.idempotencyKey)
    ensures exists s, id ::
              && Reachable(s) && AddReply(s.store, again, steps).Done? && AddReply(s.store, again, steps).msg.id == id
              && id in Messages(s) && id !in Saved(s) && !(forall es :: Survives(s, es, id))
  {
    var e0 := Event(Register("alice", "", at), SAVE_STEPS, false);
    var e1 := Event(Register(r.recipient, "", at), SAVE_STEPS, false);
    var e2 := Event(Authenticate("alice"), 0, false);
    var e3 := Event(CheckRequest("alice", r), 0, false);
    var e4 := Event(Send("m", "alice", r, at, at), 0, false);
    var s1 := Apply(Start(), e0);
    var s2 := Apply(s1, e1);
    var s3 := Apply(s2, e2);
    var s4 := Apply(s3, e3);
    var s5 := Apply(s4, e4);
    assert ("alice", r) in s4.checked && Messages(s4) == map[] && Saved(s4) == map[];
    var msg := NewMessage("m", "alice", r, at, at);
    assert Inserts(Messages(s4), msg);
    assert Messages(s5) == map["m" := msg] && Saved(s5) == map[];
    EarlierIsTheOne(Messages(s5), "m");
    RunOfFive(Start(), e0, e1, e2, e3, e4);
    SurvivesExactlyIfOnDisk(s5, "m");
  }

  lemma RunOfFive(s: System, e0: Event, e1: Event, e2: Event, e3: Event, e4: Event)
    ensures Run(s, [e0, e1, e2, e3, e4]) == Apply(Apply(Apply(Apply(Apply(s, e0), e1), e2), e3), e4)
  {
    assert [e0, e1, e2, e3, e4][1..] == [e1, e2, e3, e4] && [e1, e2, e3, e4][1..] == [e2, e3, e4];
    assert [e2, e3, e4][1..] == [e3, e4] && [e3, e4][1..] == [e4] && [e4][1..] == [];
    var s3 := Apply(Apply(Apply(s, e0), e1), e2);
    assert Run(s3, [e3, e4]) == Run(Apply(s3, e3), [e4]) == Apply(Apply(s3, e3), e4);
    assert Run(Apply(s, e0), [e1, e2, e3, e4]) == Run(Apply(Apply(s, e0), e1), [e2, e3, e4]) == Run(s3, [e3, e4]);
  }

  // ----- Inbox -----

  /** What has left the inbox for good, by a saved terminal action or by expiry, never comes back. */
  lemma ClosedMessagesStayOut(s: System, es: seq<Event>, id: string, now: Time, later: Time, agent: string)
    requires Reachable(s) && id in Saved(s) && now <= later
    requires Terminal(Saved(s)[id].status) || Saved(s)[id].expiresAt <= now
    ensures id in Messages(Run(s, es)) && !Listed(Messages(Run(s, es))[id], agent, later)
  {
    ReachableInv(s);
    RunKeeps(s, es);
    assert Evolves(Saved(s)[id], Messages(Run(s, es))[id]);
  }

  predicate Closes(e: Event, id: string) {
    e.op.Act? && e.op.id == id && e.op.action in {"complete", "fail"}
  }

  predicate Open(ms: AgentStore.Messages, m: Message) {
    m.id in ms && !Terminal(ms[m.id].status) && Evolves(m, ms[m.id])
  }

  /** Before a crash takes hold, an event that does not close a message leaves it open in memory. */
  lemma StaysOpen(s: System, op: Op, steps: nat, id: string)
    requires Inv(s) && id in Messages(s) && !Terminal(Messages(s)[id].status)
    requires !Closes(Event(op, steps, false), id)
    ensures id in StoreAfter(s, op, steps).mem.messages
    ensures !Terminal(StoreAfter(s, op, steps).mem.messages[id].status)
    ensures Evolves(Messages(s)[id], StoreAfter(s, op, steps).mem.messages[id])
  {
    StoreStep(s, op, steps);
    assert Evolves(Messages(s)[id], StoreAfter(s, op, steps).mem.messages[id]);
  }

  /** What a restart would find after an event is what it would have found before, or the new memory. */
  lemma SavedIsOldOrNew(s: System, op: Op, steps: nat)
    ensures var after := StoreAfter(s, op, steps);
            Recovered(after.disk).messages in {Saved(s), after.mem.messages}
  {
  }

  lemma OpenStep(s: System, e: Event, m: Message)
    requires Inv(s) && !Closes(e, m.id)
    requires Open(Messages(s), m) && Open(Saved(s), m)
    ensures Open(Messages(Apply(s, e)), m) && Open(Saved(Apply(s, e)), m)
  {
    StaysOpen(s, e.op, e.steps, m.id);
    SavedIsOldOrNew(s, e.op, e.steps);
    var after := StoreAfter(s, e.op, e.steps);
    assert Messages(Apply(s, e)) in {after.mem.messages, Recovered(after.disk).messages};
    assert Saved(Apply(s, e)) == Recovered(after.disk).messages;
  }

  lemma {:induction false} OpenRun(s: System, es: seq<Event>, m: Message)
    requires Inv(s) && Open(Messages(s), m) && Open(Saved(s), m)
    requires forall e | e in es :: !Closes(e, m.id)
    ensures Open(Messages(Run(s, es)), m) && Open(Saved(Run(s, es)), m)
    ensures Inv(Run(s, es))
    decreases |es|
  {
    if es != [] {
      OpenStep(s, es[0], m);
      ApplyKeeps(s, es[0]);
      OpenRun(Apply(s, es[0]), es[1..], m);
    }
  }

  /**
   A saved message stays in its recipient's inbox, across other requests, failed saves and
   restarts, for as long as nobody completes or fails it and it has not expired.
   */
  lemma OpenMessagesStayListed(s: System, es: seq<Event>, m: Message, now: Time)
    requires Reachable(s) && Open(Messages(s), m) && Open(Saved(s), m)
    requires forall e | e in es :: !Closes(e, m.id)
    requires now < m.expiresAt
    ensures m.id in Messages(Run(s, es)) && Listed(Messages(Run(s, es))[m.id], m.recipient, now)
  {
    ReachableInv(s);
    OpenRun(s, es, m);
  }
}
