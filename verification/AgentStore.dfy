/**
 The AgentBridge store: registered agents, the messages between them, and the two files that
 hold both. The functions say what each critical section does to memory and disk; the class
 below them is the store itself, proved against those functions.
 */
module AgentStore {
  import opened Common
  import opened AtomicFiles

  datatype Status = Pending | Acknowledged | Completed | Failed | Expired

  predicate Terminal(s: Status) {
    s == Completed || s == Failed
  }

  function Rank(s: Status): nat {
    match s
    case Pending => 0
    case Acknowledged => 1
    case Expired => 1
    case Completed => 2
    case Failed => 2
  }

  datatype Registration = Registration(name: string, tokenHash: string, createdAt: Time)

  datatype Message = Message(
    id: string,
    sender: string,
    recipient: string,
    taskId: string,
    kind: string,
    body: string,
    idempotencyKey: string,
    createdAt: Time,
    expiresAt: Time,
    status: Status,
    acknowledgedAt: Option<Time>,
    completedAt: Option<Time>,
    result: Option<string>)

  type Agents = map<string, Registration>
  type Messages = map<string, Message>

  datatype Memory = Memory(agents: Agents, messages: Messages)
  datatype Disk = Disk(agents: Slot<Agents>, messages: Slot<Messages>)
  datatype State = State(mem: Memory, disk: Disk)

  /** Why an operation did not return a record. `Unsaved` is a failed save. */
  datatype Reply = Done(msg: Message) | NotFound | Forbidden | InvalidAction | Unsaved

  // ----- Disk -----

  const SAVE_STEPS: nat := 2 * WRITE_STEPS

  /** The disk after the first `steps` primitive operations of a save: agents first, then messages. */
  function SavedUpTo(d: Disk, m: Memory, steps: nat): Disk {
    Disk(WrittenUpTo(d.agents, m.agents, steps),
         if steps <= WRITE_STEPS then d.messages
         else WrittenUpTo(d.messages, m.messages, steps - WRITE_STEPS))
  }

  /** What a load reads from one path: a missing file leaves the empty map in place. */
  function Read<K, V>(c: Content<map<K, V>>): map<K, V> {
    if c.Whole? then c.value else map[]
  }

  /** Memory after a restart on this disk. */
  function Recovered(d: Disk): Memory {
    Memory(Read(d.agents.published), Read(d.messages.published))
  }

  predicate Loadable(d: Disk) {
    d.agents.published != Torn && d.messages.published != Torn
  }

  /** Memory moves to `m` and a save of `m` gets `steps` operations far. */
  function Committed(s: State, m: Memory, steps: nat): State {
    State(m, SavedUpTo(s.disk, m, steps))
  }

  // ----- Operations -----

  function Registered(s: State, name: string, tokenHash: string, now: Time, steps: nat): State {
    Committed(s, s.mem.(agents := s.mem.agents[name := Registration(name, tokenHash, now)]), steps)
  }

  ghost predicate SentAs(m: Message, sender: string, key: string) {
    m.sender == sender && m.idempotencyKey == key
  }

  /** The stored message an earlier send with the same non-empty key left behind, if any. */
  ghost function Earlier(ms: Messages, sender: string, key: string): Option<Message> {
    if key != "" && exists id :: id in ms && SentAs(ms[id], sender, key)
    then var id :| id in ms && SentAs(ms[id], sender, key); Some(ms[id])
    else None
  }

  ghost predicate Inserts(ms: Messages, msg: Message) {
    Earlier(ms, msg.sender, msg.idempotencyKey).None? && msg.id !in ms
  }

  ghost function Added(s: State, msg: Message, steps: nat): State {
    if Inserts(s.mem.messages, msg)
    then Committed(s, s.mem.(messages := s.mem.messages[msg.id := msg]), steps)
    else s
  }

  /** The record a send hands back; an idempotent hit never reports a failed save. */
  ghost function AddReply(s: State, msg: Message, steps: nat): Reply {
    var earlier := Earlier(s.mem.messages, msg.sender, msg.idempotencyKey);
    if earlier.Some? then Done(earlier.value)
    else if msg.id in s.mem.messages || steps >= SAVE_STEPS then Done(msg)
    else Unsaved
  }

  predicate KnownAction(action: string) {
    action in {"acknowledge", "complete", "fail"}
  }

  /** A message after an action by its recipient; the first terminal action wins. */
  function Transitioned(m: Message, action: string, result: Option<string>, now: Time): Message
    requires KnownAction(action)
  {
    if Terminal(m.status) then m
    else if action == "acknowledge" then
      if m.status == Pending then m.(status := Acknowledged, acknowledgedAt := Some(now)) else m
    else
      m.(status := if action == "complete" then Completed else Failed,
         completedAt := Some(now), result := result)
  }

  function Refusal(ms: Messages, id: string, agent: string, action: string): Option<Reply> {
    if id !in ms then Some(NotFound)
    else if ms[id].recipient != agent then Some(Forbidden)
    else if !KnownAction(action) then Some(InvalidAction)
    else None
  }

  function Acted(s: State, id: string, agent: string, action: string, result: Option<string>,
                 now: Time, steps: nat): State
  {
    if Refusal(s.mem.messages, id, agent, action).Some? then s
    else
      var msg := Transitioned(s.mem.messages[id], action, result, now);
      Committed(s, s.mem.(messages := s.mem.messages[id := msg]), steps)
  }

  function ActReply(s: State, id: string, agent: string, action: string, result: Option<string>,
                    now: Time, steps: nat): Reply
  {
    var refusal := Refusal(s.mem.messages, id, agent, action);
    if refusal.Some? then refusal.value
    else if steps < SAVE_STEPS then Unsaved
    else Done(Transitioned(s.mem.messages[id], action, result, now))
  }

  /** Whether an inbox scan that reaches `m` at clock reading `now` lists it. */
  predicate Listed(m: Message, recipient: string, now: Time) {
    m.recipient == recipient && now < m.expiresAt && (m.status == Pending || m.status == Acknowledged)
  }

  // ----- Invariants -----

  /** The fields of a single record agree with its status. */
  predicate MessageOk(m: Message) {
    && m.status != Expired
    && (m.completedAt.Some? <==> Terminal(m.status))
    && (m.status == Pending ==> m.acknowledgedAt.None?)
    && (m.status == Acknowledged ==> m.acknowledgedAt.Some?)
    && (m.result.Some? ==> Terminal(m.status))
  }

  ghost predicate KeysUnique(ms: Messages) {
    forall a, b | a in ms && b in ms && ms[a].idempotencyKey != "" &&
                  SentAs(ms[b], ms[a].sender, ms[a].idempotencyKey) :: a == b
  }

  /** Every message's sender and recipient is a registered agent. */
  ghost predicate RefersTo(ms: Messages, agents: Agents) {
    forall id | id in ms :: ms[id].sender in agents && ms[id].recipient in agents
  }

  ghost predicate MemoryOk(m: Memory) {
    && (forall id | id in m.messages :: m.messages[id].id == id && MessageOk(m.messages[id]))
    && RefersTo(m.messages, m.agents)
    && KeysUnique(m.messages)
  }

  /** `b` is `a` some actions later: nothing but the progress fields moves, and those only forward. */
  predicate Evolves(a: Message, b: Message) {
    && b == a.(status := b.status, acknowledgedAt := b.acknowledgedAt,
               completedAt := b.completedAt, result := b.result)
    && Rank(a.status) <= Rank(b.status)
    && (a.acknowledgedAt.Some? ==> b.acknowledgedAt == a.acknowledgedAt)
    && (Terminal(a.status) ==> b == a)
  }

  /** No message of `older` is lost, rewritten or rolled back in `newer`. */
  ghost predicate Below(older: Messages, newer: Messages) {
    forall id | id in older :: id in newer && Evolves(older[id], newer[id])
  }

  /** Memory is sound, and the disk always holds a sound, possibly older, version of it. */
  ghost predicate Consistent(s: State) {
    && MemoryOk(s.mem)
    && Loadable(s.disk)
    && MemoryOk(Recovered(s.disk))
    && Recovered(s.disk).agents.Keys <= s.mem.agents.Keys
    && Below(Recovered(s.disk).messages, s.mem.messages)
  }

  lemma BelowReflexive(ms: Messages)
    ensures Below(ms, ms)
  {
  }

  lemma BelowTransitive(a: Messages, b: Messages, c: Messages)
    requires Below(a, b) && Below(b, c)
    ensures Below(a, c)
  {
    forall id | id in a ensures id in c && Evolves(a[id], c[id]) {
      assert Evolves(a[id], b[id]) && Evolves(b[id], c[id]);
    }
  }

  /** A save leaves the old files, the new agents with the old messages, or both new files, as far as it got. */
  lemma SaveOrder(d: Disk, m: Memory, steps: nat)
    ensures var before, after := Recovered(d), Recovered(SavedUpTo(d, m, steps));
            after == if steps < 3 then before else if steps < 6 then Memory(m.agents, before.messages) else m
    ensures Loadable(d) ==> Loadable(SavedUpTo(d, m, steps))
  {
  }

  /**
   The simulation step: memory may move to any sound state above the old one, and at every point
   of the save that follows, the disk is sound, below the new memory, and not behind the old disk.
   */
  lemma SaveKeepsConsistency(s: State, m: Memory, steps: nat)
    requires Consistent(s) && MemoryOk(m)
    requires s.mem.agents.Keys <= m.agents.Keys && Below(s.mem.messages, m.messages)
    ensures Consistent(Committed(s, m, steps))
    ensures Below(Recovered(s.disk).messages, Recovered(SavedUpTo(s.disk, m, steps)).messages)
  {
    BelowTransitive(Recovered(s.disk).messages, s.mem.messages, m.messages);
    BelowReflexive(Recovered(s.disk).messages);
    BelowReflexive(m.messages);
    SaveOrder(s.disk, m, steps);
  }

  lemma RestartKeepsConsistency(s: State)
    requires Consistent(s)
    ensures Consistent(State(Recovered(s.disk), s.disk))
  {
    BelowReflexive(Recovered(s.disk).messages);
  }

  lemma RegisterKeeps(s: State, name: string, tokenHash: string, now: Time, steps: nat)
    requires Consistent(s)
    ensures Consistent(Registered(s, name, tokenHash, now, steps))
    ensures Below(Recovered(s.disk).messages,
                  Recovered(Registered(s, name, tokenHash, now, steps).disk).messages)
  {
    BelowReflexive(s.mem.messages);
    SaveKeepsConsistency(s, s.mem.(agents := s.mem.agents[name := Registration(name, tokenHash, now)]), steps);
  }

  /** A message as a send creates it. */
  predicate Draft(m: Message) {
    m.status == Pending && m.acknowledgedAt.None? && m.completedAt.None? && m.result.None?
  }

  lemma AddKeeps(s: State, msg: Message, steps: nat)
    requires Consistent(s) && Draft(msg)
    requires msg.sender in s.mem.agents && msg.recipient in s.mem.agents
    ensures Consistent(Added(s, msg, steps))
    ensures Below(s.mem.messages, Added(s, msg, steps).mem.messages)
    ensures Below(Recovered(s.disk).messages, Recovered(Added(s, msg, steps).disk).messages)
  {
    BelowReflexive(s.mem.messages);
    BelowReflexive(Recovered(s.disk).messages);
    if Inserts(s.mem.messages, msg) {
      var ms := s.mem.messages[msg.id := msg];
      assert forall id | id in s.mem.messages && msg.idempotencyKey != "" ::
          !SentAs(s.mem.messages[id], msg.sender, msg.idempotencyKey);
      assert KeysUnique(ms);
      SaveKeepsConsistency(s, s.mem.(messages := ms), steps);
    }
  }

  /** An action moves a sound record forward and leaves it sound. */
  lemma TransitionEvolves(m: Message, action: string, result: Option<string>, now: Time)
    requires MessageOk(m) && KnownAction(action)
    ensures MessageOk(Transitioned(m, action, result, now))
    ensures Evolves(m, Transitioned(m, action, result, now))
    ensures Terminal(Transitioned(m, action, result, now).status) <==> Terminal(m.status) || action != "acknowledge"
    ensures action == "acknowledge" && !Terminal(m.status) ==>
              && Transitioned(m, action, result, now).status == Acknowledged
              && Transitioned(m, action, result, now).acknowledgedAt ==
                 (if m.status == Pending then Some(now) else m.acknowledgedAt)
    ensures action != "acknowledge" && !Terminal(m.status) ==>
              var r := Transitioned(m, action, result, now);
              r.completedAt == Some(now) && r.result == result && (r.status == Completed <==> action == "complete")
  {
  }

  lemma ReplaceKeeps(m: Memory, id: string, msg: Message)
    requires MemoryOk(m) && id in m.messages
    requires MessageOk(msg) && Evolves(m.messages[id], msg)
    ensures MemoryOk(m.(messages := m.messages[id := msg]))
    ensures Below(m.messages, m.messages[id := msg])
  {
    var ms, ms' := m.messages, m.messages[id := msg];
    BelowReflexive(ms);
    forall a, b | a in ms' && b in ms' && ms'[a].idempotencyKey != "" &&
                  SentAs(ms'[b], ms'[a].sender, ms'[a].idempotencyKey)
      ensures a == b
    {
      assert SentAs(ms[b], ms[a].sender, ms[a].idempotencyKey);
    }
  }

  lemma ActKeeps(s: State, id: string, agent: string, action: string, result: Option<string>,
                 now: Time, steps: nat)
    requires Consistent(s)
    ensures Consistent(Acted(s, id, agent, action, result, now, steps))
    ensures Below(s.mem.messages, Acted(s, id, agent, action, result, now, steps).mem.messages)
    ensures Below(Recovered(s.disk).messages,
                  Recovered(Acted(s, id, agent, action, result, now, steps).disk).messages)
  {
    BelowReflexive(s.mem.messages);
    BelowReflexive(Recovered(s.disk).messages);
    if Refusal(s.mem.messages, id, agent, action).None? {
      var msg := Transitioned(s.mem.messages[id], action, result, now);
      TransitionEvolves(s.mem.messages[id], action, result, now);
      ReplaceKeeps(s.mem, id, msg);
      SaveKeepsConsistency(s, s.mem.(messages := s.mem.messages[id := msg]), steps);
    }
  }

  // ----- What the operations promise -----

  /** A registration replaces or adds one agent and touches nothing else; once saved, a restart finds it. */
  lemma RegistrationOutcome(s: State, name: string, tokenHash: string, now: Time, steps: nat)
    ensures var s' := Registered(s, name, tokenHash, now, steps);
            && name in s'.mem.agents && s'.mem.agents[name] == Registration(name, tokenHash, now)
            && s'.mem.agents.Keys == s.mem.agents.Keys + {name}
            && (forall other | other in s.mem.agents && other != name ::
                  s'.mem.agents[other] == s.mem.agents[other])
            && s'.mem.messages == s.mem.messages
            && (steps >= SAVE_STEPS ==> Recovered(s'.disk) == s'.mem)
  {
  }

  /** No stored message has the new one's ID, nor its sender together with its key if it has one. */
  ghost predicate Novel(ms: Messages, msg: Message) {
    && msg.id !in ms
    && (msg.idempotencyKey == "" ||
        forall id | id in ms :: ms[id].sender != msg.sender || ms[id].idempotencyKey != msg.idempotencyKey)
  }

  /**
   A send stores exactly the messages that are new, keyed or not, and then answers without error exactly
   if the save completed. Any other send changes nothing; a known key is answered with its message.
   */
  lemma SendOutcome(s: State, msg: Message, steps: nat)
    ensures var s', ms, reply := Added(s, msg, steps), s.mem.messages, AddReply(s, msg, steps);
            && (Novel(ms, msg) ==>
                  && s'.mem == Memory(s.mem.agents, ms[msg.id := msg])
                  && (reply == Done(msg) <==> steps >= SAVE_STEPS)
                  && (reply == Unsaved <==> steps < SAVE_STEPS)
                  && (steps >= SAVE_STEPS ==> Recovered(s'.disk) == s'.mem))
            && (!Novel(ms, msg) ==> s' == s && reply.Done?)
            && (forall id | id in ms && ms[id].sender == msg.sender && ms[id].idempotencyKey == msg.idempotencyKey ::
                  msg.idempotencyKey != "" && KeysUnique(ms) ==> reply == Done(ms[id]))
  {
  }

  /** The record an action leaves, by the state it finds the message in. */
  ghost predicate ActedRecord(m: Message, action: string, result: Option<string>, now: Time, m': Message) {
    && (m'.id, m'.sender, m'.recipient, m'.taskId, m'.kind, m'.body) ==
       (m.id, m.sender, m.recipient, m.taskId, m.kind, m.body)
    && (m'.idempotencyKey, m'.createdAt, m'.expiresAt) == (m.idempotencyKey, m.createdAt, m.expiresAt)
    && (m.status in {Completed, Failed} || (m.status == Acknowledged && action == "acknowledge") ==> m' == m)
    && (m.status == Pending && action == "acknowledge" ==>
          && (m'.status, m'.acknowledgedAt) == (Acknowledged, Some(now))
          && (m'.completedAt, m'.result) == (m.completedAt, m.result))
    && (m.status in {Pending, Acknowledged} && action in {"complete", "fail"} ==>
          && m'.status == (if action == "complete" then Completed else Failed)
          && (m'.completedAt, m'.result) == (Some(now), result) && m'.acknowledgedAt == m.acknowledgedAt)
  }

  /**
   Every known action of the recipient reaches memory, whatever becomes of its save; it is answered with
   the new record exactly if the save completed, and then a restart finds it. The refusals are exact too.
   */
  lemma ActionOutcome(s: State, id: string, agent: string, action: string, result: Option<string>,
                      now: Time, steps: nat)
    requires Consistent(s)
    ensures var s', ms := Acted(s, id, agent, action, result, now, steps), s.mem.messages;
            var reply := ActReply(s, id, agent, action, result, now, steps);
            && (reply == NotFound <==> id !in ms)
            && (reply == Forbidden <==> id in ms && agent != ms[id].recipient)
            && (reply == InvalidAction <==>
                  id in ms && agent == ms[id].recipient && action !in {"acknowledge", "complete", "fail"})
            && (reply in {NotFound, Forbidden, InvalidAction} ==> s' == s)
            && (id in ms && agent == ms[id].recipient && action in {"acknowledge", "complete", "fail"} ==>
                  && id in s'.mem.messages && ActedRecord(ms[id], action, result, now, s'.mem.messages[id])
                  && s'.mem == Memory(s.mem.agents, ms[id := s'.mem.messages[id]])
                  && (reply == Done(s'.mem.messages[id]) <==> steps >= SAVE_STEPS)
                  && (reply == Unsaved <==> steps < SAVE_STEPS)
                  && (steps >= SAVE_STEPS ==> Recovered(s'.disk) == s'.mem))
  {
    if id in s.mem.messages {
      assert MessageOk(s.mem.messages[id]);
    }
  }

  // ----- The store -----

  class Store {
    var agents: Agents
    var messages: Messages
    const agentsFile: AtomicFile<Agents>
    const messagesFile: AtomicFile<Messages>

    ghost function Abstract(): State
      reads this, agentsFile, messagesFile
    {
      State(Memory(agents, messages), Disk(agentsFile.State(), messagesFile.State()))
    }

    ghost predicate Valid()
      reads this, agentsFile, messagesFile
    {
      agentsFile as object != messagesFile as object && Consistent(Abstract())
    }

    /** Opens the store on two existing files; nothing is read until `Load`. */
    constructor (agentsFile: AtomicFile<Agents>, messagesFile: AtomicFile<Messages>)
      ensures this.agentsFile == agentsFile && this.messagesFile == messagesFile
      ensures agents == map[] && messages == map[]
    {
      this.agentsFile, this.messagesFile := agentsFile, messagesFile;
      agents, messages := map[], map[];
    }

    /** Reads both files into the empty store; a torn file is reported as corrupt. */
    method Load() returns (ok: bool)
      requires agents == map[] && messages == map[]
      modifies this
      ensures ok <==> agentsFile.published != Torn && messagesFile.published != Torn
      ensures ok ==> Abstract() == State(Recovered(old(Abstract()).disk), old(Abstract()).disk)
    {
      if agentsFile.published == Torn {
        return false;
      }
      if agentsFile.published.Whole? {
        agents := agentsFile.published.value;
      }
      if messagesFile.published == Torn {
        return false;
      }
      if messagesFile.published.Whole? {
        messages := messagesFile.published.value;
      }
      return true;
    }

    method Save(steps: nat) returns (ok: bool)
      requires agentsFile as object != messagesFile as object
      modifies agentsFile, messagesFile
      ensures Abstract() == Committed(old(Abstract()), old(Abstract()).mem, steps)
      ensures ok == (steps >= SAVE_STEPS)
    {
      ok := agentsFile.Write(agents, steps);
      if !ok {
        return false;
      }
      ok := messagesFile.Write(messages, steps - WRITE_STEPS);
    }

    method RegisterAgent(name: string, tokenHash: string, now: Time, steps: nat) returns (ok: bool)
      requires Valid()
      modifies this`agents, agentsFile, messagesFile
      ensures Valid() && Abstract() == Registered(old(Abstract()), name, tokenHash, now, steps)
      ensures ok == (steps >= SAVE_STEPS)
    {
      RegisterKeeps(Abstract(), name, tokenHash, now, steps);
      agents := agents[name := Registration(name, tokenHash, now)];
      ok := Save(steps);
    }

    method GetAgent(name: string) returns (agent: Option<Registration>)
      ensures agent == if name in agents then Some(agents[name]) else None
    {
      if name in agents {
        return Some(agents[name]);
      }
      return None;
    }

    /** The scan meets the messages in any order; at most one of them can match. */
    method FindEarlier(sender: string, key: string) returns (earlier: Option<Message>)
      requires KeysUnique(messages) && key != ""
      ensures earlier == Earlier(messages, sender, key)
    {
      var rest := messages.Keys;
      while rest != {}
        invariant rest <= messages.Keys
        invariant forall id | id in messages && id !in rest :: !SentAs(messages[id], sender, key)
      {
        var id :| id in rest;
        var m := messages[id];
        if m.sender == sender && m.idempotencyKey == key {
          assert SentAs(messages[id], sender, key);
          return Some(m);
        }
        rest := rest - {id};
      }
      return None;
    }

    method AddMessage(msg: Message, steps: nat) returns (reply: Reply)
      requires Valid()
      modifies this`messages, agentsFile, messagesFile
      ensures Abstract() == Added(old(Abstract()), msg, steps)
      ensures reply == AddReply(old(Abstract()), msg, steps)
      ensures Draft(msg) && msg.sender in agents && msg.recipient in agents ==> Valid()
    {
      if Draft(msg) && msg.sender in agents && msg.recipient in agents {
        AddKeeps(Abstract(), msg, steps);
      }
      if msg.idempotencyKey != "" {
        var earlier := FindEarlier(msg.sender, msg.idempotencyKey);
        if earlier.Some? {
          return Done(earlier.value);
        }
      }
      if msg.id in messages {
        return Done(msg);
      }
      messages := messages[msg.id := msg];
      var ok := Save(steps);
      reply := if ok then Done(msg) else Unsaved;
    }

    method TransitionMessage(id: string, agent: string, action: string, result: Option<string>,
                             now: Time, steps: nat) returns (reply: Reply)
      requires Valid()
      modifies this`messages, agentsFile, messagesFile
      ensures Valid() && Abstract() == Acted(old(Abstract()), id, agent, action, result, now, steps)
      ensures reply == ActReply(old(Abstract()), id, agent, action, result, now, steps)
    {
      ActKeeps(Abstract(), id, agent, action, result, now, steps);
      if id !in messages {
        return NotFound;
      }
      var msg := messages[id];
      if msg.recipient != agent {
        return Forbidden;
      }
      if action == "acknowledge" {
        if msg.status == Pending {
          msg := msg.(status := Acknowledged, acknowledgedAt := Some(now));
        }
      } else if action == "complete" {
        if msg.status != Completed && msg.status != Failed {
          msg := msg.(status := Completed, completedAt := Some(now), result := result);
        }
      } else if action == "fail" {
        if msg.status != Completed && msg.status != Failed {
          msg := msg.(status := Failed, completedAt := Some(now), result := result);
        }
      } else {
        return InvalidAction;
      }
      messages := messages[id := msg];
      var ok := Save(steps);
      if !ok {
        return Unsaved;
      }
      return Done(msg);
    }

    /** The clock moves during the scan: `clock(id)` is the reading taken at message `id`. */
    method GetInbox(recipient: string, clock: string -> Time) returns (inbox: seq<Message>)
      requires Valid()
      ensures forall id | id in messages :: messages[id] in inbox <==> Listed(messages[id], recipient, clock(id))
      ensures forall m | m in inbox ::
                m.recipient == recipient && m.status in {Pending, Acknowledged} && clock(m.id) < m.expiresAt
      ensures forall m | m in inbox :: m.id in messages && messages[m.id] == m
      ensures forall i, j | 0 <= i < j < |inbox| :: inbox[i].id != inbox[j].id
    {
      inbox := [];
      var rest := messages.Keys;
      while rest != {}
        invariant rest <= messages.Keys
        invariant forall id | id in messages && id !in rest ::
            messages[id] in inbox <==> Listed(messages[id], recipient, clock(id))
        invariant forall m | m in inbox :: m.id in messages && m.id !in rest && messages[m.id] == m
        invariant forall i, j | 0 <= i < j < |inbox| :: inbox[i].id != inbox[j].id
      {
        var id :| id in rest;
        var m := messages[id];
        if m.recipient == recipient && clock(id) < m.expiresAt {
          if m.status == Pending || m.status == Acknowledged {
            inbox := inbox + [m];
          }
        }
        rest := rest - {id};
      }
    }
  }
}
