/**
 The in-memory replay store of the package's tests: a bootstrap ID is reserved while a validation is
 under way or awaiting its caller's decision, and consumed once the caller commits it. The second half
 runs any number of validators against one such store. The store the tools ship is `FileReplayStore`.
 */
module ReplayStore {
  import opened SignedPayload

  datatype State = State(reserved: set<Bytes>, consumed: set<Bytes>)

  const EMPTY := State({}, {})

  predicate CanReserve(s: State, id: Bytes) {
    id !in s.consumed && id !in s.reserved
  }

  function Reserved(s: State, id: Bytes): State {
    if CanReserve(s, id) then s.(reserved := s.reserved + {id}) else s
  }

  function Released(s: State, id: Bytes): State {
    if id in s.consumed then s else s.(reserved := s.reserved - {id})
  }

  function Committed(s: State, id: Bytes): State {
    if id !in s.reserved || id in s.consumed then s else State(s.reserved - {id}, s.consumed + {id})
  }

  class Store {
    var reserved: set<Bytes>
    var consumed: set<Bytes>

    function Abstract(): State
      reads this
    {
      State(reserved, consumed)
    }

    constructor ()
      ensures Abstract() == EMPTY
    {
      reserved, consumed := {}, {};
    }

    method Reserve(id: Bytes) returns (ok: bool)
      modifies this
      ensures ok == CanReserve(old(Abstract()), id)
      ensures Abstract() == Reserved(old(Abstract()), id)
    {
      if id in consumed {
        return false;
      }
      if id in reserved {
        return false;
      }
      reserved := reserved + {id};
      return true;
    }

    method Commit(id: Bytes) returns (ok: bool)
      modifies this
      ensures ok == (id in old(reserved) && id !in old(consumed))
      ensures Abstract() == Committed(old(Abstract()), id)
    {
      if id !in reserved {
        return false;
      }
      if id in consumed {
        return false;
      }
      reserved := reserved - {id};
      consumed := consumed + {id};
      return true;
    }

    method Release(id: Bytes) returns (ok: bool)
      modifies this
      ensures ok == (id !in old(consumed))
      ensures Abstract() == Released(old(Abstract()), id)
    {
      if id in consumed {
        return false;
      }
      reserved := reserved - {id};
      return true;
    }
  }

  // ----- Interleaved validators -----

  datatype Stage = Validating | Accepted
  datatype Claim = Claim(id: Bytes, stage: Stage)

  /** The store, and the claim each validator that got past `Reserve` holds. */
  datatype System = System(store: State, claims: map<nat, Claim>)

  /** A caller commits or abandons only an ID whose validation it saw succeed. */
  datatype Event =
    | Begin(v: nat, id: Bytes)
    | Pass(v: nat)
    | Fail(v: nat)
    | Commit(v: nat)
    | Abandon(v: nat)

  predicate Enabled(s: System, e: Event) {
    match e
    case Begin(v, id) => v !in s.claims
    case Pass(v) => v in s.claims && s.claims[v].stage == Validating
    case Fail(v) => v in s.claims && s.claims[v].stage == Validating
    case Commit(v) => v in s.claims && s.claims[v].stage == Accepted
    case Abandon(v) => v in s.claims && s.claims[v].stage == Accepted
  }

  function Apply(s: System, e: Event): System {
    if !Enabled(s, e) then s
    else match e
      case Begin(v, id) =>
        if CanReserve(s.store, id)
        then System(Reserved(s.store, id), s.claims[v := Claim(id, Validating)])
        else s
      case Pass(v) => s.(claims := s.claims[v := s.claims[v].(stage := Accepted)])
      case Fail(v) => System(Released(s.store, s.claims[v].id), s.claims - {v})
      case Commit(v) => System(Committed(s.store, s.claims[v].id), s.claims - {v})
      case Abandon(v) => System(Released(s.store, s.claims[v].id), s.claims - {v})
  }

  function Run(s: System, es: seq<Event>): System
    decreases |es|
  {
    if es == [] then s else Run(Apply(s, es[0]), es[1..])
  }

  function Start(): System {
    System(EMPTY, map[])
  }

  /** The reserved IDs are exactly those somebody holds, each held once, and none is consumed. */
  ghost predicate Inv(s: System) {
    && (forall v | v in s.claims :: s.claims[v].id in s.store.reserved)
    && (forall id | id in s.store.reserved :: exists v :: v in s.claims && s.claims[v].id == id)
    && (forall v, w | v in s.claims && w in s.claims && s.claims[v].id == s.claims[w].id :: v == w)
    && s.store.reserved !! s.store.consumed
  }

  lemma BeginKeepsInv(s: System, v: nat, id: Bytes)
    requires Inv(s) && v !in s.claims
    ensures Inv(Apply(s, Begin(v, id)))
  {
    var s' := Apply(s, Begin(v, id));
    forall x | x in s'.store.reserved ensures exists w :: w in s'.claims && s'.claims[w].id == x {
      if x in s.store.reserved {
        var w :| w in s.claims && s.claims[w].id == x;
        assert w in s'.claims && s'.claims[w].id == x;
      } else {
        assert s'.claims[v].id == x;
      }
    }
  }

  /** Dropping a claim together with its reservation keeps the correspondence. */
  lemma EndKeepsInv(s: System, v: nat, consumed: set<Bytes>)
    requires Inv(s) && v in s.claims
    requires s.store.consumed <= consumed <= s.store.consumed + {s.claims[v].id}
    ensures Inv(System(State(s.store.reserved - {s.claims[v].id}, consumed), s.claims - {v}))
  {
    var s' := System(State(s.store.reserved - {s.claims[v].id}, consumed), s.claims - {v});
    forall x | x in s'.store.reserved ensures exists w :: w in s'.claims && s'.claims[w].id == x {
      var w :| w in s.claims && s.claims[w].id == x;
      assert w in s'.claims;
    }
  }

  lemma ApplyKeepsInv(s: System, e: Event)
    requires Inv(s)
    ensures Inv(Apply(s, e))
    ensures s.store.consumed <= Apply(s, e).store.consumed
  {
    if Enabled(s, e) {
      match e
      case Begin(v, id) => BeginKeepsInv(s, v, id);
      case Pass(v) =>
        var s' := Apply(s, e);
        assert forall w | w in s.claims :: w in s'.claims && s'.claims[w].id == s.claims[w].id;
      case Commit(v) => EndKeepsInv(s, v, s.store.consumed + {s.claims[v].id});
      case Fail(v) => EndKeepsInv(s, v, s.store.consumed);
      case Abandon(v) => EndKeepsInv(s, v, s.store.consumed);
    }
  }

  lemma {:induction false} RunKeepsInv(s: System, es: seq<Event>)
    requires Inv(s)
    ensures Inv(Run(s, es))
    ensures s.store.consumed <= Run(s, es).store.consumed
    decreases |es|
  {
    if es != [] {
      ApplyKeepsInv(s, es[0]);
      RunKeepsInv(Apply(s, es[0]), es[1..]);
    }
  }

  /** Reservations and claims correspond one to one in every reachable state. */
  lemma ReservedExactlyWhatIsHeld(es: seq<Event>)
    ensures var s := Run(Start(), es);
            && s.store.reserved == (set v | v in s.claims :: s.claims[v].id)
            && (forall v, w | v in s.claims && w in s.claims && v != w :: s.claims[v].id != s.claims[w].id)
            && s.store.reserved !! s.store.consumed
  {
    RunKeepsInv(Start(), es);
  }

  /** A validator refused at `Reserve`, or any event of others, never frees an ID somebody holds. */
  lemma OnlyTheHolderFrees(s: System, e: Event, v: nat)
    requires Inv(s) && v in s.claims && !(e.Fail? && e.v == v) && !(e.Commit? && e.v == v) && !(e.Abandon? && e.v == v)
    ensures v in Apply(s, e).claims && Apply(s, e).claims[v].id == s.claims[v].id
    ensures s.claims[v].id in Apply(s, e).store.reserved
  {
  }

  /** A commit by a holder takes effect, and from then on that ID is never validated again. */
  lemma CommitIsFinal(s: System, v: nat, es: seq<Event>, w: nat)
    requires Inv(s) && v in s.claims && s.claims[v].stage == Accepted
    ensures var id := s.claims[v].id;
            var later := Run(Apply(s, Commit(v)), es);
            && id in later.store.consumed && !CanReserve(later.store, id)
            && (w in later.claims ==> later.claims[w].id != id)
  {
    ApplyKeepsInv(s, Commit(v));
    RunKeepsInv(Apply(s, Commit(v)), es);
  }

  /** After a failed validation, or one the caller abandons, the ID can be reserved again at once. */
  lemma FailureFreesTheId(s: System, e: Event)
    requires Inv(s) && Enabled(s, e) && (e.Fail? || e.Abandon?)
    ensures CanReserve(Apply(s, e).store, s.claims[e.v].id)
    ensures Apply(s, e).store.consumed == s.store.consumed
    ensures Apply(s, e).store.reserved == s.store.reserved - {s.claims[e.v].id}
  {
  }

  /**
   A validation that nothing interrupts is a `Begin` followed by `Pass` or `Fail`: on success it
   adds one reservation, on failure or refusal it leaves the store as it found it.
   */
  lemma UninterruptedValidation(s: System, v: nat, id: Bytes, ok: bool)
    requires v !in s.claims
    ensures var s' := Run(s, [Begin(v, id), if ok then Pass(v) else Fail(v)]);
            && s'.store.consumed == s.store.consumed
            && s'.store.reserved ==
               s.store.reserved + (if ok && CanReserve(s.store, id) then {id} else {})
            && (v in s'.claims <==> ok && CanReserve(s.store, id))
  {
    var last := if ok then Pass(v) else Fail(v);
    var es := [Begin(v, id), last];
    var s1 := Apply(s, Begin(v, id));
    assert es[1..] == [last] && [last][1..] == [];
    assert Run(s, es) == Run(s1, [last]) == Apply(s1, last);
  }

  predicate Commits(s: System, e: Event, id: Bytes) {
    e.Commit? && Enabled(s, e) && s.claims[e.v].id == id
  }

  function CommitCount(s: System, es: seq<Event>, id: Bytes): nat
    decreases |es|
  {
    if es == [] then 0
    else (if Commits(s, es[0], id) then 1 else 0) + CommitCount(Apply(s, es[0]), es[1..], id)
  }

  /** Over any run each ID is committed at most once, and only if it was not consumed before. */
  lemma {:induction false} CommittedAtMostOnce(s: System, es: seq<Event>, id: Bytes)
    requires Inv(s)
    ensures CommitCount(s, es, id) <= (if id in s.store.consumed then 0 else 1)
    ensures CommitCount(s, es, id) == 1 <==> id !in s.store.consumed && id in Run(s, es).store.consumed
    decreases |es|
  {
    if es != [] {
      ApplyKeepsInv(s, es[0]);
      RunKeepsInv(Apply(s, es[0]), es[1..]);
      CommittedAtMostOnce(Apply(s, es[0]), es[1..], id);
      assert Commits(s, es[0], id) <==> id !in s.store.consumed && id in Apply(s, es[0]).store.consumed;
    }
  }
}
