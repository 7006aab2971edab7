/**
 The replay store the bootstrap tool ships: a JSON file of time-stamped entries, read and rewritten
 under a file lock by every operation, so that processes share it. A reservation that is 15 minutes
 old may be taken over. The second half runs any number of validating processes against one file.

 What goes wrong in one operation is an input: the lock, the read, the save, the check of the
 published file that the Windows build makes after the rename, and the unlock.
 */
module FileReplayStore {
  import opened Common
  import opened AtomicFiles
  import opened SignedPayload

  const STALE_AFTER := 15 * MINUTE
  const ZERO_TIME: Time := 0

  datatype Status = Reserved | Consumed
  datatype Entry = Entry(status: Status, time: Time)

  type Entries = map<Bytes, Entry>
  type File = Content<Entries>

  /**
   The check of the published file passed, or it failed and the file was removed, or could not be.
   Builds for systems other than Windows make no such check: for them it is always `Passed`.
   */
  datatype Check = Passed | Removed | Kept

  datatype Io = Io(locks: bool, readable: bool, steps: nat, check: Check, unlocks: bool)

  const SMOOTH := Io(true, true, WRITE_STEPS, Passed, true)

  /** An operation reads the clock for the age of an entry and again for its new time stamp. */
  datatype Op =
    | Reserve(id: Bytes, checked: Time, stamped: Time)
    | Commit(id: Bytes, at: Time)
    | Release(id: Bytes)

  // ----- One operation -----

  /** What a load insists on beyond well-formed JSON. */
  predicate WellFormed(m: Entries) {
    [] !in m && forall id | id in m :: m[id].time != ZERO_TIME
  }

  function Loaded(f: File, readable: bool): Option<Entries> {
    match f
    case Missing => Some(map[])
    case Torn => None
    case Whole(m) => if readable && WellFormed(m) then Some(m) else None
  }

  predicate Stale(e: Entry, now: Time) {
    e.status == Reserved && now - e.time >= STALE_AFTER
  }

  /** What an operation makes of the entries it loaded, or nothing if it refuses. */
  function Changed(op: Op, m: Entries): Option<Entries> {
    match op
    case Reserve(id, checked, stamped) =>
      if id in m && (m[id].status == Consumed || checked - m[id].time < STALE_AFTER) then None
      else Some(m[id := Entry(Reserved, stamped)])
    case Commit(id, at) =>
      if id !in m || m[id].status != Reserved then None else Some(m[id := Entry(Consumed, at)])
    case Release(id) =>
      Some(if id in m && m[id].status == Reserved then m - {id} else m)
  }

  /** Whether the operation gets as far as replacing the file. */
  predicate Publishes(f: File, op: Op, io: Io) {
    && io.locks && Loaded(f, io.readable).Some? && Changed(op, Loaded(f, io.readable).value).Some?
    && io.steps >= WRITE_STEPS
  }

  function Updated(f: File, op: Op, io: Io): File {
    if !Publishes(f, op, io) then f
    else if io.check == Removed then Missing
    else Whole(Changed(op, Loaded(f, io.readable).value).value)
  }

  /** Whether the operation reports success; a save that is followed by a failed check or unlock does not. */
  predicate Succeeds(f: File, op: Op, io: Io) {
    Publishes(f, op, io) && io.check == Passed && io.unlocks
  }

  class Store {
    const file: AtomicFile<Entries>

    ghost function Abstract(): File
      reads file
    {
      file.published
    }

    constructor (file: AtomicFile<Entries>)
      ensures this.file == file
    {
      this.file := file;
    }

    method Load(readable: bool) returns (m: Option<Entries>)
      ensures m == Loaded(Abstract(), readable)
    {
      if file.published == Missing {
        return Some(map[]);
      }
      if !readable || file.published == Torn {
        return None;
      }
      if !WellFormed(file.published.value) {
        return None;
      }
      return Some(file.published.value);
    }

    /** Replaces the file through a temp file, which a failed save removes again. */
    method Save(m: Entries, steps: nat, check: Check) returns (ok: bool)
      modifies file
      ensures ok == (steps >= WRITE_STEPS && check == Passed)
      ensures Abstract() ==
              if steps < WRITE_STEPS then old(Abstract()) else if check == Removed then Missing else Whole(m)
    {
      ok := file.Write(m, steps);
      if !ok {
        file.temp := Missing;
        return false;
      }
      if check != Passed {
        if check == Removed {
          file.published := Missing;
        }
        return false;
      }
    }

    /** Lock, load, change, save, unlock; the unlock happens on every path past the lock. */
    method Update(op: Op, io: Io) returns (ok: bool)
      modifies file
      ensures Abstract() == Updated(old(Abstract()), op, io)
      ensures ok == Succeeds(old(Abstract()), op, io)
    {
      if !io.locks {
        return false;
      }
      var m := Load(io.readable);
      if m.None? {
        return false;
      }
      var changed := Changed(op, m.value);
      if changed.None? {
        return false;
      }
      ok := Save(changed.value, io.steps, io.check);
      if !io.unlocks {
        ok := false;
      }
    }
  }

  // ----- What an operation does to one ID -----

  function EntriesOf(f: File): Entries {
    if f.Whole? then f.value else map[]
  }

  predicate IsReserved(f: File, id: Bytes) {
    id in EntriesOf(f) && EntriesOf(f)[id].status == Reserved
  }

  predicate IsConsumed(f: File, id: Bytes) {
    id in EntriesOf(f) && EntriesOf(f)[id].status == Consumed
  }

  predicate Wipes(f: File, op: Op, io: Io) {
    Publishes(f, op, io) && io.check == Removed
  }

  /** A reservation is granted exactly if nothing goes wrong and the ID is absent or its reservation stale. */
  lemma ReservableExactly(f: File, id: Bytes, checked: Time, stamped: Time, io: Io)
    ensures Succeeds(f, Reserve(id, checked, stamped), io) <==>
              && io.locks && Loaded(f, io.readable).Some? && io.steps >= WRITE_STEPS && io.check == Passed && io.unlocks
              && (id in EntriesOf(f) ==> Stale(EntriesOf(f)[id], checked))
  {
  }

  /** A load gives the entries of a missing file, or of a readable whole one without empty IDs and zero times. */
  lemma LoadedExactly(f: File, readable: bool, m: Entries)
    ensures Loaded(f, readable) == Some(m) <==>
              || (f == Missing && m == map[])
              || (f == Whole(m) && readable && [] !in m && forall id | id in m :: m[id].time != 0)
  {
  }

  /** The operation gets as far as a complete save of changed entries. */
  predicate Saves(f: File, io: Io) {
    io.locks && Loaded(f, io.readable).Some? && io.steps >= 3
  }

  /** A commit is reported exactly if nothing goes wrong and the ID is reserved, whoever reserved it and when. */
  lemma CommitOutcome(f: File, id: Bytes, at: Time, io: Io)
    ensures Succeeds(f, Commit(id, at), io) <==>
              Saves(f, io) && IsReserved(f, id) && io.check == Passed && io.unlocks
    ensures var f' := Updated(f, Commit(id, at), io);
            if !Saves(f, io) || !IsReserved(f, id) then f' == f
            else if io.check == Removed then f' == Missing
            else f' == Whole(EntriesOf(f)[id := Entry(Consumed, at)])
  {
  }

  /** A saved reserve of an absent ID or a stale one leaves a fresh reservation in place of what was there. */
  lemma ReserveOutcome(f: File, id: Bytes, checked: Time, stamped: Time, io: Io)
    ensures var f' := Updated(f, Reserve(id, checked, stamped), io);
            var recent := IsReserved(f, id) && checked - EntriesOf(f)[id].time < 900 * SECOND;
            if !Saves(f, io) || IsConsumed(f, id) || recent then f' == f
            else if io.check == Removed then f' == Missing
            else f' == Whole(EntriesOf(f)[id := Entry(Reserved, stamped)])
  {
  }

  /** A release is saved whatever it finds; it removes a reservation and keeps a consumed entry. */
  lemma ReleaseOutcome(f: File, id: Bytes, io: Io)
    ensures Succeeds(f, Release(id), io) <==> Saves(f, io) && io.check == Passed && io.unlocks
    ensures var f' := Updated(f, Release(id), io);
            if !Saves(f, io) then f' == f
            else if io.check == Removed then f' == Missing
            else
              && f'.Whole? && (forall other | other != id ::
                    (other in f'.value <==> other in EntriesOf(f)) &&
                    (other in f'.value ==> f'.value[other] == EntriesOf(f)[other]))
              && (id in f'.value <==> IsConsumed(f, id)) && (IsConsumed(f, id) ==> f'.value[id] == EntriesOf(f)[id])
  {
  }

  /** A refused reserve leaves the ID reserved exactly if it already was, or its save replaced the file for good. */
  lemma ReservedYetRefused(f: File, id: Bytes, checked: Time, stamped: Time, io: Io)
    requires !Succeeds(f, Reserve(id, checked, stamped), io)
    ensures var op := Reserve(id, checked, stamped);
            IsReserved(Updated(f, op, io), id) <==>
              if Publishes(f, op, io) then io.check != Removed else IsReserved(f, id)
  {
  }

  /** Nothing but the removal of the whole file touches a consumed entry. */
  lemma ConsumedExactlyUntilWiped(f: File, op: Op, io: Io, id: Bytes)
    requires IsConsumed(f, id)
    ensures IsConsumed(Updated(f, op, io), id) <==> !Wipes(f, op, io)
  {
  }

  /** An operation on one ID leaves the entries of the others alone, unless it removes the file. */
  lemma OtherIdsUntouched(f: File, op: Op, io: Io, other: Bytes)
    requires other != op.id && !Wipes(f, op, io)
    ensures other in EntriesOf(Updated(f, op, io)) <==> other in EntriesOf(f)
    ensures other in EntriesOf(f) ==> EntriesOf(Updated(f, op, io))[other] == EntriesOf(f)[other]
  {
  }

  /** What a failed validation leaves: a refused reservation, or a granted one and then its release. */
  function AfterFailure(f: File, id: Bytes, checked: Time, stamped: Time, io: Io, releaseIo: Io): File {
    var reserve := Reserve(id, checked, stamped);
    var reserved := Updated(f, reserve, io);
    if Succeeds(f, reserve, io) then Updated(reserved, Release(id), releaseIo) else reserved
  }

  /** The operation loads and replaces the entries of a loadable file. */
  predicate Completes(io: Io) {
    io.locks && io.readable && io.steps >= WRITE_STEPS
  }

  /** What decides whether a failed validation can be told from none by looking at the entries. */
  predicate LeavesNoTrace(f: File, id: Bytes, checked: Time, stamped: Time, io: Io, releaseIo: Io) {
    var before := EntriesOf(f);
    if !Publishes(f, Reserve(id, checked, stamped), io) then true
    else if io.check == Removed then before == map[]
    else if io.check == Kept || !io.unlocks || id == [] || stamped == ZERO_TIME || !Completes(releaseIo)
    then id in before && before[id] == Entry(Reserved, stamped)
    else if releaseIo.check == Removed then before == map[]
    else id !in before
  }

  /**
   A failed validation leaves the entries as they were exactly if its reservation was not saved, or if
   it was reported as granted, the ID was not empty, no stale entry was taken over, and the release
   was saved; what happens when the whole file goes, or is rewritten as it was, is spelt out above.
   */
  lemma FailureUnchangedExactly(f: File, id: Bytes, checked: Time, stamped: Time, io: Io, releaseIo: Io)
    ensures EntriesOf(AfterFailure(f, id, checked, stamped, io, releaseIo)) == EntriesOf(f) <==>
            LeavesNoTrace(f, id, checked, stamped, io, releaseIo)
  {
    var reserve := Reserve(id, checked, stamped);
    var before := EntriesOf(f);
    if Publishes(f, reserve, io) && io.check != Removed {
      var after := before[id := Entry(Reserved, stamped)];
      assert Updated(f, reserve, io) == Whole(after);
      assert after[id] == Entry(Reserved, stamped);
      if id in before && before[id] == Entry(Reserved, stamped) {
        assert after == before;
      }
      if WellFormed(after) && Succeeds(f, reserve, io) && Completes(releaseIo) && releaseIo.check != Removed {
        assert Updated(Whole(after), Release(id), releaseIo) == Whole(after - {id});
        if id !in before {
          assert after - {id} == before;
        }
      }
    }
  }

  /** A file holding an empty ID can no longer be loaded: from then on every operation fails and changes nothing. */
  lemma UnloadableForever(f: File, op: Op, io: Io)
    requires f == Torn || (f.Whole? && !WellFormed(f.value))
    ensures Updated(f, op, io) == f && !Succeeds(f, op, io)
  {
  }

  /** Only reserving the empty ID gets a loadable file into that state. */
  lemma UnloadableExactlyByEmptyId(f: File, op: Op, io: Io)
    requires Loaded(f, true).Some?
    requires (op.Reserve? ==> op.stamped != ZERO_TIME) && (op.Commit? ==> op.at != ZERO_TIME)
    ensures Loaded(Updated(f, op, io), true).None? <==>
              op.Reserve? && op.id == [] && Publishes(f, op, io) && io.check != Removed
  {
  }

  // ----- Interleaved processes -----

  /** `Undoing`: the caller's commit reported an error and its deferred release is still to come. */
  datatype Stage = Validating | Accepted | Undoing
  datatype Claim = Claim(id: Bytes, stage: Stage)

  /** The file, and the claim of each process whose reservation was reported as granted. */
  datatype System = System(file: File, claims: map<nat, Claim>)

  /** `Die` is a crash between operations; a crash inside one is a failed `io` followed by `Die`. */
  datatype Event =
    | Begin(v: nat, id: Bytes, checked: Time, stamped: Time, io: Io)
    | Pass(v: nat)
    | Reject(v: nat, io: Io)
    | Confirm(v: nat, at: Time, io: Io)
    | Undo(v: nat, io: Io)
    | Die(v: nat)

  predicate Enabled(s: System, e: Event) {
    match e
    case Begin(v, _, _, _, _) => v !in s.claims
    case Pass(v) => v in s.claims && s.claims[v].stage == Validating
    case Reject(v, _) => v in s.claims && s.claims[v].stage == Validating
    case Confirm(v, _, _) => v in s.claims && s.claims[v].stage == Accepted
    case Undo(v, _) => v in s.claims && s.claims[v].stage in {Accepted, Undoing}
    case Die(v) => v in s.claims
  }

  /** The store operation an event performs. */
  function OpOf(s: System, e: Event): Option<Op>
    requires Enabled(s, e)
  {
    match e
    case Begin(v, id, checked, stamped, _) => Some(Reserve(id, checked, stamped))
    case Reject(v, _) => Some(Release(s.claims[v].id))
    case Confirm(v, at, _) => Some(Commit(s.claims[v].id, at))
    case Undo(v, _) => Some(Release(s.claims[v].id))
    case _ => None
  }

  function Apply(s: System, e: Event): System {
    if !Enabled(s, e) then s
    else
      var op := OpOf(s, e);
      match e
      case Begin(v, id, _, _, io) =>
        System(Updated(s.file, op.value, io),
               if Succeeds(s.file, op.value, io) then s.claims[v := Claim(id, Validating)] else s.claims)
      case Pass(v) => s.(claims := s.claims[v := s.claims[v].(stage := Accepted)])
      case Reject(v, io) => System(Updated(s.file, op.value, io), s.claims - {v})
      case Confirm(v, _, io) =>
        System(Updated(s.file, op.value, io),
               if Succeeds(s.file, op.value, io) then s.claims - {v}
               else s.claims[v := s.claims[v].(stage := Undoing)])
      case Undo(v, io) => System(Updated(s.file, op.value, io), s.claims - {v})
      case Die(v) => s.(claims := s.claims - {v})
  }

  function Run(s: System, es: seq<Event>): System
    decreases |es|
  {
    if es == [] then s else Run(Apply(s, es[0]), es[1..])
  }

  function Start(): System {
    System(Missing, map[])
  }

  /** The event removes the whole file. */
  predicate WipesFile(s: System, e: Event) {
    Enabled(s, e) && OpOf(s, e).Some? && Wipes(s.file, OpOf(s, e).value, e.io)
  }

  function WipeCount(s: System, es: seq<Event>): nat
    decreases |es|
  {
    if es == [] then 0 else (if WipesFile(s, es[0]) then 1 else 0) + WipeCount(Apply(s, es[0]), es[1..])
  }

  // ----- Consumption -----

  lemma ConsumedStep(s: System, e: Event, id: Bytes)
    requires IsConsumed(s.file, id)
    ensures IsConsumed(Apply(s, e).file, id) <==> !WipesFile(s, e)
  {
    if Enabled(s, e) && OpOf(s, e).Some? {
      ConsumedExactlyUntilWiped(s.file, OpOf(s, e).value, e.io, id);
    }
  }

  /** Over any run of processes, failures and crashes a consumed ID stays consumed until the file is removed. */
  lemma {:induction false} ConsumedForever(s: System, es: seq<Event>, id: Bytes)
    requires IsConsumed(s.file, id) && WipeCount(s, es) == 0
    ensures IsConsumed(Run(s, es).file, id)
    decreases |es|
  {
    if es != [] {
      ConsumedStep(s, es[0], id);
      ConsumedForever(Apply(s, es[0]), es[1..], id);
    }
  }

  /** A process is told that it committed `id`. */
  predicate Commits(s: System, e: Event, id: Bytes) {
    e.Confirm? && Enabled(s, e) && s.claims[e.v].id == id && Succeeds(s.file, OpOf(s, e).value, e.io)
  }

  function CommitCount(s: System, es: seq<Event>, id: Bytes): nat
    decreases |es|
  {
    if es == [] then 0
    else (if Commits(s, es[0], id) then 1 else 0) + CommitCount(Apply(s, es[0]), es[1..], id)
  }

  /** Each ID is committed at most once, and once more for each time the file was removed. */
  lemma {:induction false} CommitsBounded(s: System, es: seq<Event>, id: Bytes)
    ensures CommitCount(s, es, id) + (if IsConsumed(s.file, id) then 1 else 0) <= 1 + WipeCount(s, es)
    decreases |es|
  {
    if es != [] {
      var s' := Apply(s, es[0]);
      CommitsBounded(s', es[1..], id);
      if IsConsumed(s.file, id) {
        ConsumedStep(s, es[0], id);
      }
      assert Commits(s, es[0], id) ==> !IsConsumed(s.file, id) && IsConsumed(s'.file, id);
    }
  }

  // ----- Holders -----

  predicate Held(s: System, id: Bytes) {
    exists v :: v in s.claims && s.claims[v].id == id
  }

  predicate SoleHolders(s: System) {
    forall v, w | v in s.claims && w in s.claims && s.claims[v].id == s.claims[w].id :: v == w
  }

  /** The claim is backed by an entry: a reservation, or the mark of a commit that was saved but reported failed. */
  predicate IsBacked(f: File, c: Claim) {
    IsReserved(f, c.id) || (c.stage == Undoing && IsConsumed(f, c.id))
  }

  /** Every claim is backed, except that some IDs' entries may have gone with a removed file. */
  predicate BackedBut(s: System, lost: set<Bytes>) {
    forall v | v in s.claims :: s.claims[v].id in lost || IsBacked(s.file, s.claims[v])
  }

  predicate Backed(s: System) {
    BackedBut(s, {})
  }

  /** A process is granted an ID somebody holds because that reservation is 15 minutes old. */
  predicate TakesOver(s: System, e: Event) {
    && e.Begin? && Enabled(s, e) && Held(s, e.id) && IsReserved(s.file, e.id)
    && Stale(EntriesOf(s.file)[e.id], e.checked) && Succeeds(s.file, OpOf(s, e).value, e.io)
  }

  function HeldIds(s: System): set<Bytes> {
    set v | v in s.claims :: s.claims[v].id
  }

  /** The IDs whose present holder already held them when the file was last removed, after one more event. */
  function LostAfter(s: System, lost: set<Bytes>, e: Event): set<Bytes> {
    if WipesFile(s, e) then HeldIds(Apply(s, e)) else lost * HeldIds(Apply(s, e))
  }

  /** A process is granted an ID that its holder held when the file was removed, and that has no entry since. */
  predicate FindsItLost(s: System, lost: set<Bytes>, e: Event) {
    && e.Begin? && Enabled(s, e) && e.id in lost && e.id !in EntriesOf(s.file)
    && Succeeds(s.file, OpOf(s, e).value, e.io)
  }

  /** An ID that is granted although it is held was stale, or was lost with the file. */
  lemma GrantedOnHeld(s: System, lost: set<Bytes>, e: Event)
    requires BackedBut(s, lost) && e.Begin? && Enabled(s, e) && Held(s, e.id)
    requires Succeeds(s.file, OpOf(s, e).value, e.io)
    ensures TakesOver(s, e) || FindsItLost(s, lost, e)
  {
    var v :| v in s.claims && s.claims[v].id == e.id;
    ReservableExactly(s.file, e.id, e.checked, e.stamped, e.io);
  }

  /** A reservation attempt, granted or not, leaves every claim backed that was. */
  lemma BeginKeepsBacked(s: System, lost: set<Bytes>, e: Event)
    requires BackedBut(s, lost) && e.Begin? && Enabled(s, e) && !WipesFile(s, e)
    ensures BackedBut(Apply(s, e), lost)
  {
    var op := OpOf(s, e).value;
    forall v | v in Apply(s, e).claims && Apply(s, e).claims[v].id !in lost
      ensures IsBacked(Apply(s, e).file, Apply(s, e).claims[v])
    {
      if v in s.claims && s.claims[v].id != e.id {
        OtherIdsUntouched(s.file, op, e.io, s.claims[v].id);
      }
    }
  }

  /** Releasing or committing one claim leaves the claims on other IDs backed. */
  lemma EndKeepsBacked(s: System, lost: set<Bytes>, e: Event)
    requires BackedBut(s, lost) && SoleHolders(s) && !WipesFile(s, e)
    requires Enabled(s, e) && (e.Reject? || e.Undo? || e.Confirm?)
    ensures BackedBut(Apply(s, e), lost)
  {
    var op := OpOf(s, e).value;
    var s' := Apply(s, e);
    forall w | w in s'.claims && s'.claims[w].id !in lost ensures IsBacked(s'.file, s'.claims[w]) {
      if w != e.v {
        assert s.claims[w].id != s.claims[e.v].id;
        OtherIdsUntouched(s.file, op, e.io, s.claims[w].id);
      }
    }
  }

  lemma ApplyKeepsBacked(s: System, lost: set<Bytes>, e: Event)
    requires BackedBut(s, lost) && SoleHolders(s)
    ensures BackedBut(Apply(s, e), LostAfter(s, lost, e))
  {
    if Enabled(s, e) && !WipesFile(s, e) {
      if e.Begin? {
        BeginKeepsBacked(s, lost, e);
      } else if e.Reject? || e.Undo? || e.Confirm? {
        EndKeepsBacked(s, lost, e);
      }
    }
    forall v | v in Apply(s, e).claims ensures Apply(s, e).claims[v].id in HeldIds(Apply(s, e)) {
    }
  }

  /**
   From a state with sole holders, in which every claim is backed but those lost with the file, one event
   makes a second holder exactly by a takeover or by finding a lost entry.
   */
  lemma SecondHolderExactly(s: System, lost: set<Bytes>, e: Event)
    requires BackedBut(s, lost) && SoleHolders(s) && lost <= HeldIds(s)
    ensures SoleHolders(Apply(s, e)) <==> !TakesOver(s, e) && !FindsItLost(s, lost, e)
    ensures BackedBut(Apply(s, e), LostAfter(s, lost, e))
  {
    ApplyKeepsBacked(s, lost, e);
    if Enabled(s, e) && e.Begin? && Succeeds(s.file, OpOf(s, e).value, e.io) && Held(s, e.id) {
      GrantedOnHeld(s, lost, e);
      var v :| v in s.claims && s.claims[v].id == e.id;
      assert v in Apply(s, e).claims && e.v in Apply(s, e).claims && v != e.v;
    }
    if FindsItLost(s, lost, e) {
      assert e.id in HeldIds(s) && Held(s, e.id);
    }
  }

  predicate SoleThroughout(s: System, es: seq<Event>)
    decreases |es|
  {
    SoleHolders(s) && (es != [] ==> SoleThroughout(Apply(s, es[0]), es[1..]))
  }

  predicate NeverTakenOver(s: System, es: seq<Event>)
    decreases |es|
  {
    es == [] || (!TakesOver(s, es[0]) && NeverTakenOver(Apply(s, es[0]), es[1..]))
  }

  predicate NeverFoundLost(s: System, lost: set<Bytes>, es: seq<Event>)
    decreases |es|
  {
    es == [] ||
    (!FindsItLost(s, lost, es[0]) && NeverFoundLost(Apply(s, es[0]), LostAfter(s, lost, es[0]), es[1..]))
  }

  /**
   Over any run, removals of the file included, every ID has at most one holder throughout if and only
   if no reserve goes through on the 15 minutes old reservation of an ID that is still held, nor on an ID
   whose holder has held it since before the file was removed and which has had no entry since.
   */
  lemma {:induction false} OneHolderExactlyWithRemovals(s: System, lost: set<Bytes>, es: seq<Event>)
    requires BackedBut(s, lost) && SoleHolders(s) && lost <= HeldIds(s)
    ensures SoleThroughout(s, es) <==> NeverTakenOver(s, es) && NeverFoundLost(s, lost, es)
    decreases |es|
  {
    if es != [] {
      SecondHolderExactly(s, lost, es[0]);
      if SoleHolders(Apply(s, es[0])) {
        OneHolderExactlyWithRemovals(Apply(s, es[0]), LostAfter(s, lost, es[0]), es[1..]);
      }
    }
  }

  lemma {:induction false} NothingLostWithoutRemoval(s: System, es: seq<Event>)
    requires WipeCount(s, es) == 0
    ensures NeverFoundLost(s, {}, es)
    decreases |es|
  {
    if es != [] {
      assert LostAfter(s, {}, es[0]) == {};
      NothingLostWithoutRemoval(Apply(s, es[0]), es[1..]);
    }
  }

  /**
   As long as the file is not removed, every ID has at most one holder throughout a run if and only
   if no reservation that is still held is 15 minutes old when a reserve of that ID goes through.
   */
  lemma OneHolderExactly(s: System, es: seq<Event>)
    requires Backed(s) && SoleHolders(s) && WipeCount(s, es) == 0
    ensures SoleThroughout(s, es) <==> NeverTakenOver(s, es)
  {
    OneHolderExactlyWithRemovals(s, {}, es);
    NothingLostWithoutRemoval(s, es);
  }

  lemma {:induction false} SoleRunKeepsBacked(s: System, es: seq<Event>)
    requires Backed(s) && SoleThroughout(s, es) && WipeCount(s, es) == 0
    ensures Backed(Run(s, es)) && SoleHolders(Run(s, es))
    decreases |es|
  {
    if es != [] {
      ApplyKeepsBacked(s, {}, es[0]);
      SoleRunKeepsBacked(Apply(s, es[0]), es[1..]);
    }
  }

  /** While every ID has one holder, a held ID without any entry means that the file was removed. */
  lemma MissingEntryMeansRemoval(s: System, es: seq<Event>, id: Bytes)
    requires Backed(s) && SoleThroughout(s, es)
    requires Held(Run(s, es), id) && id !in EntriesOf(Run(s, es).file)
    ensures WipeCount(s, es) > 0
  {
    if WipeCount(s, es) == 0 {
      SoleRunKeepsBacked(s, es);
    }
  }

  /** Two processes hold `id`; the second was granted it when the first's reservation was 15 minutes old. */
  function TakenOver(id: Bytes, at: Time): System {
    var entries := map[id := Entry(Reserved, at + STALE_AFTER)];
    System(Whole(entries), map[0 := Claim(id, Validating), 1 := Claim(id, Validating)])
  }

  /** Takeovers do happen. */
  lemma TakeoverHappens(id: Bytes, at: Time)
    requires id != [] && at > ZERO_TIME
    ensures var later := at + STALE_AFTER;
            Run(Start(), [Begin(0, id, at, at, SMOOTH), Begin(1, id, later, later, SMOOTH)]) == TakenOver(id, at)
    ensures !SoleHolders(TakenOver(id, at))
  {
    var later := at + STALE_AFTER;
    var e0, e1 := Begin(0, id, at, at, SMOOTH), Begin(1, id, later, later, SMOOTH);
    var s1 := Apply(Start(), e0);
    assert s1 == System(Whole(map[id := Entry(Reserved, at)]), map[0 := Claim(id, Validating)]);
    assert map[id := Entry(Reserved, at)][id := Entry(Reserved, later)] == map[id := Entry(Reserved, later)];
    assert Apply(s1, e1) == TakenOver(id, at);
    assert [e0, e1][1..] == [e1] && [e1][1..] == [];
    assert Run(Start(), [e0, e1]) == Run(s1, [e1]) == Apply(s1, e1);
    assert 0 in TakenOver(id, at).claims && 1 in TakenOver(id, at).claims;
  }

  /** So do grants of a lost entry: another process's failed check removes the file under a fresh reservation. */
  lemma LostEntryHappens(id: Bytes, other: Bytes, at: Time)
    requires id != [] && at > ZERO_TIME && other != id
    ensures var removing := SMOOTH.(check := Removed);
            var es := [Begin(0, id, at, at, SMOOTH), Begin(2, other, at, at, removing),
                       Begin(1, id, at, at, SMOOTH)];
            Run(Start(), es).claims == map[0 := Claim(id, Validating), 1 := Claim(id, Validating)]
  {
    var e0, e1 := Begin(0, id, at, at, SMOOTH), Begin(2, other, at, at, SMOOTH.(check := Removed));
    var e2 := Begin(1, id, at, at, SMOOTH);
    var s1 := Apply(Start(), e0);
    assert s1 == System(Whole(map[id := Entry(Reserved, at)]), map[0 := Claim(id, Validating)]);
    var s2 := Apply(s1, e1);
    assert s2 == System(Missing, map[0 := Claim(id, Validating)]);
    assert [e0, e1, e2][1..] == [e1, e2] && [e1, e2][1..] == [e2] && [e2][1..] == [];
    assert Run(Start(), [e0, e1, e2]) == Run(s1, [e1, e2]) == Run(s2, [e2]) == Apply(s2, e2);
  }

  /**
   The first holder's late release then takes away the second's reservation, so that a third process
   is granted the ID at once although the second's reservation was fresh.
   */
  lemma LateReleaseHappens(id: Bytes, at: Time)
    requires id != [] && at > ZERO_TIME
    ensures var later := at + STALE_AFTER;
            Run(TakenOver(id, at), [Reject(0, SMOOTH), Begin(2, id, later, later, SMOOTH)]).claims ==
            map[1 := Claim(id, Validating), 2 := Claim(id, Validating)]
  {
    var e0, e1 := Reject(0, SMOOTH), Begin(2, id, at + STALE_AFTER, at + STALE_AFTER, SMOOTH);
    var s1 := Apply(TakenOver(id, at), e0);
    assert s1 == System(Whole(map[]), map[1 := Claim(id, Validating)]);
    assert [e0, e1][1..] == [e1] && [e1][1..] == [];
    assert Run(TakenOver(id, at), [e0, e1]) == Run(s1, [e1]) == Apply(s1, e1);
  }

  /** Or the first holder commits, and the second's validation is accepted all the same. */
  lemma LateAcceptanceHappens(id: Bytes, at: Time, now: Time)
    requires id != [] && at > ZERO_TIME
    ensures var s := Run(TakenOver(id, at), [Pass(0), Confirm(0, now, SMOOTH), Pass(1)]);
            IsConsumed(s.file, id) && AcceptedAs(s, 1, id)
  {
    var e0, e1, e2 := Pass(0), Confirm(0, now, SMOOTH), Pass(1);
    var s1 := Apply(TakenOver(id, at), e0);
    var s2 := Apply(s1, e1);
    assert IsReserved(s1.file, id) && s1.claims[1] == Claim(id, Validating);
    assert IsConsumed(s2.file, id) && s2.claims[1] == Claim(id, Validating);
    assert [e0, e1, e2][1..] == [e1, e2] && [e1, e2][1..] == [e2] && [e2][1..] == [];
    assert Run(TakenOver(id, at), [e0, e1, e2]) == Run(s1, [e1, e2]) == Run(s2, [e2]) == Apply(s2, e2);
  }

  // ----- A fresh reservation -----

  /** Process `v` alone holds `id`, under the entry it made at `since`. */
  predicate HoldsAlone(s: System, v: nat, id: Bytes, since: Time) {
    && v in s.claims && s.claims[v].id == id && s.claims[v].stage != Undoing
    && (forall w | w in s.claims && s.claims[w].id == id :: w == v)
    && id in EntriesOf(s.file) && EntriesOf(s.file)[id] == Entry(Reserved, since)
  }

  /** Neither an attempt on `id` once its entry is stale nor the end of the claim of `v`. */
  predicate LeavesInPeace(e: Event, v: nat, id: Bytes, since: Time) {
    match e
    case Begin(_, other, checked, _, _) => other == id ==> checked - since < STALE_AFTER
    case Pass(_) => true
    case _ => e.v != v
  }

  lemma HoldsAloneStep(s: System, e: Event, v: nat, id: Bytes, since: Time)
    requires HoldsAlone(s, v, id, since) && LeavesInPeace(e, v, id, since) && !WipesFile(s, e)
    ensures HoldsAlone(Apply(s, e), v, id, since)
  {
    if Enabled(s, e) && OpOf(s, e).Some? && OpOf(s, e).value.id != id {
      OtherIdsUntouched(s.file, OpOf(s, e).value, e.io, id);
    }
  }

  /**
   For 15 minutes a reservation protects its holder: over any run in which the clock readings of
   attempts on the ID stay below that, and the file is not removed, nobody else is granted it and
   nobody frees it, whatever the other processes do and however they fail.
   */
  lemma {:induction false} ReservationLasts(s: System, es: seq<Event>, v: nat, id: Bytes, since: Time)
    requires HoldsAlone(s, v, id, since) && WipeCount(s, es) == 0
    requires forall e | e in es :: LeavesInPeace(e, v, id, since)
    ensures HoldsAlone(Run(s, es), v, id, since)
    decreases |es|
  {
    if es != [] {
      assert es[0] in es;
      HoldsAloneStep(s, es[0], v, id, since);
      ReservationLasts(Apply(s, es[0]), es[1..], v, id, since);
    }
  }

  // ----- Releases -----

  predicate Releases(s: System, e: Event) {
    (e.Reject? || e.Undo?) && Enabled(s, e)
  }

  predicate AnotherHolds(s: System, v: nat) {
    v in s.claims && exists w :: w != v && w in s.claims && s.claims[w].id == s.claims[v].id
  }

  /** A release by `v` takes the reservation away from under another holder. */
  predicate FreesAnother(s: System, e: Event) {
    && Releases(s, e) && AnotherHolds(s, e.v)
    && IsReserved(s.file, s.claims[e.v].id) && !IsReserved(Apply(s, e).file, s.claims[e.v].id)
  }

  /**
   A release removes whatever reservation of the ID it finds, its own or not: it frees another
   holder exactly if there is one, the ID is reserved, and the release is published. With sole
   holders it never does.
   */
  lemma ReleaseFreesAnotherExactly(s: System, e: Event)
    requires Releases(s, e)
    ensures FreesAnother(s, e) <==>
              && AnotherHolds(s, e.v) && IsReserved(s.file, s.claims[e.v].id)
              && Publishes(s.file, Release(s.claims[e.v].id), e.io)
    ensures SoleHolders(s) ==> !FreesAnother(s, e)
  {
  }

  /** After a release a smooth reserve is granted exactly if the release was published or the entry is stale. */
  lemma ReservableAfterReleaseExactly(s: System, e: Event, checked: Time, stamped: Time)
    requires Releases(s, e) && Loaded(s.file, true).Some? && IsReserved(s.file, s.claims[e.v].id)
    ensures var id := s.claims[e.v].id;
            Succeeds(Apply(s, e).file, Reserve(id, checked, stamped), SMOOTH) <==>
              Publishes(s.file, Release(id), e.io) || Stale(EntriesOf(s.file)[id], checked)
  {
  }

  // ----- After a commit -----

  /** A validation of `id` that ends in acceptance is still possible. */
  ghost predicate CanStillAccept(s: System, id: Bytes) {
    exists es, v :: WipeCount(s, es) == 0 && AcceptedAs(Run(s, es), v, id)
  }

  predicate AcceptedAs(s: System, v: nat, id: Bytes) {
    v in s.claims && s.claims[v] == Claim(id, Accepted)
  }

  predicate UnderWay(s: System, id: Bytes) {
    exists v :: v in s.claims && s.claims[v].id == id && s.claims[v].stage != Undoing
  }

  lemma NothingUnderWayStep(s: System, e: Event, id: Bytes)
    requires IsConsumed(s.file, id) && !UnderWay(s, id) && !WipesFile(s, e)
    ensures IsConsumed(Apply(s, e).file, id) && !UnderWay(Apply(s, e), id)
  {
    ConsumedStep(s, e, id);
    var s' := Apply(s, e);
    forall v | v in s'.claims && s'.claims[v].id == id ensures s'.claims[v].stage == Undoing {
      assert v in s.claims && s.claims[v].id == id ==> s.claims[v].stage == Undoing;
    }
  }

  lemma {:induction false} NothingUnderWayLasts(s: System, es: seq<Event>, id: Bytes)
    requires IsConsumed(s.file, id) && !UnderWay(s, id) && WipeCount(s, es) == 0
    ensures !UnderWay(Run(s, es), id)
    decreases |es|
  {
    if es != [] {
      NothingUnderWayStep(s, es[0], id);
      NothingUnderWayLasts(Apply(s, es[0]), es[1..], id);
    }
  }

  /**
   Once an ID is consumed, a validation of it can still end in acceptance if and only if another
   process was already past its reservation; such a process can then no longer commit.
   */
  lemma AcceptedAfterCommitExactly(s: System, id: Bytes)
    requires IsConsumed(s.file, id)
    ensures CanStillAccept(s, id) <==> UnderWay(s, id)
  {
    if UnderWay(s, id) {
      var v :| v in s.claims && s.claims[v].id == id && s.claims[v].stage != Undoing;
      if s.claims[v].stage == Accepted {
        assert WipeCount(s, []) == 0 && AcceptedAs(Run(s, []), v, id);
      } else {
        var es := [Pass(v)];
        assert es[1..] == [] && Run(s, es) == Apply(s, Pass(v)) && WipeCount(s, es) == 0;
        assert AcceptedAs(Run(s, es), v, id);
      }
    } else {
      forall es, v | WipeCount(s, es) == 0 ensures !AcceptedAs(Run(s, es), v, id) {
        NothingUnderWayLasts(s, es, id);
      }
    }
  }

  /** A commit of a consumed ID is reported as failed and changes nothing, so a late acceptance ends in a failure. */
  lemma LateCommitFails(s: System, e: Event)
    requires e.Confirm? && Enabled(s, e) && IsConsumed(s.file, s.claims[e.v].id)
    ensures Apply(s, e).file == s.file && Apply(s, e).claims[e.v].stage == Undoing
  {
  }
}
