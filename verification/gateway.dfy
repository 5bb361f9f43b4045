/** The agent gateway to memory, its forgetting engine and the experience engine, over a
    storage that is a map; and the audit log they write. */
module Gateway {
  import opened Wrappers

  datatype MemoryType = Working | Episodic | Semantic | Procedural
  datatype ValidationStatus = Pending | Validated | Rejected

  /** Content and metadata play no part here. */
  datatype Record = Record(id: string, kind: MemoryType, status: ValidationStatus, operationId: string, agentId: string)

  datatype AgentStatus = AgentCreated | AgentValidated | AgentReady | AgentRunning | AgentSuspended | AgentTerminated
  datatype Capability = MemoryRetrieve | MemoryStore | MemoryForget

  /** The registry and the permission table as they are at a call. */
  datatype Env = Env(agents: map<string, AgentStatus>, permissions: map<string, set<Capability>>)

  datatype Action = Requested | Completed | Failed

  datatype Event = Event(kind: Capability, action: Action, success: bool, operationId: string, agentId: string, resource: string)

  datatype Error = EmptyAgentId | UnknownAgent | NotAuthorized | NoPermissions | LacksCapability
                 | InvalidAuditRecord | MemoryRefused | StorageError

  datatype State = State(records: map<string, Record>, events: seq<Event>)
  datatype Outcome<T> = Outcome(state: State, result: Result<T, Error>)

  // ---------- audit ----------

  /** An audit record is only valid with all three names. */
  predicate Recordable(e: Event) {
    e.operationId != "" && e.agentId != "" && e.resource != ""
  }

  function Audited(s: State, e: Event): State {
    s.(events := s.events + [e])
  }

  // ---------- _authorize ----------

  function AuthorizationError(env: Env, agent: string, c: Capability): (e: Option<Error>)
  {
    if agent == "" then Some(EmptyAgentId)
    else if agent !in env.agents then Some(UnknownAgent)
    else if !(env.agents[agent].AgentValidated? || env.agents[agent].AgentReady? || env.agents[agent].AgentRunning?)
      then Some(NotAuthorized)
    else if agent !in env.permissions then Some(NoPermissions)
    else if c !in env.permissions[agent] then Some(LacksCapability)
    else None
  }

  /** A refusal is audited as a failure, if the audit record can be made at all. */
  function Refused(s: State, c: Capability, op: string, agent: string, resource: string, e: Error): (State, Error) {
    var event := Event(c, Failed, false, op, agent, resource);
    if Recordable(event) then (Audited(s, event), e) else (s, InvalidAuditRecord)
  }

  // ---------- the kernel ----------

  /** The validator's checks and the kernel's own. */
  predicate KernelAccepts(r: Record) {
    r.id != "" && r.operationId != "" && r.agentId != "" && r.status.Validated?
  }

  predicate ForgettingAllowed(kind: MemoryType, policy: Option<string>, automatic: bool) {
    var explicit := policy.Some? && policy.value != "";
    match kind
    case Working => true
    case Episodic => !(automatic && !explicit)
    case Semantic => explicit
    case Procedural => !automatic && explicit
  }

  // ---------- what each call does ----------

  /** gateway.store; fault says that the storage raises. */
  function StoreCall(s: State, env: Env, agent: string, r: Record, op: string, fault: bool): (o: Outcome<()>)
  {
    var refusal := AuthorizationError(env, agent, MemoryStore);
    if refusal.Some? then
      var (s', e) := Refused(s, MemoryStore, op, agent, r.id, refusal.value);
      Outcome(s', Err(e))
    else if !Recordable(Event(MemoryStore, Requested, true, op, agent, r.id)) then Outcome(s, Err(InvalidAuditRecord))
    else
      var s1 := Audited(s, Event(MemoryStore, Requested, true, op, agent, r.id));
      if !KernelAccepts(r) || fault then
        Outcome(Audited(s1, Event(MemoryStore, Failed, false, op, agent, r.id)),
                Err(if KernelAccepts(r) then StorageError else MemoryRefused))
      else
        Outcome(Audited(s1.(records := s1.records[r.id := r]), Event(MemoryStore, Completed, true, op, agent, r.id)), Ok(()))
  }

  function RetrieveCall(s: State, env: Env, agent: string, id: string, op: string, fault: bool): (o: Outcome<Option<Record>>)
  {
    var refusal := AuthorizationError(env, agent, MemoryRetrieve);
    if refusal.Some? then
      var (s', e) := Refused(s, MemoryRetrieve, op, agent, id, refusal.value);
      Outcome(s', Err(e))
    else if !Recordable(Event(MemoryRetrieve, Requested, true, op, agent, id)) then Outcome(s, Err(InvalidAuditRecord))
    else
      var s1 := Audited(s, Event(MemoryRetrieve, Requested, true, op, agent, id));
      if fault then Outcome(Audited(s1, Event(MemoryRetrieve, Failed, false, op, agent, id)), Err(StorageError))
      else Outcome(Audited(s1, Event(MemoryRetrieve, Completed, true, op, agent, id)),
                   Ok(if id in s.records then Some(s.records[id]) else None))
  }

  /** How the storage behaves in one forget: as it should, or raising in one of the two
      calls that are made. */
  datatype Fault = NoFault | RetrieveRaises | DeleteRaises

  /** The forgetting engine; its own audit events are never "completed". */
  function EngineForget(s: State, id: string, op: string, agent: string, policy: Option<string>,
                        automatic: bool, fault: Fault): (o: Outcome<bool>)
  {
    if id == "" || op == "" || agent == "" then Outcome(s, Err(InvalidAuditRecord))
    else if fault.RetrieveRaises? then Outcome(s, Err(StorageError))
    else
      var removes := id in s.records && ForgettingAllowed(s.records[id].kind, policy, automatic) && !fault.DeleteRaises?;
      Outcome(Audited(s.(records := if removes then s.records - {id} else s.records),
                      Event(MemoryForget, Requested, removes, op, agent, id)), Ok(removes))
  }

  /** What the record's metadata say about its expiry. */
  datatype Expiry = NoExpiry | UnreadableExpiry | NotYet | Expired

  const POLICY_ID := "memory-lifecycle-policy:v1"

  /** forget_if_expired_working_memory, which nobody has to be authorized for. */
  function ExpireCall(s: State, id: string, op: string, agent: string, expiry: Expiry, fault: Fault): (o: Outcome<bool>)
  {
    if id == "" || op == "" || agent == "" then Outcome(s, Err(InvalidAuditRecord))
    else if fault.RetrieveRaises? then Outcome(s, Err(StorageError))
    else if id !in s.records || !s.records[id].kind.Working? then Outcome(s, Ok(false))
    else
      match expiry
      case NoExpiry => Outcome(s, Ok(false))
      case UnreadableExpiry => Outcome(Audited(s, Event(MemoryForget, Requested, false, op, agent, id)), Ok(false))
      case NotYet => Outcome(s, Ok(false))
      case Expired => EngineForget(s, id, op, agent, Some(POLICY_ID), true, fault)
  }

  function ForgetCall(s: State, env: Env, agent: string, id: string, op: string, policy: Option<string>, fault: Fault): (o: Outcome<bool>)
  {
    var refusal := AuthorizationError(env, agent, MemoryForget);
    if refusal.Some? then
      var (s', e) := Refused(s, MemoryForget, op, agent, id, refusal.value);
      Outcome(s', Err(e))
    else if !Recordable(Event(MemoryForget, Requested, true, op, agent, id)) then Outcome(s, Err(InvalidAuditRecord))
    else
      var s1 := Audited(s, Event(MemoryForget, Requested, true, op, agent, id));
      var forgotten := EngineForget(s1, id, op, agent, policy, false, fault);
      if forgotten.result.Err? then forgotten
      else Outcome(Audited(forgotten.state, Event(MemoryForget, Completed, forgotten.result.value, op, agent, id)), forgotten.result)
  }

  /** The record an experience capture makes; its model rejects empty names. */
  function CaptureCall(s: State, id: string, op: string, agent: string, fault: bool): (o: Outcome<Record>)
  {
    var r := Record(id, Episodic, Validated, op, agent);
    if id == "" || op == "" || agent == "" then Outcome(s, Err(InvalidAuditRecord))
    else if fault then Outcome(Audited(s, Event(MemoryStore, Failed, false, op, agent, id)), Err(StorageError))
    else Outcome(Audited(s.(records := s.records[id := r]), Event(MemoryStore, Completed, true, op, agent, id)), Ok(r))
  }

  // ---------- the classes ----------

  class MemoryStorage {
    var records: map<string, Record>
    constructor () ensures records == map[] { records := map[]; }
  }

  class AuditSink {
    var events: seq<Event>
    constructor () ensures events == [] { events := []; }

    method Record(e: Event)
      modifies this
      ensures events == old(events) + [e]
    {
      events := events + [e];
    }
  }

  class AgentGateway {
    const storage: MemoryStorage
    const sink: AuditSink

    constructor (storage: MemoryStorage, sink: AuditSink)
      ensures this.storage == storage && this.sink == sink
    {
      this.storage, this.sink := storage, sink;
    }

    function View(): State
      reads storage, sink
    {
      State(storage.records, sink.events)
    }

    /** _audit: building the record can fail. */
    method Audit(e: Event) returns (ok: bool)
      modifies sink
      ensures ok <==> Recordable(e)
      ensures sink.events == if ok then old(sink.events) + [e] else old(sink.events)
    {
      ok := Recordable(e);
      if ok {
        sink.Record(e);
      }
    }

    method Authorize(env: Env, agent: string, c: Capability, op: string, resource: string) returns (err: Option<Error>)
      modifies sink
      ensures var refusal := AuthorizationError(env, agent, c);
        && (refusal.None? ==> err.None? && sink.events == old(sink.events))
        && (refusal.Some? ==>
              var (s', e) := Refused(old(View()), c, op, agent, resource, refusal.value);
              View() == s' && err == Some(e))
    {
      var refusal := AuthorizationError(env, agent, c);
      if refusal.None? {
        return None;
      }
      var ok := Audit(Event(c, Failed, false, op, agent, resource));
      return Some(if ok then refusal.value else InvalidAuditRecord);
    }

    method Store(env: Env, agent: string, r: Record, op: string, fault: bool) returns (result: Result<(), Error>)
      modifies storage, sink
      ensures Outcome(View(), result) == StoreCall(old(View()), env, agent, r, op, fault)
    {
      var refusal := Authorize(env, agent, MemoryStore, op, r.id);
      if refusal.Some? {
        return Err(refusal.value);
      }
      var ok := Audit(Event(MemoryStore, Requested, true, op, agent, r.id));
      if !ok {
        return Err(InvalidAuditRecord);
      }
      if !KernelAccepts(r) || fault {
        ok := Audit(Event(MemoryStore, Failed, false, op, agent, r.id));
        return Err(if KernelAccepts(r) then StorageError else MemoryRefused);
      }
      storage.records := storage.records[r.id := r];
      ok := Audit(Event(MemoryStore, Completed, true, op, agent, r.id));
      return Ok(());
    }

    method Retrieve(env: Env, agent: string, id: string, op: string, fault: bool) returns (result: Result<Option<Record>, Error>)
      modifies sink
      ensures Outcome(View(), result) == RetrieveCall(old(View()), env, agent, id, op, fault)
    {
      var refusal := Authorize(env, agent, MemoryRetrieve, op, id);
      if refusal.Some? {
        return Err(refusal.value);
      }
      var ok := Audit(Event(MemoryRetrieve, Requested, true, op, agent, id));
      if !ok {
        return Err(InvalidAuditRecord);
      }
      if fault {
        ok := Audit(Event(MemoryRetrieve, Failed, false, op, agent, id));
        return Err(StorageError);
      }
      ok := Audit(Event(MemoryRetrieve, Completed, true, op, agent, id));
      return Ok(if id in storage.records then Some(storage.records[id]) else None);
    }

    method Forget(env: Env, agent: string, id: string, op: string, policy: Option<string>, fault: Fault)
      returns (result: Result<bool, Error>)
      modifies storage, sink
      ensures Outcome(View(), result) == ForgetCall(old(View()), env, agent, id, op, policy, fault)
    {
      var refusal := Authorize(env, agent, MemoryForget, op, id);
      if refusal.Some? {
        return Err(refusal.value);
      }
      var ok := Audit(Event(MemoryForget, Requested, true, op, agent, id));
      if !ok {
        return Err(InvalidAuditRecord);
      }
      result := EngineForgets(id, op, agent, policy, false, fault);
      if result.Err? {
        return;
      }
      ok := Audit(Event(MemoryForget, Completed, result.value, op, agent, id));
    }

    /** MemoryForgettingEngine.forget, over the same storage and sink. */
    method EngineForgets(id: string, op: string, agent: string, policy: Option<string>, automatic: bool, fault: Fault)
      returns (result: Result<bool, Error>)
      modifies storage, sink
      ensures Outcome(View(), result) == EngineForget(old(View()), id, op, agent, policy, automatic, fault)
    {
      if id == "" || op == "" || agent == "" {
        return Err(InvalidAuditRecord);
      }
      if fault == RetrieveRaises {
        return Err(StorageError);
      }
      if id !in storage.records {
        sink.Record(Event(MemoryForget, Requested, false, op, agent, id));
        return Ok(false);
      }
      var record := storage.records[id];
      if !ForgettingAllowed(record.kind, policy, automatic) {
        sink.Record(Event(MemoryForget, Requested, false, op, agent, id));
        return Ok(false);
      }
      if fault == DeleteRaises {
        sink.Record(Event(MemoryForget, Requested, false, op, agent, id));
        return Ok(false);
      }
      storage.records := storage.records - {id};
      sink.Record(Event(MemoryForget, Requested, true, op, agent, id));
      return Ok(true);
    }

    method ForgetIfExpired(id: string, op: string, agent: string, expiry: Expiry, fault: Fault)
      returns (result: Result<bool, Error>)
      modifies storage, sink
      ensures Outcome(View(), result) == ExpireCall(old(View()), id, op, agent, expiry, fault)
    {
      if id == "" || op == "" || agent == "" {
        return Err(InvalidAuditRecord);
      }
      if fault == RetrieveRaises {
        return Err(StorageError);
      }
      if id !in storage.records {
        return Ok(false);
      }
      if storage.records[id].kind != Working {
        return Ok(false);
      }
      if expiry == NoExpiry {
        return Ok(false);
      }
      if expiry == UnreadableExpiry {
        sink.Record(Event(MemoryForget, Requested, false, op, agent, id));
        return Ok(false);
      }
      if expiry == NotYet {
        return Ok(false);
      }
      result := EngineForgets(id, op, agent, Some(POLICY_ID), true, fault);
    }

    /** ExperienceEngine._store_and_audit for a freshly made record. */
    method Capture(id: string, op: string, agent: string, fault: bool) returns (result: Result<Record, Error>)
      modifies storage, sink
      ensures Outcome(View(), result) == CaptureCall(old(View()), id, op, agent, fault)
    {
      if id == "" || op == "" || agent == "" {
        return Err(InvalidAuditRecord);
      }
      var r := Record(id, Episodic, Validated, op, agent);
      if fault {
        sink.Record(Event(MemoryStore, Failed, false, op, agent, id));
        return Err(StorageError);
      }
      storage.records := storage.records[id := r];
      sink.Record(Event(MemoryStore, Completed, true, op, agent, id));
      return Ok(r);
    }
  }

  // ---------- replay ----------

  /** The ids the log says are stored: completed successful stores add, completed
      successful forgets remove. */
  function Replay(events: seq<Event>): (ids: set<string>)
  {
    if events == [] then {} else
      var ids, e := Replay(events[..|events| - 1]), events[|events| - 1];
      if !(e.action.Completed? && e.success) then ids
      else match e.kind
        case MemoryStore => ids + {e.resource}
        case MemoryForget => ids - {e.resource}
        case MemoryRetrieve => ids
  }

  lemma ReplayNext(events: seq<Event>, e: Event)
    ensures Replay(events + [e]) ==
      if !(e.action.Completed? && e.success) then Replay(events)
      else match e.kind
        case MemoryStore => Replay(events) + {e.resource}
        case MemoryForget => Replay(events) - {e.resource}
        case MemoryRetrieve => Replay(events)
  {
    assert (events + [e])[..|events|] == events;
  }

  // ---------- runs ----------

  datatype Call =
    | Store(agent: string, record: Record, op: string, storeFault: bool)
    | Retrieve(agent: string, id: string, op: string, retrieveFault: bool)
    | Forget(agent: string, id: string, op: string, policy: Option<string>, fault: Fault)
    | Capture(id: string, op: string, agent: string, captureFault: bool)
    | Expire(id: string, op: string, agent: string, expiry: Expiry, expireFault: Fault)

  function Next(s: State, env: Env, call: Call): (s': State)
  {
    match call
    case Store(agent, record, op, fault) => StoreCall(s, env, agent, record, op, fault).state
    case Retrieve(agent, id, op, fault) => RetrieveCall(s, env, agent, id, op, fault).state
    case Forget(agent, id, op, policy, fault) => ForgetCall(s, env, agent, id, op, policy, fault).state
    case Capture(id, op, agent, fault) => CaptureCall(s, id, op, agent, fault).state
    case Expire(id, op, agent, expiry, fault) => ExpireCall(s, id, op, agent, expiry, fault).state
  }

  /** A run of calls, each with the registry and permissions of its time. */
  function Run(calls: seq<(Env, Call)>): (s: State)
  {
    if calls == [] then State(map[], []) else
      Next(Run(calls[..|calls| - 1]), calls[|calls| - 1].0, calls[|calls| - 1].1)
  }

  /** The ids whose records were removed automatically and not stored since. */
  function Escaped(calls: seq<(Env, Call)>): (ids: set<string>)
  {
    if calls == [] then {} else
      var front := calls[..|calls| - 1];
      if calls[|calls| - 1].1.Expire?
      then Escaped(front) + (Run(front).records.Keys - Run(calls).records.Keys)
      else Escaped(front) - Run(calls).records.Keys
  }

  ghost predicate RemovedAt(calls: seq<(Env, Call)>, k: nat, id: string)
    requires k < |calls|
  {
    && calls[k].1.Expire? && id in Run(calls[..k]).records
    && forall m :: k < m <= |calls| ==> id !in Run(calls[..m]).records
  }

  lemma EscapedMeaning(calls: seq<(Env, Call)>, id: string)
    ensures id in Escaped(calls) <==> exists k :: 0 <= k < |calls| && RemovedAt(calls, k, id)
  {
    hide Escaped, RemovedAt;
    if id in Escaped(calls) {
      var k := EscapedWasRemoved(calls, id);
    }
    if k :| 0 <= k < |calls| && RemovedAt(calls, k, id) {
      RemovedEscapes(calls, k, id);
    }
  }

  lemma {:induction false} EscapedWasRemoved(calls: seq<(Env, Call)>, id: string) returns (k: nat)
    requires id in Escaped(calls)
    ensures k < |calls| && RemovedAt(calls, k, id)
  {
    hide Next, RemovedAt;
    var n := |calls| - 1;
    NotEscapedWhileStored(calls[..n], id);
    NotEscapedWhileStored(calls, id);
    if id in Run(calls[..n]).records {
      k := n;
      RemovedLast(calls, id);
    } else {
      k := EscapedWasRemoved(calls[..n], id);
      RemovedBefore(calls, k, id);
    }
  }

  lemma {:induction false} RemovedEscapes(calls: seq<(Env, Call)>, k: nat, id: string)
    requires k < |calls| && RemovedAt(calls, k, id)
    ensures id in Escaped(calls)
  {
    hide Next, RemovedAt;
    if k == |calls| - 1 {
      RemovedLast(calls, id);
    } else {
      RemovedBefore(calls, k, id);
      RemovedEscapes(calls[..|calls| - 1], k, id);
    }
  }

  lemma RemovedLast(calls: seq<(Env, Call)>, id: string)
    requires calls != []
    ensures var n := |calls| - 1;
      RemovedAt(calls, n, id) <==> calls[n].1.Expire? && id in Run(calls[..n]).records && id !in Run(calls).records
  {
    hide Run;
    assert calls[..|calls|] == calls;
  }

  lemma RemovedBefore(calls: seq<(Env, Call)>, k: nat, id: string)
    requires k < |calls| - 1
    ensures RemovedAt(calls, k, id) <==> RemovedAt(calls[..|calls| - 1], k, id) && id !in Run(calls).records
  {
    hide Run;
    var front := calls[..|calls| - 1];
    assert calls[..|calls|] == calls && calls[k] == front[k];
    assert forall m :: 0 <= m <= |front| ==> front[..m] == calls[..m];
  }

  lemma ExpireStoresNothing(s: State, env: Env, call: Call)
    requires call.Expire?
    ensures Next(s, env, call).records.Keys <= s.records.Keys
  {
  }

  lemma {:induction false} NotEscapedWhileStored(calls: seq<(Env, Call)>, id: string)
    ensures !(id in Escaped(calls) && id in Run(calls).records)
  {
    if calls != [] {
      hide Next;
      var front := calls[..|calls| - 1];
      NotEscapedWhileStored(front, id);
      if calls[|calls| - 1].1.Expire? { ExpireStoresNothing(Run(front), calls[|calls| - 1].0, calls[|calls| - 1].1); }
    }
  }

  // ---------- what every call keeps ----------

  /** The replayed ids are the stored ones and the escaped ones; records are under their
      ids and complete. */
  ghost predicate Inv(s: State, escaped: set<string>) {
    && Replay(s.events) == s.records.Keys + escaped
    && s.records.Keys !! escaped
    && forall id :: id in s.records ==> s.records[id].id == id && KernelAccepts(s.records[id])
  }

  /** An event that is not a completed success leaves the replay alone. */
  lemma Uneventful(s: State, x: set<string>, e: Event)
    requires Inv(s, x) && !(e.action.Completed? && e.success)
    ensures Inv(Audited(s, e), x)
  {
    ReplayNext(s.events, e);
  }

  lemma Stored(s: State, x: set<string>, r: Record, op: string, agent: string)
    requires Inv(s, x) && KernelAccepts(r)
    ensures Inv(Audited(s.(records := s.records[r.id := r]), Event(MemoryStore, Completed, true, op, agent, r.id)), x - {r.id})
  {
    ReplayNext(s.events, Event(MemoryStore, Completed, true, op, agent, r.id));
  }

  lemma StoreKeeps(s: State, x: set<string>, env: Env, agent: string, r: Record, op: string, fault: bool)
    requires Inv(s, x)
    ensures var s' := StoreCall(s, env, agent, r, op, fault).state; Inv(s', x - s'.records.Keys)
  {
    hide Replay;
    var s1 := Audited(s, Event(MemoryStore, Requested, true, op, agent, r.id));
    Uneventful(s, x, Event(MemoryStore, Failed, false, op, agent, r.id));
    Uneventful(s, x, Event(MemoryStore, Requested, true, op, agent, r.id));
    Uneventful(s1, x, Event(MemoryStore, Failed, false, op, agent, r.id));
    assert x - s.records.Keys == x;
    if KernelAccepts(r) {
      Stored(s1, x, r, op, agent);
      assert x - s.records[r.id := r].Keys == x - {r.id};
    }
  }

  lemma CaptureKeeps(s: State, x: set<string>, id: string, op: string, agent: string, fault: bool)
    requires Inv(s, x)
    ensures var s' := CaptureCall(s, id, op, agent, fault).state; Inv(s', x - s'.records.Keys)
  {
    hide Replay;
    Uneventful(s, x, Event(MemoryStore, Failed, false, op, agent, id));
    assert x - s.records.Keys == x;
    if id != "" && op != "" && agent != "" {
      var r := Record(id, Episodic, Validated, op, agent);
      Stored(s, x, r, op, agent);
      assert x - s.records[id := r].Keys == x - {id};
    }
  }

  lemma RetrieveKeeps(s: State, x: set<string>, env: Env, agent: string, id: string, op: string, fault: bool)
    requires Inv(s, x)
    ensures Inv(RetrieveCall(s, env, agent, id, op, fault).state, x)
    ensures RetrieveCall(s, env, agent, id, op, fault).state.records == s.records
  {
    Uneventful(s, x, Event(MemoryRetrieve, Failed, false, op, agent, id));
    var s1 := Audited(s, Event(MemoryRetrieve, Requested, true, op, agent, id));
    Uneventful(s, x, Event(MemoryRetrieve, Requested, true, op, agent, id));
    Uneventful(s1, x, Event(MemoryRetrieve, Failed, false, op, agent, id));
    ReplayNext(s1.events, Event(MemoryRetrieve, Completed, true, op, agent, id));
  }

  lemma ForgetKeeps(s: State, x: set<string>, env: Env, agent: string, id: string, op: string, policy: Option<string>, fault: Fault)
    requires Inv(s, x)
    ensures Inv(ForgetCall(s, env, agent, id, op, policy, fault).state, x)
  {
    hide Inv, Replay;
    Uneventful(s, x, Event(MemoryForget, Failed, false, op, agent, id));
    var s1 := Audited(s, Event(MemoryForget, Requested, true, op, agent, id));
    Uneventful(s, x, Event(MemoryForget, Requested, true, op, agent, id));
    var o := EngineForget(s1, id, op, agent, policy, false, fault);
    if o.result.Ok? { EngineKeeps(s1, x, id, op, agent, policy, fault); }
  }

  lemma EngineKeeps(s: State, x: set<string>, id: string, op: string, agent: string, policy: Option<string>, fault: Fault)
    requires Inv(s, x) && EngineForget(s, id, op, agent, policy, false, fault).result.Ok?
    ensures var o := EngineForget(s, id, op, agent, policy, false, fault);
      Inv(Audited(o.state, Event(MemoryForget, Completed, o.result.value, op, agent, id)), x)
  {
    var o := EngineForget(s, id, op, agent, policy, false, fault);
    ReplayNext(s.events, Event(MemoryForget, Requested, o.result.value, op, agent, id));
    ReplayNext(o.state.events, Event(MemoryForget, Completed, o.result.value, op, agent, id));
  }

  /** The automatic removal logs no completed event: what it removes joins the escaped. */
  lemma ExpireKeeps(s: State, x: set<string>, id: string, op: string, agent: string, expiry: Expiry, fault: Fault)
    requires Inv(s, x)
    ensures var s' := ExpireCall(s, id, op, agent, expiry, fault).state;
      Inv(s', x + (s.records.Keys - s'.records.Keys))
  {
    hide Replay;
    ReplayNext(s.events, Event(MemoryForget, Requested, false, op, agent, id));
    ReplayNext(s.events, Event(MemoryForget, Requested, true, op, agent, id));
    assert x + (s.records.Keys - s.records.Keys) == x;
    if id in s.records {
      assert s.records.Keys - (s.records - {id}).Keys == {id};
      assert s.records.Keys + x == (s.records - {id}).Keys + (x + {id});
    }
  }

  lemma {:induction false} RunKeepsInv(calls: seq<(Env, Call)>)
    ensures Inv(Run(calls), Escaped(calls))
  {
    if calls != [] {
      var front := calls[..|calls| - 1];
      var s, x, env := Run(front), Escaped(front), calls[|calls| - 1].0;
      RunKeepsInv(front);
      NothingToLeave(s, x);
      hide StoreCall, RetrieveCall, ForgetCall, ExpireCall, CaptureCall, Inv;
      match calls[|calls| - 1].1
      case Store(agent, record, op, fault) => StoreKeeps(s, x, env, agent, record, op, fault);
      case Retrieve(agent, id, op, fault) => RetrieveKeeps(s, x, env, agent, id, op, fault);
      case Forget(agent, id, op, policy, fault) =>
        ForgetKeeps(s, x, env, agent, id, op, policy, fault);
        NothingToLeave(Next(s, env, Forget(agent, id, op, policy, fault)), x);
      case Capture(id, op, agent, fault) => CaptureKeeps(s, x, id, op, agent, fault);
      case Expire(id, op, agent, expiry, fault) => ExpireKeeps(s, x, id, op, agent, expiry, fault);
    }
  }

  lemma NothingToLeave(s: State, x: set<string>)
    requires Inv(s, x)
    ensures x - s.records.Keys == x
  {
  }

  // ---------- the audit log ----------

  /** Audit replay: after every run of gateway calls, captures and automatic forgetting,
      whatever the storage faults, the completed successful events in the log add up to the
      ids stored and the escaped ones; so to exactly the ids stored if and only if none has
      escaped. Every stored record is under its id and validated. */
  lemma AuditReplay(calls: seq<(Env, Call)>)
    ensures var s := Run(calls);
      && Replay(s.events) == s.records.Keys + Escaped(calls) && s.records.Keys !! Escaped(calls)
      && (Replay(s.events) == s.records.Keys <==> Escaped(calls) == {})
      && forall id :: id in s.records ==> s.records[id].id == id && s.records[id].status.Validated?
  {
    RunKeepsInv(calls);
  }

  /** None has in a run without automatic forgetting. */
  lemma {:induction false} NothingEscapesTheGateway(calls: seq<(Env, Call)>)
    requires forall i :: 0 <= i < |calls| ==> !calls[i].1.Expire?
    ensures Escaped(calls) == {} && Replay(Run(calls).events) == Run(calls).records.Keys
  {
    if calls != [] { NothingEscapesTheGateway(calls[..|calls| - 1]); }
    AuditReplay(calls);
  }

  /** Every automatic removal escapes: the replay then shows the record, exactly it too
      many. */
  lemma AutomaticForgettingEscapesReplay(s: State, id: string, op: string, agent: string)
    requires Inv(s, {}) && id in s.records && s.records[id].kind.Working? && op != "" && agent != ""
    ensures var o := ExpireCall(s, id, op, agent, Expired, NoFault);
      && o.result == Ok(true)
      && id !in o.state.records && Replay(o.state.events) == o.state.records.Keys + {id}
  {
    ReplayNext(s.events, Event(MemoryForget, Requested, true, op, agent, id));
  }

  // ---------- who may do what ----------

  /** Authorization: a registered agent with a name that is validated, ready or running, has
      a permission set, and has the capability in it. */
  lemma AuthorizedExactly(env: Env, agent: string, c: Capability)
    ensures AuthorizationError(env, agent, c).None? <==>
      && agent != "" && agent in env.agents
      && (env.agents[agent] == AgentValidated || env.agents[agent] == AgentReady || env.agents[agent] == AgentRunning)
      && agent in env.permissions && c in env.permissions[agent]
    ensures var e := AuthorizationError(env, agent, c);
      && (e == Some(EmptyAgentId) <==> agent == "")
      && (e == Some(UnknownAgent) <==> agent != "" && agent !in env.agents)
      && (e == Some(LacksCapability) ==> agent in env.permissions && c !in env.permissions[agent])
      && (e == Some(NoPermissions) ==> agent !in env.permissions)
      && (e == Some(NotAuthorized) <==>
            && agent != "" && agent in env.agents
            && env.agents[agent] != AgentValidated && env.agents[agent] != AgentReady && env.agents[agent] != AgentRunning)
      && e != Some(InvalidAuditRecord) && e != Some(MemoryRefused) && e != Some(StorageError)
  {
  }

  /** A store, by its conditions: what it answers, what it stores and what it logs. */
  lemma StoreExactly(s: State, env: Env, agent: string, r: Record, op: string, fault: bool)
    ensures var o := StoreCall(s, env, agent, r, op, fault);
      var may := AuthorizationError(env, agent, MemoryStore).None?;
      var named := op != "" && agent != "" && r.id != "";
      && (o.result.Ok? <==>
            may && named && !fault && r.operationId != "" && r.agentId != "" && r.status == Validated)
      && o.state.records == (if o.result.Ok? then s.records[r.id := r] else s.records)
      && o.state.events == s.events +
           (if !named then []
            else if !may then [Event(MemoryStore, Failed, false, op, agent, r.id)]
            else [Event(MemoryStore, Requested, true, op, agent, r.id)] +
                 [if o.result.Ok? then Event(MemoryStore, Completed, true, op, agent, r.id)
                  else Event(MemoryStore, Failed, false, op, agent, r.id)])
      && (o.result == Err(InvalidAuditRecord) <==> !named)
      && (named && !may ==> o.result == Err(AuthorizationError(env, agent, MemoryStore).value))
      && (named && may ==>
            var complete := r.operationId != "" && r.agentId != "" && r.status == Validated;
            && (!complete <==> o.result == Err(MemoryRefused))
            && (complete && fault <==> o.result == Err(StorageError)))
  {
  }

  /** A retrieve: storage is left alone, and the answer is what it holds. */
  lemma RetrieveExactly(s: State, env: Env, agent: string, id: string, op: string, fault: bool)
    ensures var o := RetrieveCall(s, env, agent, id, op, fault);
      var may := AuthorizationError(env, agent, MemoryRetrieve).None?;
      var named := op != "" && agent != "" && id != "";
      && (o.result.Ok? <==> may && named && !fault)
      && (o.result.Ok? ==> o.result.value == if id in s.records then Some(s.records[id]) else None)
      && o.state.records == s.records
      && o.state.events == s.events +
           (if !named then []
            else if !may then [Event(MemoryRetrieve, Failed, false, op, agent, id)]
            else [Event(MemoryRetrieve, Requested, true, op, agent, id)] +
                 [if fault then Event(MemoryRetrieve, Failed, false, op, agent, id)
                  else Event(MemoryRetrieve, Completed, true, op, agent, id)])
      && (o.result == Err(InvalidAuditRecord) <==> !named)
      && (named && !may ==> o.result == Err(AuthorizationError(env, agent, MemoryRetrieve).value))
      && (named && may && fault ==> o.result == Err(StorageError))
  {
  }

  /** A forget through the gateway: the engine logs its own event, never a completed one,
      and the gateway completes it with the engine's answer. */
  lemma ForgetExactly(s: State, env: Env, agent: string, id: string, op: string, policy: Option<string>, fault: Fault)
    ensures var o := ForgetCall(s, env, agent, id, op, policy, fault);
      var may := AuthorizationError(env, agent, MemoryForget).None?;
      var named := op != "" && agent != "" && id != "";
      var gone := id in s.records && fault.NoFault?
        && (s.records[id].kind.Semantic? || s.records[id].kind.Procedural? ==> policy.Some? && policy.value != "");
      && (o.result.Ok? <==> may && named && !fault.RetrieveRaises?)
      && (o.result.Ok? ==> o.result.value == gone)
      && o.state.records == (if o.result == Ok(true) then s.records - {id} else s.records)
      && o.state.events == s.events +
           (if !named then []
            else if !may then [Event(MemoryForget, Failed, false, op, agent, id)]
            else [Event(MemoryForget, Requested, true, op, agent, id)] +
                 (if fault.RetrieveRaises? then []
                  else [Event(MemoryForget, Requested, gone, op, agent, id),
                        Event(MemoryForget, Completed, gone, op, agent, id)]))
      && (o.result == Err(InvalidAuditRecord) <==> !named)
      && (named && !may ==> o.result == Err(AuthorizationError(env, agent, MemoryForget).value))
      && (named && may && fault.RetrieveRaises? ==> o.result == Err(StorageError))
  {
  }

  /** A capture needs no authorization and overwrites what is there. */
  lemma CaptureExactly(s: State, id: string, op: string, agent: string, fault: bool)
    ensures var o := CaptureCall(s, id, op, agent, fault);
      var named := id != "" && op != "" && agent != "";
      && (o.result.Ok? <==> named && !fault)
      && (o.result.Ok? ==> o.result.value == Record(id, Episodic, Validated, op, agent))
      && (o.result == Err(InvalidAuditRecord) <==> !named)
      && (o.result == Err(StorageError) <==> named && fault)
      && o.state.records == (if o.result.Ok? then s.records[id := Record(id, Episodic, Validated, op, agent)] else s.records)
      && o.state.events == s.events +
           (if !named then []
            else [if fault then Event(MemoryStore, Failed, false, op, agent, id)
                  else Event(MemoryStore, Completed, true, op, agent, id)])
  {
  }

  /** The engine by itself: working memory always goes, episodic unless it is automatic and
      has no policy id, semantic with one, procedural with one if it is not automatic. */
  lemma EngineExactly(s: State, id: string, op: string, agent: string, policy: Option<string>, automatic: bool, fault: Fault)
    ensures var o := EngineForget(s, id, op, agent, policy, automatic, fault);
      var named := id != "" && op != "" && agent != "";
      var cited := policy.Some? && policy.value != "";
      var gone := id in s.records && fault.NoFault?
        && (s.records[id].kind.Episodic? && automatic ==> cited)
        && (s.records[id].kind.Semantic? ==> cited)
        && (s.records[id].kind.Procedural? ==> cited && !automatic);
      && (o.result.Ok? <==> named && !fault.RetrieveRaises?)
      && (o.result.Ok? ==> o.result.value == gone)
      && (o.result == Err(InvalidAuditRecord) <==> !named)
      && (o.result == Err(StorageError) <==> named && fault.RetrieveRaises?)
      && o.state.records == (if o.result == Ok(true) then s.records - {id} else s.records)
      && o.state.events == s.events + (if o.result.Ok? then [Event(MemoryForget, Requested, gone, op, agent, id)] else [])
  {
  }

  /** The automatic forgetting is silent about what it leaves alone, unless the expiry
      cannot be read. */
  lemma ExpireExactly(s: State, id: string, op: string, agent: string, expiry: Expiry, fault: Fault)
    ensures var o := ExpireCall(s, id, op, agent, expiry, fault);
      var named := id != "" && op != "" && agent != "";
      var due := named && !fault.RetrieveRaises? && id in s.records && s.records[id].kind.Working?;
      && (o.result.Ok? <==> named && !fault.RetrieveRaises?)
      && (o.result.Ok? ==> (o.result.value <==> due && expiry.Expired? && fault.NoFault?))
      && (o.result == Err(InvalidAuditRecord) <==> !named)
      && (o.result == Err(StorageError) <==> named && fault.RetrieveRaises?)
      && o.state.records == (if o.result == Ok(true) then s.records - {id} else s.records)
      && o.state.events == s.events +
           (if due && (expiry.Expired? || expiry.UnreadableExpiry?)
            then [Event(MemoryForget, Requested, o.result == Ok(true), op, agent, id)] else [])
  {
  }

  // ---------- who may change what ----------

  /** A record disappears by exactly two kinds of call: a forget of it with working storage
      by an agent that may, under a non-empty policy id if it is semantic or procedural; or
      the automatic forgetting of expired working memory. */
  lemma RemovedExactly(s: State, env: Env, call: Call, id: string)
    requires id in s.records
    ensures id !in Next(s, env, call).records <==>
      || (&& call.Forget? && call.id == id && id != "" && call.op != "" && call.fault.NoFault?
          && call.agent != "" && call.agent in env.agents
          && (|| env.agents[call.agent] == AgentValidated || env.agents[call.agent] == AgentReady
              || env.agents[call.agent] == AgentRunning)
          && call.agent in env.permissions && MemoryForget in env.permissions[call.agent]
          && (s.records[id].kind.Semantic? || s.records[id].kind.Procedural? ==>
                call.policy.Some? && call.policy.value != ""))
      || (&& call.Expire? && call.id == id && id != "" && call.op != "" && call.agent != ""
          && call.expireFault.NoFault? && call.expiry.Expired? && s.records[id].kind.Working?)
  {
  }

  /** And the record of an id appears or changes by exactly two: a store of a complete and
      validated record with working storage by an agent that may, or a capture. */
  lemma WrittenExactly(s: State, env: Env, call: Call, id: string, r: Record)
    requires id !in s.records || s.records[id] != r
    ensures (id in Next(s, env, call).records && Next(s, env, call).records[id] == r) <==>
      || (&& call.Store? && call.record == r && r.id == id && id != "" && call.op != "" && !call.storeFault
          && r.operationId != "" && r.agentId != "" && r.status == Validated
          && call.agent != "" && call.agent in env.agents
          && (|| env.agents[call.agent] == AgentValidated || env.agents[call.agent] == AgentReady
              || env.agents[call.agent] == AgentRunning)
          && call.agent in env.permissions && MemoryStore in env.permissions[call.agent])
      || (&& call.Capture? && call.id == id && id != "" && call.op != "" && call.agent != "" && !call.captureFault
          && r == Record(id, Episodic, Validated, call.op, call.agent))
  {
  }

  /** Over a run: between a point where a record is stored and a later one where it is gone,
      a call of the run removed it, with the authority that takes. */
  lemma {:induction false} RemovedInRun(calls: seq<(Env, Call)>, i: nat, j: nat, id: string) returns (k: nat)
    requires i <= j <= |calls| && id in Run(calls[..i]).records && id !in Run(calls[..j]).records
    ensures i <= k < j && id in Run(calls[..k]).records
    ensures var env, call, kind := calls[k].0, calls[k].1, Run(calls[..k]).records[id].kind;
      || (&& call.Forget? && call.id == id && id != "" && call.op != "" && call.fault.NoFault?
          && call.agent != "" && call.agent in env.agents
          && (|| env.agents[call.agent] == AgentValidated || env.agents[call.agent] == AgentReady
              || env.agents[call.agent] == AgentRunning)
          && call.agent in env.permissions && MemoryForget in env.permissions[call.agent]
          && (kind.Semantic? || kind.Procedural? ==> call.policy.Some? && call.policy.value != ""))
      || (&& call.Expire? && call.id == id && id != "" && call.op != "" && call.agent != ""
          && call.expireFault.NoFault? && call.expiry.Expired? && kind.Working?)
    decreases j
  {
    hide Next;
    k := j - 1;
    assert calls[..j][..k] == calls[..k] && calls[..j][k] == calls[k];
    if id in Run(calls[..k]).records {
      RemovedExactly(Run(calls[..k]), calls[k].0, calls[k].1, id);
    } else {
      k := RemovedInRun(calls, i, k, id);
    }
  }

  /** And a record stored at the end of a run was written by one of its calls, and neither
      removed nor replaced since. */
  lemma {:induction false} WrittenInRun(calls: seq<(Env, Call)>, id: string) returns (k: nat)
    requires id in Run(calls).records
    ensures k < |calls|
    ensures var env, call, r := calls[k].0, calls[k].1, Run(calls).records[id];
      || (&& call.Store? && call.record == r && r.id == id && id != "" && call.op != "" && !call.storeFault
          && r.operationId != "" && r.agentId != "" && r.status == Validated
          && call.agent != "" && call.agent in env.agents
          && (|| env.agents[call.agent] == AgentValidated || env.agents[call.agent] == AgentReady
              || env.agents[call.agent] == AgentRunning)
          && call.agent in env.permissions && MemoryStore in env.permissions[call.agent])
      || (&& call.Capture? && call.id == id && id != "" && call.op != "" && call.agent != "" && !call.captureFault
          && r == Record(id, Episodic, Validated, call.op, call.agent))
    ensures forall m :: k < m <= |calls| ==>
      id in Run(calls[..m]).records && Run(calls[..m]).records[id] == Run(calls).records[id]
  {
    hide Next;
    var n, r := |calls| - 1, Run(calls).records[id];
    var front := calls[..n];
    assert calls[..|calls|] == calls;
    if id in Run(front).records && Run(front).records[id] == r {
      k := WrittenInRun(front, id);
      assert forall m :: 0 <= m <= n ==> front[..m] == calls[..m];
    } else {
      k := n;
      WrittenExactly(Run(front), calls[n].0, calls[n].1, id, r);
    }
  }

  /** The k-th call of the run wrote r under the id, and no later one removed or replaced it. */
  ghost predicate LastWrittenAt(calls: seq<(Env, Call)>, k: nat, id: string, r: Record)
    requires k < |calls|
  {
    && (match calls[k].1
        case Store(_, record, _, _) => record == r && r.id == id
        case Capture(captured, op, agent, _) => captured == id && r == Record(id, Episodic, Validated, op, agent)
        case _ => false)
    && forall m :: k < m <= |calls| ==> id in Run(calls[..m]).records && Run(calls[..m]).records[id] == r
  }

  /** What a permitted retrieve answers after any run: the record last written under the id,
      or that there is none. */
  lemma RetrieveLastWritten(calls: seq<(Env, Call)>, env: Env, agent: string, id: string, op: string, r: Record)
    requires AuthorizationError(env, agent, MemoryRetrieve).None? && op != "" && id != ""
    ensures RetrieveCall(Run(calls), env, agent, id, op, false).result == Ok(Some(r)) <==>
      exists k :: 0 <= k < |calls| && LastWrittenAt(calls, k, id, r)
    ensures RetrieveCall(Run(calls), env, agent, id, op, false).result == Ok(None) <==> id !in Run(calls).records
  {
    hide Run, Next, RetrieveCall;
    AuthorizedExactly(env, agent, MemoryRetrieve);
    RetrieveExactly(Run(calls), env, agent, id, op, false);
    if id in Run(calls).records && Run(calls).records[id] == r {
      var k := WrittenInRun(calls, id);
      assert LastWrittenAt(calls, k, id, r);
    }
    assert calls[..|calls|] == calls;
  }

  /** No trace is ever erased, and a call that changes the records changes one and ends its
      trace with a success for that id, completed unless the removal was automatic. */
  lemma ChangesAreLogged(s: State, env: Env, call: Call)
    ensures s.events <= Next(s, env, call).events
    ensures Next(s, env, call).records != s.records ==>
      var s' := Next(s, env, call);
      && s'.events != []
      && var e := s'.events[|s'.events| - 1];
        && e.success && (e.action.Completed? <==> !call.Expire?)
        && e.operationId != "" && e.agentId != "" && e.resource != ""
        && s'.records - {e.resource} == s.records - {e.resource}
  {
    match call
    case Store(agent, r, op, fault) =>
      hide RetrieveCall, ForgetCall, CaptureCall, ExpireCall;
      OnlyThatId(s.records, r.id, r);
    case Retrieve(agent, id, op, fault) =>
      hide StoreCall, ForgetCall, CaptureCall, ExpireCall;
    case Forget(agent, id, op, policy, fault) =>
      hide StoreCall, RetrieveCall, CaptureCall, ExpireCall;
      OnlyThatIdGone(s.records, id);
    case Capture(id, op, agent, fault) =>
      hide StoreCall, RetrieveCall, ForgetCall, ExpireCall;
      OnlyThatId(s.records, id, Record(id, Episodic, Validated, op, agent));
    case Expire(id, op, agent, expiry, fault) =>
      hide StoreCall, RetrieveCall, ForgetCall, CaptureCall;
      OnlyThatIdGone(s.records, id);
  }

  /** An event names the operation, the agent and the record of a call, and what it was. */
  predicate Names(e: Event, call: Call) {
    match call
    case Store(agent, r, op, _) => About(e, MemoryStore, op, agent, r.id)
    case Retrieve(agent, id, op, _) => About(e, MemoryRetrieve, op, agent, id)
    case Forget(agent, id, op, _, _) => About(e, MemoryForget, op, agent, id)
    case Capture(id, op, agent, _) => About(e, MemoryStore, op, agent, id)
    case Expire(id, op, agent, _, _) => About(e, MemoryForget, op, agent, id)
  }

  predicate About(e: Event, kind: Capability, op: string, agent: string, id: string) {
    e.kind == kind && e.operationId == op && e.agentId == agent && e.resource == id
  }

  ghost predicate Grown(before: seq<Event>, after: seq<Event>, kind: Capability, op: string, agent: string, id: string) {
    before <= after && forall i :: |before| <= i < |after| ==> About(after[i], kind, op, agent, id)
  }

  lemma EventsNameTheCall(s: State, env: Env, call: Call)
    ensures s.events <= Next(s, env, call).events
    ensures forall e :: e in Next(s, env, call).events[|s.events|..] ==> Names(e, call)
  {
    hide StoreCall, RetrieveCall, ForgetCall, CaptureCall, ExpireCall, About;
    match call
    case Store(agent, r, op, fault) => StoreGrows(s, env, agent, r, op, fault);
    case Retrieve(agent, id, op, fault) => RetrieveGrows(s, env, agent, id, op, fault);
    case Forget(agent, id, op, policy, fault) => ForgetGrows(s, env, agent, id, op, policy, fault);
    case Capture(id, op, agent, fault) => CaptureGrows(s, id, op, agent, fault);
    case Expire(id, op, agent, expiry, fault) => ExpireGrows(s, id, op, agent, expiry, fault);
  }

  lemma StoreGrows(s: State, env: Env, agent: string, r: Record, op: string, fault: bool)
    ensures Grown(s.events, StoreCall(s, env, agent, r, op, fault).state.events, MemoryStore, op, agent, r.id)
  {
    hide AuthorizationError;
  }

  lemma RetrieveGrows(s: State, env: Env, agent: string, id: string, op: string, fault: bool)
    ensures Grown(s.events, RetrieveCall(s, env, agent, id, op, fault).state.events, MemoryRetrieve, op, agent, id)
  {
    hide AuthorizationError;
  }

  lemma ForgetGrows(s: State, env: Env, agent: string, id: string, op: string, policy: Option<string>, fault: Fault)
    ensures Grown(s.events, ForgetCall(s, env, agent, id, op, policy, fault).state.events, MemoryForget, op, agent, id)
  {
    hide AuthorizationError, ForgettingAllowed;
  }

  lemma CaptureGrows(s: State, id: string, op: string, agent: string, fault: bool)
    ensures Grown(s.events, CaptureCall(s, id, op, agent, fault).state.events, MemoryStore, op, agent, id)
  {
  }

  lemma ExpireGrows(s: State, id: string, op: string, agent: string, expiry: Expiry, fault: Fault)
    ensures Grown(s.events, ExpireCall(s, id, op, agent, expiry, fault).state.events, MemoryForget, op, agent, id)
  {
    hide ForgettingAllowed;
  }

  /** Nobody acts under another's name: every event of a run names one of its calls. */
  lemma {:induction false} EveryEventHasItsCall(calls: seq<(Env, Call)>, e: Event)
    requires e in Run(calls).events
    ensures exists k :: 0 <= k < |calls| && Names(e, calls[k].1)
  {
    hide Next, Names;
    var front, last := calls[..|calls| - 1], calls[|calls| - 1];
    EventsNameTheCall(Run(front), last.0, last.1);
    var before, after := Run(front).events, Run(calls).events;
    if e in before {
      EveryEventHasItsCall(front, e);
      var k :| 0 <= k < |front| && Names(e, front[k].1);
      assert Names(e, calls[k].1);
    } else {
      assert after == before + after[|before|..];
      assert Names(e, calls[|calls| - 1].1);
    }
  }

  lemma OnlyThatId(records: map<string, Record>, id: string, r: Record)
    ensures records[id := r] - {id} == records - {id}
  {
  }

  lemma OnlyThatIdGone(records: map<string, Record>, id: string)
    ensures (records - {id}) - {id} == records - {id}
  {
  }
}
