/** The vault as a state machine over values (server/vault): what each operation does, and what
    every run keeps. Encryption is symbolic: a sealed payload opens under an equal password. */
module VaultSpec {
  import opened Wrappers

  datatype Cipher = Sealed(password: string, nonce: nat, payload: string)

  function Decrypt(c: Cipher, password: string): Option<string> {
    if c.password == password then Some(c.payload) else None
  }

  const INIT := "setup-completed"
  const NOT_INIT := "uninitialized"
  const MIN_PASS := 4
  const MAX_PASS := 32

  datatype Status = Status(name: string, encCheck: Option<Cipher>, decCheck: string)

  datatype Stored = Stored(clientID: string, requiredGroup: string, key: string, value: Cipher, kind: string)

  datatype Input = Input(clientID: string, requiredGroup: string, key: string, value: string, kind: string)

  /** The database file: one status row at most, and the values by identifier. */
  datatype Disk = Disk(status: Option<Status>, rows: map<int, Stored>, nextID: int)

  /** The password held in memory (empty when locked), whether the database provider has been
      opened, and the file if there is one. */
  datatype State = State(password: string, attached: bool, disk: Option<Disk>)

  datatype Error = PasswordLength | AlreadyInitialized | CannotOpen | StorageFailed | AlreadyUnlocked | AlreadyLocked |
                   NotInitialized | NoControlValue | WrongPassword | Locked | InvalidValue | NotFound | Forbidden |
                   KeyExists | CannotDecrypt

  const NEW := State("", false, None)

  // ---- The operations ----

  predicate ValidPass(password: string) { MIN_PASS <= |password| <= MAX_PASS }

  /** The status row as the provider reports it: an empty name when there is no row. */
  function StatusOf(s: State): Option<Status> {
    if !s.attached || s.disk.None? then None
    else if s.disk.value.status.None? then Some(Status("", None, ""))
    else s.disk.value.status
  }

  predicate Initialized(s: State) { StatusOf(s).Some? && StatusOf(s).value.name == INIT }

  /** `canRead`, `canOpen` and `canWrite` say which storage calls succeed. */
  function Init(s: State, password: string, nonce: nat, random: string, canRead: bool, canOpen: bool, canWrite: bool)
    : (State, Result<(), Error>)
  {
    if !ValidPass(password) then (s, Failure(PasswordLength))
    else if s.attached && !canRead then (s, Failure(StorageFailed))
    else if Initialized(s) then (s, Failure(AlreadyInitialized))
    else if !canOpen then (s, Failure(CannotOpen))
    else
      var disk := if s.disk.Some? then s.disk.value else Disk(None, map[], 1);
      if !canWrite then (State(s.password, true, Some(disk)), Failure(StorageFailed))
      else
        var status := Status(INIT, Some(Sealed(password, nonce, random)), random);
        (State(password, true, Some(disk.(status := Some(status)))), Success(()))
  }

  function PassMatch(status: Status, password: string): Result<bool, Error> {
    if password == "" then Success(false)
    else if status.encCheck.None? then Failure(NoControlValue)
    else Success(Decrypt(status.encCheck.value, password).Some?)
  }

  function UnLock(s: State, password: string, canRead: bool): (State, Result<(), Error>) {
    if s.password != "" then (s, Failure(AlreadyUnlocked))
    else if StatusOf(s).None? then (s, Failure(NotInitialized))
    else if !canRead then (s, Failure(StorageFailed))
    else
      var status := StatusOf(s).value;
      if status.name == "" || status.name == NOT_INIT then (s, Failure(NotInitialized))
      else
        var matches := PassMatch(status, password);
        if matches.Failure? then (s, Failure(matches.error))
        else if !matches.value then (s, Failure(WrongPassword))
        else (s.(password := password), Success(()))
  }

  function Lock(s: State, canRead: bool): (State, Result<(), Error>) {
    if s.password == "" then (s, Failure(AlreadyLocked))
    else if StatusOf(s).None? then (s, Failure(NotInitialized))
    else if !canRead then (s, Failure(StorageFailed))
    else if StatusOf(s).value.name == "" || StatusOf(s).value.name == NOT_INIT then (s, Failure(NotInitialized))
    else (s.(password := ""), Success(()))
  }

  /** checkUnlockedAndInitialized, for a call whose storage accesses succeed or not. */
  function Ready(s: State, stores: bool): Option<Error> {
    if s.password == "" then Some(Locked)
    else if s.attached && !stores then Some(StorageFailed)
    else if !Initialized(s) then Some(NotInitialized)
    else None
  }

  predicate HasAccess(row: Stored, groups: seq<string>) {
    row.requiredGroup == "" || row.requiredGroup in groups
  }

  predicate ValidInput(v: Input) {
    v.key != "" && v.value != "" && v.kind in {"text", "secret", "markdown", "string"}
  }

  predicate SameKey(row: Stored, v: Input) { row.key == v.key && row.clientID == v.clientID }

  /** Another row than the one to be updated has the key and the client. */
  predicate Clash(rows: map<int, Stored>, v: Input, existingID: int) {
    exists id :: id in rows && SameKey(rows[id], v) && (existingID == 0 || id != existingID)
  }

  function Sealing(v: Input, password: string, nonce: nat): Stored {
    Stored(v.clientID, v.requiredGroup, v.key, Sealed(password, nonce, v.value), v.kind)
  }

  function GetOne(s: State, id: int, groups: seq<string>, stores: bool): Result<Option<string>, Error> {
    if Ready(s, stores).Some? then Failure(Ready(s, stores).value)
    else if s.disk.None? || id !in s.disk.value.rows then Success(None)
    else
      var row := s.disk.value.rows[id];
      if !HasAccess(row, groups) then Failure(Forbidden)
      else
        var plain := Decrypt(row.value, s.password);
        if plain.None? then Failure(CannotDecrypt) else Success(plain)
  }

  /** Identifier 0 asks for a new row, another one for an update. */
  function Store(s: State, existingID: int, v: Input, groups: seq<string>, nonce: nat, stores: bool)
    : (State, Result<int, Error>)
  {
    if Ready(s, stores).Some? then (s, Failure(Ready(s, stores).value))
    else if !ValidInput(v) then (s, Failure(InvalidValue))
    else if s.disk.None? then (s, Failure(NotInitialized))
    else
      var disk := s.disk.value;
      if existingID > 0 && existingID !in disk.rows then (s, Failure(NotFound))
      else if existingID > 0 && !HasAccess(disk.rows[existingID], groups) then (s, Failure(Forbidden))
      else if Clash(disk.rows, v, existingID) then (s, Failure(KeyExists))
      else
        var row := Sealing(v, s.password, nonce);
        if existingID == 0 then
          (s.(disk := Some(disk.(rows := disk.rows[disk.nextID := row], nextID := disk.nextID + 1))),
           Success(disk.nextID))
        else if existingID in disk.rows then
          (s.(disk := Some(disk.(rows := disk.rows[existingID := row]))), Success(existingID))
        else (s, Success(existingID))
  }

  function Delete(s: State, id: int, groups: seq<string>, stores: bool): (State, Result<(), Error>) {
    if Ready(s, stores).Some? then (s, Failure(Ready(s, stores).value))
    else if s.disk.None? || id !in s.disk.value.rows then (s, Failure(NotFound))
    else if !HasAccess(s.disk.value.rows[id], groups) then (s, Failure(Forbidden))
    else (s.(disk := Some(s.disk.value.(rows := s.disk.value.rows - {id}))), Success(()))
  }

  /** A new process: locked, and the provider opened at once if the file is there. */
  function Restart(s: State): State { State("", s.disk.Some?, s.disk) }

  // ---- Runs ----

  datatype Event =
    | InitEvent(password: string, nonce: nat, random: string, canRead: bool, canOpen: bool, canWrite: bool)
    | UnLockEvent(password: string, canRead: bool)
    | LockEvent(canRead: bool)
    | StoreEvent(existingID: int, v: Input, groups: seq<string>, nonce: nat, stores: bool)
    | DeleteEvent(id: int, groups: seq<string>, stores: bool)
    | RestartEvent

  function Next(s: State, e: Event): State {
    match e
    case InitEvent(password, nonce, random, canRead, canOpen, canWrite) =>
      Init(s, password, nonce, random, canRead, canOpen, canWrite).0
    case UnLockEvent(password, canRead) => UnLock(s, password, canRead).0
    case LockEvent(canRead) => Lock(s, canRead).0
    case StoreEvent(existingID, v, groups, nonce, stores) => Store(s, existingID, v, groups, nonce, stores).0
    case DeleteEvent(id, groups, stores) => Delete(s, id, groups, stores).0
    case RestartEvent => Restart(s)
  }

  function Run(events: seq<Event>): State {
    if events == [] then NEW else Next(Run(events[..|events| - 1]), events[|events| - 1])
  }

  /** What the callers were told: the password of the successful Init. */
  function InitPassword(events: seq<Event>): Option<string> {
    if events == [] then None
    else
      var front, e := events[..|events| - 1], events[|events| - 1];
      if e.InitEvent? && Init(Run(front), e.password, e.nonce, e.random, e.canRead, e.canOpen, e.canWrite).1.Success? then
        Some(e.password)
      else InitPassword(front)
  }

  /** What the callers were told: what was last stored under each identifier and not deleted
      since. Negative identifiers are left aside. */
  function Ledger(events: seq<Event>): map<int, Input> {
    if events == [] then map[]
    else
      var front, e := events[..|events| - 1], events[|events| - 1];
      var before := Ledger(front);
      match e
      case StoreEvent(existingID, v, groups, nonce, stores) =>
        var res := Store(Run(front), existingID, v, groups, nonce, stores).1;
        if res.Success? && res.value >= 0 then before[res.value := v] else before
      case DeleteEvent(id, groups, stores) =>
        if Delete(Run(front), id, groups, stores).1.Success? then before - {id} else before
      case _ => before
  }

  // ---- What every run keeps ----

  /** The password under which the file is sealed. */
  function MasterPassword(d: Disk): Option<string> {
    if d.status.None? || d.status.value.encCheck.None? then None
    else Some(d.status.value.encCheck.value.password)
  }

  ghost predicate UniqueKeys(rows: map<int, Stored>) {
    forall i, j | i in rows && j in rows && rows[i].key == rows[j].key && rows[i].clientID == rows[j].clientID :: i == j
  }

  ghost predicate ValidDisk(d: Disk) {
    && (d.status.Some? ==> d.status.value.name == INIT && MasterPassword(d).Some? && MasterPassword(d).value != "")
    && (forall id | id in d.rows :: 0 < id < d.nextID && MasterPassword(d) == Some(d.rows[id].value.password))
    && d.nextID > 0
    && UniqueKeys(d.rows)
  }

  /** The provider is open exactly when the file exists; an unlocked vault holds the password
      that opens the check value and every stored row. */
  ghost predicate Valid(s: State) {
    && (s.attached <==> s.disk.Some?)
    && (s.disk.Some? ==> ValidDisk(s.disk.value))
    && (s.password != "" ==> s.disk.Some? && s.disk.value.status.Some? &&
                             MasterPassword(s.disk.value) == Some(s.password))
  }

  lemma NextValid(s: State, e: Event)
    requires Valid(s)
    ensures Valid(Next(s, e))
  {}

  lemma {:induction false} RunValid(events: seq<Event>)
    ensures Valid(Run(events))
  {
    if events != [] {
      RunValid(events[..|events| - 1]);
      NextValid(Run(events[..|events| - 1]), events[|events| - 1]);
    }
  }

  /** Whenever the vault is unlocked, the held password opens the check value and every row,
      and no two rows share key and client. */
  lemma UnlockedOpensEverything(events: seq<Event>)
    requires Run(events).password != ""
    ensures var s := Run(events);
            && Initialized(s)
            && s.disk.value.status.value.encCheck.Some?
            && Decrypt(s.disk.value.status.value.encCheck.value, s.password).Some?
            && (forall id | id in s.disk.value.rows :: Decrypt(s.disk.value.rows[id].value, s.password).Some?)
            && UniqueKeys(s.disk.value.rows)
  {
    RunValid(events);
  }

  // ---- The master password never changes ----

  lemma NextKeepsMaster(s: State, e: Event)
    requires Valid(s) && s.disk.Some? && s.disk.value.status.Some?
    ensures var n := Next(s, e);
            n.disk.Some? && n.disk.value.status == s.disk.value.status
  {}

  lemma {:induction false} MasterIsInitPassword(events: seq<Event>)
    ensures var s := Run(events);
            InitPassword(events) ==
            if s.disk.Some? && s.disk.value.status.Some? then MasterPassword(s.disk.value) else None
  {
    if events != [] {
      var front, e := events[..|events| - 1], events[|events| - 1];
      RunValid(front);
      MasterIsInitPassword(front);
      var s := Run(front);
      if s.disk.Some? && s.disk.value.status.Some? {
        NextKeepsMaster(s, e);
      }
    }
  }

  /** A locked vault opens for the password of the successful Init and for no other, whatever
      happened since; before any Init it opens for none. */
  lemma UnlocksOnlyForInitPassword(events: seq<Event>, password: string)
    requires Run(events).password == ""
    ensures UnLock(Run(events), password, true).1.Success? <==> InitPassword(events) == Some(password)
  {
    RunValid(events);
    MasterIsInitPassword(events);
  }

  /** There is at most one successful Init. */
  lemma InitOnce(events: seq<Event>, e: Event)
    requires e.InitEvent? && InitPassword(events).Some?
    ensures var res := Init(Run(events), e.password, e.nonce, e.random, e.canRead, e.canOpen, e.canWrite);
            res.0 == Run(events) && res.1.Failure?
  {
    RunValid(events);
    MasterIsInitPassword(events);
  }

  // ---- What is stored is what is read ----

  function Rows(s: State): map<int, Stored> { if s.disk.Some? then s.disk.value.rows else map[] }

  /** The row keeps all of the input, its value sealed. */
  predicate IsRecord(row: Stored, v: Input) {
    row.clientID == v.clientID && row.requiredGroup == v.requiredGroup && row.key == v.key && row.kind == v.kind &&
    row.value.payload == v.value
  }

  ghost predicate Records(rows: map<int, Stored>, ledger: map<int, Input>) {
    rows.Keys == ledger.Keys && forall id | id in rows :: IsRecord(rows[id], ledger[id])
  }

  lemma StoreRecords(s: State, existingID: int, v: Input, groups: seq<string>, nonce: nat, stores: bool, ledger: map<int, Input>)
    requires Valid(s) && Records(Rows(s), ledger)
    ensures var (after, res) := Store(s, existingID, v, groups, nonce, stores);
            Records(Rows(after), if res.Success? && res.value >= 0 then ledger[res.value := v] else ledger)
  {}

  lemma {:induction false} LedgerHolds(events: seq<Event>)
    ensures Records(Rows(Run(events)), Ledger(events))
  {
    if events != [] {
      var front, e := events[..|events| - 1], events[|events| - 1];
      LedgerHolds(front);
      RunValid(front);
      if e.StoreEvent? {
        StoreRecords(Run(front), e.existingID, e.v, e.groups, e.nonce, e.stores, Ledger(front));
      }
    }
  }

  /** After any run, a permitted read of an unlocked vault returns the plaintext last stored
      under the identifier, and nothing for an identifier without one. */
  lemma ReadsLastStored(events: seq<Event>, id: int, groups: seq<string>)
    requires Run(events).password != ""
    requires id in Rows(Run(events)) ==> HasAccess(Rows(Run(events))[id], groups)
    ensures GetOne(Run(events), id, groups, true) ==
            Success(if id in Ledger(events) then Some(Ledger(events)[id].value) else None)
  {
    RunValid(events);
    LedgerHolds(events);
  }

  lemma LockedDoesNothing(s: State, id: int, v: Input, groups: seq<string>, nonce: nat, stores: bool)
    requires s.password == ""
    ensures GetOne(s, id, groups, stores) == Failure(Locked)
    ensures Store(s, id, v, groups, nonce, stores) == (s, Failure(Locked))
    ensures Delete(s, id, groups, stores) == (s, Failure(Locked))
  {}

  /** From a locked vault on, whatever is tried, nothing can be read and no row changes until a
      password opens it again. */
  lemma {:induction false} LockedUntilOpened(s: State, more: seq<Event>, id: int, groups: seq<string>, stores: bool)
    requires s.password == "" && forall e | e in more :: !e.InitEvent? && !e.UnLockEvent?
    ensures var t := Onward(s, more);
            t.password == "" && Rows(t) == Rows(s) && GetOne(t, id, groups, stores) == Failure(Locked)
  {
    if more == [] {
      LockedDoesNothing(s, id, Input("", "", "", "", ""), groups, 0, stores);
    } else {
      var front, e := more[..|more| - 1], more[|more| - 1];
      LockedUntilOpened(s, front, id, groups, stores);
      assert e in more;
      var t := Onward(s, front);
      match e
      case StoreEvent(existingID, v, gs, nonce, ok) => LockedDoesNothing(t, existingID, v, gs, nonce, ok);
      case DeleteEvent(other, gs, ok) => LockedDoesNothing(t, other, Input("", "", "", "", ""), gs, 0, ok);
      case _ =>
    }
  }

  function Onward(s: State, more: seq<Event>): State {
    if more == [] then s else Next(Onward(s, more[..|more| - 1]), more[|more| - 1])
  }

  /** What a successful Store reports as stored is stored, under the identifier it reports, exactly
      when it was not asked to update a negative one; then nothing changes. */
  lemma StoredExactlyWhen(events: seq<Event>, existingID: int, v: Input, groups: seq<string>, nonce: nat, stores: bool)
    requires Store(Run(events), existingID, v, groups, nonce, stores).1.Success?
    ensures var (after, res) := Store(Run(events), existingID, v, groups, nonce, stores);
            && (res.value in Rows(after) && Rows(after)[res.value].value.payload == v.value <==> existingID >= 0)
            && (existingID < 0 ==> after == Run(events))
  {
    RunValid(events);
  }

  /** Storing under a negative identifier is reported as done, and changes nothing. */
  lemma NegativeIDStoresNothing(events: seq<Event>, id: int, v: Input, groups: seq<string>, nonce: nat)
    requires Run(events).password != "" && id < 0 && ValidInput(v) && !Clash(Rows(Run(events)), v, id)
    ensures Store(Run(events), id, v, groups, nonce, true) == (Run(events), Success(id))
  {
    RunValid(events);
  }
}
