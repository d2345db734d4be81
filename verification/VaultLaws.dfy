/** When each operation of the vault succeeds, and what it answers, in terms of what its callers were
    told before. */
module VaultLaws {
  import opened Wrappers
  import opened VaultSpec

  /** Whether the callers know the vault to be open: it was initialised or unlocked, and neither
      locked nor restarted since. */
  function Opened(events: seq<Event>): bool {
    if events == [] then false
    else
      var front, e := events[..|events| - 1], events[|events| - 1];
      match e
      case InitEvent(password, nonce, random, canRead, canOpen, canWrite) =>
        Init(Run(front), password, nonce, random, canRead, canOpen, canWrite).1.Success? || Opened(front)
      case UnLockEvent(password, canRead) => UnLock(Run(front), password, canRead).1.Success? || Opened(front)
      case LockEvent(canRead) => Lock(Run(front), canRead).1.Failure? && Opened(front)
      case RestartEvent => false
      case _ => Opened(front)
  }

  lemma OpenedStep(s: State, e: Event)
    requires Valid(s)
    ensures var open := Next(s, e).password != "";
            match e
            case InitEvent(password, nonce, random, canRead, canOpen, canWrite) =>
              open == (Init(s, password, nonce, random, canRead, canOpen, canWrite).1.Success? || s.password != "")
            case UnLockEvent(password, canRead) => open == (UnLock(s, password, canRead).1.Success? || s.password != "")
            case LockEvent(canRead) => open == (Lock(s, canRead).1.Failure? && s.password != "")
            case RestartEvent => !open
            case _ => open == (s.password != "")
  {}

  /** The vault is unlocked exactly when its callers know it to be, and then under the password of
      the successful Init. */
  lemma {:induction false} OpenedTells(events: seq<Event>)
    ensures Run(events).password != "" <==> Opened(events)
    ensures Opened(events) ==> InitPassword(events) == Some(Run(events).password)
  {
    if events != [] {
      var front := events[..|events| - 1];
      OpenedTells(front);
      RunValid(front);
      OpenedStep(Run(front), events[|events| - 1]);
    }
    RunValid(events);
    MasterIsInitPassword(events);
  }

  // ---- Opening and closing ----

  /** Init succeeds exactly once, for a password of 4 to 32 bytes, if the storage goes along. */
  lemma InitsExactlyWhen(events: seq<Event>, password: string, nonce: nat, random: string,
                         canRead: bool, canOpen: bool, canWrite: bool)
    ensures Init(Run(events), password, nonce, random, canRead, canOpen, canWrite).1.Success? <==>
            4 <= |password| <= 32 && InitPassword(events).None? &&
            canOpen && canWrite && (canRead || !Run(events).attached)
  {
    RunValid(events);
    MasterIsInitPassword(events);
  }

  /** UnLock succeeds exactly for a closed vault and the password of the successful Init. */
  lemma UnLocksExactlyWhen(events: seq<Event>, password: string, canRead: bool)
    ensures UnLock(Run(events), password, canRead).1.Success? <==>
            !Opened(events) && InitPassword(events) == Some(password) && canRead
  {
    OpenedTells(events);
    RunValid(events);
    MasterIsInitPassword(events);
  }

  /** Lock succeeds exactly for an open vault. */
  lemma LocksExactlyWhen(events: seq<Event>, canRead: bool)
    ensures Lock(Run(events), canRead).1.Success? <==> Opened(events) && canRead
  {
    OpenedTells(events);
    RunValid(events);
  }

  /** After a successful Lock, and whatever else is done but Init and UnLock, the vault holds no
      password, reads, stores and deletes nothing, and its rows stay as they were. */
  lemma LockCloses(events: seq<Event>, canRead: bool, more: seq<Event>, id: int, v: Input, groups: seq<string>, nonce: nat,
                   stores: bool)
    requires Lock(Run(events), canRead).1.Success?
    requires forall e | e in more :: !e.InitEvent? && !e.UnLockEvent?
    ensures var s := Onward(Next(Run(events), LockEvent(canRead)), more);
            && s.password == "" && Rows(s) == Rows(Run(events))
            && GetOne(s, id, groups, stores) == Failure(Locked)
            && Store(s, id, v, groups, nonce, stores).1 == Failure(Locked)
            && Delete(s, id, groups, stores).1 == Failure(Locked)
  {
    var s := Next(Run(events), LockEvent(canRead));
    LockedUntilOpened(s, more, id, groups, stores);
    LockedDoesNothing(Onward(s, more), id, v, groups, nonce, stores);
  }

  // ---- Reading and writing ----

  /** A value without a group is for everyone, one with a group for its members. */
  predicate Permitted(v: Input, groups: seq<string>) { v.requiredGroup != "" ==> v.requiredGroup in groups }

  /** What a read answers: nothing of a closed vault, nothing to others than the group, and else the
      value last stored. */
  lemma ReadsExactly(events: seq<Event>, id: int, groups: seq<string>, stores: bool)
    ensures var ledger := Ledger(events);
            GetOne(Run(events), id, groups, stores) ==
            if !Opened(events) then Failure(Locked)
            else if !stores then Failure(StorageFailed)
            else if id !in ledger then Success(None)
            else if ledger[id].requiredGroup != "" && ledger[id].requiredGroup !in groups then Failure(Forbidden)
            else Success(Some(ledger[id].value))
  {
    OpenedTells(events);
    RunValid(events);
    LedgerHolds(events);
    if id in Ledger(events) {
      assert IsRecord(Rows(Run(events))[id], Ledger(events)[id]);
    }
  }

  /** A Store succeeds exactly for an open vault and a complete input, on an identifier that is
      permitted if it is positive, and if no other identifier has the key for the client. It answers
      the identifier it was given, or a new one above all others. */
  lemma StoresExactlyWhen(events: seq<Event>, existingID: int, v: Input, groups: seq<string>, nonce: nat, stores: bool)
    ensures var (after, res), ledger := Store(Run(events), existingID, v, groups, nonce, stores), Ledger(events);
            && (res.Success? <==>
                && Opened(events) && stores
                && v.key != "" && v.value != "" && v.kind in {"text", "secret", "markdown", "string"}
                && (existingID > 0 ==> existingID in ledger && Permitted(ledger[existingID], groups))
                && (forall id | id in ledger && ledger[id].key == v.key && ledger[id].clientID == v.clientID :: id == existingID))
            && (res.Success? && existingID != 0 ==> res.value == existingID)
            && (res.Success? && existingID == 0 ==> res.value > 0 && forall id | id in ledger :: id < res.value)
            && (res.Failure? ==> after == Run(events))
  {
    OpenedTells(events);
    RunValid(events);
    LedgerHolds(events);
    var rows, ledger := Rows(Run(events)), Ledger(events);
    forall id | id in rows ensures IsRecord(rows[id], ledger[id]) {}
    if Opened(events) {
      SameKeys(rows, ledger, v, existingID);
    }
  }

  lemma SameKeys(rows: map<int, Stored>, ledger: map<int, Input>, v: Input, existingID: int)
    requires Records(rows, ledger) && forall id | id in rows :: id > 0
    ensures Clash(rows, v, existingID) <==>
            !(forall id | id in ledger && ledger[id].key == v.key && ledger[id].clientID == v.clientID :: id == existingID)
  {
    forall id | id in rows ensures SameKey(rows[id], v) <==> ledger[id].key == v.key && ledger[id].clientID == v.clientID {
      assert IsRecord(rows[id], ledger[id]);
    }
  }

  /** A Delete succeeds exactly for an open vault and a permitted identifier, and then takes out
      that one. */
  lemma DeletesExactlyWhen(events: seq<Event>, id: int, groups: seq<string>, stores: bool)
    ensures var (after, res), ledger := Delete(Run(events), id, groups, stores), Ledger(events);
            && (res.Success? <==> Opened(events) && stores && id in ledger && Permitted(ledger[id], groups))
            && (res.Success? ==> Rows(after) == Rows(Run(events)) - {id})
            && (res.Failure? ==> after == Run(events))
  {
    OpenedTells(events);
    RunValid(events);
    LedgerHolds(events);
    if id in Ledger(events) {
      assert IsRecord(Rows(Run(events))[id], Ledger(events)[id]);
    }
  }
}
