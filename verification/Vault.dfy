/** The vault manager (server/vault/manager.go) over its database provider
    (server/vault/sqlite.go, server/vault/dbProvider.go), updated in place. Every public
    operation is one step. */
module Vault {
  import opened Wrappers
  import S = VaultSpec
  import Sets

  /** The provider of an initialised database, or the stand-in before that. */
  class Database {
    var attached: bool
    var disk: Option<S.Disk>

    constructor ()
      ensures !attached && disk == None
    {
      attached, disk := false, None;
    }

    /** The factory's Init: opens the file, creating it if it is not there. */
    method Attach(canOpen: bool) returns (ok: bool)
      modifies this
      ensures ok == canOpen
      ensures if ok then attached && disk == Some(if old(disk).Some? then old(disk).value else S.Disk(None, map[], 1))
              else attached == old(attached) && disk == old(disk)
    {
      if !canOpen {
        return false;
      }
      if disk.None? {
        disk := Some(S.Disk(None, map[], 1));
      }
      attached := true;
      ok := true;
    }

    method SetStatus(status: S.Status, canWrite: bool) returns (ok: bool)
      requires attached && disk.Some?
      modifies this
      ensures ok == canWrite && attached
      ensures disk == if ok then Some(old(disk).value.(status := Some(status))) else old(disk)
    {
      if !canWrite {
        return false;
      }
      disk := Some(disk.value.(status := Some(status)));
      ok := true;
    }

    method FindByKeyAndClientID(key: string, clientID: string) returns (id: Option<int>)
      requires disk.Some?
      ensures id.Some? ==> id.value in disk.value.rows && disk.value.rows[id.value].key == key &&
                           disk.value.rows[id.value].clientID == clientID
      ensures id.None? ==> forall i | i in disk.value.rows ::
                             !(disk.value.rows[i].key == key && disk.value.rows[i].clientID == clientID)
    {
      var rows := disk.value.rows;
      var rest := rows.Keys;
      while rest != {}
        invariant rest <= rows.Keys
        invariant forall i | i in rows && i !in rest :: !(rows[i].key == key && rows[i].clientID == clientID)
      {
        Sets.NonEmpty(rest);
        var i :| i in rest;
        if rows[i].key == key && rows[i].clientID == clientID {
          return Some(i);
        }
        rest := rest - {i};
      }
      id := None;
    }

    /** Inserts a row, or updates the one there is. */
    method Save(idToUpdate: int, row: S.Stored) returns (id: int)
      requires disk.Some?
      modifies this
      ensures attached == old(attached) && disk.Some?
      ensures var d := old(disk).value;
              if idToUpdate == 0 then
                id == d.nextID && disk.value == d.(rows := d.rows[id := row], nextID := id + 1)
              else
                id == idToUpdate &&
                disk.value == if id in d.rows then d.(rows := d.rows[id := row]) else d
    {
      var d := disk.value;
      if idToUpdate == 0 {
        id := d.nextID;
        disk := Some(d.(rows := d.rows[id := row], nextID := id + 1));
      } else {
        id := idToUpdate;
        if id in d.rows {
          disk := Some(d.(rows := d.rows[id := row]));
        }
      }
    }

    method Delete(id: int)
      requires disk.Some?
      modifies this
      ensures attached == old(attached)
      ensures disk == Some(old(disk).value.(rows := old(disk).value.rows - {id}))
    {
      disk := Some(disk.value.(rows := disk.value.rows - {id}));
    }
  }

  class Manager {
    var password: string
    const db: Database

    constructor (db: Database)
      ensures this.db == db && password == ""
    {
      this.db := db;
      password := "";
    }

    ghost function Now(): S.State
      reads this, db
    {
      S.State(password, db.attached, db.disk)
    }

    /** The error of checkUnlockedAndInitialized, if any. */
    method CheckReady(stores: bool) returns (error: Option<S.Error>)
      ensures error == S.Ready(Now(), stores)
    {
      if password == "" {
        return Some(S.Locked);
      }
      if db.attached && !stores {
        return Some(S.StorageFailed);
      }
      if !db.attached || db.disk.None? || db.disk.value.status.None? || db.disk.value.status.value.name != S.INIT {
        return Some(S.NotInitialized);
      }
      error := None;
    }

    method CheckGroupAccess(row: S.Stored, groups: seq<string>) returns (ok: bool)
      ensures ok == S.HasAccess(row, groups)
    {
      if row.requiredGroup == "" {
        return true;
      }
      for i := 0 to |groups|
        invariant row.requiredGroup !in groups[..i]
      {
        if groups[i] == row.requiredGroup {
          return true;
        }
      }
      ok := false;
    }

    method Init(newPassword: string, nonce: nat, random: string, canRead: bool, canOpen: bool, canWrite: bool)
      returns (res: Result<(), S.Error>)
      modifies this, db
      ensures (Now(), res) == S.Init(old(Now()), newPassword, nonce, random, canRead, canOpen, canWrite)
    {
      if !S.ValidPass(newPassword) {
        return Failure(S.PasswordLength);
      }
      if db.attached && !canRead {
        return Failure(S.StorageFailed);
      }
      if db.attached && db.disk.Some? && db.disk.value.status.Some? && db.disk.value.status.value.name == S.INIT {
        return Failure(S.AlreadyInitialized);
      }
      var ok := db.Attach(canOpen);
      if !ok {
        return Failure(S.CannotOpen);
      }
      ok := db.SetStatus(S.Status(S.INIT, Some(S.Sealed(newPassword, nonce, random)), random), canWrite);
      if !ok {
        return Failure(S.StorageFailed);
      }
      password := newPassword;
      res := Success(());
    }

    method UnLock(pass: string, canRead: bool) returns (res: Result<(), S.Error>)
      modifies this
      ensures (Now(), res) == S.UnLock(old(Now()), pass, canRead)
    {
      if password != "" {
        return Failure(S.AlreadyUnlocked);
      }
      var status := S.StatusOf(S.State(password, db.attached, db.disk));
      if status.None? {
        return Failure(S.NotInitialized);
      }
      if !canRead {
        return Failure(S.StorageFailed);
      }
      if status.value.name == "" || status.value.name == S.NOT_INIT {
        return Failure(S.NotInitialized);
      }
      var matches := S.PassMatch(status.value, pass);
      if matches.Failure? {
        return Failure(matches.error);
      }
      if !matches.value {
        return Failure(S.WrongPassword);
      }
      password := pass;
      res := Success(());
    }

    method Lock(canRead: bool) returns (res: Result<(), S.Error>)
      modifies this
      ensures (Now(), res) == S.Lock(old(Now()), canRead)
    {
      if password == "" {
        return Failure(S.AlreadyLocked);
      }
      var status := S.StatusOf(S.State(password, db.attached, db.disk));
      if status.None? {
        return Failure(S.NotInitialized);
      }
      if !canRead {
        return Failure(S.StorageFailed);
      }
      if status.value.name == "" || status.value.name == S.NOT_INIT {
        return Failure(S.NotInitialized);
      }
      password := "";
      res := Success(());
    }

    method GetOne(id: int, groups: seq<string>, stores: bool) returns (res: Result<Option<string>, S.Error>)
      ensures res == S.GetOne(Now(), id, groups, stores)
    {
      var error := CheckReady(stores);
      if error.Some? {
        return Failure(error.value);
      }
      if id !in db.disk.value.rows {
        return Success(None);
      }
      var row := db.disk.value.rows[id];
      var ok := CheckGroupAccess(row, groups);
      if !ok {
        return Failure(S.Forbidden);
      }
      var plain := S.Decrypt(row.value, password);
      if plain.None? {
        return Failure(S.CannotDecrypt);
      }
      res := Success(plain);
    }

    /** The lookup by key returns one row; in a valid vault there is no second one to miss. */
    method Store(existingID: int, v: S.Input, groups: seq<string>, nonce: nat, stores: bool)
      returns (res: Result<int, S.Error>)
      requires S.Valid(Now())
      modifies db
      ensures S.Valid(Now())
      ensures (Now(), res) == S.Store(old(Now()), existingID, v, groups, nonce, stores)
    {
      S.NextValid(Now(), S.StoreEvent(existingID, v, groups, nonce, stores));
      var error := CheckReady(stores);
      if error.Some? {
        return Failure(error.value);
      }
      if !S.ValidInput(v) {
        return Failure(S.InvalidValue);
      }
      var found := db.FindByKeyAndClientID(v.key, v.clientID);
      if existingID > 0 {
        if existingID !in db.disk.value.rows {
          return Failure(S.NotFound);
        }
        var ok := CheckGroupAccess(db.disk.value.rows[existingID], groups);
        if !ok {
          return Failure(S.Forbidden);
        }
      }
      if found.Some? && (existingID == 0 || found.value != existingID) {
        assert S.SameKey(db.disk.value.rows[found.value], v);
        return Failure(S.KeyExists);
      }
      var id := db.Save(existingID, S.Sealing(v, password, nonce));
      res := Success(id);
    }

    method Delete(id: int, groups: seq<string>, stores: bool) returns (res: Result<(), S.Error>)
      modifies db
      ensures (Now(), res) == S.Delete(old(Now()), id, groups, stores)
    {
      var error := CheckReady(stores);
      if error.Some? {
        return Failure(error.value);
      }
      if id !in db.disk.value.rows {
        return Failure(S.NotFound);
      }
      var ok := CheckGroupAccess(db.disk.value.rows[id], groups);
      if !ok {
        return Failure(S.Forbidden);
      }
      db.Delete(id);
      res := Success(());
    }
  }
}
