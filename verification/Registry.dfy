/** The client registry as objects updated in place: server/clients/cr.go over the table of
    server/clients/sqlite.go, and the operations of server/client_service.go. */
module Registry {
  import opened Wrappers
  import S = RegistrySpec

  type Time = S.Time

  class Client {
    const id: string
    const authID: string
    const conn: nat
    var disconnectedAt: Option<Time>

    constructor (id: string, authID: string, conn: nat)
      ensures this.id == id && this.authID == authID && this.conn == conn && disconnectedAt == None
    {
      this.id, this.authID, this.conn, this.disconnectedAt := id, authID, conn, None;
    }

    function Value(): S.Entry
      reads this
    {
      S.Entry(authID, conn, disconnectedAt)
    }

    predicate IsObsolete(keepLost: Option<nat>, now: Time)
      reads this
    {
      S.Obsolete(keepLost, disconnectedAt, now)
    }
  }

  class ClientRepository {
    var clients: map<string, Client>
    var table: map<string, S.Row>
    const cfg: S.Config

    constructor (cfg: S.Config)
      ensures Valid() && Now() == S.Repo(map[], map[]) && this.cfg == cfg
    {
      this.cfg := cfg;
      clients := map[];
      table := map[];
    }

    /** Every client is filed under its own identifier. */
    ghost predicate Valid()
      reads this
    {
      forall id | id in clients :: clients[id].id == id
    }

    ghost function Now(): S.Repo
      reads this, clients.Values
    {
      S.Repo(map id | id in clients :: clients[id].Value(), table)
    }

    method Save(client: Client, saves: bool)
      requires Valid()
      modifies this
      ensures Valid()
      ensures Now() == if saves then S.Saved(old(Now()), client.id, client.Value()) else old(Now())
      ensures clients == if saves then old(clients)[client.id := client] else old(clients)
    {
      if !saves {
        return;
      }
      table := table[client.id := S.RowOf(client.Value())];
      clients := clients[client.id := client];
    }

    method Delete(client: Client, stores: bool)
      requires Valid()
      modifies this
      ensures Valid()
      ensures Now() == if stores then S.Deleted(old(Now()), client.id) else old(Now())
    {
      if !stores {
        return;
      }
      table := table - {client.id};
      clients := clients - {client.id};
    }

    method GetByID(id: string, now: Time) returns (client: Client?)
      requires Valid()
      ensures client != null <==> S.Present(cfg, Now(), id, now)
      ensures client != null <==>
                id in clients &&
                (cfg.keepLost.Some? && clients[id].disconnectedAt.Some? ==>
                   now <= clients[id].disconnectedAt.value + cfg.keepLost.value)
      ensures client != null ==> id in clients && client == clients[id]
    {
      if id in clients && !clients[id].IsObsolete(cfg.keepLost, now) {
        return clients[id];
      }
      client := null;
    }

    method IsClientAuthIDInUse(authID: string, id: string, now: Time) returns (used: bool)
      requires Valid()
      ensures used <==> S.AuthIDInUse(cfg, Now(), authID, id, now)
      ensures used <==>
                exists k :: k in clients && k != id && clients[k].authID == authID &&
                  (cfg.keepLost.Some? && clients[k].disconnectedAt.Some? ==>
                     now <= clients[k].disconnectedAt.value + cfg.keepLost.value)
    {
      var rest := clients.Keys;
      while rest != {}
        invariant rest <= clients.Keys
        invariant forall k | k in clients && k !in rest ::
                    !(S.Present(cfg, Now(), k, now) && Now().cache[k].authID == authID && k != id)
      {
        var k :| k in rest;
        rest := rest - {k};
        if !clients[k].IsObsolete(cfg.keepLost, now) && clients[k].authID == authID && k != id {
          assert S.Present(cfg, Now(), k, now) && Now().cache[k].authID == authID;
          return true;
        }
      }
      used := false;
    }

    /** The loop of DeleteObsolete over the cache. */
    method DropObsolete(now: Time)
      requires Valid()
      modifies this`clients
      ensures Valid()
      ensures clients == map id | id in old(clients) && !old(clients[id].IsObsolete(cfg.keepLost, now)) :: old(clients)[id]
    {
      var rest := clients.Keys;
      while rest != {}
        invariant Valid() && rest <= old(clients).Keys
        invariant clients == map id |
                    id in old(clients) && (id in rest || !old(clients[id].IsObsolete(cfg.keepLost, now))) ::
                    old(clients)[id]
      {
        var id :| id in rest;
        rest := rest - {id};
        if clients[id].IsObsolete(cfg.keepLost, now) {
          clients := clients - {id};
        }
      }
    }

    method DeleteObsolete(tableNow: Time, cacheNow: Time, stores: bool)
      requires Valid()
      modifies this
      ensures Valid()
      ensures Now() == if stores then S.Cleaned(cfg, old(Now()), tableNow, cacheNow) else old(Now())
    {
      if !stores {
        return;
      }
      table := map id | id in table && !S.Expired(cfg, table[id], tableNow) :: table[id];
      DropObsolete(cacheNow);
    }

    /** A client's disconnect time is set; if the client is in the cache, it is set there. */
    method MarkDisconnected(client: Client, now: Time)
      requires Valid() && Knows(client)
      modifies client
      ensures client.disconnectedAt == Some(now)
      ensures Now() == S.Marked(old(Now()), client.authID, client.id, client.conn, now)
    {
      client.disconnectedAt := Some(now);
    }

    /** A cached client with the identifier, credentials and connection of `client` is `client`. */
    ghost predicate Knows(client: Client)
      reads this, clients.Values
    {
      client.id in clients && clients[client.id].authID == client.authID && clients[client.id].conn == client.conn ==>
        clients[client.id] == client
    }
  }

  class ClientService {
    const repo: ClientRepository

    constructor (repo: ClientRepository)
      ensures this.repo == repo
    {
      this.repo := repo;
    }

    method StartClient(authID: string, id: string, conn: nat, now: Time, tunnelsStart: bool, saves: bool)
      returns (outcome: S.StartOutcome, client: Client?)
      requires repo.Valid()
      modifies repo
      ensures repo.Valid()
      ensures outcome == S.StartOutcomeOf(repo.cfg, old(repo.Now()), authID, id, now, tunnelsStart, saves)
      ensures repo.Now() == S.StartClient(repo.cfg, old(repo.Now()), authID, id, conn, now, tunnelsStart, saves)
      ensures outcome == S.Started ==> client != null && fresh(client) && id in repo.clients && repo.clients[id] == client
    {
      client := null;
      var oldClient := repo.GetByID(id, now);
      if oldClient != null && oldClient.disconnectedAt.None? {
        return S.IDInUse, null;
      }
      if !repo.cfg.multiUse {
        var used := repo.IsClientAuthIDInUse(authID, id, now);
        if used {
          return S.AuthInUse, null;
        }
      }
      if !tunnelsStart {
        return S.TunnelsFailed, null;
      }
      client := new Client(id, authID, conn);
      repo.Save(client, saves);
      outcome := if saves then S.Started else S.NotSaved;
    }

    method Terminate(client: Client, now: Time, stores: bool)
      requires repo.Valid() && repo.Knows(client)
      modifies repo, client
      ensures repo.Valid()
      ensures repo.Now() ==
              S.Terminate(repo.cfg, old(repo.Now()), client.authID, client.id, client.conn, now, stores)
    {
      if repo.cfg.keepLost.None? {
        repo.Delete(client, stores);
        return;
      }
      repo.MarkDisconnected(client, now);
      var existing := repo.GetByID(client.id, now);
      if existing == null {
        return;
      }
      repo.Save(client, stores);
    }

    method DeleteOffline(id: string, now: Time, stores: bool)
      requires repo.Valid()
      modifies repo
      ensures repo.Valid()
      ensures repo.Now() == S.DeleteOffline(repo.cfg, old(repo.Now()), id, now, stores)
    {
      if id == "" {
        return;
      }
      var existing := repo.GetByID(id, now);
      if existing == null || existing.disconnectedAt.None? {
        return;
      }
      repo.Delete(existing, stores);
    }
  }
}
