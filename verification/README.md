# A model of rport

rport is a reverse-tunnel server with its clients. This project models, in Dafny, the parts of it
that hold an algorithm or a protocol of their own, and proves what they are for. Each module stands
for a component:

- `Remotes` (over `Strings`): the tunnel address notation, its parser and its printer.
- `Matching`, `Reestablish`, `Completeness`: which old tunnels a reconnecting client gets back.
  `Matching` is the combinatorics of two greedy passes over any compatibility relation, `Reestablish`
  the code, `Completeness` for which old tunnels the passes miss nothing.
- `Groups`: wildcard parameters of client groups.
- `Tunnels`, `Ports`, `TunnelBatch`, `Collapse`, `Reconnect`: the tunnel list of a client, port ranges
  and the pool of ports, one batch of tunnels, when its entries become fewer tunnels, and matching
  and batch put together for a reconnect.
- `RegistrySpec`, `RegistryLaws`, `Registry`: the cache of clients in front of a table.
- `Query`: filters compiled to a WHERE clause.
- `VaultSpec`, `VaultLaws`, `Vault`: the encrypted key-value vault.
- `Jobs`, `JobTable`, `WebSockets`, `JobReports`, `ConcurrentReports`, `Executor`: jobs on several
  clients, from the runner on the server over its table and the user interface's WebSocket to the
  client that runs the command.
- `BanList`, `ByteStream`, `CapacityBuffer`: bans after bad attempts, a WebSocket read as a byte
  stream, and the bounded buffer for command output.

Code that changes things step by step is a class or a method with loops, proved equal to a function
on values; what every run keeps is then proved about those functions, and `RegistryLaws` and
`VaultLaws` spell out when each operation succeeds and what it then changes. A run is any sequence of
events, and an event that is not possible changes nothing, so a statement about every run is one
about every interleaving. What an operating system, a clock, a database or a network decides is an
input to the step it decides: which ports are busy, whether a port can be bound, whether a statement
or a write succeeds, what time it is, in which order messages arrive.

Each public operation of the registry, of the tunnel list and of the vault is assumed to be one
atomic step. The source does not always make it one: `DeleteOffline`, `SetACL` and `SetUpdatesStatus`
do not take the lock of the client service, and the vault locks single accesses to its password.
Times are integers on one clock that does not go back; the table compares them after a rounding that
may be any monotone function. Encryption is symbolic: what is sealed under a password opens under an
equal one. Tunnel identifiers are numbers here, decimal texts in the code.

## What came out

- *Matching.* `GetTunnelsToReestablish` answers nil both for a mismatch and when nothing is left
  over. The model keeps the two apart; the callers treat them alike. Its greedy passes are complete
  if old tunnels print apart, which the tunnel list guarantees (`Tunnels.OldTunnelsPrintApart`); for
  old tunnels in general exactly if the list is tidy (`Completeness.CompleteExactlyWhen`).
- *Reconnecting.* A matched reconnect asks for exactly the services the client had, but it may end
  with fewer tunnels: explicit ports stay in the pool, so an open remote may draw the port of an
  explicit one before it. If host, port, remote end and ACL then agree, the second start returns the
  first tunnel, nothing is bound, and the batch succeeds (`Reconnect.ReconnectMayLoseTunnel`). The
  exact condition is `Reconnect.ReconnectKeepsExactlyWhen`. With another host, remote end or
  ACL only binding the port stops the draw (`Collapse.DrawnExactlyWhen`).
- *Address shorthands.* The comment at share/remote.go:10-22 says that a missing local or remote host
  becomes 127.0.0.1 and that a lone port is also the local port. The code uses 0.0.0.0, and leaves
  local host and port empty where no local port is given. The model follows the code (`Remotes.Shorthands`).
- *Lost disconnect mark.* If a disconnect cannot be stored and the server restarts afterwards, two
  clients with the same single-use credentials can come back. That is the only way:
  `RegistrySpec.AuthUniqueExactlyWhen` is an equivalence.
- *Keep-lost zero.* After a restart the table drops clients that the cache never forgets, as soon as
  the rounding of times tells restart and cleanup apart, and in no other setting
  (`RegistrySpec.CacheInTableExactlyWhen`).
- *Lost replies.* If the reply to a request is lost although the client started the command, the
  runner of a sequential job may take that client's result for the next one's, or close the channel
  under it. That is the only way: `Jobs.CleanExactlyWithoutLoss` is an equivalence. The client is
  then also reported twice to the user interface, and with two or more clients its socket may close
  before all have been asked; with one client, or without lost replies, it never does
  (`JobReports.SocketExactlyWhen`, `ConcurrentReports.SocketExactlyWhen`).
- *Dropped results.* A result that is lost or cannot be saved leaves the runner waiting for ever, and
  nothing else does (`Jobs.StuckOnlyOnDroppedResult`).
- *Negative identifiers.* The vault reports a value stored under one as stored, and stores nothing
  (`VaultSpec.StoredExactlyWhen`).
- *Filters without values.* They would compile to `()`, which is no condition (`Query.WhereReadable`).

`dafny verify dfyconfig.toml` checks the whole project.

## Model

| member | source | states |
|---|---|---|
| Remotes.DecodeRemote | share/remote.go:38-74 | the right-to-left loop, with overwriting, computes `Decode`: `TakeParts` over the parts, then the two default hosts; the same error for the same text |
| Remotes.DecodeAccepts | share/remote.go:38-66 | a text is accepted exactly when it has at most four parts, the last one is a port, and every other part is a port or passes the host test |
| Remotes.DecodeErrors | share/remote.go:38-66 | which error a refused text gives: too many parts, no port at the end, or a part that is no host |
| Remotes.DecodeFields | share/remote.go:44-73 | without a scan: of the ports the last is remote and the first, if another, local; of the hosts likewise once empty ones at the end are dropped; then the defaults |
| Remotes.DecodeIsParsed | share/remote.go:38-74 | every parsed record has a numeric remote port, a local port that is numeric or absent, non-empty remote host, a local host whenever it has a local port, and nothing else set |
| Remotes.DecodePrinted | share/remote.go:38-94 | parsing the print of a record in the parser's range gives that record |
| Remotes.NormalForm | share/remote.go:38-94 | for every text the parser accepts, parsing the print of the result succeeds with the same record |
| Remotes.ParserRange | share/remote.go:38-74 | a record comes out of the parser for some text if and only if it satisfies `Parsed` |
| Remotes.Shorthands | share/remote.go:10-22 | the four shorthands and the values the code fills in for each |
| Remotes.LocalEndExactly | share/remote.go:38-82 | a parsed remote has a local end exactly if the text names two ports or more |
| Remotes.StringText | share/remote.go:88-98 | the print is local host, local port, remote end, and the ACL in parentheses if there is one |
| Remotes.StringInjective | share/remote.go:88-116 | two well-formed remotes print alike if and only if the four address fields and the ACL are equal |
| Remotes.ParsedPrintsDiffer | share/remote.go:38-94 | two accepted texts, given any ACLs, print alike if and only if they parse alike and the ACLs agree |
| Matching.Serve | server/client_listener.go:317-326 | giving a request the first free suitable offer keeps the matching injective, greedy and recorded in the marks |
| Matching.StuckInFirstPass | server/client_listener.go:317-328 | a request of the first pass left without an offer rules out every injective assignment: by pigeonhole over those that took what suits it |
| Matching.StuckInSecondPass | server/client_listener.go:330-343 | so does one of the second pass, if what suits both kinds of requests comes last: by pigeonhole over the requests that compete with it, first-pass ones included |
| Matching.TooManyRequests | server/client_listener.go:308-310 | more requests than offers admit no injective assignment |
| Matching.FirstFitUnique | server/client_listener.go:317-343 | there is at most one first-fit assignment |
| Matching.StuckNoFirstFit | server/client_listener.go:317-343 | whatever suits what, a request stuck in its turn rules out every first-fit assignment |
| Reestablish.GetTunnelsToReestablish | server/client_listener.go:307-360 | on success there is an injective assignment of every new remote to a compatible old one, made first-fit in two passes; the k-th returned remote copies the old one from[k], `from` running upwards over exactly the unassigned ones: equal in every field if its port is not random, and with local host and port emptied, and nothing else changed, if it is; a mismatch is reported if and only if there is no first-fit assignment, which for a tidy list of old remotes (in particular one that prints apart) is the same as no injective assignment at all |
| Reestablish.MatchWithLocal | server/client_listener.go:317-328 | the first labelled loop: serves exactly the remotes with a local end, or no assignment exists |
| Reestablish.MatchWithoutLocal | server/client_listener.go:330-343 | the second labelled loop: serves all the others, or no assignment exists |
| Reestablish.MarkFirst | server/client_listener.go:319-324 | the inner loop: marks the first free compatible old remote, or every compatible one is taken |
| Reestablish.Unmarked | server/client_listener.go:345-357 | the last loop: copies of exactly the unmarked old remotes, in order, local host and port emptied for random ports only |
| Reestablish.StringsDecide | server/client_listener.go:319-338 | remotes with a local end that share a candidate share them all, and so do remotes without one |
| Reestablish.AssignmentMeans | server/client_listener.go:317-341 | an assignment, spelled out: different old remotes for different new ones, one that prints alike for a remote with a local end, else one on a random port with equal remote end and ACL |
| Reestablish.OutcomeDetermined | server/client_listener.go:307-360 | the assignment, and so the result, is determined by the inputs |
| Reestablish.ServicesConserved | server/client_listener.go:307-360 | for well-formed remotes, after a successful match every (remote end, ACL) occurs among new and returned remotes together exactly as often as among the old ones, and len(old)-len(new) are returned |
| Reestablish.LeftoverOrigin | server/client_listener.go:345-357 | a remote is returned if and only if it copies an untaken old one: in every field if the port of that one is not random, else with local host and port emptied |
| Reestablish.CompatibleSameService | server/client_listener.go:319-338 | compatible remotes give the same access to the same audience |
| Reestablish.TidyOrders | server/client_listener.go:312-343 | in a tidy list what suits both kinds of remotes comes last among what suits one with a local end |
| Completeness.CompleteExactlyWhen | server/client_listener.go:307-343 | the two passes find an assignment for every request that has one if and only if the list of old remotes is tidy: among those that print alike, whatever follows one on a random port is on a random port, too, for the same service |
| Completeness.GreedyDecides | server/client_listener.go:317-343 | the passes make a first-fit assignment, or a tidy list admits none at all |
| Completeness.UntidyIncomplete | server/client_listener.go:312-343 | for every untidy list a request that has an assignment and no first-fit one |
| Groups.Matches | server/cgroups/group.go:54-75 | accepts exactly the values that the lower-cased pattern generates, read as a glob in which `*` is any text |
| Groups.ScanParts | server/cgroups/group.go:63-69 | the loop that shrinks the value decides `Scan`: each part at its first place after the previous one |
| Groups.MatchesOneOf | server/cgroups/group.go:39-52 | an absent list matches always, an empty one only no values; otherwise some parameter matches some value |
| Groups.ScanDecides | server/cgroups/group.go:57-69 | prefix test, suffix test and leftmost scan together are equivalent to the glob |
| Groups.ScanInOrder | server/cgroups/group.go:63-69 | the leftmost scan succeeds with the right end if and only if the parts occur in order at any places |
| Groups.PlacedFirst | server/cgroups/group.go:63-69 | the exchange: if the parts fit with the first one at any place, they fit with it at its first place |
| Groups.InOrderGlob | server/cgroups/group.go:57-71 | parts occurring in order are what the pattern joined from them generates |
| Groups.LiteralPattern | server/cgroups/group.go:74 | a pattern without `*` generates itself only |
| Tunnels.Client.FindTunnelByRemote | server/clients/client.go:85-92 | the first tunnel in the list that prints as the remote does, or none if there is none |
| Tunnels.Client.StartTunnel | server/clients/client.go:94-125 | an existing tunnel is returned and nothing changes; otherwise an identifier is used up, and the tunnel is appended if its port can be bound |
| Tunnels.Client.RemoveTunnelByID | server/clients/client.go:150-158 | the list without the tunnels of that identifier, in order |
| Tunnels.Client.TerminateTunnel | server/clients/client.go:127-135 | removes the tunnel once it let itself be terminated, and otherwise nothing |
| Tunnels.GetRemotes | server/client_listener.go:298-304 | the remotes of a tunnel list, one for one, in order |
| Tunnels.RunValid | server/clients/client.go:85-158 | over every run of starts, terminations and idle closes, identifiers grow strictly along the list and do not exceed the counter, and no two tunnels print alike |
| Tunnels.RemovesExactlyOne | server/clients/client.go:150-158 | in a valid list removal takes out that tunnel and no other |
| Tunnels.EndsExactlyOne | server/clients/client.go:127-158 | after any run, terminating takes out the one tunnel exactly if that lets itself be terminated, an idle close takes it out, and nothing else changes |
| Tunnels.StartEffect | server/clients/client.go:94-125 | a start finds a tunnel exactly if one that prints alike was there or the port can be bound; then the list is as after a start on a port that can be bound, else it stays |
| Tunnels.StartTwice | server/clients/client.go:94-125 | after a successful start the same start changes nothing |
| Tunnels.IdentifiersFresh | server/clients/client.go:146-148 | over every run a tunnel that was not there before has a larger identifier than any before |
| Tunnels.OldTunnelsPrintApart | server/clients/client.go:85-158 | the old tunnels handed to the matching print apart after any run, which is what its completeness rests on |
| Tunnels.RunWellFormed | server/clients/client.go:94-158 | over every run the tunnels are as well formed as the remotes that were started |
| Ports.TryParsePortRanges | server/ports/port_range.go:12-33 | fails if and only if some range text is malformed; otherwise exactly the ports in some range |
| Ports.TryParsePortRange | server/ports/port_range.go:14-29 | one text: accepted exactly if its one or two parts are ports, the first not above the second; then exactly the ports from the first to the second |
| Ports.RangeTexts | server/ports/port_range.go:14-59 | a number up to 65535 stands for itself, `p-q` for all ports from p to q, and `p-q` with p above q or q above 65535 is malformed |
| Ports.ConfiguredRanges | server/ports/port_range.go:12-33 | a list of ranges p-q covers exactly the ports between the ends of one of them, and is malformed exactly if one of them is |
| Ports.SetFromRange | server/ports/port_range.go:61-67 | the loop collects exactly the numbers from start to end |
| Ports.ParseAndValidatePorts | server/config.go:411-429 | allowed ports are those in a used and in no excluded range, ends included; an error exactly if a range is malformed or no port is left |
| Ports.PortDistributor.Refresh | server/ports/port_distributor.go:52-60 | the pool becomes the allowed ports that are not busy, or stays if busy ports cannot be listed |
| Ports.PortDistributor.GetRandomPort | server/ports/port_distributor.go:29-42 | takes one port out of the pool, filled first if it never was; none exactly when the pool is empty or cannot be filled |
| TunnelBatch.StartClientTunnels | server/client_service.go:233-274 | after a successful batch every entry, in place, was served from allowed minus busy minus the ports drawn before it, the pool is allowed minus busy minus all drawn, entry for entry a tunnel that prints like it is in the client's list, and the list is the one that starting the settled entries gives; a batch fails if and only if busy ports cannot be listed or some entry is refused, with the error of the first one, and keeps the tunnels of the entries before it |
| TunnelBatch.CheckLocalPort | server/client_service.go:276-301 | no error exactly for a number that is allowed and still in the pool, and which error otherwise |
| TunnelBatch.SettleLocal | server/client_service.go:242-255 | a remote without a local end gets a port out of the pool; one with it is checked and left alone; when each of them fails |
| TunnelBatch.StartOne | server/client_service.go:241-271 | settles the local end, checks the ACL, starts the tunnel; succeeds if and only if the port is a free one (or one is left), the ACL parses, and the port can be bound or the tunnel is there already; each error exactly for its cause; the list stays valid and only grows |
| TunnelBatch.Prepare | server/client_service.go:242-264 | settles the local end and checks the ACL: when each fails, and with which error |
| TunnelBatch.NeverRefused | server/client_service.go:233-274 | with ACLs that parse, ports that can be bound, explicit remotes first and in the pool, and a port for each remote, no entry is refused, whatever is drawn |
| TunnelBatch.StartEntry | server/client_service.go:241-271 | one pass of the loop, filling the entry in where it stands |
| TunnelBatch.DrawnApart | server/client_service.go:241-255 | a drawn port differs from every port settled after it, drawn or explicit |
| TunnelBatch.AssignedWellFormed | server/client_service.go:246-249 | a remote with a drawn port is still identified by its print |
| TunnelBatch.SettledConfigured | server/client_service.go:233-255 | with the configured ranges every port of a settled batch, drawn or explicit, lies in a used range, in no excluded one, and was not busy; an explicit remote did not change, of another one only the local end |
| Collapse.ListedExactlyWhenApart | server/clients/client.go:94-125 | the list of a new client gives the services of the remotes it was started with, each as often, if and only if these print apart |
| Collapse.DrawnExactlyWhen | server/client_service.go:242-255 | in some settlement an open entry draws a given port, also one that is explicit earlier in the batch, if and only if the batch is feasible, no explicit entry after it has that port, and the open entries before it can do without it |
| Collapse.MeetExactlyWhen | server/client_service.go:242-255 | an explicit entry and a drawn one print alike if and only if the explicit one is on 0.0.0.0, its port text is the drawn port, and remote end and ACL agree |
| Collapse.ApartExactlyWhen | server/client_service.go:233-274 | whatever is drawn, the settled entries print apart: this is sure if and only if the explicit ones print apart (or the batch is not feasible) and no open one may meet an explicit one |
| Collapse.SettledExactlyWhenFeasible | server/client_service.go:233-274 | a batch can be settled if and only if its explicit ports are in the pool and at every open entry the ports not claimed by later explicit ones are enough for the open entries so far |
| Reconnect.StartTunnels | server/client_service.go:149-206 | a reconnect: a match is found exactly when the new remotes can be assigned to the old tunnels; after a successful batch the list of the new client gives exactly the services of the old one if and only if the settled remotes print apart, which is sure if no open remote may meet an explicit one before it; it fails only if busy ports cannot be listed or an entry is refused |
| Reconnect.ReconnectKeepsExactlyWhen | server/client_service.go:149-206 | whatever is drawn, a matched reconnect keeps the services: this is sure if and only if no open remote of the batch may meet an explicit one |
| Reconnect.ServicesKeptExactlyWhen | server/client_service.go:233-274 | the same for any batch of a new client: if and only if the explicit remotes print apart (or the batch is not feasible) and no open one may meet one of them |
| Reconnect.ReconnectMayLoseTunnel | server/client_service.go:149-206 | for any service and ports: a reconnect with two old tunnels whose match and batch succeed and that leaves one tunnel |
| Reconnect.Requested | server/client_service.go:149-156 | the remotes to start: the new ones, followed after a match by the old ones left over; the batch has the services of the old tunnels, and its explicit remotes print apart |
| Reconnect.MatchedExplicitApart | server/client_service.go:149-156 | after a match the explicit remotes of the batch print as different old tunnels do |
| Reconnect.WholeBatchKeepsServices | server/client_service.go:233-274 | settling a batch does not change what its remotes give access to |
| RegistrySpec.ConnectedStay | server/client_service.go:133-214 | over every run, every open connection of a started client is the connected client filed under its identifier |
| RegistrySpec.TerminateTakesEffect | server/client_service.go:303-322 | after any run the end of an open connection disconnects or removes exactly its own client, in the cache and, if it can be written, in the table |
| RegistrySpec.KeptClientCanReturn | server/client_service.go:133-214 | a disconnected client that is still kept can start again with its own credentials |
| RegistrySpec.OneClientPerAuth | server/client_service.go:133-214 | with single-use credentials, over every run in which no restart follows a disconnect whose mark was not stored, non-obsolete clients with equal credentials are one client, at the end and at any later time |
| RegistrySpec.LostMarkThenRestart | server/client_service.go:303-322 | for any keeping time and any rounding, a run with a lost mark and a restart after which two clients share credentials |
| RegistrySpec.AuthUniqueExactlyWhen | server/client_service.go:133-214 | single-use credentials are unique over every run if and only if lost clients are not kept, or marks are never lost, or the server never restarts |
| RegistrySpec.RunSynced | server/client_service.go:303-322 | as long as no mark was lost, every row agrees with the cache or is too old to matter |
| RegistrySpec.CacheInTable | server/clients/cr.go:65-112 | with lost clients kept, or a rounding that tells no times apart: over every run with storage failures and restarts every cached client has a row, for any monotone rounding |
| RegistrySpec.ExpiredIsObsolete | server/clients/sqlite.go:75-91 | what the table drops the cache treats as obsolete at the same or any later time |
| RegistrySpec.NotKeptNotBacked | server/clients/sqlite.go:75-91 | with keep-lost zero, for any two times that the rounding tells apart: a run after which a cached client has no row |
| RegistrySpec.CacheInTableExactlyWhen | server/clients/cr.go:65-112 | for any monotone rounding, every run keeps the cache within the table if and only if lost clients are kept or the rounding is constant on the times of the clock |
| Registry.ClientService.StartClient | server/client_service.go:133-214 | outcome and new state are those of the specification: refused for a connected identifier, for credentials in use, when a tunnel cannot start or the client cannot be saved; else filed and stored |
| Registry.ClientService.Terminate | server/client_service.go:303-322 | deletes the client, or marks it disconnected in place and stores the mark if it is still known |
| Registry.ClientService.DeleteOffline | server/client_service.go:337-351 | deletes a known disconnected client from table and cache, and otherwise nothing |
| Registry.ClientRepository.Save | server/clients/cr.go:65-77 | table and then cache, or neither |
| Registry.ClientRepository.Delete | server/clients/cr.go:79-91 | table and then cache, or neither |
| Registry.ClientRepository.GetByID | server/clients/cr.go:149-157 | the cached client, unless lost clients are kept for a time, it was disconnected, and that time is over |
| Registry.ClientRepository.IsClientAuthIDInUse | server/client_service.go:354-361 | some other client has the credentials that is connected, or whose keeping time is not over |
| Registry.ClientRepository.DeleteObsolete | server/clients/cr.go:94-112 | table rows and then cached clients older than the keeping time, or nothing |
| RegistryLaws.ConnectedIsFound | server/clients/cr.go:149-157 | after any run a client with an open connection is found at every time |
| RegistryLaws.KeptExactly | server/clients/client.go:72-75 | after any run, a client whose connection ends at t is found from then on exactly up to t plus the keeping time, whether or not the mark could be stored |
| RegistryLaws.NotKept | server/client_service.go:303-322 | where lost clients are not kept it is gone at once, or, if it could not be deleted, found at every time |
| RegistryLaws.CredentialsKept | server/client_service.go:133-214 | up to t plus the keeping time nobody else can start with its single-use credentials |
| RegistryLaws.OneClientThere | server/client_service.go:354-361 | with single-use credentials, unless a restart follows a lost mark, after any run no two clients that are connected or within their keeping time have the same credentials |
| RegistryLaws.StartsExactlyWhen | server/client_service.go:133-214 | a client starts exactly if its tunnels do, it can be saved, its identifier is not connected, and no other client within its keeping time has the single-use credentials; it is then filed, stored and connected, else nothing changes |
| RegistryLaws.RefusedFor | server/client_service.go:133-214 | for which of several reasons a start is refused |
| RegistryLaws.DeletesExactlyWhen | server/client_service.go:337-351 | an offline client is deleted exactly if it is disconnected, still kept, and can be deleted; it is then gone from cache and table, and nothing else changes |
| RegistryLaws.TouchesExactly | server/client_service.go:363-383 | saving a known client again brings its own row in line with the cache and changes nothing else |
| RegistryLaws.CleansExactly | server/clients/cr.go:94-112 | a cleanup drops from the cache exactly the clients whose keeping time is over, from the table exactly the rows for which it is after rounding, or nothing |
| RegistryLaws.RestartsExactly | server/clients/init.go:9-28 | a restart brings back exactly the rows whose time is not over, disconnected, as of now if they were connected, and writes that to the table |
| Query.AddWhere | share/query/convert.go:22-47 | the nested loops build `WhereTokens` and the parameters in filter order; no clause without filters |
| Query.WhereSelects | share/query/convert.go:22-47 | read with AND tighter than OR and each `?` bound left to right, the clause holds of exactly the rows that have, for every filter, one of its values, and uses up all parameters |
| Query.WhereReadable | share/query/convert.go:29-43 | the clause is a search condition if and only if every filter has a value |
| Query.PlaceholdersMatchParams | share/query/convert.go:22-47 | as many placeholders as parameters, for any filters |
| Query.ParenthesesMatter | share/query/convert.go:39-43 | without the parentheses a row may pass that fails a filter |
| VaultSpec.RunValid | server/vault/manager.go:82-213 | over every run: the provider is open exactly when the file exists, every row and the check value are sealed under one password, (key, client) is unique, and an unlocked vault holds that password |
| VaultSpec.UnlockedOpensEverything | server/vault/manager.go:82-213 | whenever the vault is unlocked, the held password opens the check value and every stored row, and no two rows share key and client |
| VaultSpec.MasterIsInitPassword | server/vault/manager.go:82-126 | the password everything is sealed under is the one of the successful Init |
| VaultSpec.UnlocksOnlyForInitPassword | server/vault/manager.go:146-184 | a locked vault opens for the password of the successful Init and no other, whatever happened since |
| VaultSpec.InitOnce | server/vault/manager.go:82-126 | after a successful Init every other one fails and changes nothing |
| VaultSpec.LedgerHolds | server/vault/manager.go:324-418 | the rows are exactly what the callers were told was stored, under identifiers that are not negative, and not deleted since |
| VaultSpec.ReadsLastStored | server/vault/manager.go:290-322 | a permitted read of an unlocked vault returns the plaintext last stored under the identifier, or nothing if there is none |
| VaultSpec.NegativeIDStoresNothing | server/vault/manager.go:324-385 | storing under a negative identifier is reported as done and changes nothing |
| VaultSpec.StoredExactlyWhen | server/vault/manager.go:324-385 | after any run, what a successful Store reports as stored is stored under the identifier it reports if and only if it was not asked to update a negative one; then nothing changed |
| VaultSpec.LockedUntilOpened | server/vault/manager.go:420-441 | from a locked vault on nothing can be read and no row changes, whatever is tried, until Init or UnLock |
| VaultLaws.OpenedTells | server/vault/manager.go:82-213 | after any run the vault holds a password exactly if it was initialised or unlocked, with success, and neither locked, with success, nor restarted since; and that is the one of the Init |
| VaultLaws.InitsExactlyWhen | server/vault/manager.go:82-126 | Init succeeds exactly before any other successful one, for a password of 4 to 32 bytes, if the storage calls do |
| VaultLaws.UnLocksExactlyWhen | server/vault/manager.go:146-184 | UnLock succeeds exactly for a closed vault and the password of the Init, if the status can be read |
| VaultLaws.LocksExactlyWhen | server/vault/manager.go:186-213 | Lock succeeds exactly for an open vault whose status can be read |
| VaultLaws.LockCloses | server/vault/manager.go:186-213 | after a successful Lock no password is held, reads, stores and deletes answer that the vault is locked, and its rows stay, whatever else is done, until Init or UnLock |
| VaultLaws.ReadsExactly | server/vault/manager.go:268-322 | what a read answers, as callers know the vault: an error if it is closed or they are not in the value's group, nothing for an unused identifier, else the value last stored |
| VaultLaws.StoresExactlyWhen | server/vault/manager.go:324-385 | a Store succeeds exactly for an open vault and a complete input, on a permitted identifier, with a key no other identifier has for that client; a new identifier is above all others |
| VaultLaws.DeletesExactlyWhen | server/vault/manager.go:387-418 | a Delete succeeds exactly for an open vault and a permitted identifier, and takes out that one alone |
| Vault.Manager.Init | server/vault/manager.go:82-126 | state and answer are those of the specification, the failed write that leaves the provider attached included |
| Vault.Manager.UnLock | server/vault/manager.go:146-184 | state and answer are those of the specification |
| Vault.Manager.Lock | server/vault/manager.go:186-213 | state and answer are those of the specification, of which `VaultLaws.LocksExactlyWhen` and `VaultLaws.LockCloses` say when it succeeds and that it then locks |
| Vault.Manager.GetOne | server/vault/manager.go:290-322 | the answer is that of the specification |
| Vault.Manager.Store | server/vault/manager.go:324-385 | state and answer are those of the specification: in a valid vault the one row found by key decides whether another row clashes |
| Vault.Manager.Delete | server/vault/manager.go:387-418 | state and answer are those of the specification |
| Vault.Database.FindByKeyAndClientID | server/vault/sqlite.go:148-159 | some row with key and client, or none if there is none |
| Vault.Database.Save | server/vault/sqlite.go:161-203 | inserts under the next identifier, or updates the row there is |
| Vault.Database.SetStatus | server/vault/sqlite.go:67-118 | the one status row is replaced |
| Vault.Database.Attach | server/vault/dbProvider.go:32-44 | opens the file, creating it if it is not there |
| Jobs.RunValid | server/api.go:1726-1840 | over every interleaving: all clients before the cursor are settled, all behind it untouched, the one under it fits what the runner is doing, and a client that ends the run is the last one dealt with |
| Jobs.OneAtATime | server/api.go:1726-1787 | at most one client is started and unreported |
| Jobs.WaitsFollowStarts | server/api.go:1726-1787 | commands start in list order; the k-th wait is for the k-th command started and consumes its result; every result consumed was waited for |
| Jobs.NothingAfterFailure | server/api.go:1765-1782 | with abort-on-error, no later client is touched once one has no identifier, its request failed, or its command failed; nor, if every client needs an identifier, once one has none |
| Jobs.StopsMeans | server/api.go:1765-1782 | which outcomes end a run |
| Jobs.EveryoneAttempted | server/api.go:1765-1782 | without it every client is attempted and settled |
| Jobs.OverMeansThrough | server/api.go:1726-1787 | a run that is over settled every client it dealt with, and left some out exactly if one before the last had, with abort-on-error, no identifier, a failed request or a failed command, or lacked an identifier every client needs; a command that ends otherwise does not end the run |
| Jobs.InterleavingsAgree | server/api.go:1726-1787 | every interleaving deals with exactly the clients the loop alone would deal with |
| Jobs.ExecuteMultiClientJob | server/api.go:1742-1783 | the loop with its continues and breaks attempts the clients up to and including the first one whose outcome, with abort-on-error, is a failure, or that lacks an identifier every client needs; all if there is none |
| Jobs.CleanExactlyWithoutLoss | server/api.go:1726-1787 | every run matches results to waits and never sends on a closed channel if and only if no reply can be lost (or there are no clients) |
| Jobs.LossBreaks | server/api.go:1814-1839 | for any number of clients and any options, a lost reply has a run that breaks one or the other |
| Jobs.RunsAreFinite | server/api.go:1726-1787 | a run of an n-client job has at most 8n+2 steps that change anything |
| Jobs.StuckOnlyOnDroppedResult | server/api.go:1779-1782 | no step is possible exactly when the runner is done or waits for a result that was lost on the way or could not be saved |
| Jobs.RowsHoldResults | server/client_listener.go:382-447 | over every run, with lost replies too, a saved result is what the row holds, whether it came before or after the row was created |
| Jobs.RowsTellTruth | server/api.go:1789-1840 | over every run without lost replies, the row of a command that was started and has not reported never says failed |
| Jobs.CreateMakesRow | server/api.go:1828-1839 | if it can be stored, the job that was just sent has a row: the result if that came first, else one that says whether it runs |
| Jobs.ResultStays | server/api/jobs/jobs.go:75-91 | no step takes a result out of a row |
| JobTable.SqliteProvider.SaveJob | server/api/jobs/jobs.go:65-73 | inserts or replaces the row, or nothing if the statement fails |
| JobTable.SqliteProvider.CreateJob | server/api/jobs/jobs.go:75-91 | inserts the row unless it is there, which is no error; nothing if the statement fails |
| JobTable.RowIsLastSavedOrFirstCreated | server/api/jobs/jobs.go:65-91 | for every sequence of creates and saves, failed ones included, the row is the job saved last, else the one created first |
| JobTable.CreateAndSaveCommute | server/api/jobs/jobs.go:65-91 | a create and a save of one job may come in either order |
| JobTable.FinishedStaysFinished | server/api/jobs/jobs.go:75-91 | after a finished job was saved the row never says running again |
| WebSockets.ConcurrentWebSocket.WriteMessage | share/ws/websocket.go:46-62 | delivers on an open connection the transport carries; the count goes down even if the write fails, and at zero the connection closes |
| WebSockets.ConcurrentWebSocket.SetWritesBeforeClose | share/ws/websocket.go:64-68 | sets the count and nothing else |
| WebSockets.ConcurrentWebSocket.Dec | share/ws/websocket.go:70-80 | one less, and closed at exactly zero |
| WebSockets.ClosesAtLastReport | share/ws/websocket.go:46-80 | if each client reports at most once, the socket of an n-client job is closed exactly when all n clients have reported, failures or results in any order; every report the transport carries is delivered, the last one too |
| WebSockets.AllReported | server/api.go:2020-2173 | clients that report at most once make at most n reports, and n exactly when all have reported |
| WebSockets.BeforeTheLast | share/ws/websocket.go:70-80 | after k of n reports the count is n-k and only the n-th has closed the socket |
| WebSockets.NeverCloses | share/ws/websocket.go:70-80 | a count that starts at zero or below never closes the socket |
| WebSockets.SoleClient | share/ws/websocket.go:46-80 | the socket of a one-client job closes with the first report, however often the client reports |
| WebSockets.ClosedWithout | share/ws/websocket.go:46-80 | as many reports as clients close the socket, also if one client has not reported |
| JobReports.SocketFollowsRun | server/api.go:2020-2173 | without lost replies, when the run is over the socket has closed itself exactly if every client was dealt with; at any moment exactly if all have reported, and every report the transport carries is delivered |
| JobReports.ReportsTell | server/client_listener.go:417-447 | nobody reports twice, who is dealt with has reported, and who has not been asked has not |
| JobReports.OnceExactlyWithoutLoss | server/api.go:2137-2172 | every run has each client report at most once if and only if no reply is ever lost (or there are no clients) |
| JobReports.LossClosesEarly | server/api.go:2142-2152 | for any two or more clients, a run with a lost reply after which the socket is closed although the last client was never asked |
| JobReports.SocketExactlyWhen | server/api.go:2020-2173 | at any moment of every run the socket of a sequential job has closed itself exactly if all clients have reported: this holds if and only if no reply is ever lost, or there is one client |
| ConcurrentReports.SocketExactlyWhen | server/api.go:2034-2050 | the same for a concurrent job, for every interleaving of its clients: if and only if no reply is ever lost, or there is one client |
| ConcurrentReports.OnceExactlyWithoutLoss | server/api.go:2034-2050 | over every interleaving each client reports at most once if and only if no reply is ever lost (or there are no clients) |
| ConcurrentReports.LossClosesEarly | server/api.go:2142-2152 | for any two or more clients, an interleaving with a lost reply after which the socket is closed although one client has done nothing |
| BanList.MaxBadAttemptsBanList.AddBadAttempt | share/security/banlist.go:60-80 | counts; at the maximum starts the count again and a ban |
| BanList.MaxBadAttemptsBanList.AddSuccessAttempt | share/security/banlist.go:83-92 | forgets the count and the ban of a known visitor |
| BanList.MaxBadAttemptsBanList.IsBanned | share/security/banlist.go:95-100 | a ban is recorded and not over |
| BanList.RefinesHistory | share/security/banlist.go:60-100 | a visitor's record is what its k bad attempts since the last success make of it: count k mod max, ban from the attempt that ended the last full round |
| BanList.BannedExactlyWhen | share/security/banlist.go:60-100 | banned at t if and only if k >= max > 0 and bad attempt number k - (k mod max) plus the duration is after t |
| BanList.OthersDoNotMatter | share/security/banlist.go:60-100 | histories that agree on a visitor agree on its ban |
| ByteStream.WsConn.Read | share/conn_ws.go:24-52 | succeeds exactly if bytes are left over or a message can be read; delivers as much of the front of the left-over or of the next message as fits, keeps the rest, leaves the rest of the buffer alone; on an error nothing changes |
| ByteStream.BytesConserved | share/conn_ws.go:24-52 | after any reads into buffers of any sizes, delivered bytes, left-over and unread messages make up the original stream |
| ByteStream.ReadMakesProgress | share/conn_ws.go:24-52 | a read into a non-empty buffer delivers something, or consumes an empty message, and never crosses a message boundary |
| CapacityBuffer.CapacityBuffer.Write | client/exec.go:290-303 | keeps what fits; an error, and no bytes reported, exactly when something does not |
| CapacityBuffer.KeepsFirstBytes | client/exec.go:276-303 | after any writes the buffer holds the first `capacity` bytes of all that was written, and the overflow flag is set exactly when there was more |
| Executor.Client.HandleRunCmdRequest | client/exec.go:56-82 | up to the lock: which requests are refused and why, and that nothing else changes |
| Executor.Client.Proceed | client/exec.go:82-130 | with the lock held: refused and unlocked again, or started with the PID set |
| Executor.Client.Observe | client/exec.go:132-191 | unsets the PID, releases the lock, and then sends the result |
| Executor.OneCommandAtATime | client/exec.go:56-194 | over every interleaving at most one command is observed, the lock is held exactly while one is, the PID is that command's and set exactly while it is waited for; a request answered with an error never has a result, one answered with a PID is under observation, or its result was sent once or failed to be sent |
| Executor.DisabledRunsNothing | client/exec.go:56-59 | with remote commands disabled no command is ever started and no result sent, over every run |
| Executor.RefusedExactlyWhileWatched | client/exec.go:67-75 | a single-client request is refused for a running command exactly while one is waited for, with its PID |
| Executor.RepliesFit | client/exec.go:56-130 | over every run each request is answered for a reason: started only if commands are enabled, it decodes, it is no script where scripts are disabled, it is an allowed command, and all else is in order; refused for the first thing that is not |
| Executor.RequestTaken | client/exec.go:56-82 | a request waits for the lock exactly if its first checks pass and it is for several clients or no command is waited for; else it is answered, and nothing else changes |
| Executor.CommandServed | client/exec.go:82-130 | a waiting request that gets the lock is answered: started and watched with the lock held if all is in order, else refused with the lock free |
| Executor.CommandEnds | client/exec.go:132-194 | when a watched command ends the PID is unset, the lock free, and its result sent or lost; nothing else changes |

## Left out

- Remotes.DecodeRemote: the host test (net/url parsing) is an unknown predicate; the round trip needs only that it passes the empty text and 0.0.0.0.
- Strings.Atoi: the text forms of the error values are not modelled; range and sign are.
- Reestablish.GetTunnelsToReestablish: remotes are values, so that two list entries could be the same object is not captured; that the old ones are not changed holds by construction.
- Reestablish.ServicesConserved: for remotes whose fields contain no separator and whose remote port is numeric, which is what the parser and a drawn port give.
- Groups.Matches: lower-casing is any function from texts to texts.
- Tunnels.Client.StartTunnel: a tunnel is its identifier and its remote; the listener, the parsed ACL and the idle timer are outside.
- TunnelBatch.StartClientTunnels: which access lists parse is a parameter; HTTP status codes are left out, the kinds of errors are kept.
- Reconnect.StartTunnels: leaves out the rest of StartClient, which `Registry.ClientService.StartClient` models; the old tunnels are those of some run of starts of well-formed remotes.
- Registry.ClientService.StartClient: whether the tunnels start is an input, and only identifier, credentials, connection and disconnect time of a client are kept; a refused client's tunnels, which are dropped with it, are not followed.
- Registry.ClientService.Terminate: a connection has a number of its own, and a cached client with the number of `client` is `client`.
- Registry.ClientService.DeleteOffline: the error kinds are left out; when it changes nothing is kept.
- RegistrySpec.OneClientPerAuth: ForceDelete is not among the events; a disconnect that arrives after a forced deletion and a reconnect saves the old client again under its identifier.
- RegistrySpec.CacheInTable: a failure in the middle of the start-up (server/clients/init.go) is left out; the server does not start then.
- Query.AddWhere: spaces are left out, and so are ORDER BY and the selection of fields.
- VaultSpec.ReadsLastStored: for the plaintext; owner, time stamps and listing of values are left out, and so is a value's age.
- Vault.Manager.Store: single storage calls inside one operation fail together or not at all, except in Init.
- Jobs.RunValid: the concurrent kind of job, which starts all clients without waiting, is left out here; its reports are in `ConcurrentReports`.
- Jobs.RowsHoldResults: only whether a row says running, failed or which result it holds; the other columns are in `JobTable`.
- JobTable.SqliteProvider.SaveJob: the conversion of a job to columns is left out.
- JobReports.SocketExactlyWhen: for reports made while the runner is at work and the user interface stays connected; the explicit Close of an aborted job is left out.
- ConcurrentReports.SocketExactlyWhen: any client may start at any time; that a missing identifier keeps later clients from starting is left out, which only adds runs.
- WebSockets.ClosesAtLastReport: for reports in which each client appears at most once; when that is so is `JobReports.OnceExactlyWithoutLoss` and `ConcurrentReports.OnceExactlyWithoutLoss`.
- Executor.OneCommandAtATime: one request handler, as within one connection; the environment's answers (interpreter, allowed commands, script file, start) are inputs, and the wait for the command or for its timeout is one event.
- CapacityBuffer.CapacityBuffer.Write: the capacity is not negative, which client/config.go:221 checks.
- SSH, HTTP routing, TLS, the WebSocket protocol, logging and configuration files: plumbing.
- Regular expressions for commands and for client filters: they rest on a library.
- Real encryption, password hashing and tokens: symbolic or left out.
- Script and command libraries, package and system information, sorting of listings: easier members of the same kind.
- The client's connection loop with its timers.
