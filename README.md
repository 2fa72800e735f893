# Node registry

A model of the node registry service in `server/src/main.rs`. The service holds
one in-memory table from node id to a node record (`id`, `ip`, `status`), shared
by five HTTP handlers under `/api/v1`:

| route | handler | model |
|---|---|---|
| `POST /register` | `register_node` | `NodeRegistry.RegisterNode`, specified by `Register` |
| `GET /nodes` | `get_nodes` | `NodeRegistry.GetNodes`, specified by `IsSnapshot` |
| `PUT /nodes/{id}` | `update_node` | `NodeRegistry.UpdateNode`, specified by `Update` |
| `DELETE /nodes/{id}` | `remove_node` | `NodeRegistry.RemoveNode`, specified by `Remove` |
| `PUT /nodes/{id}/block` | `block_node` | `NodeRegistry.BlockNode`, specified by `Block` |

`registry.dfy` (module `Registry`) holds the data model, the specification
functions over a `map<string, Node>` table (each returns the new table and the
reply), and the class `NodeRegistry`. The class has one mutable field, `nodes`.
Each of the four handlers that change the table is a method that changes that
field in place; its postcondition ties the new table and the reply to the
specification function. Their replies are `Ok(body)` (200) or `NotFound(body)`
(404), carrying the source's literal bodies. `GetNodes` only reads the table:
it copies every stored record into a list, specified by `IsSnapshot`. `Handle`
routes a `Request` to its handler for the four routes in `main` that change the
table; the GET route is not a `Request`.

`properties.dfy` (module `RegistryProperties`) runs request sequences through
`Handle` and proves properties that relate several calls:

- which keys can appear;
- that a removed key answers 404 until it is registered again;
- that the key/id agreement survives every request except a mismatched update;
- idempotence of block;
- registering twice, removing twice;
- what a listing shows after a registration.

The agreement "every record's `id` equals its key" (`KeysMatchIds`) is not an
invariant of the class. `update_node` stores the body under the path id without
comparing it with the body's own id. `Update`'s contract says the agreement
survives exactly when the key was absent or the ids agree.
`UpdateBreaksKeysMatchIds` reaches a table that breaks it from the empty table
in two requests.

Three consequences of the code are worth stating:

- `update_node` on a missing id answers 404 "Node not found" and creates
  nothing (`server/src/main.rs:47-51`).
- After an update, a stored record's `id` can differ from its key
  (`server/src/main.rs:48`).
- A listing taken right after registering `n` holds `n` exactly once only while
  every key matches its record's id. Otherwise the same record can sit under
  two keys: `UpdateCanStoreRecordTwice` reaches such a table from the empty one
  in three requests, and `ListingHoldsRecordTwice` shows its listing holds the
  record twice. `RegisterThenList` proves the unconditional part (`n` is at the
  position read from key `n.id`) and the "exactly once" part under
  `KeysMatchIds`.

## Model

| member | source | states |
|---|---|---|
| `Registry.Response.Code` | server/src/main.rs:49-51 | a success reply is sent as 200 and a not-found reply as 404, and no other code is used |
| `Registry.Register` | server/src/main.rs:22-31 | the table maps `n.id` to exactly `n`; every other key and its record is unchanged; the key set grows by `n.id` only; the reply is Ok "Node registered"; key/id agreement is preserved |
| `Registry.Update` | server/src/main.rs:39-53 | if `id` is stored it now maps to the body verbatim and the reply is Ok "Node updated", otherwise the table is unchanged and the reply is NotFound "Node not found"; the key set never changes; other keys are untouched; from an agreeing table the result agrees if and only if `id` was absent or the body's id is `id` |
| `Registry.Remove` | server/src/main.rs:55-67 | exactly the key `id` is removed and the rest is untouched; the size drops by one exactly when `id` was present; the reply is Ok "Node removed" if it was present and NotFound "Node not found" otherwise; key/id agreement is preserved |
| `Registry.Block` | server/src/main.rs:69-82 | if `id` is stored, its record's status becomes "blocked" with `id` and `ip` kept, and the reply is Ok "Node blocked"; otherwise the table is unchanged and the reply is NotFound "Node not found"; keys and other records are untouched; key/id agreement is preserved |
| `Registry.Handle` | server/src/main.rs:92-98 | routing a request: only registration adds a key (exactly the node's id), only removal drops one (exactly the path id), update and block keep the key set; every request but a mismatched update keeps key/id agreement |
| `Registry.SnapshotLength` | server/src/main.rs:35 | a listing holds as many records as the table has entries |
| `Registry.NodeRegistry.constructor` | server/src/main.rs:86-88 | the service starts with an empty table |
| `Registry.NodeRegistry.RegisterNode` | server/src/main.rs:27-30 | the new table and the reply are those of `Register` on the old table |
| `Registry.NodeRegistry.GetNodes` | server/src/main.rs:33-37 | without changing the table, returns one record per entry: each read from a distinct key, every key read once, so its length is the number of entries |
| `Registry.NodeRegistry.UpdateNode` | server/src/main.rs:45-52 | the new table and the reply are those of `Update` on the old table |
| `Registry.NodeRegistry.RemoveNode` | server/src/main.rs:60-66 | the new table and the reply are those of `Remove` on the old table |
| `Registry.NodeRegistry.BlockNode` | server/src/main.rs:74-81 | the new table and the reply are those of `Block` on the old table |
| `RegistryProperties.Run` | server/src/main.rs:92-98 | after any sequence of requests, every key was in the starting table or is the id of a node some request registered |
| `RegistryProperties.MissingUntilRegistered` | server/src/main.rs:46-48 | a missing key stays missing through requests that do not register a node with that id |
| `RegistryProperties.RemovedAnswersNotFound` | server/src/main.rs:60-66 | after removing `k` and any requests that do not register `k`, update, remove and block of `k` all answer NotFound "Node not found" |
| `RegistryProperties.KeysMatchIdsPreserved` | server/src/main.rs:28 | key/id agreement holds after any request sequence whose updates all carry a body with the path id |
| `RegistryProperties.UpdateBreaksKeysMatchIds` | server/src/main.rs:47-48 | registering "a" and then updating "a" with a body of id "b" leaves that body under "a", breaking key/id agreement |
| `RegistryProperties.UpdateCanStoreRecordTwice` | server/src/main.rs:28-48 | registering "a" and "x" and then updating "x" with the record of "a" leaves that record under both keys |
| `RegistryProperties.ListingHoldsRecordTwice` | server/src/main.rs:35 | a listing of a table holding one record under two keys contains that record twice |
| `RegistryProperties.RegisterTwiceKeepsLast` | server/src/main.rs:28 | registering two nodes with the same id gives the table of registering only the second |
| `RegistryProperties.RemoveTwice` | server/src/main.rs:62-65 | removing a stored key answers Ok, and removing it again answers NotFound and leaves the table as it was |
| `RegistryProperties.BlockIdempotent` | server/src/main.rs:76-77 | blocking a second time gives the same table and the same reply as blocking once |
| `RegistryProperties.SnapshotHoldsStoredRecords` | server/src/main.rs:35 | a record is in a listing if and only if it is stored in the table |
| `RegistryProperties.RegisterThenList` | server/src/main.rs:28-35 | a listing right after registering `n` holds `n` at the position of key `n.id`; under key/id agreement `n` appears exactly once and is the only record with id `n.id` |

## Left out

- Concurrency: the `Arc<Mutex<...>>` around the table, lock acquisition, lock poisoning and the panic of `unwrap` on a poisoned lock. Each handler is one atomic, sequential method call; `Run` serves requests in one total order.
- HTTP framework, routing by path and verb, and JSON (de)serialisation of bodies, including the 4xx replies for malformed bodies. Requests arrive as already-decoded `Node` values and path ids; `Handle` stands in for the route table.
- The GET reply: `GetNodes` returns the list of records, but neither its 200 status nor its JSON array encoding is modelled.
- The GET route is not a `Request`, so `Handle` and `Run` cover only the four routes that change the table. A listing does not change the table, so leaving it out of a request sequence changes no table that `Run` computes.
- `Registry.NodeRegistry.GetNodes`: the order of the list is left open, because the source's order is that of hash map iteration.
- The shuttle runtime entry point and process start-up in `main`, beyond the empty initial table.
- `zynthrak/src/main.rs`: it only starts logging and an HTTP server and declares modules whose source is not shown; there is no logic to model.
