/** The node registry served under /api/v1: an in-memory table from node id to
    node record, and the five handlers that register, list, update, remove and
    block nodes. Every handler runs as one atomic step on the table; the lock
    that makes it so in the service is not modelled. */
module Registry {

  /** A participant: its key, its network address and its administrative status.
      None of the three strings is interpreted, except that blocking writes
      `Blocked` into `status`. */
  datatype Node = Node(id: string, ip: string, status: string)

  /** The registry table: node id to node record. */
  type Table = map<string, Node>

  /** The plain-text reply of a handler that names a node or stores one. */
  datatype Response = Ok(body: string) | NotFound(body: string)
  {
    /** The HTTP status code the reply is sent with. */
    function Code(): (c: int)
      ensures c == 200 <==> Ok?
      ensures c == 404 <==> NotFound?
    {
      match this
      case Ok(_) => 200
      case NotFound(_) => 404
    }
  }

  const Blocked := "blocked"
  const RegisteredBody := "Node registered"
  const UpdatedBody := "Node updated"
  const RemovedBody := "Node removed"
  const BlockedBody := "Node blocked"
  const NotFoundBody := "Node not found"

  /** The table a handler leaves behind, and the reply it sends. */
  datatype Outcome = Outcome(table: Table, response: Response)

  /** Every stored record carries the key it is stored under. The class does
      not keep this; the lemmas say which handlers preserve it. */
  ghost predicate KeysMatchIds(t: Table)
  {
    forall k :: k in t ==> t[k].id == k
  }

  /** `t` and `u` agree on every key other than `id`. */
  ghost predicate SameElsewhere(t: Table, u: Table, id: string)
  {
    forall k :: k != id ==> (k in t <==> k in u) && (k in t ==> t[k] == u[k])
  }

  /** POST /register: store `n` under its own id, replacing any record there. */
  function Register(t: Table, n: Node): (r: Outcome)
    ensures r.table.Keys == t.Keys + {n.id}
    ensures r.table[n.id] == n
    ensures SameElsewhere(t, r.table, n.id)
    ensures r.response == Ok(RegisteredBody)
    ensures KeysMatchIds(t) ==> KeysMatchIds(r.table)
  {
    Outcome(t[n.id := n], Ok(RegisteredBody))
  }

  /** PUT /nodes/{id}: if `id` is stored, store `b` under it as it comes, with
      no check that `b.id` is `id`; otherwise leave the table alone. */
  function Update(t: Table, id: string, b: Node): (r: Outcome)
    ensures r.table.Keys == t.Keys
    ensures SameElsewhere(t, r.table, id)
    ensures id in t ==> r.table[id] == b && r.response == Ok(UpdatedBody)
    ensures id !in t ==> r.table == t && r.response == NotFound(NotFoundBody)
    ensures KeysMatchIds(t) ==> (KeysMatchIds(r.table) <==> id !in t || b.id == id)
  {
    if id in t then Outcome(t[id := b], Ok(UpdatedBody))
    else Outcome(t, NotFound(NotFoundBody))
  }

  /** DELETE /nodes/{id}: drop the entry for `id`; the reply tells whether
      there was one. */
  function Remove(t: Table, id: string): (r: Outcome)
    ensures r.table.Keys == t.Keys - {id}
    ensures SameElsewhere(t, r.table, id)
    ensures id !in t ==> r.table == t
    ensures |r.table| == if id in t then |t| - 1 else |t|
    ensures r.response == if id in t then Ok(RemovedBody) else NotFound(NotFoundBody)
    ensures KeysMatchIds(t) ==> KeysMatchIds(r.table)
  {
    var existed := id in t;
    Outcome(t - {id}, if existed then Ok(RemovedBody) else NotFound(NotFoundBody))
  }

  /** PUT /nodes/{id}/block: overwrite the status of the record under `id`
      with `Blocked`, if there is one. */
  function Block(t: Table, id: string): (r: Outcome)
    ensures r.table.Keys == t.Keys
    ensures SameElsewhere(t, r.table, id)
    ensures id in t ==> && r.table[id].id == t[id].id
                        && r.table[id].ip == t[id].ip
                        && r.table[id].status == Blocked
                        && r.response == Ok(BlockedBody)
    ensures id !in t ==> r.table == t && r.response == NotFound(NotFoundBody)
    ensures KeysMatchIds(t) ==> KeysMatchIds(r.table)
  {
    if id in t then Outcome(t[id := t[id].(status := Blocked)], Ok(BlockedBody))
    else Outcome(t, NotFound(NotFoundBody))
  }

  /** `list` holds one record per table entry: `keys` names, position by
      position, the entry each record was read from, and every key appears
      exactly once. The order is left open, as a hash map's is. */
  ghost predicate IsSnapshot(t: Table, list: seq<Node>, keys: seq<string>)
  {
    && |keys| == |list|
    && (forall i :: 0 <= i < |keys| ==> keys[i] in t && list[i] == t[keys[i]])
    && (forall i, j :: 0 <= i < j < |keys| ==> keys[i] != keys[j])
    && (forall k :: k in t ==> k in keys)
  }

  /** A list of pairwise distinct keys has as many elements as the set of its keys. */
  lemma {:induction false} DistinctKeysCount(keys: seq<string>)
    requires forall i, j :: 0 <= i < j < |keys| ==> keys[i] != keys[j]
    ensures |set k | k in keys| == |keys|
  {
    if keys != [] {
      var init := keys[..|keys| - 1];
      var last := keys[|keys| - 1];
      DistinctKeysCount(init);
      assert (set k | k in keys) == (set k | k in init) + {last};
      assert last !in init;
    }
  }

  /** A snapshot has exactly as many records as the table has entries. */
  lemma SnapshotLength(t: Table, list: seq<Node>, keys: seq<string>)
    requires IsSnapshot(t, list, keys)
    ensures |list| == |t|
  {
    DistinctKeysCount(keys);
    assert (set k | k in keys) == t.Keys;
  }

  /** The requests that change the table, one per route that changes it. */
  datatype Request =
    | PostRegister(node: Node)
    | PutNode(id: string, body: Node)
    | DeleteNode(id: string)
    | PutBlock(id: string)

  /** Routes a request to its handler. Only registration adds a key, only
      removal drops one, and a request keeps every key equal to its record's
      id unless it is an update whose body carries another id. */
  function Handle(t: Table, req: Request): (r: Outcome)
    ensures req.PostRegister? ==> r.table.Keys == t.Keys + {req.node.id}
    ensures req.DeleteNode? ==> r.table.Keys == t.Keys - {req.id}
    ensures req.PutNode? || req.PutBlock? ==> r.table.Keys == t.Keys
    ensures KeysMatchIds(t) && (req.PutNode? ==> req.body.id == req.id) ==> KeysMatchIds(r.table)
  {
    match req
    case PostRegister(n) => Register(t, n)
    case PutNode(id, b) => Update(t, id, b)
    case DeleteNode(id) => Remove(t, id)
    case PutBlock(id) => Block(t, id)
  }

  /** The shared application state: the node table, updated in place by the
      handlers. */
  class NodeRegistry {
    var nodes: Table

    /** The service starts with an empty table. */
    constructor ()
      ensures nodes == map[]
    {
      nodes := map[];
    }

    method RegisterNode(n: Node) returns (resp: Response)
      modifies this
      ensures Outcome(nodes, resp) == Register(old(nodes), n)
    {
      nodes := nodes[n.id := n];
      resp := Ok(RegisteredBody);
    }

    /** GET /nodes: copies every stored record into a list. */
    method GetNodes() returns (list: seq<Node>, ghost keys: seq<string>)
      ensures IsSnapshot(nodes, list, keys)
      ensures |list| == |nodes|
    {
      list, keys := [], [];
      var rest := nodes.Keys;
      while rest != {}
        invariant rest <= nodes.Keys
        invariant |keys| == |list|
        invariant forall i :: 0 <= i < |keys| ==> keys[i] in nodes && keys[i] !in rest && list[i] == nodes[keys[i]]
        invariant forall i, j :: 0 <= i < j < |keys| ==> keys[i] != keys[j]
        invariant forall k :: k in nodes && k !in rest ==> k in keys
        decreases rest
      {
        var k :| k in rest;
        list := list + [nodes[k]];
        keys := keys + [k];
        rest := rest - {k};
      }
      SnapshotLength(nodes, list, keys);
    }

    method UpdateNode(id: string, b: Node) returns (resp: Response)
      modifies this
      ensures Outcome(nodes, resp) == Update(old(nodes), id, b)
    {
      if id in nodes {
        nodes := nodes[id := b];
        resp := Ok(UpdatedBody);
      } else {
        resp := NotFound(NotFoundBody);
      }
    }

    method RemoveNode(id: string) returns (resp: Response)
      modifies this
      ensures Outcome(nodes, resp) == Remove(old(nodes), id)
    {
      var existed := id in nodes;
      nodes := nodes - {id};
      if existed {
        resp := Ok(RemovedBody);
      } else {
        resp := NotFound(NotFoundBody);
      }
    }

    method BlockNode(id: string) returns (resp: Response)
      modifies this
      ensures Outcome(nodes, resp) == Block(old(nodes), id)
    {
      if id in nodes {
        var node := nodes[id];
        nodes := nodes[id := node.(status := Blocked)];
        resp := Ok(BlockedBody);
      } else {
        resp := NotFound(NotFoundBody);
      }
    }
  }
}
