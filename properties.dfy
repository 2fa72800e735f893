/** Properties of the node registry that relate several handler calls: repeated
    calls, sequences of requests, and what a listing shows after a change. */
module RegistryProperties {
  import opened Registry

  /** The ids of the nodes that `reqs` registers. */
  function RegisteredIds(reqs: seq<Request>): (ids: set<string>)
  {
    set i | 0 <= i < |reqs| && reqs[i].PostRegister? :: reqs[i].node.id
  }

  /** The ids a request sequence registers are those its first request
      registers and those the rest registers. */
  lemma RegisteredIdsSplit(reqs: seq<Request>)
    requires reqs != []
    ensures RegisteredIds(reqs) == RegisteredIds([reqs[0]]) + RegisteredIds(reqs[1..])
  {
    var tail := reqs[1..];
    forall x | x in RegisteredIds(reqs)
      ensures x in RegisteredIds([reqs[0]]) + RegisteredIds(tail)
    {
      var i :| 0 <= i < |reqs| && reqs[i].PostRegister? && reqs[i].node.id == x;
      if i == 0 {
        assert [reqs[0]][0] == reqs[i];
      } else {
        assert tail[i - 1] == reqs[i];
      }
    }
    forall x | x in RegisteredIds(tail)
      ensures x in RegisteredIds(reqs)
    {
      var i :| 0 <= i < |tail| && tail[i].PostRegister? && tail[i].node.id == x;
      assert reqs[i + 1] == tail[i];
    }
  }

  /** The table after serving `reqs` one after the other, starting from `t`,
      as the lock serialises them. No key appears that is neither in `t` nor
      registered by one of the requests. */
  function Run(t: Table, reqs: seq<Request>): (r: Table)
    ensures r.Keys <= t.Keys + RegisteredIds(reqs)
    decreases |reqs|
  {
    if reqs == [] then t
    else
      RegisteredIdsSplit(reqs);
      Run(Handle(t, reqs[0]).table, reqs[1..])
  }

  /** A key that is missing stays missing until some request registers a node
      with that id. */
  lemma MissingUntilRegistered(t: Table, reqs: seq<Request>, k: string)
    requires k !in t
    requires forall i :: 0 <= i < |reqs| && reqs[i].PostRegister? ==> reqs[i].node.id != k
    ensures k !in Run(t, reqs)
  {
  }

  /** After a removal of `k`, and any requests that do not register `k` again,
      updating, removing or blocking `k` all answer 404 "Node not found". */
  lemma RemovedAnswersNotFound(t: Table, k: string, reqs: seq<Request>, b: Node)
    requires forall i :: 0 <= i < |reqs| && reqs[i].PostRegister? ==> reqs[i].node.id != k
    ensures var u := Run(Remove(t, k).table, reqs);
            && Update(u, k, b).response == NotFound(NotFoundBody)
            && Remove(u, k).response == NotFound(NotFoundBody)
            && Block(u, k).response == NotFound(NotFoundBody)
  {
  }

  /** Serving requests keeps every key equal to its record's id, provided no
      update stores a body whose id differs from the path id. */
  lemma {:induction false} KeysMatchIdsPreserved(t: Table, reqs: seq<Request>)
    requires KeysMatchIds(t)
    requires forall i :: 0 <= i < |reqs| && reqs[i].PutNode? ==> reqs[i].body.id == reqs[i].id
    ensures KeysMatchIds(Run(t, reqs))
    decreases |reqs|
  {
    if reqs != [] {
      var tail := reqs[1..];
      forall i | 0 <= i < |tail| && tail[i].PutNode?
        ensures tail[i].body.id == tail[i].id
      {
        assert tail[i] == reqs[i + 1];
      }
      KeysMatchIdsPreserved(Handle(t, reqs[0]).table, tail);
    }
  }

  /** Starting from the empty table, registering node "a" and then updating
      "a" with a body whose id is "b" leaves a record under "a" whose id is
      not "a": update alone can break the key/id agreement. */
  lemma UpdateBreaksKeysMatchIds()
    ensures var a := Node("a", "10.0.0.1", "ok");
            var b := Node("b", "10.0.0.2", "ok");
            var t := Run(map[], [PostRegister(a), PutNode("a", b)]);
            && "a" in t && t["a"] == b
            && !KeysMatchIds(t)
  {
    var a := Node("a", "10.0.0.1", "ok");
    var b := Node("b", "10.0.0.2", "ok");
    var t1 := Handle(map[], PostRegister(a)).table;
    assert t1 == map["a" := a];
    var t2 := Handle(t1, PutNode("a", b)).table;
    assert t2 == map["a" := b];
    assert Run(t2, []) == t2;
    assert Run(map[], [PostRegister(a), PutNode("a", b)]) == Run(t1, [PutNode("a", b)]);
    assert [PutNode("a", b)][1..] == [];
  }

  /** Registering "a" and "x", then updating "x" with the record of "a",
      stores that record under both keys. */
  lemma UpdateCanStoreRecordTwice()
    ensures var n := Node("a", "10.0.0.1", "ok");
            var m := Node("x", "10.0.0.2", "ok");
            Run(map[], [PostRegister(n), PostRegister(m), PutNode("x", n)]) == map["a" := n, "x" := n]
  {
    var n := Node("a", "10.0.0.1", "ok");
    var m := Node("x", "10.0.0.2", "ok");
    var t1 := Handle(map[], PostRegister(n)).table;
    assert t1 == map["a" := n];
    var t2 := Handle(t1, PostRegister(m)).table;
    assert t2 == map["a" := n, "x" := m];
    var t3 := Handle(t2, PutNode("x", n)).table;
    assert t3 == map["a" := n, "x" := n];
    assert Run(t3, []) == t3;
    assert [PutNode("x", n)][1..] == [];
    assert Run(t2, [PutNode("x", n)]) == t3;
    assert [PostRegister(m), PutNode("x", n)][1..] == [PutNode("x", n)];
    assert Run(t1, [PostRegister(m), PutNode("x", n)]) == t3;
  }

  /** A listing of a table holding the same record under two keys holds it
      twice: after `UpdateCanStoreRecordTwice`, a listing does not contain a
      registered node exactly once. */
  lemma ListingHoldsRecordTwice(list: seq<Node>, keys: seq<string>)
    requires IsSnapshot(map["a" := Node("a", "10.0.0.1", "ok"), "x" := Node("a", "10.0.0.1", "ok")], list, keys)
    ensures multiset(list)[Node("a", "10.0.0.1", "ok")] == 2
  {
    var n := Node("a", "10.0.0.1", "ok");
    SnapshotLength(map["a" := n, "x" := n], list, keys);
    assert list == [n, n];
  }

  /** Registering two nodes with the same id keeps only the second. */
  lemma RegisterTwiceKeepsLast(t: Table, first: Node, second: Node)
    requires first.id == second.id
    ensures Register(Register(t, first).table, second).table == Register(t, second).table
    ensures Register(Register(t, first).table, second).table[second.id] == second
  {
  }

  /** Removing a stored key succeeds once; the second removal answers 404
      and changes nothing. */
  lemma RemoveTwice(t: Table, id: string)
    requires id in t
    ensures Remove(t, id).response == Ok(RemovedBody)
    ensures var once := Remove(t, id).table;
            Remove(once, id) == Outcome(once, NotFound(NotFoundBody))
  {
  }

  /** Blocking twice leaves the same table, and the same reply, as blocking once. */
  lemma BlockIdempotent(t: Table, id: string)
    ensures var once := Block(t, id);
            Block(once.table, id) == once
  {
  }

  /** A listing holds exactly the records stored in the table. */
  lemma SnapshotHoldsStoredRecords(t: Table, list: seq<Node>, keys: seq<string>)
    requires IsSnapshot(t, list, keys)
    ensures forall v :: v in list <==> v in t.Values
  {
  }

  /** A listing taken right after registering `n` contains `n` at the
      position read from key `n.id`. If every key matched its record's id
      before, the listing holds `n` exactly once, and the only record in it
      with id `n.id` is `n`. */
  lemma RegisterThenList(t: Table, n: Node, list: seq<Node>, keys: seq<string>)
    requires IsSnapshot(Register(t, n).table, list, keys)
    ensures exists i :: 0 <= i < |list| && keys[i] == n.id && list[i] == n
    ensures KeysMatchIds(t) ==> forall i :: 0 <= i < |list| && list[i].id == n.id ==> list[i] == n
    ensures KeysMatchIds(t) ==> multiset(list)[n] == 1
  {
    var u := Register(t, n).table;
    assert n.id in keys;
    var i :| 0 <= i < |keys| && keys[i] == n.id;
    assert list[i] == n;
    if KeysMatchIds(t) {
      assert KeysMatchIds(u);
      forall j | 0 <= j < |list| && list[j] == n
        ensures j == i
      {
        assert keys[j] == u[keys[j]].id == n.id;
      }
      OnlyPosition(list, n, i);
    }
  }

  /** A value that occurs only at position `i` of a list occurs once. */
  lemma OnlyPosition(list: seq<Node>, v: Node, i: int)
    requires 0 <= i < |list| && list[i] == v
    requires forall j :: 0 <= j < |list| && list[j] == v ==> j == i
    ensures multiset(list)[v] == 1
  {
    assert list == list[..i] + [v] + list[i + 1..];
    assert v !in list[..i];
    assert v !in list[i + 1..];
    assert multiset(list) == multiset(list[..i]) + multiset{v} + multiset(list[i + 1..]);
  }
}
