/** The coordination store as `bootstrap` drives it through its client: a
    set of node paths, single `exists`/`create` calls, and atomic batches
    (transactions) that report one result per operation, by position. */
module Store {
  import opened Wrappers
  import opened Paths

  /** One operation of a batch: `transaction.check` or `transaction.create`. */
  datatype Op = Check(path: string) | Create(path: string)

  /** What the store reports for one operation. */
  datatype OpResult =
    | Checked                 // a check found its node (the source's `True`)
    | Created(path: string)   // a create made its node and returns its path
    | NoNode                  // a check's node, or a create's parent, is missing
    | NodeExists              // a create's node is already there
    | BadArguments            // the path is not a valid absolute node path
    | RuntimeInconsistency    // not run: an earlier operation of the batch failed
  {
    predicate IsError() {
      !(Checked? || Created?)
    }
  }

  /** The result an operation reports when it succeeds. */
  function Expected(op: Op): OpResult {
    match op
    case Check(_) => Checked
    case Create(p) => Created(p)
  }

  /** The parent of `p` is the store's root or one of its nodes. */
  predicate ParentPresent(nodes: set<string>, p: string)
    requires IsPath(p)
  {
    Parent(p) == "/" || Parent(p) in nodes
  }

  /** A store state: every node is a valid path whose parent is present. */
  ghost predicate ValidTree(nodes: set<string>) {
    forall p :: p in nodes ==> IsPath(p) && ParentPresent(nodes, p)
  }

  /** One operation against the current nodes, with the store's checks in
      the store's order (path syntax, then parent, then the node itself). */
  function Perform(nodes: set<string>, op: Op): (r: OpResult)
    ensures r != RuntimeInconsistency
    ensures !r.IsError() ==> r == Expected(op)
    ensures op.Check? ==> (r == Checked <==> IsPath(op.path) && op.path in nodes)
    ensures op.Create? ==>
      (!r.IsError() <==> IsPath(op.path) && ParentPresent(nodes, op.path) && op.path !in nodes)
  {
    match op
    case Check(p) =>
      if !IsPath(p) then BadArguments
      else if p in nodes then Checked
      else NoNode
    case Create(p) =>
      if !IsPath(p) then BadArguments
      else if !ParentPresent(nodes, p) then NoNode
      else if p in nodes then NodeExists
      else Created(p)
  }

  /** The nodes after an operation that reported `r`. */
  function Effect(nodes: set<string>, r: OpResult): set<string> {
    if r.Created? then nodes + {r.path} else nodes
  }

  /** The paths a batch creates when every operation succeeds. */
  function CreatedPaths(ops: seq<Op>): set<string> {
    if ops == [] then {}
    else (if ops[0].Create? then {ops[0].path} else {}) + CreatedPaths(ops[1..])
  }

  /** The results and the resulting nodes of one batch commit. */
  datatype Outcome = Outcome(results: seq<OpResult>, after: set<string>, ok: bool)

  /** Results by position: a success is the operation's own, a failure is
      followed only by dependent failures, and a dependent failure comes
      right after a failure. */
  ghost predicate Positional(ops: seq<Op>, results: seq<OpResult>) {
    |results| == |ops| &&
    (forall i :: 0 <= i < |ops| && !results[i].IsError() ==> results[i] == Expected(ops[i])) &&
    (forall i, j :: 0 <= i < j < |ops| && results[i].IsError() ==> results[j] == RuntimeInconsistency) &&
    (forall i :: 0 <= i < |ops| && results[i] == RuntimeInconsistency ==> 0 < i && results[i - 1].IsError())
  }

  /** A batch whose first operation fails. */
  lemma FailedFirst(ops: seq<Op>, r: OpResult)
    requires ops != [] && r.IsError() && r != RuntimeInconsistency
    ensures Positional(ops, [r] + seq(|ops| - 1, _ => RuntimeInconsistency))
  {
    var results := [r] + seq(|ops| - 1, _ => RuntimeInconsistency);
    assert forall i :: 0 < i < |ops| ==> results[i] == RuntimeInconsistency;
  }

  /** A batch whose first operation succeeds, followed by the rest. */
  lemma SucceededFirst(ops: seq<Op>, r: OpResult, rest: seq<OpResult>)
    requires ops != [] && r == Expected(ops[0])
    requires Positional(ops[1..], rest)
    ensures Positional(ops, [r] + rest)
    ensures (forall i :: 0 <= i < |ops| ==> !([r] + rest)[i].IsError()) <==>
            (forall k :: 0 <= k < |rest| ==> !rest[k].IsError())
  {
    var results := [r] + rest;
    assert forall i :: 1 <= i < |ops| ==> results[i] == rest[i - 1] && ops[i] == ops[1..][i - 1];
    if forall k :: 0 <= k < |rest| ==> !rest[k].IsError() {
      forall i | 1 <= i < |ops| ensures !results[i].IsError() {
        assert results[i] == rest[i - 1];
      }
    }
    if forall i :: 0 <= i < |ops| ==> !results[i].IsError() {
      forall k | 0 <= k < |rest| ensures !rest[k].IsError() {
        assert results[k + 1] == rest[k];
      }
    }
    forall i, j | 0 <= i < j < |ops| && results[i].IsError()
      ensures results[j] == RuntimeInconsistency
    {
      assert i > 0;
      assert rest[i - 1].IsError() && results[j] == rest[j - 1];
    }
    forall i | 0 <= i < |ops| && results[i] == RuntimeInconsistency
      ensures 0 < i && results[i - 1].IsError()
    {
      assert i > 0 && results[i] == rest[i - 1];
      if i > 1 {
        assert results[i - 1] == rest[i - 2];
      }
    }
  }

  /** One atomic batch: the operations run in order against the nodes the
      earlier ones left; the first failure reports its own error and every
      later operation a dependent failure; only a batch without failure
      changes the store. */
  function Run(nodes: set<string>, ops: seq<Op>): (o: Outcome)
    ensures |o.results| == |ops|
    ensures o.ok <==> forall i :: 0 <= i < |ops| ==> !o.results[i].IsError()
    ensures forall i :: 0 <= i < |ops| && !o.results[i].IsError() ==> o.results[i] == Expected(ops[i])
    ensures forall i, j :: 0 <= i < j < |ops| && o.results[i].IsError() ==> o.results[j] == RuntimeInconsistency
    ensures forall i :: 0 <= i < |ops| && o.results[i] == RuntimeInconsistency ==> 0 < i && o.results[i - 1].IsError()
    ensures o.ok ==> o.after == nodes + CreatedPaths(ops)
    ensures !o.ok ==> o.after == nodes
    decreases |ops|
  {
    if ops == [] then Outcome([], nodes, true)
    else
      var r := Perform(nodes, ops[0]);
      if r.IsError() then
        FailedFirst(ops, r);
        Outcome([r] + seq(|ops| - 1, _ => RuntimeInconsistency), nodes, false)
      else
        var rest := Run(Effect(nodes, r), ops[1..]);
        SucceededFirst(ops, r, rest.results);
        Outcome([r] + rest.results, if rest.ok then rest.after else nodes, rest.ok)
  }

  /** The nodes after another client replaced them, if it did. */
  function Interfere(nodes: set<string>, change: Option<set<string>>): set<string> {
    change.GetOr(nodes)
  }

  function CheckOps(ps: seq<string>): (ops: seq<Op>)
    ensures |ops| == |ps|
  {
    seq(|ps|, i requires 0 <= i < |ps| => Check(ps[i]))
  }

  function CreateOps(ps: seq<string>): (ops: seq<Op>)
    ensures |ops| == |ps|
  {
    seq(|ps|, i requires 0 <= i < |ps| => Create(ps[i]))
  }

  // ---------------------------------------------------------------------
  // Properties of batches
  // ---------------------------------------------------------------------

  /** No operation takes the store out of its tree shape. */
  lemma {:induction false} RunKeepsTree(nodes: set<string>, ops: seq<Op>)
    requires ValidTree(nodes)
    ensures ValidTree(Run(nodes, ops).after)
    decreases |ops|
  {
    if ops != [] {
      var r := Perform(nodes, ops[0]);
      if !r.IsError() {
        var n := Effect(nodes, r);
        assert ValidTree(n) by {
          if r.Created? {
            forall p | p in n ensures IsPath(p) && ParentPresent(n, p) {
              if p != r.path {
                assert ParentPresent(nodes, p);
              }
            }
          }
        }
        RunKeepsTree(n, ops[1..]);
      }
    }
  }

  /** How many paths, from the front of `ps`, are present. */
  function PresentPrefix(nodes: set<string>, ps: seq<string>): (k: nat)
    ensures k <= |ps|
    ensures forall j :: 0 <= j < k ==> ps[j] in nodes
    ensures k < |ps| ==> ps[k] !in nodes
  {
    if ps == [] || ps[0] !in nodes then 0 else 1 + PresentPrefix(nodes, ps[1..])
  }

  /** A batch of checks changes nothing, and check `i` reports the node as
      present exactly when it and every node checked before it are present. */
  lemma {:induction false} RunChecks(nodes: set<string>, ps: seq<string>)
    requires forall i :: 0 <= i < |ps| ==> IsPath(ps[i])
    ensures Run(nodes, CheckOps(ps)).after == nodes
    ensures forall i :: 0 <= i < |ps| ==>
      (Run(nodes, CheckOps(ps)).results[i] == Checked <==> i < PresentPrefix(nodes, ps))
    decreases |ps|
  {
    if ps != [] {
      var o := Run(nodes, CheckOps(ps));
      if ps[0] in nodes {
        assert CheckOps(ps)[1..] == CheckOps(ps[1..]);
        var rest := Run(nodes, CheckOps(ps[1..]));
        assert o.results == [Checked] + rest.results;
        RunChecks(nodes, ps[1..]);
        forall i | 0 < i < |ps|
          ensures o.results[i] == Checked <==> i < PresentPrefix(nodes, ps)
        {
          assert o.results[i] == rest.results[i - 1];
        }
      } else {
        assert o.results[0] == NoNode;
      }
    }
  }

  /** A batch creating fresh, distinct nodes, each hanging from the root, a
      present node or an earlier node of the batch, succeeds. */
  lemma {:induction false} RunCreatesFresh(nodes: set<string>, ps: seq<string>)
    requires forall i :: 0 <= i < |ps| ==> IsPath(ps[i]) && ps[i] !in nodes
    requires forall i, j :: 0 <= i < j < |ps| ==> ps[i] != ps[j]
    requires forall i :: 0 <= i < |ps| ==>
      ParentPresent(nodes, ps[i]) || exists j :: 0 <= j < i && Parent(ps[i]) == ps[j]
    ensures Run(nodes, CreateOps(ps)).ok
    decreases |ps|
  {
    if ps != [] {
      var ops := CreateOps(ps);
      assert ops[1..] == CreateOps(ps[1..]);
      assert ParentPresent(nodes, ps[0]);
      var n := nodes + {ps[0]};
      var rest := ps[1..];
      forall i | 0 <= i < |rest|
        ensures ParentPresent(n, rest[i]) || exists j :: 0 <= j < i && Parent(rest[i]) == rest[j]
      {
        if !ParentPresent(nodes, rest[i]) {
          var j :| 0 <= j < i + 1 && Parent(ps[i + 1]) == ps[j];
          if j > 0 {
            assert Parent(rest[i]) == rest[j - 1];
          }
        }
      }
      RunCreatesFresh(n, rest);
    }
  }

  /** A batch of creates succeeds only if none of its nodes was present. */
  lemma {:induction false} RunCreatesOnlyAbsent(nodes: set<string>, ps: seq<string>)
    requires Run(nodes, CreateOps(ps)).ok
    ensures forall i :: 0 <= i < |ps| ==> ps[i] !in nodes
    decreases |ps|
  {
    if ps != [] {
      var ops := CreateOps(ps);
      assert ops[1..] == CreateOps(ps[1..]);
      var r := Perform(nodes, ops[0]);
      RunCreatesOnlyAbsent(Effect(nodes, r), ps[1..]);
      forall i | 1 <= i < |ps| ensures ps[i] !in nodes {
        assert ps[1..][i - 1] == ps[i];
      }
    }
  }

  // ---------------------------------------------------------------------
  // The client and its transactions
  // ---------------------------------------------------------------------

  /** A connected client; `nodes` is the content of the store behind it. */
  class Client {
    var nodes: set<string>

    ghost predicate Valid()
      reads this
    {
      ValidTree(nodes)
    }

    constructor (initial: set<string>)
      requires ValidTree(initial)
      ensures Valid() && nodes == initial
    {
      nodes := initial;
    }

    /** `client.exists(path)`. */
    method Exists(p: string) returns (present: bool)
      ensures present <==> p in nodes
    {
      present := p in nodes;
    }

    /** `client.create(path)`: one create outside any batch. */
    method Create(p: string) returns (r: OpResult)
      requires Valid()
      modifies this
      ensures Valid()
      ensures r == Perform(old(nodes), Op.Create(p))
      ensures nodes == Effect(old(nodes), r)
    {
      r := Perform(nodes, Op.Create(p));
      RunKeepsTree(nodes, [Op.Create(p)]);
      nodes := Effect(nodes, r);
    }

    /** Submits an atomic batch and reports its results by position. */
    method Multi(ops: seq<Op>) returns (results: seq<OpResult>)
      requires Valid()
      modifies this
      ensures Valid()
      ensures results == Run(old(nodes), ops).results
      ensures nodes == Run(old(nodes), ops).after
    {
      var o := Run(nodes, ops);
      RunKeepsTree(nodes, ops);
      results, nodes := o.results, o.after;
    }

    /** Another client changing the store between two of this client's
        calls; `None` means no change. */
    method ExternalChange(change: Option<set<string>>)
      requires Valid()
      requires change.Some? ==> ValidTree(change.value)
      modifies this
      ensures Valid()
      ensures nodes == Interfere(old(nodes), change)
    {
      nodes := Interfere(nodes, change);
    }
  }

  /** `client.transaction()`: operations collected in order, then committed
      as one batch. */
  class Transaction {
    const client: Client
    var ops: seq<Op>

    constructor (client: Client)
      ensures this.client == client && ops == []
    {
      this.client := client;
      ops := [];
    }

    /** `transaction.check(path, version = -1)`: any version matches. */
    method Check(p: string)
      modifies this
      ensures ops == old(ops) + [Op.Check(p)]
    {
      ops := ops + [Op.Check(p)];
    }

    /** `transaction.create(path)`, with empty content. */
    method Create(p: string)
      modifies this
      ensures ops == old(ops) + [Op.Create(p)]
    {
      ops := ops + [Op.Create(p)];
    }

    /** `transaction.commit()`. */
    method Commit() returns (results: seq<OpResult>)
      requires client.Valid()
      modifies client
      ensures client.Valid()
      ensures results == Run(old(client.nodes), ops).results
      ensures client.nodes == Run(old(client.nodes), ops).after
    {
      results := client.Multi(ops);
    }
  }
}
