/** `bootstrap(client, namespace)`: the check-then-create protocol that lays
    down a namespace skeleton, and how `main` turns its outcome into the
    process exit status. */
module Bootstrap {
  import opened Wrappers
  import opened Paths
  import opened Store

  /** How one call of `bootstrap` ends. */
  datatype Result =
    | Bootstrapped                          // returns None
    | AlreadyExists(existing: seq<string>)  // logs the nodes found, returns 1
    | NotCreated(failed: seq<string>)       // logs the nodes not created, returns 1
    | RootCreateRaised                      // `client.create("/helios")` raised; nothing catches it

  /** What other clients do to the store while `bootstrap` runs: a new
      content of the store, or `None` for no change, at each point between
      two of its store calls. */
  datatype Race = Race(
    afterCheck: Option<set<string>>,   // between the check commit and `exists("/helios")`
    beforeRoot: Option<set<string>>,   // between `exists("/helios")` and `create("/helios")`
    beforeCreate: Option<set<string>>) // between the root step and the create commit
  {
    ghost predicate Valid() {
      (afterCheck.Some? ==> ValidTree(afterCheck.value)) &&
      (beforeRoot.Some? ==> ValidTree(beforeRoot.value)) &&
      (beforeCreate.Some? ==> ValidTree(beforeCreate.value))
    }
  }

  /** No other client touches the store. */
  const NoRace: Race := Race(None, None, None)

  // ---------------------------------------------------------------------
  // Reading result vectors
  // ---------------------------------------------------------------------

  /** `all(flags)`. */
  predicate All(flags: seq<bool>) {
    forall i :: 0 <= i < |flags| ==> flags[i]
  }

  /** `nodes_missing`: any check result other than `True` counts as missing. */
  function NodesMissing(results: seq<OpResult>): (missing: seq<bool>)
    ensures |missing| == |results|
  {
    seq(|results|, i requires 0 <= i < |results| => results[i] != Checked)
  }

  /** `nodes_created`: a create counts only if it returned the path at its
      own position of the node list. */
  function NodesCreated(nodeList: seq<string>, results: seq<OpResult>): (created: seq<bool>)
    requires |results| <= |nodeList|
    ensures |created| == |results|
  {
    seq(|results|, i requires 0 <= i < |results| => results[i] == Created(nodeList[i]))
  }

  /** The positions whose flag is false, in increasing order. */
  function Unset(flags: seq<bool>): (idx: seq<nat>)
    ensures forall k :: 0 <= k < |idx| ==> idx[k] < |flags| && !flags[idx[k]]
  {
    if flags == [] then []
    else Unset(flags[..|flags| - 1]) + (if flags[|flags| - 1] then [] else [|flags| - 1])
  }

  /** `Unset` lists every position whose flag is false, each once, in
      increasing order. */
  lemma UnsetComplete(flags: seq<bool>)
    ensures forall i :: 0 <= i < |flags| && !flags[i] ==> i in Unset(flags)
    ensures forall k, l :: 0 <= k < l < |Unset(flags)| ==> Unset(flags)[k] < Unset(flags)[l]
  {
    UnsetListsAll(flags);
    UnsetIncreasing(flags);
  }

  lemma {:induction false} UnsetListsAll(flags: seq<bool>)
    ensures forall i :: 0 <= i < |flags| && !flags[i] ==> i in Unset(flags)
    decreases |flags|
  {
    if flags != [] {
      var n := |flags|;
      var init := flags[..n - 1];
      UnsetListsAll(init);
      assert Unset(flags) == Unset(init) + (if flags[n - 1] then [] else [n - 1]);
      forall i | 0 <= i < n && !flags[i] ensures i in Unset(flags) {
        if i < n - 1 {
          assert !init[i];
          assert i in Unset(init);
        }
      }
    }
  }

  lemma {:induction false} UnsetIncreasing(flags: seq<bool>)
    ensures forall k, l :: 0 <= k < l < |Unset(flags)| ==> Unset(flags)[k] < Unset(flags)[l]
    decreases |flags|
  {
    if flags != [] {
      var n := |flags|;
      var init := flags[..n - 1];
      UnsetIncreasing(init);
      var front := Unset(init);
      assert forall k :: 0 <= k < |front| ==> front[k] < n - 1;
      assert Unset(flags) == front + (if flags[n - 1] then [] else [n - 1]);
    }
  }

  /** The paths a report names: `node_list[idx]` for each position whose
      flag is false. */
  function Listed(nodeList: seq<string>, flags: seq<bool>): seq<string>
    requires |flags| <= |nodeList|
  {
    Pick(nodeList, Unset(flags))
  }

  /** `nodeList[idx[k]]` for each `k`. */
  function Pick(nodeList: seq<string>, idx: seq<nat>): seq<string>
    requires forall k :: 0 <= k < |idx| ==> idx[k] < |nodeList|
  {
    seq(|idx|, k requires 0 <= k < |idx| => nodeList[idx[k]])
  }

  function Range(lo: nat, hi: nat): (r: seq<nat>)
    requires lo <= hi
    ensures |r| == hi - lo && forall k :: 0 <= k < |r| ==> r[k] == lo + k
  {
    seq(hi - lo, k requires 0 <= k < hi - lo => lo + k)
  }

  lemma RangeSnoc(lo: nat, hi: nat)
    requires lo <= hi
    ensures Range(lo, hi) + [hi] == Range(lo, hi + 1)
  {
  }

  /** When exactly the first `k` flags are false, those are the positions. */
  lemma {:induction false} UnsetLeading(flags: seq<bool>, k: nat)
    requires k <= |flags|
    requires forall i :: 0 <= i < |flags| ==> (flags[i] <==> i >= k)
    ensures Unset(flags) == Range(0, k)
    decreases |flags|
  {
    if flags != [] {
      var n := |flags|;
      var init := flags[..n - 1];
      assert Unset(flags) == Unset(init) + (if flags[n - 1] then [] else [n - 1]);
      if k == n {
        assert forall i :: 0 <= i < n - 1 ==> (init[i] <==> i >= n - 1);
        UnsetLeading(init, n - 1);
        RangeSnoc(0, n - 1);
      } else {
        assert forall i :: 0 <= i < n - 1 ==> (init[i] <==> i >= k);
        UnsetLeading(init, k);
        assert Range(0, k) + [] == Range(0, k);
      }
    }
  }

  /** When exactly the flags from position `k` on are false, those are the
      positions. */
  lemma {:induction false} UnsetTrailing(flags: seq<bool>, k: nat)
    requires k <= |flags|
    requires forall i :: 0 <= i < |flags| ==> (flags[i] <==> i < k)
    ensures Unset(flags) == Range(k, |flags|)
    decreases |flags|
  {
    if flags != [] {
      var n := |flags|;
      var init := flags[..n - 1];
      assert Unset(flags) == Unset(init) + (if flags[n - 1] then [] else [n - 1]);
      if k == n {
        assert forall i :: 0 <= i < n - 1 ==> (init[i] <==> i < n - 1);
        UnsetTrailing(init, n - 1);
        assert Range(n - 1, n - 1) + [] == Range(n, n);
      } else {
        assert forall i :: 0 <= i < n - 1 ==> (init[i] <==> i < k);
        UnsetTrailing(init, k);
        RangeSnoc(k, n - 1);
      }
    }
  }

  lemma ListedRange(nodeList: seq<string>, flags: seq<bool>, lo: nat, hi: nat)
    requires |flags| <= |nodeList| && lo <= hi <= |nodeList|
    requires Unset(flags) == Range(lo, hi)
    ensures Listed(nodeList, flags) == nodeList[lo..hi]
  {
    PickRange(nodeList, lo, hi);
  }

  /** Picking a contiguous range of positions is slicing. */
  lemma PickRange(nodeList: seq<string>, lo: nat, hi: nat)
    requires lo <= hi <= |nodeList|
    ensures Pick(nodeList, Range(lo, hi)) == nodeList[lo..hi]
  {
  }

  // ---------------------------------------------------------------------
  // Prefixes of a result vector
  // ---------------------------------------------------------------------

  /** How many operations, from the front of a batch, succeeded. */
  function Succeeded(results: seq<OpResult>): (k: nat)
    ensures k <= |results|
    ensures forall j :: 0 <= j < k ==> !results[j].IsError()
    ensures k < |results| ==> results[k].IsError()
  {
    if results == [] || results[0].IsError() then 0 else 1 + Succeeded(results[1..])
  }

  /** The set of paths in a list. */
  function Elems(ps: seq<string>): set<string> {
    set p | p in ps
  }

  lemma {:induction false} CreatedPathsOfCreates(ps: seq<string>)
    ensures CreatedPaths(CreateOps(ps)) == Elems(ps)
    decreases |ps|
  {
    if ps != [] {
      assert CreateOps(ps)[1..] == CreateOps(ps[1..]);
      CreatedPathsOfCreates(ps[1..]);
      assert Elems(ps) == {ps[0]} + Elems(ps[1..]) by {
        assert forall p :: p in ps <==> p == ps[0] || p in ps[1..];
      }
    }
  }

  // ---------------------------------------------------------------------
  // The three steps and the whole protocol
  // ---------------------------------------------------------------------

  /** A report is nonempty when some flag is false, and names exactly the
      nodes at positions whose flag is false. */
  lemma ListedNames(nodeList: seq<string>, flags: seq<bool>)
    requires |flags| <= |nodeList|
    ensures !All(flags) ==> Listed(nodeList, flags) != []
    ensures forall k :: 0 <= k < |Listed(nodeList, flags)| ==>
      exists i :: 0 <= i < |flags| && !flags[i] && Listed(nodeList, flags)[k] == nodeList[i]
    ensures forall i :: 0 <= i < |flags| && !flags[i] ==> nodeList[i] in Listed(nodeList, flags)
  {
    var idx := Unset(flags);
    UnsetComplete(flags);
    assert |Listed(nodeList, flags)| == |idx|;
    if !All(flags) {
      var i :| 0 <= i < |flags| && !flags[i];
      assert i in idx;
    }
    forall k | 0 <= k < |Listed(nodeList, flags)|
      ensures exists i :: 0 <= i < |flags| && !flags[i] && Listed(nodeList, flags)[k] == nodeList[i]
    {
      var i := idx[k];
      assert 0 <= i < |flags| && !flags[i];
      assert Listed(nodeList, flags)[k] == Pick(nodeList, idx)[k] == nodeList[i];
    }
    assert forall k :: 0 <= k < |Listed(nodeList, flags)| ==>
      exists i :: 0 <= i < |flags| && !flags[i] && Listed(nodeList, flags)[k] == nodeList[i];
    forall i | 0 <= i < |flags| && !flags[i] ensures nodeList[i] in Listed(nodeList, flags) {
      var k :| 0 <= k < |idx| && idx[k] == i;
      assert Listed(nodeList, flags)[k] == nodeList[i];
    }
  }

  /** The check step's verdict: `None` to go on, or the collision report. */
  function CheckVerdict(nodeList: seq<string>, results: seq<OpResult>): (v: Option<seq<string>>)
    requires |results| <= |nodeList|
    ensures v.None? <==> forall i :: 0 <= i < |results| ==> results[i] != Checked
    ensures v.Some? ==> v.value != [] && forall k :: 0 <= k < |v.value| ==>
      exists i :: 0 <= i < |results| && results[i] == Checked && v.value[k] == nodeList[i]
  {
    var missing := NodesMissing(results);
    assert forall i :: 0 <= i < |results| ==> (missing[i] <==> results[i] != Checked);
    ListedNames(nodeList, missing);
    if All(missing) then None else Some(Listed(nodeList, missing))
  }

  /** The create step's verdict: `None` for success, or the failure report. */
  function CreateVerdict(nodeList: seq<string>, results: seq<OpResult>): (v: Option<seq<string>>)
    requires |results| <= |nodeList|
    ensures v.None? <==> forall i :: 0 <= i < |results| ==> results[i] == Created(nodeList[i])
    ensures v.Some? ==> v.value != [] && forall k :: 0 <= k < |v.value| ==>
      exists i :: 0 <= i < |results| && results[i] != Created(nodeList[i]) && v.value[k] == nodeList[i]
  {
    var created := NodesCreated(nodeList, results);
    assert forall i :: 0 <= i < |results| ==> (created[i] <==> results[i] == Created(nodeList[i]));
    ListedNames(nodeList, created);
    if All(created) then None else Some(Listed(nodeList, created))
  }

  /** `if not client.exists("/helios"): client.create("/helios")`, with
      another client's change between the two calls; the flag is false when
      the create raised. */
  function EnsureRoot(nodes: set<string>, change: Option<set<string>>): (res: (bool, set<string>))
    ensures Root in nodes ==> res == (true, nodes)
    ensures Root !in nodes ==> (res.0 <==> Root !in Interfere(nodes, change))
    ensures Root !in nodes && res.0 ==> res.1 == Interfere(nodes, change) + {Root}
    ensures Root !in nodes && !res.0 ==> res.1 == Interfere(nodes, change)
  {
    RootIsTopLevel();
    if Root in nodes then (true, nodes)
    else
      var s := Interfere(nodes, change);
      var r := Perform(s, Create(Root));
      (!r.IsError(), Effect(s, r))
  }

  /** The create step: one batch creating the node list, then its verdict.
      It succeeds exactly when the batch does, and only then changes the
      store. */
  function CreatePhase(nodes: set<string>, nodeList: seq<string>): (r: (Result, set<string>))
    ensures r.0.Bootstrapped? || r.0.NotCreated?
    ensures r.0.Bootstrapped? <==> Run(nodes, CreateOps(nodeList)).ok
    ensures r.0.Bootstrapped? ==> r.1 == nodes + Elems(nodeList)
    ensures r.0.NotCreated? ==> r.1 == nodes && r.0.failed != []
  {
    CreatedPathsOfCreates(nodeList);
    var create := Run(nodes, CreateOps(nodeList));
    assert forall i :: 0 <= i < |nodeList| ==> CreateOps(nodeList)[i] == Create(nodeList[i]);
    match CreateVerdict(nodeList, create.results)
    case Some(failed) => (NotCreated(failed), create.after)
    case None => (Bootstrapped, create.after)
  }

  /** The whole call: its result and the store's nodes when it returns. A
      collision names at least one node and changes nothing; success leaves
      all six nodes present. */
  function Protocol(nodes: set<string>, ns: string, race: Race): (r: (Result, set<string>))
    ensures r.0.AlreadyExists? ==> r.1 == nodes && r.0.existing != []
    ensures r.0.Bootstrapped? ==> forall i :: 0 <= i < |Templates| ==> NodeList(ns)[i] in r.1
  {
    var nodeList := NodeList(ns);
    NodeListDistinct(ns);
    RunChecks(nodes, nodeList);
    CreatedPathsOfCreates(nodeList);
    var check := Run(nodes, CheckOps(nodeList));
    match CheckVerdict(nodeList, check.results)
    case Some(existing) => (AlreadyExists(existing), check.after)
    case None =>
      var root := EnsureRoot(Interfere(check.after, race.afterCheck), race.beforeRoot);
      if !root.0 then (RootCreateRaised, root.1)
      else CreatePhase(Interfere(root.1, race.beforeCreate), nodeList)
  }

  /** `main`: exit status 1 when the client could not connect in time,
      otherwise 0 exactly when `bootstrap` returned None; an exception out
      of `bootstrap` ends the interpreter with status 1. */
  function ExitStatus(connected: bool, r: Result): (code: int)
    ensures code == 0 || code == 1
    ensures code == 0 <==> connected && r.Bootstrapped?
  {
    if !connected then 1
    else if r.Bootstrapped? then 0
    else 1
  }

  // ---------------------------------------------------------------------
  // What the protocol guarantees
  // ---------------------------------------------------------------------

  /** Check `i` of the node list counts as missing exactly when `i` is at
      or past the run of present nodes at the front. */
  lemma CheckFlags(nodes: set<string>, ns: string)
    ensures Run(nodes, CheckOps(NodeList(ns))).after == nodes
    ensures forall i :: 0 <= i < |Templates| ==>
      (NodesMissing(Run(nodes, CheckOps(NodeList(ns))).results)[i] <==> i >= PresentPrefix(nodes, NodeList(ns)))
  {
    NodeListDistinct(ns);
    RunChecks(nodes, NodeList(ns));
  }

  /** The check step leaves the store as it was; it lets the call go on
      exactly when the namespace's own node is absent, and otherwise reports
      the present nodes at the front of the node list, up to the first
      absent one. */
  lemma CheckStep(nodes: set<string>, ns: string)
    ensures Run(nodes, CheckOps(NodeList(ns))).after == nodes
    ensures CheckVerdict(NodeList(ns), Run(nodes, CheckOps(NodeList(ns))).results) ==
      if NodeList(ns)[0] in nodes then Some(NodeList(ns)[..PresentPrefix(nodes, NodeList(ns))]) else None
    ensures forall i :: 0 <= i < |Templates| ==>
      (NodesMissing(Run(nodes, CheckOps(NodeList(ns))).results)[i] <==> i >= PresentPrefix(nodes, NodeList(ns)))
  {
    var nl := NodeList(ns);
    CheckFlags(nodes, ns);
    var results := Run(nodes, CheckOps(nl)).results;
    var missing := NodesMissing(results);
    var k := PresentPrefix(nodes, nl);
    UnsetLeading(missing, k);
    ListedRange(nl, missing, 0, k);
    if nl[0] in nodes {
      assert !missing[0];
    } else {
      assert All(missing);
    }
  }

  /** A collision is reported exactly when the namespace's own node exists;
      the call then issues neither the root create nor the create batch, so
      the store is unchanged, and the report lists the present nodes at the
      front of the node list. */
  lemma CollisionLeavesStoreUnchanged(nodes: set<string>, ns: string, race: Race)
    ensures Protocol(nodes, ns, race).0.AlreadyExists? <==> NodeList(ns)[0] in nodes
    ensures NodeList(ns)[0] in nodes ==>
      Protocol(nodes, ns, race) == (AlreadyExists(NodeList(ns)[..PresentPrefix(nodes, NodeList(ns))]), nodes)
  {
    CheckStep(nodes, ns);
  }

  /** In a tree-shaped store, a present node of the namespace implies the
      namespace's own node is present. */
  lemma {:induction false} NamespaceNodePresent(nodes: set<string>, ns: string, i: nat)
    requires ValidTree(nodes) && '/' !in ns
    requires i < |Templates| && NodeList(ns)[i] in nodes
    ensures NodeList(ns)[0] in nodes
    decreases i
  {
    if i > 0 {
      var j := EarlierParent(ns, i);
      NodeListDistinct(ns);
      assert ParentPresent(nodes, NodeList(ns)[i]);
      assert IsPath(NodeList(ns)[j]);
      NamespaceNodePresent(nodes, ns, j);
    }
  }

  /** In a tree-shaped store, any node of the namespace being present makes
      the call report a collision. */
  lemma CollisionDetectsAnyPresent(nodes: set<string>, ns: string, race: Race, i: nat)
    requires ValidTree(nodes) && '/' !in ns
    requires i < |Templates| && NodeList(ns)[i] in nodes
    ensures Protocol(nodes, ns, race).0.AlreadyExists?
    ensures Protocol(nodes, ns, race).1 == nodes
  {
    NamespaceNodePresent(nodes, ns, i);
    CollisionLeavesStoreUnchanged(nodes, ns, race);
  }

  /** The collision report stops at the first absent node: here
      `/helios/a/status` is present but only `/helios/a` is reported. */
  lemma CollisionReportStopsAtFirstAbsent()
    ensures ValidTree({"/helios", "/helios/a", "/helios/a/status"})
    ensures Protocol({"/helios", "/helios/a", "/helios/a/status"}, "a", NoRace).0 == AlreadyExists(["/helios/a"])
  {
    var nodes: set<string> := {"/helios", "/helios/a", "/helios/a/status"};
    SmallTreeValid();
    var nl := NodeList("a");
    assert nl[0] == "/helios/a";
    assert nl[1] == "/helios/a/config";
    assert PresentPrefix(nodes, nl[1..]) == 0;
    assert PresentPrefix(nodes, nl) == 1;
    assert nl[..1] == ["/helios/a"];
    CollisionLeavesStoreUnchanged(nodes, "a", NoRace);
  }

  /** The store of the example above is tree-shaped. */
  lemma SmallTreeValid()
    ensures ValidTree({"/helios", "/helios/a", "/helios/a/status"})
  {
    var nodes: set<string> := {"/helios", "/helios/a", "/helios/a/status"};
    RootIsTopLevel();
    ParentOf("/helios", "/a");
    ParentOf("/helios/a", "/status");
    assert "/helios" + "/a" == "/helios/a" && "/helios/a" + "/status" == "/helios/a/status";
    forall p | p in nodes ensures IsPath(p) && ParentPresent(nodes, p) {
      if p == "/helios" {} else if p == "/helios/a" {} else {}
    }
  }

  /** Create `i` counts as done exactly when it comes before the batch's
      first failure. */
  lemma CreateFlags(nodes: set<string>, nl: seq<string>)
    ensures forall i :: 0 <= i < |nl| ==>
      (NodesCreated(nl, Run(nodes, CreateOps(nl)).results)[i] <==> i < Succeeded(Run(nodes, CreateOps(nl)).results))
  {
    var o := Run(nodes, CreateOps(nl));
    var created := NodesCreated(nl, o.results);
    var k := Succeeded(o.results);
    forall i | 0 <= i < |created| ensures created[i] <==> i < k {
      if i < k {
        assert o.results[i] == Expected(CreateOps(nl)[i]);
      } else {
        assert o.results[k].IsError();
        assert i > k ==> o.results[i] == RuntimeInconsistency;
      }
    }
  }

  /** The create verdict names the node list from the first failed
      operation on, or is `None` when every create succeeded. */
  lemma CreateVerdictIsSuffix(nodes: set<string>, nl: seq<string>)
    ensures CreateVerdict(nl, Run(nodes, CreateOps(nl)).results) ==
      if Run(nodes, CreateOps(nl)).ok then None
      else Some(nl[Succeeded(Run(nodes, CreateOps(nl)).results)..])
    ensures forall i :: 0 <= i < |nl| ==>
      (NodesCreated(nl, Run(nodes, CreateOps(nl)).results)[i] <==> i < Succeeded(Run(nodes, CreateOps(nl)).results))
  {
    var o := Run(nodes, CreateOps(nl));
    var created := NodesCreated(nl, o.results);
    var k := Succeeded(o.results);
    CreateFlags(nodes, nl);
    UnsetTrailing(created, k);
    ListedRange(nl, created, k, |nl|);
    assert nl[k..|nl|] == nl[k..];
    if o.ok {
      assert k == |nl|;
    } else {
      assert !created[k];
    }
  }

  /** The create step is all-or-nothing: success adds exactly the node list,
      none of whose nodes was present; failure leaves the store as it was
      and reports the node list from the first operation that failed on. */
  lemma CreateStepAtomic(nodes: set<string>, ns: string)
    ensures CreatePhase(nodes, NodeList(ns)).0.Bootstrapped? || CreatePhase(nodes, NodeList(ns)).0.NotCreated?
    ensures CreatePhase(nodes, NodeList(ns)).0.Bootstrapped? ==>
      CreatePhase(nodes, NodeList(ns)).1 == nodes + Elems(NodeList(ns)) &&
      forall i :: 0 <= i < |Templates| ==> NodeList(ns)[i] !in nodes
    ensures CreatePhase(nodes, NodeList(ns)).0.NotCreated? ==>
      CreatePhase(nodes, NodeList(ns)).1 == nodes &&
      exists k :: 0 <= k < |Templates| && CreatePhase(nodes, NodeList(ns)).0.failed == NodeList(ns)[k..]
  {
    var nl := NodeList(ns);
    var o := Run(nodes, CreateOps(nl));
    CreateVerdictIsSuffix(nodes, nl);
    if o.ok {
      CreatedPathsOfCreates(nl);
      RunCreatesOnlyAbsent(nodes, nl);
    } else {
      var k := Succeeded(o.results);
      assert CreatePhase(nodes, nl).0.failed == nl[k..];
    }
  }

  /** With no other client at work the root step always succeeds and
      leaves `/helios` present. */
  lemma RootStepAlone(nodes: set<string>)
    ensures EnsureRoot(nodes, None) == (true, nodes + {Root})
  {
    assert Interfere(nodes, None) == nodes;
    if Root in nodes {
      assert nodes + {Root} == nodes;
    }
  }

  /** With the root present and no node of the namespace present, the create
      step succeeds, because the node list is ordered parent-first. */
  lemma CreateStepSucceeds(nodes: set<string>, ns: string)
    requires '/' !in ns && Root in nodes
    requires forall i :: 0 <= i < |Templates| ==> NodeList(ns)[i] !in nodes
    ensures CreatePhase(nodes, NodeList(ns)) == (Bootstrapped, nodes + Elems(NodeList(ns)))
  {
    var nl := NodeList(ns);
    NodeListDistinct(ns);
    NodeListParentFirst(ns);
    assert ParentPresent(nodes, nl[0]);
    RunCreatesFresh(nodes, nl);
    CreateStepAtomic(nodes, ns);
  }

  /** When another client made the namespace's own node between the check
      and the create step, the create report names the whole node list. */
  lemma CreateStepAfterRace(nodes: set<string>, ns: string)
    requires NodeList(ns)[0] in nodes
    ensures CreatePhase(nodes, NodeList(ns)) == (NotCreated(NodeList(ns)), nodes)
  {
    var nl := NodeList(ns);
    var o := Run(nodes, CreateOps(nl));
    assert CreateOps(nl)[0] == Create(nl[0]);
    assert Perform(nodes, Create(nl[0])).IsError();
    assert !o.ok;
    CreateVerdictIsSuffix(nodes, nl);
    assert Succeeded(o.results) == 0;
    assert nl[0..] == nl;
  }

  /** From a store holding no node of the namespace, with no other client
      at work, the call returns None (exit status 0) and adds exactly the
      root and the six nodes. */
  lemma HappyPath(nodes: set<string>, ns: string)
    requires '/' !in ns
    requires forall i :: 0 <= i < |Templates| ==> NodeList(ns)[i] !in nodes
    ensures Protocol(nodes, ns, NoRace) == (Bootstrapped, nodes + {Root} + Elems(NodeList(ns)))
    ensures ExitStatus(true, Protocol(nodes, ns, NoRace).0) == 0
  {
    CheckStep(nodes, ns);
    RootStepAlone(nodes);
    NodeListDistinct(ns);
    CreateStepSucceeds(nodes + {Root}, ns);
  }

  /** Two calls with different namespace ids against one store both succeed
      and leave the root once and two disjoint subtrees. */
  lemma TwoNamespaces(nodes: set<string>, ns1: string, ns2: string)
    requires '/' !in ns1 && '/' !in ns2 && ns1 != ns2
    requires forall i :: 0 <= i < |Templates| ==> NodeList(ns1)[i] !in nodes && NodeList(ns2)[i] !in nodes
    ensures Protocol(nodes, ns1, NoRace).0 == Bootstrapped
    ensures Protocol(Protocol(nodes, ns1, NoRace).1, ns2, NoRace) ==
      (Bootstrapped, nodes + {Root} + Elems(NodeList(ns1)) + Elems(NodeList(ns2)))
    ensures Elems(NodeList(ns1)) !! Elems(NodeList(ns2))
  {
    var nl1, nl2 := NodeList(ns1), NodeList(ns2);
    HappyPath(nodes, ns1);
    NamespacesDisjoint(ns1, ns2);
    forall p | p in Elems(nl1) ensures p !in Elems(nl2) {
      var i :| 0 <= i < |nl1| && nl1[i] == p;
      assert forall j :: 0 <= j < |nl2| ==> nl2[j] != p;
    }
    var mid := nodes + {Root} + Elems(nl1);
    NodeListDistinct(ns2);
    forall i | 0 <= i < |Templates| ensures nl2[i] !in mid {
      assert nl2[i] in Elems(nl2);
    }
    HappyPath(mid, ns2);
    assert mid + {Root} == mid;
  }

  /** Without other clients, a call that does not succeed leaves every node
      of the namespace as it found it. */
  lemma FailureCreatesNoNamespaceNode(nodes: set<string>, ns: string)
    ensures !Protocol(nodes, ns, NoRace).0.Bootstrapped? ==>
      forall i :: 0 <= i < |Templates| ==>
        (NodeList(ns)[i] in Protocol(nodes, ns, NoRace).1 <==> NodeList(ns)[i] in nodes)
  {
    CheckStep(nodes, ns);
    NodeListDistinct(ns);
    if NodeList(ns)[0] !in nodes {
      RootStepAlone(nodes);
      CreateStepAtomic(nodes + {Root}, ns);
    }
  }

  /** Another client creating `/helios` between the `exists` and the
      `create` makes the call raise out of `bootstrap`. */
  lemma RootRaceRaises(nodes: set<string>, ns: string, other: set<string>)
    requires NodeList(ns)[0] !in nodes && Root !in nodes && Root in other
    ensures Protocol(nodes, ns, Race(None, Some(other), None)) == (RootCreateRaised, other)
    ensures ExitStatus(true, RootCreateRaised) == 1
  {
    CheckStep(nodes, ns);
  }

  /** Every call keeps the store tree-shaped. */
  lemma ProtocolKeepsTree(nodes: set<string>, ns: string, race: Race)
    requires ValidTree(nodes) && race.Valid()
    ensures ValidTree(Protocol(nodes, ns, race).1)
  {
    var nl := NodeList(ns);
    var check := Run(nodes, CheckOps(nl));
    RunKeepsTree(nodes, CheckOps(nl));
    if CheckVerdict(nl, check.results).None? {
      var s := Interfere(check.after, race.afterCheck);
      var root := EnsureRoot(s, race.beforeRoot);
      assert ValidTree(root.1) by {
        if Root !in s {
          RootIsTopLevel();
          RunKeepsTree(Interfere(s, race.beforeRoot), [Create(Root)]);
        }
      }
      if root.0 {
        RunKeepsTree(Interfere(root.1, race.beforeCreate), CreateOps(nl));
      }
    }
  }

  // ---------------------------------------------------------------------
  // The imperative protocol
  // ---------------------------------------------------------------------

  /** bootstrap.py lines 88-92 and 97: a transaction with one check per
      node, committed. */
  method CheckAll(client: Client, nodeList: seq<string>) returns (results: seq<OpResult>)
    requires client.Valid()
    modifies client
    ensures client.Valid()
    ensures results == Run(old(client.nodes), CheckOps(nodeList)).results
    ensures client.nodes == Run(old(client.nodes), CheckOps(nodeList)).after
  {
    var transaction := new Transaction(client);
    for i := 0 to |nodeList|
      invariant transaction.client == client
      invariant transaction.ops == CheckOps(nodeList[..i])
      modifies transaction
    {
      assert CheckOps(nodeList[..i + 1]) == CheckOps(nodeList[..i]) + [Check(nodeList[i])];
      transaction.Check(nodeList[i]);
    }
    assert nodeList[..|nodeList|] == nodeList;
    results := transaction.Commit();
  }

  /** bootstrap.py lines 111-115 and 119: a transaction with one create
      per node, committed. */
  method CreateAll(client: Client, nodeList: seq<string>) returns (results: seq<OpResult>)
    requires client.Valid()
    modifies client
    ensures client.Valid()
    ensures results == Run(old(client.nodes), CreateOps(nodeList)).results
    ensures client.nodes == Run(old(client.nodes), CreateOps(nodeList)).after
  {
    var transaction := new Transaction(client);
    for i := 0 to |nodeList|
      invariant transaction.client == client
      invariant transaction.ops == CreateOps(nodeList[..i])
      modifies transaction
    {
      assert CreateOps(nodeList[..i + 1]) == CreateOps(nodeList[..i]) + [Create(nodeList[i])];
      transaction.Create(nodeList[i]);
    }
    assert nodeList[..|nodeList|] == nodeList;
    results := transaction.Commit();
  }

  /** `bootstrap(client, namespace)`; `race` stands for the other clients. */
  method Bootstrap(client: Client, ns: string, race: Race) returns (r: Result)
    requires client.Valid() && race.Valid()
    modifies client
    ensures client.Valid()
    ensures (r, client.nodes) == Protocol(old(client.nodes), ns, race)
  {
    var nodeList := NodeList(ns);
    var results := CheckAll(client, nodeList);
    var missing := NodesMissing(results);
    if !All(missing) {
      return AlreadyExists(Listed(nodeList, missing));
    }
    assert CheckVerdict(nodeList, results) == None;

    client.ExternalChange(race.afterCheck);
    ghost var seen := client.nodes;
    var present := client.Exists(Root);
    if !present {
      client.ExternalChange(race.beforeRoot);
      var rootResult := client.Create(Root);
      if rootResult.IsError() {
        assert !EnsureRoot(seen, race.beforeRoot).0;
        return RootCreateRaised;
      }
    }
    assert EnsureRoot(seen, race.beforeRoot) == (true, client.nodes);

    client.ExternalChange(race.beforeCreate);
    ghost var before := client.nodes;
    results := CreateAll(client, nodeList);
    var created := NodesCreated(nodeList, results);
    assert Protocol(old(client.nodes), ns, race) == CreatePhase(before, nodeList);
    if !All(created) {
      assert CreateVerdict(nodeList, results) == Some(Listed(nodeList, created));
      return NotCreated(Listed(nodeList, created));
    }
    assert CreateVerdict(nodeList, results) == None;
    return Bootstrapped;
  }
}
