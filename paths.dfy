/** The fixed node layout of a Helios namespace: the six paths `bootstrap`
    renders from its template list, and the parent relation between paths
    that the coordination store enforces. */
module Paths {
  import opened Wrappers

  /** The shared root node of every Helios namespace. */
  const Root: string := "/helios"

  /** The six node templates, in the order `bootstrap` lists them. */
  const Templates: seq<string> := [
    "/helios/%s",
    "/helios/%s/config",
    "/helios/%s/config/hosts",
    "/helios/%s/config/id",
    "/helios/%s/status",
    "/helios/%s/status/hosts"
  ]

  // ---------------------------------------------------------------------
  // Python's `template % arg` for one string argument
  // ---------------------------------------------------------------------

  function Prefixed(pre: string, r: Option<string>): Option<string> {
    match r
    case Some(s) => Some(pre + s)
    case None => None
  }

  /** `t % arg`, where `used` records whether `arg` was already consumed by
      an earlier `%s`.  `None` stands for the exception Python raises: an
      incomplete or unsupported conversion, a second `%s` with only one
      argument, or an argument that no `%s` consumed. */
  function Format(t: string, arg: string, used: bool): (r: Option<string>)
    ensures '%' !in t ==> r == (if used then Some(t) else None)
    decreases |t|
  {
    if t == [] then (if used then Some([]) else None)
    else if t[0] != '%' then
      assert '%' !in t ==> '%' !in t[1..] by {
        assert forall c :: c in t[1..] ==> c in t;
      }
      assert [t[0]] + t[1..] == t;
      Prefixed([t[0]], Format(t[1..], arg, used))
    else if |t| == 1 then None
    else if t[1] == '%' then Prefixed("%", Format(t[2..], arg, used))
    else if t[1] == 's' && !used then Prefixed(arg, Format(t[2..], arg, true))
    else None
  }

  /** `t % arg` as the source evaluates it for each template; a template
      without a placeholder raises, since the argument is left over. */
  function Interpolate(t: string, arg: string): (r: Option<string>)
    ensures '%' !in t ==> r.None?
  {
    Format(t, arg, false)
  }

  /** Text without `%` is copied through unchanged. */
  lemma {:induction false} FormatLiteralPrefix(pre: string, rest: string, arg: string, used: bool)
    requires '%' !in pre
    ensures Format(pre + rest, arg, used) == Prefixed(pre, Format(rest, arg, used))
  {
    if pre != [] {
      var t := pre + rest;
      assert pre[0] in pre;
      assert t[0] == pre[0] != '%';
      assert t[1..] == pre[1..] + rest;
      assert forall c :: c in pre[1..] ==> c in pre;
      FormatLiteralPrefix(pre[1..], rest, arg, used);
      assert Format(t, arg, used) == Prefixed([pre[0]], Prefixed(pre[1..], Format(rest, arg, used)));
      match Format(rest, arg, used)
      case Some(s) => assert [pre[0]] + (pre[1..] + s) == pre + s;
      case None =>
    } else {
      assert pre + rest == rest;
      match Format(rest, arg, used)
      case Some(s) => assert pre + s == s;
      case None =>
    }
  }

  /** A template with exactly one `%s` and no other `%` renders to the
      argument spliced in at the placeholder. */
  lemma InterpolateOnePlaceholder(pre: string, post: string, arg: string)
    requires '%' !in pre && '%' !in post
    ensures Interpolate(pre + "%s" + post, arg) == Some(pre + arg + post)
  {
    var t := "%s" + post;
    assert pre + "%s" + post == pre + t;
    FormatLiteralPrefix(pre, t, arg, false);
    FormatLiteralPrefix(post, [], arg, true);
    assert post + [] == post;
    assert Format(post, arg, true) == Some(post);
    assert t[0] == '%' && t[1] == 's' && t[2..] == post;
    assert Format(t, arg, false) == Some(arg + post);
    assert pre + (arg + post) == pre + arg + post;
  }

  // ---------------------------------------------------------------------
  // The node list
  // ---------------------------------------------------------------------

  /** What each template puts after the namespace id. */
  const Suffixes: seq<string> := ["", "/config", "/config/hosts", "/config/id", "/status", "/status/hosts"]

  /** Template `i` is the root, a `/`, the placeholder and suffix `i`, and
      the suffix holds no `%`. */
  lemma TemplateShape(i: nat)
    requires i < |Templates|
    ensures Templates[i] == "/helios/%s" + Suffixes[i]
    ensures '%' !in Suffixes[i]
  {
    if i == 0 {
      assert "/helios/%s" + "" == "/helios/%s";
    } else if i == 1 {
      assert "/helios/%s" + "/config" == "/helios/%s/config";
    } else if i == 2 {
      assert "/helios/%s" + "/config/hosts" == "/helios/%s/config/hosts";
    } else if i == 3 {
      assert "/helios/%s" + "/config/id" == "/helios/%s/config/id";
    } else if i == 4 {
      assert "/helios/%s" + "/status" == "/helios/%s/status";
    } else {
      assert "/helios/%s" + "/status/hosts" == "/helios/%s/status/hosts";
    }
  }

  /** Template `i` renders to the root, a `/`, the namespace id and suffix
      `i`. */
  lemma TemplateRenders(ns: string, i: nat)
    requires i < |Templates|
    ensures Interpolate(Templates[i], ns) == Some(Root + "/" + ns + Suffixes[i])
  {
    TemplateShape(i);
    assert "/helios/%s" == Root + "/" + "%s";
    InterpolateOnePlaceholder(Root + "/", Suffixes[i], ns);
  }

  /** `node_list`: the namespace's six nodes, in template order. */
  function NodeList(ns: string): (nodes: seq<string>)
    ensures |nodes| == |Templates|
  {
    seq(|Suffixes|, i requires 0 <= i < |Suffixes| => Root + "/" + ns + Suffixes[i])
  }

  /** Entry `i` of the node list is what Python's `%` makes of template `i`,
      so the list holds exactly the six rendered templates, in order. */
  lemma NodeListRendersTemplates(ns: string)
    ensures forall i :: 0 <= i < |Templates| ==> Interpolate(Templates[i], ns) == Some(NodeList(ns)[i])
  {
    forall i | 0 <= i < |Templates| ensures Interpolate(Templates[i], ns) == Some(NodeList(ns)[i]) {
      TemplateRenders(ns, i);
    }
  }

  // ---------------------------------------------------------------------
  // Paths and parents, as the coordination store sees them
  // ---------------------------------------------------------------------

  /** An absolute path naming a node other than the store's own root `/`. */
  predicate IsPath(p: string) {
    |p| >= 2 && p[0] == '/'
  }

  /** Position of the last `/` of an absolute path. */
  function LastSlash(p: string): (k: nat)
    requires |p| > 0 && p[0] == '/'
    ensures k < |p| && p[k] == '/'
    ensures forall j :: k < j < |p| ==> p[j] != '/'
  {
    if p[|p| - 1] == '/' then |p| - 1 else LastSlash(p[..|p| - 1])
  }

  /** The node a path hangs from; `/` for a top-level node. */
  function Parent(p: string): string
    requires IsPath(p)
  {
    var k := LastSlash(p);
    if k == 0 then "/" else p[..k]
  }

  /** Appending a `/`-led tail without further `/` to a directory makes a
      child of that directory. */
  lemma ParentOf(dir: string, tail: string)
    requires dir == [] || dir[0] == '/'
    requires |tail| >= 1 && tail[0] == '/' && '/' !in tail[1..]
    requires dir != [] || |tail| >= 2
    ensures IsPath(dir + tail)
    ensures Parent(dir + tail) == if dir == [] then "/" else dir
  {
    var p := dir + tail;
    assert p[|dir|] == '/';
    forall j | |dir| < j < |p| ensures p[j] != '/' {
      assert p[j] == tail[1..][j - |dir| - 1];
    }
    var k := LastSlash(p);
    assert k == |dir|;
    assert dir != [] ==> p[..k] == dir;
  }

  lemma RootIsTopLevel()
    ensures IsPath(Root) && Parent(Root) == "/"
  {
    assert Root == [] + "/helios";
    ParentOf([], "/helios");
  }

  /** Every entry of the node list is a path distinct from the root and from
      every other entry. */
  lemma NodeListDistinct(ns: string)
    ensures forall i :: 0 <= i < |Templates| ==> IsPath(NodeList(ns)[i]) && NodeList(ns)[i] != Root
    ensures forall i, j :: 0 <= i < j < |Templates| ==> NodeList(ns)[i] != NodeList(ns)[j]
  {
    var nodes := NodeList(ns);
    var n := |Root| + 1 + |ns|;
    forall i | 0 <= i < |Templates| ensures IsPath(nodes[i]) && nodes[i] != Root {
      assert nodes[i][0] == '/';
      assert |nodes[i]| >= n > |Root|;
    }
    assert nodes[1][n + 1] == 'c' && nodes[4][n + 1] == 's';
    assert nodes[2][n + 1] == 'c' && nodes[5][n + 1] == 's';
  }

  /** Which earlier entry each later entry of the node list hangs from. */
  lemma EarlierParent(ns: string, i: nat) returns (j: nat)
    requires '/' !in ns && 1 <= i < |Templates|
    ensures j < i && Parent(NodeList(ns)[i]) == NodeList(ns)[j]
  {
    var nodes := NodeList(ns);
    if i == 1 {
      j := 0;
      assert nodes[1] == nodes[0] + "/config";
      ParentOf(nodes[0], "/config");
    } else if i == 2 {
      j := 1;
      assert nodes[2] == nodes[1] + "/hosts";
      ParentOf(nodes[1], "/hosts");
    } else if i == 3 {
      j := 1;
      assert nodes[3] == nodes[1] + "/id";
      ParentOf(nodes[1], "/id");
    } else if i == 4 {
      j := 0;
      assert nodes[4] == nodes[0] + "/status";
      ParentOf(nodes[0], "/status");
    } else {
      j := 4;
      assert nodes[5] == nodes[4] + "/hosts";
      ParentOf(nodes[4], "/hosts");
    }
  }

  /** The list is ordered parent-first: the first entry hangs from the root
      node and every later entry from an earlier entry. */
  lemma NodeListParentFirst(ns: string)
    requires '/' !in ns
    ensures Parent(NodeList(ns)[0]) == Root
    ensures forall i :: 1 <= i < |Templates| ==>
      exists j :: 0 <= j < i && Parent(NodeList(ns)[i]) == NodeList(ns)[j]
  {
    var nodes := NodeList(ns);
    assert nodes[0] == Root + ("/" + ns);
    ParentOf(Root, "/" + ns);
    forall i | 1 <= i < |Templates|
      ensures exists j :: 0 <= j < i && Parent(nodes[i]) == nodes[j]
    {
      var j := EarlierParent(ns, i);
    }
  }

  /** The leading `/`-free segment of a string. */
  function Segment(p: string): string {
    if p == [] || p[0] == '/' then [] else [p[0]] + Segment(p[1..])
  }

  lemma {:induction false} SegmentOf(a: string, s: string)
    requires '/' !in a
    requires s == [] || s[0] == '/'
    ensures Segment(a + s) == a
  {
    if a == [] {
      assert a + s == s;
    } else {
      assert a[0] in a;
      assert (a + s)[0] == a[0] && (a + s)[1..] == a[1..] + s;
      assert forall c :: c in a[1..] ==> c in a;
      SegmentOf(a[1..], s);
      assert [a[0]] + a[1..] == a;
    }
  }

  /** Two different `/`-free namespace ids own disjoint node lists. */
  lemma NamespacesDisjoint(ns1: string, ns2: string)
    requires '/' !in ns1 && '/' !in ns2 && ns1 != ns2
    ensures forall i, j :: 0 <= i < |Templates| && 0 <= j < |Templates| ==>
      NodeList(ns1)[i] != NodeList(ns2)[j]
  {
    var pre := Root + "/";
    forall i, j | 0 <= i < |Templates| && 0 <= j < |Templates|
      ensures NodeList(ns1)[i] != NodeList(ns2)[j]
    {
      var s, t := Suffixes[i], Suffixes[j];
      assert s == [] || s[0] == '/' by {
        if i == 0 {} else if i == 1 {} else if i == 2 {} else if i == 3 {} else if i == 4 {} else {}
      }
      assert t == [] || t[0] == '/' by {
        if j == 0 {} else if j == 1 {} else if j == 2 {} else if j == 3 {} else if j == 4 {} else {}
      }
      assert NodeList(ns1)[i] == pre + (ns1 + s);
      assert NodeList(ns2)[j] == pre + (ns2 + t);
      assert NodeList(ns1)[i][|pre|..] == ns1 + s;
      assert NodeList(ns2)[j][|pre|..] == ns2 + t;
      SegmentOf(ns1, s);
      SegmentOf(ns2, t);
    }
  }
}
