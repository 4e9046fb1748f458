/** A set of named catalog entries, each name a list of versions.

  Versions live in an arena; a pointer to a version is its position there.  A version points to the
  one it replaced (its child) and to the one that replaced it (its parent).  The undo buffer keeps
  the replaced version. */
module CatalogSet {
  import opened Versions

  type Value = int

  datatype Node = Node(name: string, timestamp: nat, deleted: bool, value: Value, child: Option<nat>, parent: Option<nat>)

  datatype Outcome = Conflict | Refused | Accepted

  ghost function Content(n: Node): Option<Value> {
    if n.deleted then None else Some(n.value)
  }

  /** A version in its place.  Creating and dropping alternate along the list, and nobody ever waits for the oldest. */
  ghost predicate InPlace(nodes: seq<Node>, chain: seq<nat>, name: string, i: nat)
    requires i < |chain| && Known(nodes, chain)
  {
    var n := nodes[chain[i]];
    && n.name == name
    && n.child == (if i + 1 < |chain| then Some(chain[i + 1]) else None)
    && n.parent == (if i == 0 then None else Some(chain[i - 1]))
    && (if i + 1 < |chain| then n.deleted != nodes[chain[i + 1]].deleted else !Uncommitted(n.timestamp))
  }

  ghost predicate Known(nodes: seq<Node>, chain: seq<nat>) {
    forall j :: 0 <= j < |chain| ==> chain[j] < |nodes|
  }

  ghost predicate Descending(chain: seq<nat>) {
    forall i, j :: 0 <= i < j < |chain| ==> chain[j] < chain[i]
  }

  ghost predicate ChainOk(nodes: seq<Node>, chain: seq<nat>, name: string) {
    && chain != [] && Known(nodes, chain)
    && Descending(chain)
    && (forall i: nat :: i < |chain| ==> InPlace(nodes, chain, name, i))
  }

  /** A list of versions as the chain of one key: the stamp of a version marks the border to the version it replaced. */
  ghost function ChainCell(nodes: seq<Node>, chain: seq<nat>): (c: Cell<Value>)
    requires chain != [] && Known(nodes, chain)
    ensures c.cur == Content(nodes[chain[0]]) && |c.undo| == |chain| - 1
    ensures forall i :: 0 <= i < |c.undo| ==> c.undo[i] == Rec(nodes[chain[i]].timestamp, Content(nodes[chain[i + 1]]))
  {
    Cell(Content(nodes[chain[0]]),
         seq(|chain| - 1, i requires 0 <= i < |chain| - 1 => Rec(nodes[chain[i]].timestamp, Content(nodes[chain[i + 1]]))))
  }

  /** Versions of other names do not matter. */
  lemma ChainFrame(nodes: seq<Node>, nodes': seq<Node>, chain: seq<nat>, name: string)
    requires ChainOk(nodes, chain, name) && |nodes| <= |nodes'|
    requires forall r :: 0 <= r < |nodes| && nodes[r].name == name ==> nodes'[r] == nodes[r]
    ensures ChainOk(nodes', chain, name) && ChainCell(nodes', chain) == ChainCell(nodes, chain)
  {
    forall i: nat | i < |chain| ensures nodes'[chain[i]] == nodes[chain[i]] {
      assert InPlace(nodes, chain, name, i);
    }
    SameVersions(nodes, nodes', chain, name);
  }

  lemma SameVersions(nodes: seq<Node>, nodes': seq<Node>, chain: seq<nat>, name: string)
    requires ChainOk(nodes, chain, name) && |nodes| <= |nodes'|
    requires forall i: nat :: i < |chain| ==> nodes'[chain[i]] == nodes[chain[i]]
    ensures ChainOk(nodes', chain, name) && ChainCell(nodes', chain) == ChainCell(nodes, chain)
  {
    forall i: nat | i < |chain| ensures InPlace(nodes', chain, name, i) {
      assert InPlace(nodes, chain, name, i);
    }
    assert ChainCell(nodes', chain).undo == ChainCell(nodes, chain).undo;
  }

  /** The arena after a new version of a name has come on top of the list. */
  ghost predicate Pushed(nodes: seq<Node>, nodes': seq<Node>, chain: seq<nat>, n: Node) {
    && |nodes'| == |nodes| + 1 && nodes'[|nodes|] == n && chain != [] && chain[0] < |nodes|
    && n.child == Some(chain[0]) && n.parent == None && n.deleted != nodes[chain[0]].deleted
    && forall r :: 0 <= r < |nodes| ==> nodes'[r] == if r == chain[0] then nodes[r].(parent := Some(|nodes|)) else nodes[r]
  }

  lemma PushInPlace(nodes: seq<Node>, nodes': seq<Node>, chain: seq<nat>, name: string, n: Node, i: nat)
    requires ChainOk(nodes, chain, name) && Pushed(nodes, nodes', chain, n) && n.name == name && i <= |chain|
    requires Known(nodes', [|nodes|] + chain)
    ensures InPlace(nodes', [|nodes|] + chain, name, i)
  {
    if i > 0 {
      assert InPlace(nodes, chain, name, i - 1);
      assert i > 1 ==> chain[i - 1] < chain[0];
    }
  }

  lemma ChainPush(nodes: seq<Node>, nodes': seq<Node>, chain: seq<nat>, name: string, n: Node)
    requires ChainOk(nodes, chain, name) && Pushed(nodes, nodes', chain, n) && n.name == name
    ensures ChainOk(nodes', [|nodes|] + chain, name)
    ensures ChainCell(nodes', [|nodes|] + chain) == Overwrite(ChainCell(nodes, chain), n.timestamp, Content(n))
  {
    var c := [|nodes|] + chain;
    assert Known(nodes', c) && Descending(c);
    forall i: nat | i < |c| ensures InPlace(nodes', c, name, i) {
      PushInPlace(nodes, nodes', chain, name, n, i);
    }
    PushCell(nodes, nodes', chain, n);
  }

  lemma PushCell(nodes: seq<Node>, nodes': seq<Node>, chain: seq<nat>, n: Node)
    requires Known(nodes, chain) && Pushed(nodes, nodes', chain, n) && Known(nodes', [|nodes|] + chain)
    ensures ChainCell(nodes', [|nodes|] + chain) == Overwrite(ChainCell(nodes, chain), n.timestamp, Content(n))
  {
    var c := [|nodes|] + chain;
    var d := Overwrite(ChainCell(nodes, chain), n.timestamp, Content(n));
    forall i | 0 <= i < |chain| ensures ChainCell(nodes', c).undo[i] == d.undo[i] {
      if i > 0 { assert ChainCell(nodes', c).undo[i] == ChainCell(nodes, chain).undo[i - 1]; }
    }
  }

  ghost predicate AllOk(nodes: seq<Node>, chains: map<string, seq<nat>>) {
    forall name :: name in chains ==> ChainOk(nodes, chains[name], name)
  }

  ghost function CellIn(nodes: seq<Node>, chains: map<string, seq<nat>>, name: string): Cell<Value>
    requires AllOk(nodes, chains)
  {
    if name in chains then ChainCell(nodes, chains[name]) else Cell(None, [])
  }

  /** Changing the versions of one name leaves the other names alone. */
  lemma OthersKept(nodes: seq<Node>, nodes': seq<Node>, chains: map<string, seq<nat>>, name: string, chain: seq<nat>)
    requires AllOk(nodes, chains) && ChainOk(nodes', chain, name) && |nodes| <= |nodes'|
    requires forall r :: 0 <= r < |nodes| && nodes[r].name != name ==> nodes'[r] == nodes[r]
    ensures AllOk(nodes', chains[name := chain])
    ensures forall other :: other != name ==> CellIn(nodes', chains[name := chain], other) == CellIn(nodes, chains, other)
    ensures CellIn(nodes', chains[name := chain], name) == ChainCell(nodes', chain)
  {
    var chains' := chains[name := chain];
    forall other | other in chains && other != name
      ensures ChainOk(nodes', chains[other], other) && ChainCell(nodes', chains[other]) == ChainCell(nodes, chains[other])
    {
      ChainFrame(nodes, nodes', chains[other], other);
    }
    assert forall other :: other in chains' ==> other == name || (other in chains && chains'[other] == chains[other]);
  }

  // ----- the surgery of undo, cleanup and commit -----

  /** Undo: the replaced version becomes the current one again. */
  ghost predicate Popped(nodes: seq<Node>, nodes': seq<Node>, chain: seq<nat>) {
    && |nodes'| == |nodes| && 2 <= |chain| && chain[0] < |nodes| && chain[1] < |nodes|
    && forall r :: 0 <= r < |nodes| ==>
         nodes'[r] == (if r == chain[0] then nodes[r].(child := None) else if r == chain[1] then nodes[r].(parent := None) else nodes[r])
  }

  lemma ChainPop(nodes: seq<Node>, nodes': seq<Node>, chain: seq<nat>, name: string)
    requires ChainOk(nodes, chain, name) && Popped(nodes, nodes', chain)
    ensures ChainOk(nodes', chain[1..], name) && ChainCell(nodes', chain[1..]) == Pop(ChainCell(nodes, chain))
  {
    var c := chain[1..];
    assert Known(nodes', c) && Descending(c);
    forall i: nat | i < |c| ensures InPlace(nodes', c, name, i) {
      assert InPlace(nodes, chain, name, i + 1);
      assert c[i] == chain[i + 1] && chain[i + 1] < chain[0] && (i > 0 ==> chain[i + 1] < chain[1]);
    }
    var d := Pop(ChainCell(nodes, chain));
    forall i | 0 <= i < |c| - 1 ensures ChainCell(nodes', c).undo[i] == d.undo[i] {
      assert d.undo[i] == ChainCell(nodes, chain).undo[i + 1];
      assert c[i] != chain[0] && c[i + 1] != chain[0];
    }
  }

  /** Cleanup: the version that replaced it takes over the child of a version that nobody needs any more. */
  ghost predicate Bypassed(nodes: seq<Node>, nodes': seq<Node>, chain: seq<nat>, p: nat) {
    && |nodes'| == |nodes| && 0 < p < |chain| && chain[p - 1] < |nodes| && chain[p] < |nodes|
    && forall r :: 0 <= r < |nodes| ==>
         nodes'[r] == (if r == chain[p - 1] then nodes[r].(child := nodes[chain[p]].child) else nodes[r])
  }

  lemma ChainDropLast(nodes: seq<Node>, nodes': seq<Node>, chain: seq<nat>, name: string, p: nat)
    requires ChainOk(nodes, chain, name) && Bypassed(nodes, nodes', chain, p) && p == |chain| - 1
    requires !Uncommitted(nodes[chain[p - 1]].timestamp)
    ensures ChainOk(nodes', chain[..p], name)
    ensures ChainCell(nodes', chain[..p]) == Cell(ChainCell(nodes, chain).cur, ChainCell(nodes, chain).undo[..p - 1])
  {
    var c := chain[..p];
    assert Known(nodes', c) && Descending(c);
    forall i: nat | i < |c| ensures InPlace(nodes', c, name, i) {
      assert InPlace(nodes, chain, name, i);
      assert InPlace(nodes, chain, name, p);
      assert c[i] == chain[i] && (i < p - 1 ==> chain[p - 1] < chain[i]);
    }
    DropLastCell(nodes, nodes', chain, p);
  }

  lemma DropLastCell(nodes: seq<Node>, nodes': seq<Node>, chain: seq<nat>, p: nat)
    requires Known(nodes, chain) && Bypassed(nodes, nodes', chain, p) && Known(nodes', chain[..p])
    ensures ChainCell(nodes', chain[..p]) == Cell(ChainCell(nodes, chain).cur, ChainCell(nodes, chain).undo[..p - 1])
  {
    SameContents(nodes, nodes', chain[..p]);
    CellPrefix(nodes, chain, p);
  }

  /** The links do not matter for what a list of versions means. */
  lemma SameContents(nodes: seq<Node>, nodes': seq<Node>, chain: seq<nat>)
    requires chain != [] && Known(nodes, chain) && Known(nodes', chain) && |nodes| <= |nodes'|
    requires forall r :: 0 <= r < |nodes| ==> nodes'[r].timestamp == nodes[r].timestamp && Content(nodes'[r]) == Content(nodes[r])
    ensures ChainCell(nodes', chain) == ChainCell(nodes, chain)
  {
    var c, d := ChainCell(nodes, chain), ChainCell(nodes', chain);
    forall i | 0 <= i < |chain| - 1 ensures d.undo[i] == c.undo[i] {
      assert chain[i] < |nodes| && chain[i + 1] < |nodes|;
    }
    assert chain[0] < |nodes|;
  }

  lemma CellPrefix(nodes: seq<Node>, chain: seq<nat>, p: nat)
    requires 0 < p <= |chain| && Known(nodes, chain)
    ensures Known(nodes, chain[..p])
    ensures ChainCell(nodes, chain[..p]) == Cell(ChainCell(nodes, chain).cur, ChainCell(nodes, chain).undo[..p - 1])
  {
    var c, d := ChainCell(nodes, chain[..p]), ChainCell(nodes, chain);
    forall i | 0 <= i < p - 1 ensures c.undo[i] == d.undo[..p - 1][i] {
      assert chain[..p][i] == chain[i] && chain[..p][i + 1] == chain[i + 1];
    }
    assert c.undo == d.undo[..p - 1];
  }

  /** Cleanup is right for the oldest version only: the parent pointer of any version below it would go stale. */
  lemma CleanupOnlyOfOldest(nodes: seq<Node>, nodes': seq<Node>, chain: seq<nat>, name: string, p: nat)
    requires ChainOk(nodes, chain, name) && Bypassed(nodes, nodes', chain, p)
    requires !Uncommitted(nodes[chain[p - 1]].timestamp)
    ensures ChainOk(nodes', chain[..p] + chain[p + 1..], name) <==> p == |chain| - 1
  {
    var c := chain[..p] + chain[p + 1..];
    if p == |chain| - 1 {
      assert c == chain[..p];
      ChainDropLast(nodes, nodes', chain, name, p);
    } else {
      assert InPlace(nodes, chain, name, p + 1);
      assert c[p] == chain[p + 1] && c[p - 1] == chain[p - 1];
      assert chain[p + 1] < chain[p] < chain[p - 1];
      assert nodes'[c[p]].parent == Some(chain[p]);
      assert ChainOk(nodes', c, name) ==> InPlace(nodes', c, name, p);
    }
  }

  /** Commit: one version gets the commit id. */
  ghost predicate Restamped(nodes: seq<Node>, nodes': seq<Node>, n: nat, stamp: nat) {
    && |nodes'| == |nodes| && n < |nodes|
    && forall r :: 0 <= r < |nodes| ==> nodes'[r] == if r == n then nodes[r].(timestamp := stamp) else nodes[r]
  }

  lemma ChainRestamp(nodes: seq<Node>, nodes': seq<Node>, chain: seq<nat>, name: string, p: nat, stamp: nat)
    requires ChainOk(nodes, chain, name) && p < |chain| - 1 && Restamped(nodes, nodes', chain[p], stamp)
    ensures ChainOk(nodes', chain, name)
    ensures var c := ChainCell(nodes, chain);
            ChainCell(nodes', chain) == Cell(c.cur, c.undo[p := c.undo[p].(stamp := stamp)])
  {
    forall i: nat | i < |chain| ensures InPlace(nodes', chain, name, i) {
      assert InPlace(nodes, chain, name, i);
      assert i > p ==> chain[i] < chain[p];
    }
    RestampCell(nodes, nodes', chain, p, stamp);
  }

  lemma RestampCell(nodes: seq<Node>, nodes': seq<Node>, chain: seq<nat>, p: nat, stamp: nat)
    requires Known(nodes, chain) && Known(nodes', chain) && Descending(chain)
    requires p < |chain| - 1 && Restamped(nodes, nodes', chain[p], stamp)
    ensures var c := ChainCell(nodes, chain);
            ChainCell(nodes', chain) == Cell(c.cur, c.undo[p := c.undo[p].(stamp := stamp)])
  {
    var c := ChainCell(nodes, chain);
    var d := Cell(c.cur, c.undo[p := c.undo[p].(stamp := stamp)]);
    forall i | 0 <= i < |chain| - 1 ensures ChainCell(nodes', chain).undo[i] == d.undo[i] {
      RestampAt(nodes, nodes', chain, p, stamp, i);
    }
  }

  lemma RestampAt(nodes: seq<Node>, nodes': seq<Node>, chain: seq<nat>, p: nat, stamp: nat, i: nat)
    requires Known(nodes, chain) && Known(nodes', chain) && Descending(chain)
    requires p < |chain| - 1 && i < |chain| - 1 && Restamped(nodes, nodes', chain[p], stamp)
    ensures ChainCell(nodes', chain).undo[i]
         == if i == p then ChainCell(nodes, chain).undo[i].(stamp := stamp) else ChainCell(nodes, chain).undo[i]
  {
    assert i > p ==> chain[i] < chain[p];
    assert i < p ==> chain[p] < chain[i];
  }

  // ----- what a transaction has replaced -----

  /** Each version once, and those of one name from the oldest to the newest. */
  ghost predicate Ordered(nodes: seq<Node>, own: seq<nat>) {
    && (forall i, j :: 0 <= i < j < |own| ==> own[i] != own[j])
    && (forall i, j :: 0 <= i < j < |own| && own[i] < |nodes| && own[j] < |nodes| && nodes[own[i]].name == nodes[own[j]].name ==>
          own[i] < own[j])
  }

  /** The version at position p + 1 was replaced by the transaction with the stamp. */
  ghost predicate Replaced(nodes: seq<Node>, chain: seq<nat>, p: nat, e: nat, stamp: nat) {
    p + 1 < |chain| && chain[p + 1] == e && chain[p] < |nodes| && nodes[chain[p]].timestamp == stamp
  }

  ghost predicate ReplacedBy(nodes: seq<Node>, chains: map<string, seq<nat>>, e: nat, stamp: nat) {
    e < |nodes| && nodes[e].name in chains && exists p: nat :: Replaced(nodes, chains[nodes[e].name], p, e, stamp)
  }

  /** The numbers name exactly the versions that the transaction with the stamp replaced, each once and in order. */
  ghost predicate Owns(nodes: seq<Node>, chains: map<string, seq<nat>>, own: seq<nat>, stamp: nat) {
    && Ordered(nodes, own)
    && (forall e :: e in own ==> ReplacedBy(nodes, chains, e, stamp))
    && (forall name, p: nat :: name in chains && p < |chains[name]| - 1 ==> OwnedAt(nodes, chains[name], p, own, stamp))
  }

  ghost predicate OwnedAt(nodes: seq<Node>, chain: seq<nat>, p: nat, own: seq<nat>, stamp: nat)
    requires p < |chain| - 1
  {
    chain[p] < |nodes| && nodes[chain[p]].timestamp == stamp ==> chain[p + 1] in own
  }

  ghost predicate EveryWellFormed(nodes: seq<Node>, chains: map<string, seq<nat>>)
    requires AllOk(nodes, chains)
  {
    forall name :: name in chains ==> WellFormed(CellIn(nodes, chains, name))
  }

  lemma EndsOfOrder(nodes: seq<Node>, own: seq<nat>, x: nat)
    requires Ordered(nodes, own) && x in own && x < |nodes|
    ensures own[0] < |nodes| && nodes[own[0]].name == nodes[x].name ==> own[0] <= x
    ensures own[|own| - 1] < |nodes| && nodes[own[|own| - 1]].name == nodes[x].name ==> x <= own[|own| - 1]
  {
    var i :| 0 <= i < |own| && own[i] == x;
    assert 0 < i ==> own[0] != own[i];
    assert i < |own| - 1 ==> own[i] != own[|own| - 1];
  }

  /** The last version that a running transaction replaced lies right below the current one. */
  lemma LastReplacedIsSecond(nodes: seq<Node>, chains: map<string, seq<nat>>, own: seq<nat>, id: nat)
    requires AllOk(nodes, chains) && Owns(nodes, chains, own, id) && own != []
    requires EveryWellFormed(nodes, chains) && Uncommitted(id)
    ensures var e := own[|own| - 1]; e < |nodes| && nodes[e].name in chains && Replaced(nodes, chains[nodes[e].name], 0, e, id)
  {
    var e := own[|own| - 1];
    assert e in own;
    var name := nodes[e].name;
    var p: nat :| Replaced(nodes, chains[name], p, e, id);
    HeadStamp(nodes, chains[name], name, p, e, id);
    assert OwnedAt(nodes, chains[name], 0, own, id);
    assert ChainOk(nodes, chains[name], name) && InPlace(nodes, chains[name], name, 1);
    EndsOfOrder(nodes, own, chains[name][1]);
  }

  /** An uncommitted stamp anywhere is also the newest one. */
  lemma HeadStamp(nodes: seq<Node>, chain: seq<nat>, name: string, p: nat, e: nat, id: nat)
    requires ChainOk(nodes, chain, name) && WellFormed(ChainCell(nodes, chain))
    requires Replaced(nodes, chain, p, e, id) && Uncommitted(id)
    ensures nodes[chain[0]].timestamp == id
  {
    assert ChainCell(nodes, chain).undo[p].stamp == id;
    assert ChainCell(nodes, chain).undo[0].stamp == id;
  }

  /** A new version makes its transaction the owner of the version it replaced. */
  lemma OwnsPushed(nodes: seq<Node>, nodes': seq<Node>, chains: map<string, seq<nat>>, name: string, n: Node, own: seq<nat>, stamp: nat)
    requires AllOk(nodes, chains) && name in chains && Pushed(nodes, nodes', chains[name], n) && Owns(nodes, chains, own, stamp)
    ensures Owns(nodes', chains[name := [|nodes|] + chains[name]], own + (if n.timestamp == stamp then [chains[name][0]] else []), stamp)
  {
    var chain := chains[name];
    var chains' := chains[name := [|nodes|] + chain];
    var own' := own + (if n.timestamp == stamp then [chain[0]] else []);
    assert ChainOk(nodes, chain, name) && InPlace(nodes, chain, name, 0);
    forall e | e in own
      ensures ReplacedBy(nodes', chains', e, stamp) && e != chain[0] && (nodes[e].name == name ==> e < chain[0])
    {
      assert ReplacedBy(nodes, chains, e, stamp);
      var m := nodes[e].name;
      var p: nat :| Replaced(nodes, chains[m], p, e, stamp);
      SamePlace(nodes, chains, name, 0, m, p + 1);
      assert Replaced(nodes', chains'[m], if m == name then p + 1 else p, e, stamp);
    }
    if n.timestamp == stamp {
      assert Replaced(nodes', chains'[name], 0, chain[0], stamp);
      assert ReplacedBy(nodes', chains', chain[0], stamp);
    }
    forall m, p: nat | m in chains' && p < |chains'[m]| - 1 ensures OwnedAt(nodes', chains'[m], p, own', stamp) {
      if m != name {
        assert OwnedAt(nodes, chains[m], p, own, stamp) && ChainOk(nodes, chains[m], m);
      } else if p > 0 {
        assert OwnedAt(nodes, chain, p - 1, own, stamp);
      }
    }
    OrderedPush(nodes, nodes', own, own', stamp, n, chain[0]);
  }

  lemma OrderedPush(nodes: seq<Node>, nodes': seq<Node>, own: seq<nat>, own': seq<nat>, stamp: nat, n: Node, head: nat)
    requires Ordered(nodes, own) && head < |nodes| <= |nodes'| && own' == own + (if n.timestamp == stamp then [head] else [])
    requires forall r :: 0 <= r < |nodes| ==> nodes'[r].name == nodes[r].name
    requires forall e :: e in own ==> e < |nodes| && e != head && (nodes[e].name == nodes[head].name ==> e < head)
    ensures Ordered(nodes', own')
  {
    forall i, j | 0 <= i < j < |own'|
      ensures own'[i] != own'[j]
      ensures own'[i] < |nodes'| && own'[j] < |nodes'| && nodes'[own'[i]].name == nodes'[own'[j]].name ==> own'[i] < own'[j]
    {
      assert own'[i] == own[i] && own[i] in own;
      if j < |own| { assert own'[j] == own[j] && own[j] in own; }
    }
  }

  lemma OwnsDummy(nodes: seq<Node>, nodes': seq<Node>, chains: map<string, seq<nat>>, name: string, own: seq<nat>, stamp: nat)
    requires AllOk(nodes, chains) && name !in chains && nodes <= nodes' && Owns(nodes, chains, own, stamp)
    ensures Owns(nodes', chains[name := [|nodes|]], own, stamp)
  {
    var chains' := chains[name := [|nodes|]];
    forall e | e in own ensures ReplacedBy(nodes', chains', e, stamp) && e < |nodes| {
      assert ReplacedBy(nodes, chains, e, stamp);
      var m := nodes[e].name;
      var p: nat :| Replaced(nodes, chains[m], p, e, stamp);
      assert Replaced(nodes', chains'[m], p, e, stamp);
    }
    forall m, p: nat | m in chains' && p < |chains'[m]| - 1 ensures OwnedAt(nodes', chains'[m], p, own, stamp) {
      assert OwnedAt(nodes, chains[m], p, own, stamp) && ChainOk(nodes, chains[m], m);
    }
    assert forall i :: 0 <= i < |own| ==> own[i] in own;
  }

  /** Whoever has another stamp owns what it owned before. */
  ghost predicate OthersOwn(nodes: seq<Node>, nodes': seq<Node>, chains: map<string, seq<nat>>, chains': map<string, seq<nat>>, id: nat) {
    forall own, stamp :: stamp != id && Owns(nodes, chains, own, stamp) ==> Owns(nodes', chains', own, stamp)
  }

  lemma OthersOwnTwice(n: seq<Node>, n': seq<Node>, n'': seq<Node>,
                       c: map<string, seq<nat>>, c': map<string, seq<nat>>, c'': map<string, seq<nat>>, id: nat)
    requires OthersOwn(n, n', c, c', id) && OthersOwn(n', n'', c', c'', id)
    ensures OthersOwn(n, n'', c, c'', id)
  {
  }

  lemma PoppedReplaced(nodes: seq<Node>, nodes': seq<Node>, chains: map<string, seq<nat>>, name: string, e: nat, stamp: nat)
    requires AllOk(nodes, chains) && name in chains && Popped(nodes, nodes', chains[name])
    requires ReplacedBy(nodes, chains, e, stamp) && (nodes[chains[name][0]].timestamp == stamp ==> e != chains[name][1])
    ensures ReplacedBy(nodes', chains[name := chains[name][1..]], e, stamp)
  {
    var n := nodes[e].name;
    var p: nat :| Replaced(nodes, chains[n], p, e, stamp);
    assert ChainOk(nodes, chains[n], n) && nodes'[e].name == n;
    var chains' := chains[name := chains[name][1..]];
    if n == name {
      assert p > 0 && chains'[n][p - 1] == chains[n][p] && chains'[n][p] == chains[n][p + 1];
      assert Replaced(nodes', chains'[n], p - 1, e, stamp);
    } else {
      assert chains'[n] == chains[n];
      assert Replaced(nodes', chains'[n], p, e, stamp);
    }
  }

  lemma PoppedOwnedAt(nodes: seq<Node>, nodes': seq<Node>, chains: map<string, seq<nat>>, name: string,
                      own: seq<nat>, own': seq<nat>, stamp: nat, n: string, p: nat)
    requires AllOk(nodes, chains) && name in chains && Popped(nodes, nodes', chains[name]) && Owns(nodes, chains, own, stamp)
    requires own == own' + (if nodes[chains[name][0]].timestamp == stamp then [chains[name][1]] else [])
    requires n in chains && p < |(if n == name then chains[name][1..] else chains[n])| - 1
    ensures OwnedAt(nodes', if n == name then chains[name][1..] else chains[n], p, own', stamp)
  {
    assert ChainOk(nodes, chains[name], name) && ChainOk(nodes, chains[n], n);
    if n == name {
      assert OwnedAt(nodes, chains[name], p + 1, own, stamp);
    } else {
      assert OwnedAt(nodes, chains[n], p, own, stamp);
      assert InPlace(nodes, chains[name], name, 1) && InPlace(nodes, chains[n], n, p + 1);
    }
  }

  /** Undoing the last replacement leaves the others, and whatever anybody else replaced. */
  lemma OwnsPopped(nodes: seq<Node>, nodes': seq<Node>, chains: map<string, seq<nat>>, name: string,
                   own: seq<nat>, own': seq<nat>, stamp: nat)
    requires AllOk(nodes, chains) && name in chains && Popped(nodes, nodes', chains[name]) && Owns(nodes, chains, own, stamp)
    requires own == own' + (if nodes[chains[name][0]].timestamp == stamp then [chains[name][1]] else [])
    ensures Owns(nodes', chains[name := chains[name][1..]], own', stamp)
  {
    var chains' := chains[name := chains[name][1..]];
    assert forall i :: 0 <= i < |own'| ==> own'[i] == own[i];
    forall e | e in own' ensures ReplacedBy(nodes', chains', e, stamp) {
      var i :| 0 <= i < |own'| && own'[i] == e;
      assert own[i] == e && (nodes[chains[name][0]].timestamp == stamp ==> own[|own'|] == chains[name][1]);
      PoppedReplaced(nodes, nodes', chains, name, e, stamp);
    }
    forall n, p: nat | n in chains' && p < |chains'[n]| - 1 ensures OwnedAt(nodes', chains'[n], p, own', stamp) {
      PoppedOwnedAt(nodes, nodes', chains, name, own, own', stamp, n, p);
    }
  }

  lemma PopKeepsOwners(nodes: seq<Node>, nodes': seq<Node>, chains: map<string, seq<nat>>, name: string, own: seq<nat>, rest: seq<nat>, id: nat)
    requires AllOk(nodes, chains) && name in chains && Popped(nodes, nodes', chains[name]) && nodes[chains[name][0]].timestamp == id
    requires Owns(nodes, chains, own, id) && own == rest + [chains[name][1]]
    ensures Owns(nodes', chains[name := chains[name][1..]], rest, id)
    ensures OthersOwn(nodes, nodes', chains, chains[name := chains[name][1..]], id)
  {
    OwnsPopped(nodes, nodes', chains, name, own, rest, id);
    forall theirs, stamp | stamp != id && Owns(nodes, chains, theirs, stamp)
      ensures Owns(nodes', chains[name := chains[name][1..]], theirs, stamp)
    {
      OwnsPopped(nodes, nodes', chains, name, theirs, theirs, stamp);
    }
  }

  /** Popping a version of the transaction makes no difference to what a rollback will make of any name. */
  lemma PopKeepsReverted(n: seq<Node>, n': seq<Node>, c: map<string, seq<nat>>, c': map<string, seq<nat>>, name: string, id: nat)
    requires AllOk(n, c) && AllOk(n', c') && c'.Keys == c.Keys && EveryWellFormed(n, c)
    requires name in c && OwnedBy(CellIn(n, c, name), id) && PoppedCells(n, n', c, c', name)
    ensures EveryWellFormed(n', c') && RevertsAlike(n, n', c, c', id)
  {
    assert WellFormed(CellIn(n, c, name));
    PopWellFormed(CellIn(n, c, name));
    forall m | m in c' ensures WellFormed(CellIn(n', c', m)) {
      assert WellFormed(CellIn(n, c, m));
    }
    forall m ensures Revert(CellIn(n', c', m), id) == Revert(CellIn(n, c, m), id) {
      if m == name { PopReverts(CellIn(n, c, name), id); }
    }
  }

  /** A rollback will make the same of every name. */
  ghost predicate RevertsAlike(n: seq<Node>, n': seq<Node>, c: map<string, seq<nat>>, c': map<string, seq<nat>>, id: nat)
    requires AllOk(n, c) && AllOk(n', c')
  {
    forall m :: Revert(CellIn(n', c', m), id) == Revert(CellIn(n, c, m), id)
  }

  lemma RevertsAlikeTwice(a: seq<Node>, b: seq<Node>, d: seq<Node>,
                          p: map<string, seq<nat>>, q: map<string, seq<nat>>, r: map<string, seq<nat>>, id: nat)
    requires AllOk(a, p) && AllOk(b, q) && AllOk(d, r) && RevertsAlike(a, b, p, q, id) && RevertsAlike(b, d, q, r, id)
    ensures RevertsAlike(a, d, p, r, id)
  {
    forall m ensures Revert(CellIn(d, r, m), id) == Revert(CellIn(a, p, m), id) {
      assert Revert(CellIn(b, q, m), id) == Revert(CellIn(a, p, m), id);
    }
  }

  lemma HeadOwned(n: seq<Node>, c: map<string, seq<nat>>, name: string, entry: nat, id: nat)
    requires AllOk(n, c) && name in c && Replaced(n, c[name], 0, entry, id)
    ensures OwnedBy(CellIn(n, c, name), id)
  {
  }

  lemma PopReverts(c: Cell<Value>, id: nat)
    requires OwnedBy(c, id)
    ensures Revert(Pop(c), id) == Revert(c, id)
  {
  }

  // ----- cleanup -----

  /** No version carries a stamp older than the commit id. */
  ghost predicate NoneOlder(nodes: seq<Node>, chains: map<string, seq<nat>>, commitId: nat)
    requires AllOk(nodes, chains)
  {
    forall name :: name in chains ==> NoneOlderIn(CellIn(nodes, chains, name), commitId)
  }

  ghost predicate NoneOlderIn(c: Cell<Value>, commitId: nat) {
    WellFormed(c) && forall p :: 0 <= p < |c.undo| ==> commitId <= c.undo[p].stamp
  }

  /** The first version that the longest committed transaction replaced is the oldest of its name. */
  lemma FirstReplacedIsOldest(nodes: seq<Node>, chains: map<string, seq<nat>>, own: seq<nat>, commitId: nat)
    requires AllOk(nodes, chains) && Owns(nodes, chains, own, commitId) && NoneOlder(nodes, chains, commitId) && own != []
    ensures var e := own[0];
      && e < |nodes| && nodes[e].name in chains
      && 2 <= |chains[nodes[e].name]| && Replaced(nodes, chains[nodes[e].name], |chains[nodes[e].name]| - 2, e, commitId)
  {
    var e := own[0];
    assert e in own;
    var chain := chains[nodes[e].name];
    var p: nat :| Replaced(nodes, chain, p, e, commitId);
    assert ChainOk(nodes, chain, nodes[e].name);
    NextIsReplaced(nodes, chains, own, commitId, nodes[e].name, p);
  }

  lemma NextIsReplaced(nodes: seq<Node>, chains: map<string, seq<nat>>, own: seq<nat>, commitId: nat, name: string, p: nat)
    requires AllOk(nodes, chains) && Owns(nodes, chains, own, commitId) && name in chains && p < |chains[name]| - 1
    requires NoneOlderIn(ChainCell(nodes, chains[name]), commitId)
    requires chains[name][p] < |nodes| && nodes[chains[name][p]].timestamp == commitId
    ensures p < |chains[name]| - 2 && own != [] && own[0] < |nodes| && nodes[own[0]].name == name ==> own[0] < chains[name][p + 1]
  {
    if p < |chains[name]| - 2 {
      var c := ChainCell(nodes, chains[name]);
      assert c.undo[p].stamp == commitId && c.undo[p + 1].stamp <= c.undo[p].stamp;
      assert OwnedAt(nodes, chains[name], p + 1, own, commitId);
      assert ChainOk(nodes, chains[name], name) && InPlace(nodes, chains[name], name, p + 2);
      EndsOfOrder(nodes, own, chains[name][p + 2]);
    }
  }

  /** Some of the oldest records are gone, all of them with the stamp. */
  ghost predicate Trimmed(c: Cell<Value>, d: Cell<Value>, stamp: nat) {
    && d.cur == c.cur && |d.undo| <= |c.undo|
    && (forall i :: 0 <= i < |d.undo| ==> d.undo[i] == c.undo[i])
    && (forall i :: |d.undo| <= i < |c.undo| ==> c.undo[i].stamp == stamp)
  }

  lemma SameTrimmed(c: Cell<Value>, d: Cell<Value>, stamp: nat)
    requires c == d
    ensures Trimmed(c, d, stamp)
  {
  }

  lemma DropTrims(c: Cell<Value>, d: Cell<Value>, stamp: nat)
    requires c.undo != [] && c.undo[|c.undo| - 1].stamp == stamp && d == Cell(c.cur, c.undo[..|c.undo| - 1])
    ensures Trimmed(c, d, stamp)
  {
  }

  lemma TrimmedTwice(b: Cell<Value>, c: Cell<Value>, d: Cell<Value>, stamp: nat)
    requires Trimmed(b, c, stamp) && Trimmed(c, d, stamp)
    ensures Trimmed(b, d, stamp)
  {
    forall i | |d.undo| <= i < |b.undo| ensures b.undo[i].stamp == stamp {
      if i < |c.undo| { assert c.undo[i].stamp == stamp; }
    }
  }

  lemma TrimmedOlder(c: Cell<Value>, d: Cell<Value>, stamp: nat)
    requires Trimmed(c, d, stamp) && NoneOlderIn(c, stamp)
    ensures NoneOlderIn(d, stamp)
  {
  }

  /** Once all records with the stamp are gone, trimming amounts to a purge. */
  lemma TrimmedIsPurge(c: Cell<Value>, d: Cell<Value>, commitId: nat)
    requires Trimmed(c, d, commitId) && NoneOlderIn(c, commitId)
    requires forall i :: 0 <= i < |d.undo| ==> d.undo[i].stamp != commitId
    ensures d == Purge(c, commitId + 1)
  {
    KeepIsPrefix(c.undo, commitId + 1);
    var k, m := |Keep(c.undo, commitId + 1)|, |d.undo|;
    assert forall i :: 0 <= i < |c.undo| ==> (c.undo[i].stamp < commitId + 1 <==> m <= i);
    var j := if k < m then k else m;
    assert j < |c.undo| ==> (c.undo[j].stamp < commitId + 1 <==> k <= j);
    assert d.undo == c.undo[..k];
  }

  lemma DroppedReplaced(nodes: seq<Node>, nodes': seq<Node>, chains: map<string, seq<nat>>, name: string, p: nat, e: nat, stamp: nat)
    requires AllOk(nodes, chains) && name in chains && p == |chains[name]| - 1 && Bypassed(nodes, nodes', chains[name], p)
    requires ReplacedBy(nodes, chains, e, stamp) && (nodes[chains[name][p - 1]].timestamp == stamp ==> e != chains[name][p])
    ensures ReplacedBy(nodes', chains[name := chains[name][..p]], e, stamp)
  {
    var n := nodes[e].name;
    var q: nat :| Replaced(nodes, chains[n], q, e, stamp);
    assert ChainOk(nodes, chains[n], n) && nodes'[e].name == n;
    var chains' := chains[name := chains[name][..p]];
    if n == name {
      assert q < p - 1 && chains'[n][q] == chains[n][q] && chains'[n][q + 1] == chains[n][q + 1];
      assert Replaced(nodes', chains'[n], q, e, stamp);
    } else {
      assert chains'[n] == chains[n];
      assert Replaced(nodes', chains'[n], q, e, stamp);
    }
  }

  lemma DroppedOwnedAt(nodes: seq<Node>, nodes': seq<Node>, chains: map<string, seq<nat>>, name: string, p: nat,
                       own: seq<nat>, own': seq<nat>, stamp: nat, n: string, q: nat)
    requires AllOk(nodes, chains) && name in chains && p == |chains[name]| - 1 && Bypassed(nodes, nodes', chains[name], p)
    requires Owns(nodes, chains, own, stamp)
    requires own == (if nodes[chains[name][p - 1]].timestamp == stamp then [chains[name][p]] else []) + own'
    requires n in chains && q < |(if n == name then chains[name][..p] else chains[n])| - 1
    ensures OwnedAt(nodes', if n == name then chains[name][..p] else chains[n], q, own', stamp)
  {
    assert ChainOk(nodes, chains[name], name) && ChainOk(nodes, chains[n], n);
    assert OwnedAt(nodes, chains[n], q, own, stamp);
    if n == name {
      assert chains[name][p] < chains[name][q + 1];
    } else {
      assert InPlace(nodes, chains[name], name, p) && InPlace(nodes, chains[n], n, q + 1);
    }
  }

  lemma OwnReplaced(nodes: seq<Node>, nodes': seq<Node>, chains: map<string, seq<nat>>, name: string, p: nat,
                    own: seq<nat>, own': seq<nat>, stamp: nat, e: nat)
    requires AllOk(nodes, chains) && name in chains && p == |chains[name]| - 1 && Bypassed(nodes, nodes', chains[name], p)
    requires Owns(nodes, chains, own, stamp) && e in own'
    requires own == (if nodes[chains[name][p - 1]].timestamp == stamp then [chains[name][p]] else []) + own'
    ensures ReplacedBy(nodes', chains[name := chains[name][..p]], e, stamp)
  {
    var i :| 0 <= i < |own'| && own'[i] == e;
    assert own[i + |own| - |own'|] == e && (nodes[chains[name][p - 1]].timestamp == stamp ==> own[0] == chains[name][p]);
    DroppedReplaced(nodes, nodes', chains, name, p, e, stamp);
  }

  lemma OwnsDropped(nodes: seq<Node>, nodes': seq<Node>, chains: map<string, seq<nat>>, name: string, p: nat,
                    own: seq<nat>, own': seq<nat>, stamp: nat)
    requires AllOk(nodes, chains) && name in chains && p == |chains[name]| - 1 && Bypassed(nodes, nodes', chains[name], p)
    requires Owns(nodes, chains, own, stamp)
    requires own == (if nodes[chains[name][p - 1]].timestamp == stamp then [chains[name][p]] else []) + own'
    ensures Owns(nodes', chains[name := chains[name][..p]], own', stamp)
  {
    var chains' := chains[name := chains[name][..p]];
    var k := |own| - |own'|;
    assert forall i :: 0 <= i < |own'| ==> own'[i] == own[i + k];
    forall e | e in own' ensures ReplacedBy(nodes', chains', e, stamp) {
      OwnReplaced(nodes, nodes', chains, name, p, own, own', stamp, e);
    }
    forall n, q: nat | n in chains' && q < |chains'[n]| - 1 ensures OwnedAt(nodes', chains'[n], q, own', stamp) {
      DroppedOwnedAt(nodes, nodes', chains, name, p, own, own', stamp, n, q);
    }
  }

  /** Forgetting the first of its versions leaves the transaction the rest of them, and the others all of theirs. */
  lemma DropKeepsOwners(nodes: seq<Node>, nodes': seq<Node>, chains: map<string, seq<nat>>, name: string, p: nat, own: seq<nat>, id: nat)
    requires AllOk(nodes, chains) && name in chains && p == |chains[name]| - 1 && Bypassed(nodes, nodes', chains[name], p)
    requires Owns(nodes, chains, own, id) && own != [] && own[0] == chains[name][p] && nodes[chains[name][p - 1]].timestamp == id
    ensures Owns(nodes', chains[name := chains[name][..p]], own[1..], id)
    ensures OthersOwn(nodes, nodes', chains, chains[name := chains[name][..p]], id)
  {
    OwnsDropped(nodes, nodes', chains, name, p, own, own[1..], id);
    forall theirs, stamp | stamp != id && Owns(nodes, chains, theirs, stamp)
      ensures Owns(nodes', chains[name := chains[name][..p]], theirs, stamp)
    {
      OwnsDropped(nodes, nodes', chains, name, p, theirs, theirs, stamp);
    }
  }

  // ----- commit -----

  /** The stamps of one name after part of the transaction's versions got the commit id. */
  ghost predicate StampedAt(n: seq<Node>, n': seq<Node>, chain: seq<nat>, p: nat, done: seq<nat>, commitId: nat)
    requires p < |chain|
  {
    && chain[p] < |n| && chain[p] < |n'|
    && n'[chain[p]].timestamp == if p + 1 < |chain| && chain[p + 1] in done then commitId else n[chain[p]].timestamp
  }

  ghost predicate Stamped(n: seq<Node>, n': seq<Node>, c: map<string, seq<nat>>, done: seq<nat>, commitId: nat) {
    && |n'| == |n|
    && (forall r :: 0 <= r < |n| ==> n'[r] == n[r].(timestamp := n'[r].timestamp))
    && (forall name, p: nat :: name in c && p < |c[name]| ==> StampedAt(n, n', c[name], p, done, commitId))
  }

  lemma StampedMore(n: seq<Node>, n': seq<Node>, n'': seq<Node>, c: map<string, seq<nat>>, done: seq<nat>, e: nat, name: string, p: nat, commitId: nat)
    requires AllOk(n, c) && Stamped(n, n', c, done, commitId)
    requires name in c && p + 1 < |c[name]| && c[name][p + 1] == e && Restamped(n', n'', c[name][p], commitId)
    ensures Stamped(n, n'', c, done + [e], commitId)
  {
    assert ChainOk(n, c[name], name);
    forall m, q: nat | m in c && q < |c[m]| ensures StampedAt(n, n'', c[m], q, done + [e], commitId) {
      assert StampedAt(n, n', c[m], q, done, commitId);
      assert ChainOk(n, c[m], m);
      SamePlace(n, c, name, p, m, q);
      if q + 1 < |c[m]| { SamePlace(n, c, name, p + 1, m, q + 1); }
    }
  }

  /** A version has only one place. */
  lemma SamePlace(n: seq<Node>, c: map<string, seq<nat>>, name: string, p: nat, m: string, q: nat)
    requires AllOk(n, c) && name in c && m in c && p < |c[name]| && q < |c[m]|
    ensures c[name][p] == c[m][q] <==> name == m && p == q
  {
    assert ChainOk(n, c[name], name) && ChainOk(n, c[m], m);
    assert InPlace(n, c[name], name, p) && InPlace(n, c[m], m, q);
  }

  /** Stamping everything the transaction has replaced restamps every name. */
  lemma StampedCell(n: seq<Node>, n': seq<Node>, c: map<string, seq<nat>>, own: seq<nat>, id: nat, commitId: nat, name: string)
    requires AllOk(n, c) && AllOk(n', c) && Owns(n, c, own, id) && Stamped(n, n', c, own, commitId)
    ensures CellIn(n', c, name) == Restamp(CellIn(n, c, name), id, commitId)
  {
    if name in c {
      var chain := c[name];
      var d := Restamp(CellIn(n, c, name), id, commitId);
      assert ChainOk(n, chain, name) && ChainOk(n', chain, name);
      forall p | 0 <= p < |chain| - 1 ensures CellIn(n', c, name).undo[p] == d.undo[p] {
        assert StampedAt(n, n', chain, p, own, commitId);
        OwnedIffStamped(n, c, own, id, name, p);
      }
    }
  }

  lemma OwnedIffStamped(n: seq<Node>, c: map<string, seq<nat>>, own: seq<nat>, stamp: nat, name: string, p: nat)
    requires AllOk(n, c) && Owns(n, c, own, stamp) && name in c && p + 1 < |c[name]| && c[name][p] < |n|
    ensures c[name][p + 1] in own <==> n[c[name][p]].timestamp == stamp
  {
    assert OwnedAt(n, c[name], p, own, stamp);
    var e := c[name][p + 1];
    if e in own {
      assert ReplacedBy(n, c, e, stamp);
      assert ChainOk(n, c[name], name) && InPlace(n, c[name], name, p + 1);
      var q: nat :| Replaced(n, c[name], q, e, stamp);
      SamePlace(n, c, name, p + 1, name, q + 1);
    }
  }

  /** Nobody has the stamp yet. */
  ghost predicate Unused(n: seq<Node>, c: map<string, seq<nat>>, stamp: nat) {
    Owns(n, c, [], stamp)
  }

  lemma StampedOwner(n: seq<Node>, n': seq<Node>, c: map<string, seq<nat>>, own: seq<nat>, id: nat, commitId: nat)
    requires AllOk(n, c) && Owns(n, c, own, id) && Stamped(n, n', c, own, commitId) && Unused(n, c, commitId)
    ensures Owns(n', c, own, commitId)
  {
    forall e | e in own ensures ReplacedBy(n', c, e, commitId) {
      assert ReplacedBy(n, c, e, id) && n'[e].name == n[e].name;
      var chain := c[n[e].name];
      var p: nat :| Replaced(n, chain, p, e, id);
      assert StampedAt(n, n', chain, p, own, commitId);
      assert Replaced(n', chain, p, e, commitId);
    }
    forall name, p: nat | name in c && p < |c[name]| - 1 ensures OwnedAt(n', c[name], p, own, commitId) {
      assert StampedAt(n, n', c[name], p, own, commitId) && OwnedAt(n, c[name], p, [], commitId);
    }
  }

  lemma StampedKeepsOwner(n: seq<Node>, n': seq<Node>, c: map<string, seq<nat>>, own: seq<nat>, id: nat, commitId: nat, theirs: seq<nat>, stamp: nat)
    requires AllOk(n, c) && Owns(n, c, own, id) && Stamped(n, n', c, own, commitId)
    requires Owns(n, c, theirs, stamp) && stamp != id && stamp != commitId
    ensures Owns(n', c, theirs, stamp)
  {
    forall e | e in theirs ensures ReplacedBy(n', c, e, stamp) {
      assert ReplacedBy(n, c, e, stamp) && n'[e].name == n[e].name;
      var name := n[e].name;
      var p: nat :| Replaced(n, c[name], p, e, stamp);
      assert StampedAt(n, n', c[name], p, own, commitId);
      OwnedIffStamped(n, c, own, id, name, p);
      assert Replaced(n', c[name], p, e, stamp);
    }
    forall name, p: nat | name in c && p < |c[name]| - 1 ensures OwnedAt(n', c[name], p, theirs, stamp) {
      assert StampedAt(n, n', c[name], p, own, commitId) && OwnedAt(n, c[name], p, theirs, stamp);
    }
  }

  lemma PushedOnTop(nodes: seq<Node>, nodes': seq<Node>, chains: map<string, seq<nat>>, name: string, n: Node)
    requires AllOk(nodes, chains) && name in chains && Pushed(nodes, nodes', chains[name], n) && n.name == name
    ensures var chains' := chains[name := [|nodes|] + chains[name]];
      && AllOk(nodes', chains')
      && CellIn(nodes', chains', name) == Overwrite(CellIn(nodes, chains, name), n.timestamp, Content(n))
      && forall other :: other != name ==> CellIn(nodes', chains', other) == CellIn(nodes, chains, other)
  {
    assert InPlace(nodes, chains[name], name, 0);
    ChainPush(nodes, nodes', chains[name], name, n);
    OthersKept(nodes, nodes', chains, name, [|nodes|] + chains[name]);
  }

  /** One name lost its newest version, and nothing else happened. */
  ghost predicate PoppedCells(n: seq<Node>, n': seq<Node>, c: map<string, seq<nat>>, c': map<string, seq<nat>>, name: string)
    requires AllOk(n, c) && AllOk(n', c')
  {
    && CellIn(n, c, name).undo != [] && CellIn(n', c', name) == Pop(CellIn(n, c, name))
    && (forall other :: other != name ==> CellIn(n', c', other) == CellIn(n, c, other))
  }

  lemma PoppedFromTop(nodes: seq<Node>, nodes': seq<Node>, chains: map<string, seq<nat>>, name: string)
    requires AllOk(nodes, chains) && name in chains && Popped(nodes, nodes', chains[name])
    ensures var chains' := chains[name := chains[name][1..]];
      AllOk(nodes', chains') && PoppedCells(nodes, nodes', chains, chains', name)
  {
    assert InPlace(nodes, chains[name], name, 0) && InPlace(nodes, chains[name], name, 1);
    ChainPop(nodes, nodes', chains[name], name);
    OthersKept(nodes, nodes', chains, name, chains[name][1..]);
  }

  lemma DroppedFromBottom(nodes: seq<Node>, nodes': seq<Node>, chains: map<string, seq<nat>>, name: string, p: nat)
    requires AllOk(nodes, chains) && name in chains && p == |chains[name]| - 1 && Bypassed(nodes, nodes', chains[name], p)
    requires !Uncommitted(CellIn(nodes, chains, name).undo[p - 1].stamp)
    ensures var c, chains' := CellIn(nodes, chains, name), chains[name := chains[name][..p]];
      && AllOk(nodes', chains')
      && CellIn(nodes', chains', name) == Cell(c.cur, c.undo[..|c.undo| - 1])
      && forall other :: other != name ==> CellIn(nodes', chains', other) == CellIn(nodes, chains, other)
  {
    assert InPlace(nodes, chains[name], name, p - 1);
    ChainDropLast(nodes, nodes', chains[name], name, p);
    OthersKept(nodes, nodes', chains, name, chains[name][..p]);
  }

  lemma RestampedOne(nodes: seq<Node>, nodes': seq<Node>, chains: map<string, seq<nat>>, name: string, p: nat, stamp: nat)
    requires AllOk(nodes, chains) && name in chains && p < |chains[name]| - 1 && Restamped(nodes, nodes', chains[name][p], stamp)
    ensures var c := CellIn(nodes, chains, name);
      && AllOk(nodes', chains)
      && CellIn(nodes', chains, name) == Cell(c.cur, c.undo[p := c.undo[p].(stamp := stamp)])
      && forall other :: other != name ==> CellIn(nodes', chains, other) == CellIn(nodes, chains, other)
  {
    assert InPlace(nodes, chains[name], name, p);
    ChainRestamp(nodes, nodes', chains[name], name, p, stamp);
    OthersKept(nodes, nodes', chains, name, chains[name]);
    assert chains[name := chains[name]] == chains;
  }

  /** The map knows the newest version of each name. */
  ghost predicate Matches(data: map<string, nat>, chains: map<string, seq<nat>>) {
    && chains.Keys == data.Keys
    && (forall name :: name in chains ==> chains[name] != [] && data[name] == chains[name][0])
  }

  lemma MatchesStill(data: map<string, nat>, chains: map<string, seq<nat>>, name: string, chain: seq<nat>)
    requires Matches(data, chains) && name in chains && chain != [] && chain[0] == chains[name][0]
    ensures Matches(data, chains[name := chain])
  {
  }

  lemma MatchesUpdate(data: map<string, nat>, chains: map<string, seq<nat>>, name: string, chain: seq<nat>)
    requires Matches(data, chains) && chain != []
    ensures Matches(data[name := chain[0]], chains[name := chain])
  {
  }

  class CatalogSet {
    var data: map<string, nat>
    var nodes: seq<Node>
    /** The versions of each name, newest first. */
    ghost var chains: map<string, seq<nat>>

    ghost predicate Valid()
      reads this
    {
      Matches(data, chains) && AllOk(nodes, chains)
    }

    ghost function CellOf(name: string): Cell<Value>
      requires Valid()
      reads this
    {
      CellIn(nodes, chains, name)
    }

    /** Creating only ever comes on top of a deleted version and dropping on top of a live one. */
    lemma CreatesAndDropsAlternate(name: string, i: nat)
      requires Valid() && i < |CellOf(name).undo|
      ensures var c := CellOf(name);
        c.undo[i].before.Some? <==> (if i == 0 then c.cur else c.undo[i - 1].before).None?
    {
      assert InPlace(nodes, chains[name], name, i);
    }

    constructor ()
      ensures Valid() && chains == map[] && nodes == []
    {
      data, nodes, chains := map[], [], map[];
    }

    /** Puts a new version on top of the current one; `backup` is the replaced version. */
    method Push(id: nat, name: string, value: Value, deleted: bool) returns (backup: nat)
      requires Valid() && name in data && nodes[data[name]].deleted != deleted
      modifies this
      ensures Valid() && chains == old(chains)[name := [|old(nodes)|] + old(chains)[name]] && backup == old(chains)[name][0]
      ensures Pushed(old(nodes), nodes, old(chains)[name], Node(name, id, deleted, value, Some(backup), None))
      ensures CellOf(name) == Overwrite(old(CellOf(name)), id, if deleted then None else Some(value))
      ensures forall other :: other != name ==> CellOf(other) == old(CellOf(other))
    {
      backup := Current(name);
      ghost var chain := [|nodes|] + chains[name];
      var node := Node(name, id, deleted, value, Some(backup), None);
      Place(backup, node, chains[name]);
      PushedOnTop(old(nodes), nodes, chains, name, node);
      Link(name, |nodes| - 1, chain);
    }

    /** The new version is the current one. */
    method Link(name: string, top: nat, ghost chain: seq<nat>)
      requires Matches(data, chains) && chain != [] && chain[0] == top
      modifies this`data, this`chains
      ensures Matches(data, chains) && chains == old(chains)[name := chain]
    {
      MatchesUpdate(data, chains, name, chain);
      data := data[name := top];
      chains := chains[name := chain];
    }

    method Current(name: string) returns (n: nat)
      requires Valid() && name in data
      ensures n == data[name] && n < |nodes| && chains[name] != [] && chains[name][0] == n
    {
      assert ChainOk(nodes, chains[name], name);
      n := data[name];
    }

    method Place(backup: nat, node: Node, ghost chain: seq<nat>)
      requires chain != [] && chain[0] == backup && backup < |nodes|
      requires node.child == Some(backup) && node.parent == None && node.deleted != nodes[backup].deleted
      modifies this`nodes
      ensures Pushed(old(nodes), nodes, chain, node)
    {
      nodes := nodes[backup := nodes[backup].(parent := Some(|nodes|))] + [node];
    }

    /** A name that was never created gets a deleted version, for those who must not see the new one. */
    method AddDummy(name: string)
      requires Valid() && name !in data
      modifies this
      ensures Valid() && name in data && nodes[data[name]].deleted
      ensures forall own, stamp :: Owns(old(nodes), old(chains), own, stamp) ==> Owns(nodes, chains, own, stamp)
      ensures forall other :: CellOf(other) == old(CellOf(other))
    {
      nodes := nodes + [Node(name, 0, true, 0, None, None)];
      data := data[name := |nodes| - 1];
      MatchesUpdate(old(data), chains, name, [|nodes| - 1]);
      OthersKept(old(nodes), nodes, chains, name, [|nodes| - 1]);
      forall own, stamp | Owns(old(nodes), old(chains), own, stamp) ensures Owns(nodes, chains[name := [|nodes| - 1]], own, stamp) {
        OwnsDummy(old(nodes), nodes, old(chains), name, own, stamp);
      }
      chains := chains[name := [|nodes| - 1]];
    }

    /** Whether somebody else has an uncommitted version on top. */
    method CheckConflict(id: nat, name: string) returns (conflict: bool)
      requires Valid() && name in data
      ensures conflict == Conflicts(CellOf(name), id)
    {
      assert InPlace(nodes, chains[name], name, 0);
      var current := nodes[data[name]];
      conflict := current.timestamp >= TRANSACTION_ID_START && current.timestamp != id;
    }

    /** The undo buffers after a transaction has or has not replaced a version. */
    ghost predicate Recorded(n: seq<Node>, c: map<string, seq<nat>>, id: nat, backup: Option<nat>)
      reads this
    {
      && (forall own, stamp :: (stamp != id || backup.None?) && Owns(n, c, own, stamp) ==> Owns(nodes, chains, own, stamp))
      && (backup.Some? ==> forall own :: Owns(n, c, own, id) ==> Owns(nodes, chains, own + [backup.value], id))
    }

    /** Push, seen from the undo buffers. */
    method Replace(id: nat, name: string, value: Value, deleted: bool) returns (backup: nat)
      requires Valid() && name in data && nodes[data[name]].deleted != deleted
      modifies this
      ensures Valid() && Recorded(old(nodes), old(chains), id, Some(backup))
      ensures CellOf(name) == Overwrite(old(CellOf(name)), id, if deleted then None else Some(value))
      ensures forall other :: other != name ==> CellOf(other) == old(CellOf(other))
    {
      backup := Push(id, name, value, deleted);
      ghost var n := Node(name, id, deleted, value, Some(backup), None);
      forall own, stamp | Owns(old(nodes), old(chains), own, stamp)
        ensures Owns(nodes, chains, own + (if id == stamp then [backup] else []), stamp)
      {
        OwnsPushed(old(nodes), nodes, old(chains), name, n, own, stamp);
      }
      assert forall own: seq<nat> :: own + [] == own;
    }

    /** `backup` is the replaced version, for the undo buffer. */
    method CreateEntry(id: nat, name: string, value: Value) returns (outcome: Outcome, backup: Option<nat>)
      requires Valid()
      modifies this
      ensures Valid() && Recorded(old(nodes), old(chains), id, backup)
      ensures outcome == if Conflicts(old(CellOf(name)), id) then Conflict else if old(CellOf(name)).cur.Some? then Refused else Accepted
      ensures backup.Some? <==> outcome.Accepted?
      ensures CellOf(name) == if outcome.Accepted? then Overwrite(old(CellOf(name)), id, Some(value)) else old(CellOf(name))
      ensures forall other :: other != name ==> CellOf(other) == old(CellOf(other))
    {
      backup := None;
      if name !in data {
        AddDummy(name);
      } else {
        var conflict := CheckConflict(id, name);
        if conflict {
          return Conflict, backup;
        }
        if !nodes[data[name]].deleted {
          return Refused, backup;
        }
      }
      ghost var n, c := nodes, chains;
      var replaced := Replace(id, name, value, false);
      RecordedAfter(old(nodes), old(chains), n, c, id, replaced);
      return Accepted, Some(replaced);
    }

    lemma RecordedAfter(n: seq<Node>, c: map<string, seq<nat>>, n': seq<Node>, c': map<string, seq<nat>>, id: nat, backup: nat)
      requires Recorded(n', c', id, Some(backup))
      requires forall own, stamp :: Owns(n, c, own, stamp) ==> Owns(n', c', own, stamp)
      ensures Recorded(n, c, id, Some(backup))
    {
    }

    /** Dropping what is already dropped is accepted and changes nothing. */
    method DropEntry(id: nat, name: string) returns (outcome: Outcome, backup: Option<nat>)
      requires Valid() && name in data
      modifies this
      ensures Valid() && Recorded(old(nodes), old(chains), id, backup)
      ensures outcome == if Conflicts(old(CellOf(name)), id) then Conflict else Accepted
      ensures backup.Some? <==> outcome.Accepted? && old(CellOf(name)).cur.Some?
      ensures CellOf(name) == if backup.Some? then Overwrite(old(CellOf(name)), id, None) else old(CellOf(name))
      ensures forall other :: other != name ==> CellOf(other) == old(CellOf(other))
    {
      backup := None;
      var conflict := CheckConflict(id, name);
      if conflict {
        return Conflict, backup;
      }
      if nodes[data[name]].deleted {
        return Accepted, backup;
      }
      var replaced := Replace(id, name, nodes[data[name]].value, true);
      return Accepted, Some(replaced);
    }

    /** Where a walk down the versions of a name goes next. */
    lemma NextVersion(name: string, i: nat)
      requires Valid() && name in data && i < |CellOf(name).undo|
      ensures i + 1 < |chains[name]| && chains[name][i] < |nodes| && chains[name][i + 1] < |nodes|
      ensures InPlace(nodes, chains[name], name, i) && InPlace(nodes, chains[name], name, i + 1)
      ensures Pop(Cell(Content(nodes[chains[name][i]]), CellOf(name).undo[i..]))
           == Cell(Content(nodes[chains[name][i + 1]]), CellOf(name).undo[i + 1..])
    {
      assert InPlace(nodes, chains[name], name, i) && InPlace(nodes, chains[name], name, i + 1);
    }

    /** The walk of a lookup: the newest version the transaction may see, or else the oldest there is. */
    method Lookup(id: nat, start: nat, name: string) returns (current: nat)
      requires Valid() && name in data
      ensures current < |nodes| && Content(nodes[current]) == Visible(CellOf(name), Reader(id, start))
    {
      ghost var chain, cell, r := chains[name], CellOf(name), Reader(id, start);
      current := data[name];
      ghost var i: nat := 0;
      assert cell.undo[0..] == cell.undo;
      assert InPlace(nodes, chain, name, 0);
      while nodes[current].child.Some?
        invariant i < |chain| && current == chain[i] && InPlace(nodes, chain, name, i)
        invariant Visible(cell, r) == Visible(Cell(Content(nodes[current]), cell.undo[i..]), r)
        decreases |chain| - i
      {
        if nodes[current].timestamp == id {
          break;
        }
        if nodes[current].timestamp < start {
          break;
        }
        NextVersion(name, i);
        current := nodes[current].child.value;
        i := i + 1;
      }
    }

    method EntryExists(id: nat, start: nat, name: string) returns (exists_: bool)
      requires Valid()
      ensures exists_ == Visible(CellOf(name), Reader(id, start)).Some?
    {
      if name !in data {
        return false;
      }
      var current := Lookup(id, start, name);
      return !nodes[current].deleted;
    }

    method GetEntry(id: nat, start: nat, name: string) returns (entry: Option<Value>)
      requires Valid()
      ensures entry == Visible(CellOf(name), Reader(id, start))
    {
      if name !in data {
        return None;
      }
      var current := Lookup(id, start, name);
      return if nodes[current].deleted then None else Some(nodes[current].value);
    }

    /** The current version goes away and the one it replaced is current again. */
    method Undo(entry: nat, ghost name: string)
      requires Valid() && name in chains && 2 <= |chains[name]| && chains[name][1] == entry
      modifies this
      ensures Valid() && Popped(old(nodes), nodes, old(chains)[name]) && chains == old(chains)[name := old(chains)[name][1..]]
      ensures PoppedCells(old(nodes), nodes, old(chains), chains, name)
    {
      ghost var rest := chains[name][1..];
      var removed := ParentOf(entry, name, 0);
      Restore(entry, removed, chains[name]);
      PoppedFromTop(old(nodes), nodes, chains, name);
      Link(nodes[entry].name, entry, rest);
    }

    /** The version that replaced the given one. */
    method ParentOf(entry: nat, ghost name: string, ghost p: nat) returns (parent: nat)
      requires Valid() && name in chains && p + 1 < |chains[name]| && chains[name][p + 1] == entry
      ensures entry < |nodes| && nodes[entry].name == name
      ensures parent == chains[name][p] && parent < |nodes| && parent != entry
      ensures p + 1 == |chains[name]| - 1 ==> nodes[entry].child == None
    {
      assert ChainOk(nodes, chains[name], name);
      assert InPlace(nodes, chains[name], name, p + 1);
      parent := nodes[entry].parent.value;
    }

    method Restore(entry: nat, removed: nat, ghost chain: seq<nat>)
      requires 2 <= |chain| && chain[0] == removed && chain[1] == entry && removed < |nodes| && entry < |nodes| && entry != removed
      modifies this`nodes
      ensures Popped(old(nodes), nodes, chain)
    {
      nodes := nodes[removed := nodes[removed].(child := None)];
      nodes := nodes[entry := nodes[entry].(parent := None)];
    }

    /** Forgets a replaced version that nobody needs any more. */
    method Cleanup(entry: nat, ghost name: string)
      requires Valid() && name in chains && 2 <= |chains[name]| && chains[name][|chains[name]| - 1] == entry
      requires !Uncommitted(CellOf(name).undo[|chains[name]| - 2].stamp)
      modifies this
      ensures Valid() && Bypassed(old(nodes), nodes, old(chains)[name], |old(chains)[name]| - 1)
      ensures chains == old(chains)[name := old(chains)[name][..|old(chains)[name]| - 1]]
      ensures CellOf(name) == Cell(old(CellOf(name)).cur, old(CellOf(name)).undo[..|old(CellOf(name)).undo| - 1])
      ensures forall other :: other != name ==> CellOf(other) == old(CellOf(other))
    {
      ghost var chain := chains[name];
      ghost var p := |chain| - 1;
      var parent := ParentOf(entry, name, p - 1);
      Bypass(entry, parent, chain, p);
      DroppedFromBottom(old(nodes), nodes, chains, name, p);
      MatchesStill(data, chains, name, chain[..p]);
      chains := chains[name := chain[..p]];
    }

    method Bypass(entry: nat, parent: nat, ghost chain: seq<nat>, ghost p: nat)
      requires 0 < p < |chain| && chain[p - 1] == parent && chain[p] == entry && parent < |nodes| && entry < |nodes|
      modifies this`nodes
      ensures Bypassed(old(nodes), nodes, chain, p)
    {
      nodes := nodes[parent := nodes[parent].(child := nodes[entry].child)];
    }

    /** Stamps the version that replaced the given one. */
    method Stamp(entry: nat, commitId: nat, ghost p: nat)
      requires Valid() && entry < |nodes| && nodes[entry].name in chains
      requires var chain := chains[nodes[entry].name]; p < |chain| - 1 && chain[p + 1] == entry
      modifies this`nodes
      ensures Valid() && Restamped(old(nodes), nodes, chains[old(nodes)[entry].name][p], commitId)
      ensures var name, c := old(nodes)[entry].name, old(CellOf(nodes[entry].name));
        && CellOf(name) == Cell(c.cur, c.undo[p := c.undo[p].(stamp := commitId)])
        && forall other :: other != name ==> CellOf(other) == old(CellOf(other))
    {
      ghost var name := nodes[entry].name;
      var parent := ParentOf(entry, name, p);
      SetTimestamp(parent, commitId);
      RestampedOne(old(nodes), nodes, chains, name, p, commitId);
    }

    method SetTimestamp(n: nat, commitId: nat)
      requires n < |nodes|
      modifies this`nodes
      ensures Restamped(old(nodes), nodes, n, commitId)
    {
      nodes := nodes[n := nodes[n].(timestamp := commitId)];
    }

    ghost predicate AllWellFormed()
      requires Valid()
      reads this
    {
      EveryWellFormed(nodes, chains)
    }

    /** One round of the rollback loop. */
    method UndoLast(ghost own: seq<nat>, ghost rest: seq<nat>, ghost id: nat, entry: nat)
      requires Valid() && AllWellFormed() && Uncommitted(id) && Owns(nodes, chains, own, id) && own == rest + [entry]
      modifies this
      ensures Valid() && AllWellFormed() && Owns(nodes, chains, rest, id) && chains.Keys == old(chains.Keys)
      ensures RevertsAlike(old(nodes), nodes, old(chains), chains, id)
      ensures OthersOwn(old(nodes), nodes, old(chains), chains, id)
    {
      LastReplacedIsSecond(nodes, chains, own, id);
      ghost var name := nodes[entry].name;
      UndoHead(id, entry, name);
      PopKeepsOwners(old(nodes), nodes, old(chains), name, own, rest, id);
    }

    method UndoHead(ghost id: nat, entry: nat, ghost name: string)
      requires Valid() && AllWellFormed() && name in chains && Replaced(nodes, chains[name], 0, entry, id)
      modifies this
      ensures Valid() && AllWellFormed() && Popped(old(nodes), nodes, old(chains)[name]) && chains == old(chains)[name := old(chains)[name][1..]]
      ensures RevertsAlike(old(nodes), nodes, old(chains), chains, id)
    {
      ghost var n, c := nodes, chains;
      HeadOwned(n, c, name, entry, id);
      Undo(entry, name);
      PopKeepsReverted(n, nodes, c, chains, name, id);
    }

    /** What is still to be undone, compared with the beginning of the rollback. */
    ghost predicate Undoing(n: seq<Node>, c: map<string, seq<nat>>, own: seq<nat>, id: nat)
      requires AllOk(n, c)
      reads this
    {
      && Valid() && AllWellFormed() && Owns(nodes, chains, own, id) && chains.Keys == c.Keys
      && RevertsAlike(n, nodes, c, chains, id)
      && OthersOwn(n, nodes, c, chains, id)
    }

    method UndoNext(ghost n: seq<Node>, ghost c: map<string, seq<nat>>, ghost own: seq<nat>, ghost id: nat, entry: nat)
      requires AllOk(n, c) && Undoing(n, c, own, id) && Uncommitted(id)
      requires own != [] && own[|own| - 1] == entry
      modifies this
      ensures Undoing(n, c, own[..|own| - 1], id)
    {
      ghost var n', c' := nodes, chains;
      assert own == own[..|own| - 1] + [entry];
      UndoLast(own, own[..|own| - 1], id, entry);
      OthersOwnTwice(n, n', nodes, c, c', chains, id);
      RevertsAlikeTwice(n, n', nodes, c, c', chains, id);
    }

    method UndoAll(ghost n: seq<Node>, ghost c: map<string, seq<nat>>, entries: seq<nat>, ghost id: nat)
      requires AllOk(n, c) && Undoing(n, c, entries, id) && Uncommitted(id)
      modifies this
      ensures Undoing(n, c, [], id)
    {
      var i := |entries|;
      assert entries[..i] == entries;
      while i > 0
        invariant 0 <= i <= |entries| && Undoing(n, c, entries[..i], id)
      {
        assert entries[..i][..i - 1] == entries[..i - 1];
        UndoNext(n, c, entries[..i], id, entries[i - 1]);
        i := i - 1;
      }
      assert entries[..i] == [];
    }

    /** Undoes, newest first, everything a transaction has created and dropped. */
    method Rollback(entries: seq<nat>, ghost id: nat)
      requires Valid() && AllWellFormed() && Uncommitted(id) && Owns(nodes, chains, entries, id)
      modifies this
      ensures Valid() && AllWellFormed() && chains.Keys == old(chains.Keys)
      ensures forall name :: CellOf(name) == Revert(old(CellOf(name)), id)
      ensures OthersOwn(old(nodes), nodes, old(chains), chains, id)
    {
      UndoingBegins(entries, id);
      UndoAll(nodes, chains, entries, id);
      AllUndone(old(nodes), old(chains), id);
    }

    lemma UndoingBegins(own: seq<nat>, id: nat)
      requires Valid() && AllWellFormed() && Owns(nodes, chains, own, id)
      ensures Undoing(nodes, chains, own, id)
    {
    }

    lemma AllUndone(n: seq<Node>, c: map<string, seq<nat>>, id: nat)
      requires AllOk(n, c) && Undoing(n, c, [], id)
      ensures forall name :: CellOf(name) == Revert(CellIn(n, c, name), id)
    {
      forall name ensures CellOf(name) == Revert(CellIn(n, c, name), id) {
        assert Revert(CellOf(name), id) == Revert(CellIn(n, c, name), id);
        if name in chains && |chains[name]| > 1 {
          assert OwnedAt(nodes, chains[name], 0, [], id);
          assert ChainOk(nodes, chains[name], name);
        }
        assert !OwnedBy(CellOf(name), id);
      }
    }

    /** Forgets the oldest version of its name. */
    method CleanupOldest(ghost commitId: nat, entry: nat, ghost name: string)
      requires Valid() && NoneOlder(nodes, chains, commitId) && !Uncommitted(commitId)
      requires entry < |nodes| && nodes[entry].name == name && name in chains
      requires 2 <= |chains[name]| && Replaced(nodes, chains[name], |chains[name]| - 2, entry, commitId)
      modifies this
      ensures Valid() && chains == old(chains)[name := old(chains)[name][..|old(chains)[name]| - 1]]
      ensures Bypassed(old(nodes), nodes, old(chains)[name], |old(chains)[name]| - 1)
      ensures forall other :: Trimmed(old(CellOf(other)), CellOf(other), commitId)
    {
      OldestIsOld(entry, commitId);
      Cleanup(entry, name);
      DropTrims(old(CellOf(name)), CellOf(name), commitId);
      forall other ensures Trimmed(old(CellOf(other)), CellOf(other), commitId) {
        if other != name { SameTrimmed(old(CellOf(other)), CellOf(other), commitId); }
      }
    }

    /** One round of the cleanup loop. */
    method CleanupFirst(ghost own: seq<nat>, ghost commitId: nat, entry: nat)
      requires Valid() && NoneOlder(nodes, chains, commitId) && !Uncommitted(commitId) && Owns(nodes, chains, own, commitId)
      requires own != [] && own[0] == entry
      modifies this
      ensures Valid() && NoneOlder(nodes, chains, commitId) && Owns(nodes, chains, own[1..], commitId) && chains.Keys == old(chains.Keys)
      ensures forall name :: Trimmed(old(CellOf(name)), CellOf(name), commitId)
      ensures OthersOwn(old(nodes), nodes, old(chains), chains, commitId)
    {
      FirstReplacedIsOldest(nodes, chains, own, commitId);
      ghost var name := nodes[entry].name;
      ghost var p := |chains[name]| - 1;
      ghost var n, c := nodes, chains;
      CleanupOldest(commitId, entry, name);
      DropKeepsOwners(n, nodes, c, name, p, own, commitId);
      StillNoneOlder(n, c, commitId);
    }

    lemma StillNoneOlder(n: seq<Node>, c: map<string, seq<nat>>, commitId: nat)
      requires AllOk(n, c) && NoneOlder(n, c, commitId) && Valid() && chains.Keys == c.Keys
      requires forall name :: Trimmed(CellIn(n, c, name), CellOf(name), commitId)
      ensures NoneOlder(nodes, chains, commitId)
    {
      forall name | name in chains ensures NoneOlderIn(CellIn(nodes, chains, name), commitId) {
        assert NoneOlderIn(CellIn(n, c, name), commitId) && Trimmed(CellIn(n, c, name), CellOf(name), commitId);
        TrimmedOlder(CellIn(n, c, name), CellOf(name), commitId);
      }
    }

    lemma OldestIsOld(entry: nat, commitId: nat)
      requires Valid() && NoneOlder(nodes, chains, commitId) && entry < |nodes| && nodes[entry].name in chains
      requires 2 <= |chains[nodes[entry].name]|
      requires Replaced(nodes, chains[nodes[entry].name], |chains[nodes[entry].name]| - 2, entry, commitId)
      ensures var c := CellOf(nodes[entry].name); NoneOlderIn(c, commitId) && c.undo != [] && c.undo[|c.undo| - 1].stamp == commitId
    {
      assert NoneOlderIn(CellIn(nodes, chains, nodes[entry].name), commitId);
    }

    /** What is still to be cleaned up, compared with the beginning of the cleanup. */
    ghost predicate Cleaning(n: seq<Node>, c: map<string, seq<nat>>, own: seq<nat>, commitId: nat)
      requires AllOk(n, c)
      reads this
    {
      && Valid() && NoneOlder(nodes, chains, commitId) && Owns(nodes, chains, own, commitId) && chains.Keys == c.Keys
      && (forall name :: Trimmed(CellIn(n, c, name), CellOf(name), commitId))
      && OthersOwn(n, nodes, c, chains, commitId)
    }

    method CleanupNext(ghost n: seq<Node>, ghost c: map<string, seq<nat>>, ghost own: seq<nat>, ghost commitId: nat, entry: nat)
      requires AllOk(n, c) && Cleaning(n, c, own, commitId) && !Uncommitted(commitId)
      requires own != [] && own[0] == entry
      modifies this
      ensures Cleaning(n, c, own[1..], commitId)
    {
      ghost var n', c' := nodes, chains;
      CleanupFirst(own, commitId, entry);
      OthersOwnTwice(n, n', nodes, c, c', chains, commitId);
      forall name ensures Trimmed(CellIn(n, c, name), CellOf(name), commitId) {
        TrimmedTwice(CellIn(n, c, name), old(CellOf(name)), CellOf(name), commitId);
      }
    }

    /** Forgets whatever a committed transaction has replaced, once nothing older is left. */
    method CleanupAll(entries: seq<nat>, ghost commitId: nat)
      requires Valid() && NoneOlder(nodes, chains, commitId) && !Uncommitted(commitId) && Owns(nodes, chains, entries, commitId)
      modifies this
      ensures Valid() && chains.Keys == old(chains.Keys)
      ensures forall name :: CellOf(name) == Purge(old(CellOf(name)), commitId + 1)
      ensures OthersOwn(old(nodes), nodes, old(chains), chains, commitId)
    {
      ghost var n, c := nodes, chains;
      CleaningBegins(entries, commitId);
      var i := 0;
      assert entries[i..] == entries;
      while i < |entries|
        invariant 0 <= i <= |entries| && Cleaning(n, c, entries[i..], commitId)
      {
        assert entries[i..][1..] == entries[i + 1..];
        CleanupNext(n, c, entries[i..], commitId, entries[i]);
        i := i + 1;
      }
      assert entries[i..] == [];
      AllPurged(n, c, commitId);
    }

    lemma CleaningBegins(own: seq<nat>, commitId: nat)
      requires Valid() && NoneOlder(nodes, chains, commitId) && Owns(nodes, chains, own, commitId)
      ensures Cleaning(nodes, chains, own, commitId)
    {
    }

    lemma AllPurged(n: seq<Node>, c: map<string, seq<nat>>, commitId: nat)
      requires AllOk(n, c) && NoneOlder(n, c, commitId) && Cleaning(n, c, [], commitId)
      ensures forall name :: CellOf(name) == Purge(CellIn(n, c, name), commitId + 1)
    {
      forall name ensures CellOf(name) == Purge(CellIn(n, c, name), commitId + 1) {
        var cell := CellOf(name);
        if name in chains {
          assert NoneOlderIn(CellIn(n, c, name), commitId);
          assert ChainOk(nodes, chains[name], name);
          forall p | 0 <= p < |cell.undo| ensures cell.undo[p].stamp != commitId {
            assert OwnedAt(nodes, chains[name], p, [], commitId);
          }
        }
        TrimmedIsPurge(CellIn(n, c, name), cell, commitId);
      }
    }

    /** What a commit has stamped so far. */
    ghost predicate Stamping(n: seq<Node>, c: map<string, seq<nat>>, done: seq<nat>, commitId: nat)
      reads this
    {
      Valid() && chains == c && Stamped(n, nodes, c, done, commitId)
    }

    method StampNext(ghost n: seq<Node>, ghost c: map<string, seq<nat>>, ghost done: seq<nat>, ghost id: nat, commitId: nat, entry: nat)
      requires AllOk(n, c) && Stamping(n, c, done, commitId) && ReplacedBy(n, c, entry, id)
      modifies this`nodes
      ensures Stamping(n, c, done + [entry], commitId)
    {
      ghost var n' := nodes;
      ghost var name := n[entry].name;
      ghost var p: nat :| Replaced(n, c[name], p, entry, id);
      Stamp(entry, commitId, p);
      StampedMore(n, n', nodes, c, done, entry, name, p, commitId);
    }

    /** Makes everything a transaction has created and dropped visible to those who start later. */
    method Commit(entries: seq<nat>, ghost id: nat, commitId: nat)
      requires Valid() && Owns(nodes, chains, entries, id) && Unused(nodes, chains, commitId)
      modifies this`nodes
      ensures Valid() && Owns(nodes, chains, entries, commitId)
      ensures forall name :: CellOf(name) == Restamp(old(CellOf(name)), id, commitId)
      ensures forall own, stamp :: stamp != id && stamp != commitId && Owns(old(nodes), chains, own, stamp) ==> Owns(nodes, chains, own, stamp)
    {
      ghost var n, c := nodes, chains;
      NothingStamped(n, c, commitId);
      var i := 0;
      while i < |entries|
        invariant 0 <= i <= |entries| && Stamping(n, c, entries[..i], commitId)
      {
        assert entries[i] in entries && entries[..i + 1] == entries[..i] + [entries[i]];
        StampNext(n, c, entries[..i], id, commitId, entries[i]);
        i := i + 1;
      }
      assert entries[..i] == entries;
      forall name ensures CellOf(name) == Restamp(CellIn(n, c, name), id, commitId) {
        StampedCell(n, nodes, c, entries, id, commitId, name);
      }
      StampedOwner(n, nodes, c, entries, id, commitId);
      forall own, stamp | stamp != id && stamp != commitId && Owns(n, c, own, stamp) ensures Owns(nodes, c, own, stamp) {
        StampedKeepsOwner(n, nodes, c, entries, id, commitId, own, stamp);
      }
    }

    lemma NothingStamped(n: seq<Node>, c: map<string, seq<nat>>, commitId: nat)
      requires Valid() && n == nodes && c == chains
      ensures Stamping(n, c, [], commitId)
    {
      forall name, p: nat | name in c && p < |c[name]| ensures StampedAt(n, n, c[name], p, [], commitId) {
        assert ChainOk(n, c[name], name);
      }
    }
  }
}
