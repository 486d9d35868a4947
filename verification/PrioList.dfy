/**
 The configured networks of wpa_supplicant: one chain in configuration order, and for each priority
 level a chain of its own, the heads of which stand in an array by descending priority.
 */
module PrioList {
  import opened StableSort

  class Network {
    var id: int
    var priority: int
    var next: Network?
    var pnext: Network?       // next network of the same priority

    constructor (id: int)
      ensures this.id == id && priority == 0 && next == null && pnext == null
    {
      this.id, priority, next, pnext := id, 0, null, null;
    }
  }

  /** What follows position `i` of a chain. */
  ghost function After(s: seq<Network>, i: nat): Network? {
    if i + 1 < |s| then s[i + 1] else null
  }

  /** `s` is linked by `next`, and ends there. */
  ghost predicate Chained(s: seq<Network>)
    reads Members(s)`next
  {
    forall i {:trigger s[i]} :: 0 <= i < |s| ==> s[i].next == After(s, i)
  }

  ghost predicate UniqueIds(s: seq<Network>)
    reads Members(s)`id
  {
    forall i, j :: 0 <= i < j < |s| ==> s[i].id != s[j].id
  }

  lemma RemovalKeepsUnique(s: seq<Network>, i: nat)
    requires UniqueIds(s) && i < |s|
    ensures UniqueIds(s[..i] + s[i + 1..])
  {}

  /** The groups consist of `members`; each is linked by `pnext`, and ends there. */
  ghost predicate PrioChained(groups: seq<seq<Network>>, members: set<Network>)
    reads members`pnext
  {
    forall i, j {:trigger groups[i][j]} :: 0 <= i < |groups| && 0 <= j < |groups[i]| ==>
      groups[i][j] in members && groups[i][j].pnext == After(groups[i], j)
  }

  lemma NextInChain(s: seq<Network>, i: nat)
    requires Chained(s) && i < |s|
    ensures s[i].next == After(s, i)
  {}

  ghost predicate Distinct(s: seq<Network>) {
    forall i, j :: 0 <= i < j < |s| ==> s[i] != s[j]
  }

  /** No network occurs twice in the groups. */
  ghost predicate AllDistinct(groups: seq<seq<Network>>) {
    forall i, j, k, m :: 0 <= i < |groups| && 0 <= j < |groups[i]| && 0 <= k < |groups| && 0 <= m < |groups[k]| ==>
      (groups[i][j] == groups[k][m] ==> i == k && j == m)
  }

  /** Where position `i` of the groups was before a group was inserted at `prio`. */
  ghost function Shifted(i: nat, prio: nat): nat
    requires i != prio
  {
    if i < prio then i else i - 1
  }

  lemma InsertKeepsDistinct(groups: seq<seq<Network>>, n: Network, prio: nat)
    requires AllDistinct(groups) && prio <= |groups|
    requires forall i, j :: 0 <= i < |groups| && 0 <= j < |groups[i]| ==> groups[i][j] != n
    ensures AllDistinct(groups[..prio] + [[n]] + groups[prio..])
  {
    var r := groups[..prio] + [[n]] + groups[prio..];
    assert forall i: nat :: i < |r| && i != prio ==> r[i] == groups[Shifted(i, prio)];
    assert r[prio] == [n];
    forall i, j, k, m | 0 <= i < |r| && 0 <= j < |r[i]| && 0 <= k < |r| && 0 <= m < |r[k]| && r[i][j] == r[k][m]
      ensures i == k && j == m
    {
      if i != prio && k != prio {
        var a, b := Shifted(i, prio), Shifted(k, prio);
        assert groups[a][j] == groups[b][m];
      }
    }
  }

  ghost predicate HeadsOf(heads: seq<Network>, groups: seq<seq<Network>>) {
    |heads| == |groups| && forall i :: 0 <= i < |groups| ==> groups[i] != [] && heads[i] == groups[i][0]
  }

  lemma InsertKeepsHeads(heads: seq<Network>, groups: seq<seq<Network>>, n: Network, prio: nat)
    requires HeadsOf(heads, groups) && prio <= |groups|
    ensures HeadsOf(heads[..prio] + [n] + heads[prio..], groups[..prio] + [[n]] + groups[prio..])
  {
    var h, r := heads[..prio] + [n] + heads[prio..], groups[..prio] + [[n]] + groups[prio..];
    forall i | 0 <= i < |r| ensures r[i] != [] && h[i] == r[i][0] {
      if i != prio {
        assert r[i] == groups[Shifted(i, prio)] && h[i] == heads[Shifted(i, prio)];
      }
    }
  }

  ghost function Members(s: seq<Network>): set<Network> {
    set n | n in s
  }

  lemma MembersAdd(s: seq<Network>, n: Network)
    ensures Members(s + [n]) == Members(s) + {n}
  {
    assert (s + [n])[|s|] == n;
    forall x ensures x in Members(s + [n]) <==> x in Members(s) + {n} {
      assert x in s + [n] <==> x in s || x == n;
    }
  }

  /** The priorities as they stand. */
  ghost function Priorities(s: seq<Network>): map<Network, int>
    reads Members(s)`priority
  {
    map n | n in s :: n.priority
  }

  ghost function ByPriority(p: map<Network, int>): Network -> int {
    (n: Network) => if n in p then p[n] else 0
  }

  class WpaConfig {
    var ssid: Network?
    var pssid: seq<Network>             // the heads of the priority chains
    ghost var networks: seq<Network>
    ghost var groups: seq<seq<Network>>

    /** The chain of networks, each with its own id. */
    ghost predicate Valid()
      reads this`ssid, this`networks, Members(networks)`next, Members(networks)`id
    {
      InChain() && UniqueIds(networks)
    }

    ghost predicate InChain()
      reads this`ssid, this`networks, Members(networks)`next
    {
      Distinct(networks) && Chained(networks) && ssid == (if networks == [] then null else networks[0])
    }

    /** The array holds the heads of the groups. */
    ghost predicate Headed()
      reads this`pssid, this`groups
    {
      HeadsOf(pssid, groups)
    }

    /** The array holds the heads of the groups, which are those of the given networks by priority. */
    ghost predicate Listed(done: seq<Network>)
      reads this`pssid, this`groups, this`networks, Members(networks)`priority, Members(done)`pnext
    {
      && Headed()
      && PrioChained(groups, Members(done))
      && AllDistinct(groups)
      && groups == Build(done, ByPriority(Priorities(networks)))
    }

    /** Adds a network behind the others of its priority. */
    method AppendToGroup(n: Network, prio: nat, ghost done: seq<Network>)
      requires n !in done && prio < |pssid| && n.pnext == null
      requires Headed() && PrioChained(groups, Members(done)) && AllDistinct(groups)
      modifies this`groups, Members(done)`pnext
      ensures groups == old(groups)[prio := old(groups)[prio] + [n]]
      ensures Headed() && PrioChained(groups, Members(done + [n])) && AllDistinct(groups)
    {
      MembersAdd(done, n);
      var prev := pssid[prio];
      ghost var k := 0;
      while prev.pnext != null
        invariant 0 <= k < |groups[prio]| && prev == groups[prio][k]
        decreases |groups[prio]| - k
      {
        prev := prev.pnext;
        k := k + 1;
      }
      ghost var before := groups;
      prev.pnext := n;
      groups := groups[prio := groups[prio] + [n]];
      forall i, j | 0 <= i < |groups| && 0 <= j < |groups[i]|
        ensures groups[i][j] in Members(done + [n])
        ensures groups[i][j].pnext == After(groups[i], j)
      {
        if i != prio || j < |before[i]| {
          assert before[i][j] in Members(done);
          assert groups[i][j] == before[i][j];
          if i == prio && j == k { assert groups[i][j] == prev; } else { assert groups[i][j] != prev; }
        }
      }
    }

    /** Adds the first network of its priority at position `prio` of the array. */
    method InsertGroup(n: Network, prio: nat, ghost done: seq<Network>)
      requires n !in done && prio <= |pssid| && n.pnext == null
      requires Headed() && PrioChained(groups, Members(done)) && AllDistinct(groups)
      modifies this`groups, this`pssid
      ensures groups == old(groups)[..prio] + [[n]] + old(groups)[prio..]
      ensures Headed() && PrioChained(groups, Members(done + [n])) && AllDistinct(groups)
    {
      MembersAdd(done, n);
      InsertKeepsDistinct(groups, n, prio);
      ghost var before := groups;
      InsertKeepsHeads(pssid, groups, n, prio);
      pssid := pssid[..prio] + [n] + pssid[prio..];
      groups := groups[..prio] + [[n]] + groups[prio..];
      forall i, j | 0 <= i < |groups| && 0 <= j < |groups[i]|
        ensures groups[i][j] in Members(done + [n])
        ensures groups[i][j].pnext == After(groups[i], j)
      {
        if i != prio {
          var h := Shifted(i, prio);
          assert before[h] == groups[i];
          assert before[h][j] in Members(done);
        } else {
          assert groups[i] == [n];
        }
      }
    }

    /** The priorities read at the heads are the keys of the groups. */
    lemma HeadsKeyed(done: seq<Network>)
      requires Listed(done) && Members(done) <= Members(networks)
      ensures var key := ByPriority(Priorities(networks));
              && Grouped(groups, key)
              && forall i :: 0 <= i < |groups| ==> groups[i] != [] && key(groups[i][0]) == pssid[i].priority
    {
      BuildIsSort(done, ByPriority(Priorities(networks)));
      forall i | 0 <= i < |groups| ensures groups[i] != [] && groups[i][0] in Members(networks) {
        assert groups[i][0] in Members(done);
      }
    }

    /** The position of the head with priority `priority`, or the length of the array. */
    method FindGroup(priority: int) returns (prio: nat)
      ensures prio <= |pssid| && (prio < |pssid| ==> pssid[prio].priority == priority)
      ensures forall i :: 0 <= i < prio ==> pssid[i].priority != priority
    {
      prio := 0;
      while prio < |pssid|
        invariant 0 <= prio <= |pssid|
        invariant forall i :: 0 <= i < prio ==> pssid[i].priority != priority
      {
        if pssid[prio].priority == priority { return; }
        prio := prio + 1;
      }
    }

    /** The position of the first head below priority `priority`, or the length of the array. */
    method FindGap(priority: int) returns (prio: nat)
      ensures prio <= |pssid| && (prio < |pssid| ==> pssid[prio].priority < priority)
      ensures forall i :: 0 <= i < prio ==> pssid[i].priority >= priority
    {
      prio := 0;
      while prio < |pssid|
        invariant 0 <= prio <= |pssid|
        invariant forall i :: 0 <= i < prio ==> pssid[i].priority >= priority
      {
        if pssid[prio].priority < priority { return; }
        prio := prio + 1;
      }
    }

    method PlaceInGroup(n: Network, prio: nat, ghost done: seq<Network>)
      requires n !in done && n.pnext == null && Listed(done) && prio < |pssid|
      requires var key := ByPriority(Priorities(networks)); Grouped(groups, key) && key(groups[prio][0]) == key(n)
      modifies this`groups, Members(done)`pnext
      ensures Listed(done + [n])
    {
      ghost var priorities := Priorities(networks);
      AddToFound(groups, n, ByPriority(priorities), prio);
      BuildStep(done, n, ByPriority(priorities));
      AppendToGroup(n, prio, done);
      assert Priorities(networks) == priorities;
    }

    method PlaceInGap(n: Network, prio: nat, ghost done: seq<Network>)
      requires n !in done && n.pnext == null && Listed(done) && prio <= |pssid|
      requires var key := ByPriority(Priorities(networks));
               && Grouped(groups, key)
               && (forall i :: 0 <= i < prio ==> key(groups[i][0]) > key(n))
               && (prio < |groups| ==> key(groups[prio][0]) < key(n))
      modifies this`pssid, this`groups
      ensures Listed(done + [n])
    {
      ghost var priorities := Priorities(networks);
      AddInGap(groups, n, ByPriority(priorities), prio);
      BuildStep(done, n, ByPriority(priorities));
      InsertGroup(n, prio, done);
      assert Priorities(networks) == priorities;
    }

    /** Adds a network to the priority chains, behind those of its priority. */
    method AddPrioNetwork(n: Network, ghost done: seq<Network>)
      requires n in networks && n !in done && Members(done) <= Members(networks)
      requires Listed(done) && n.pnext == null
      modifies this`pssid, this`groups, Members(networks)`pnext
      ensures Listed(done + [n])
    {
      HeadsKeyed(done);
      var prio := FindGroup(n.priority);
      if prio < |pssid| {
        PlaceInGroup(n, prio, done);
      } else {
        prio := FindGap(n.priority);
        PlaceInGap(n, prio, done);
      }
    }

    /** Clears a stale pointer, which no chain goes through, and adds the network to its level. */
    method RelistNetwork(n: Network, ghost i: nat)
      requires i < |networks| && n == networks[i] && Distinct(networks)
      requires Listed(networks[..i])
      modifies this`pssid, this`groups, Members(networks)`pnext
      ensures Listed(networks[..i + 1])
    {
      var done := networks[..i];
      assert n in networks && n !in done;
      assert networks[..i + 1] == done + [n];
      n.pnext := null;
      assert PrioChained(groups, Members(done));
      AddPrioNetwork(n, done);
    }

    /** Rebuilds the priority chains, whatever the `pnext` pointers were before. */
    method UpdatePrioList()
      requires InChain()
      modifies this`pssid, this`groups, Members(networks)`pnext
      ensures Listed(networks)
    {
      StartEmpty();
      var n := ssid;
      ghost var i: nat := 0;
      while n != null
        invariant InChain() && i <= |networks| && n == (if i < |networks| then networks[i] else null)
        invariant Listed(networks[..i])
        decreases |networks| - i
      {
        RelistNetwork(n, i);
        NextInChain(networks, i);
        n := n.next;
        i := i + 1;
      }
      assert networks[..i] == networks;
    }

    method StartEmpty()
      modifies this`pssid, this`groups
      ensures Listed(networks[..0])
    {
      pssid, groups := [], [];
      assert Members(networks[..0]) == {};
    }

    /** Rebuilding the priority chains leaves the chain of networks and their ids alone. */
    method Relist()
      requires Valid()
      modifies this`pssid, this`groups, Members(networks)`pnext
      ensures Valid() && Listed(networks)
    {
      UpdatePrioList();
    }

    /** Visits one priority level from its head. */
    method Level(prio: nat) returns (level: seq<Network>)
      requires Listed(networks) && prio < |pssid|
      ensures level == groups[prio]
    {
      level := [];
      var n: Network? := pssid[prio];
      while n != null
        invariant |level| <= |groups[prio]| && level == groups[prio][..|level|]
        invariant n == (if |level| < |groups[prio]| then groups[prio][|level|] else null)
        decreases |groups[prio]| - |level|
      {
        assert n.pnext == After(groups[prio], |level|);
        level := level + [n];
        n := n.pnext;
      }
    }

    /** Visits the networks level by level. */
    method InOrder() returns (order: seq<Network>)
      requires Listed(networks)
      ensures order == Sort(networks, ByPriority(Priorities(networks)))
    {
      order := [];
      for prio := 0 to |pssid|
        invariant order + Flatten(groups[prio..]) == Flatten(groups)
      {
        var level := Level(prio);
        assert groups[prio..] == [groups[prio]] + groups[prio + 1..];
        assert order + (level + Flatten(groups[prio + 1..])) == (order + level) + Flatten(groups[prio + 1..]);
        order := order + level;
      }
      BuildIsSort(networks, ByPriority(Priorities(networks)));
    }

    /** An id that no network exceeds, and the last network of the chain. */
    method FindLast() returns (id: int, last: Network?)
      requires InChain()
      ensures last == if networks == [] then null else networks[|networks| - 1]
      ensures forall j :: 0 <= j < |networks| ==> networks[j].id <= id
    {
      id := -1;
      last := null;
      var n := ssid;
      ghost var i: nat := 0;
      while n != null
        invariant i <= |networks| && n == (if i < |networks| then networks[i] else null)
        invariant last == if i == 0 then null else networks[i - 1]
        invariant forall j :: 0 <= j < i ==> networks[j].id <= id
        decreases |networks| - i
      {
        if n.id > id { id := n.id; }
        last := n;
        NextInChain(networks, i);
        n := n.next;
        i := i + 1;
      }
    }

    /** Links a network behind the last one. */
    method LinkLast(last: Network?, n: Network)
      requires InChain() && n !in networks && n.next == null
      requires last == if networks == [] then null else networks[|networks| - 1]
      modifies this`ssid, this`networks, Members(networks)`next
      ensures InChain() && networks == old(networks) + [n]
    {
      ghost var before := networks;
      if last != null {
        last.next := n;
      } else {
        ssid := n;
      }
      networks := before + [n];
      forall i | 0 <= i < |networks| ensures networks[i].next == After(networks, i) {
        if i < |before| {
          assert i < |before| - 1 ==> before[i] != before[|before| - 1];
          assert old(before[i].next) == After(before, i);
        }
      }
    }

    /** Creates a network with a new id at the end of the chain. */
    method CreateNetwork() returns (n: Network)
      requires Valid()
      modifies this`ssid, this`networks, Members(networks)`next
      ensures Valid() && fresh(n) && n.priority == 0 && networks == old(networks) + [n]
      ensures Members(networks) == old(Members(networks)) + {n}
    {
      var id, last := FindLast();
      n := new Network(id + 1);
      MembersAdd(networks, n);
      LinkLast(last, n);
    }

    /** Adds a network with a new id and priority 0 at the end of the chain. */
    method AddNetwork() returns (n: Network)
      requires Valid()
      modifies this, Members(networks)`next, Members(networks)`pnext
      ensures Valid() && Listed(networks)
      ensures fresh(n) && n.priority == 0 && networks == old(networks) + [n]
    {
      n := CreateNetwork();
      Relist();
    }

    /** The network with this id and the one before it in the chain; `i` is its position. */
    method Find(id: int) returns (n: Network?, prev: Network?, ghost i: nat)
      requires InChain()
      ensures i <= |networks| && n == (if i < |networks| then networks[i] else null)
      ensures prev == if i == 0 then null else networks[i - 1]
      ensures n != null ==> n.id == id
      ensures forall j :: 0 <= j < i ==> networks[j].id != id
    {
      n, prev := ssid, null;
      i := 0;
      while n != null && n.id != id
        invariant i <= |networks| && n == (if i < |networks| then networks[i] else null)
        invariant prev == if i == 0 then null else networks[i - 1]
        invariant forall j :: 0 <= j < i ==> networks[j].id != id
        decreases |networks| - i
      {
        prev := n;
        NextInChain(networks, i);
        n := n.next;
        i := i + 1;
      }
    }

    /** Unlinks the network at position `i`. */
    method Unlink(n: Network, prev: Network?, ghost i: nat)
      requires InChain() && i < |networks| && n == networks[i]
      requires prev == if i == 0 then null else networks[i - 1]
      modifies this`ssid, this`networks, Members(networks)`next
      ensures InChain() && networks == old(networks)[..i] + old(networks)[i + 1..]
    {
      ghost var before := networks;
      NextInChain(networks, i);
      if prev != null {
        prev.next := n.next;
      } else {
        ssid := n.next;
      }
      networks := before[..i] + before[i + 1..];
      forall j | 0 <= j < |networks| ensures networks[j].next == After(networks, j) {
        var k := if j < i then j else j + 1;
        assert networks[j] == before[k] && old(before[k].next) == After(before, k);
        if i > 0 && k != i - 1 { assert before[k] != before[i - 1]; }
      }
    }

    /** Unlinks a network and rebuilds the priority chains. */
    method UnlinkAndRelist(n: Network, prev: Network?, ghost i: nat)
      requires Valid() && i < |networks| && n == networks[i]
      requires prev == if i == 0 then null else networks[i - 1]
      modifies this, Members(networks)`next, Members(networks)`pnext
      ensures Valid() && Listed(networks) && networks == old(networks)[..i] + old(networks)[i + 1..]
    {
      Unlink(n, prev, i);
      RemovalKeepsUnique(old(networks), i);
      assert Members(networks) <= Members(old(networks));
      Relist();
    }

    /** Removes the network with this id; if there is none, nothing changes. */
    method RemoveNetwork(id: int) returns (found: bool, ghost i: nat)
      requires Valid()
      modifies this, Members(networks)`next, Members(networks)`pnext
      ensures Valid() && i <= |old(networks)| && (found <==> i < |old(networks)|)
      ensures forall j :: 0 <= j < i ==> old(networks[j].id) != id
      ensures found ==> Listed(networks) && old(networks)[i].id == id &&
                        networks == old(networks)[..i] + old(networks)[i + 1..]
      ensures !found ==> unchanged(this) && forall n :: n in networks ==> n.next == old(n.next) && n.pnext == old(n.pnext)
    {
      var n, prev;
      n, prev, i := Find(id);
      found := n != null;
      if found {
        UnlinkAndRelist(n, prev, i);
      }
    }
  }
}
