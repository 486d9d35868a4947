/** The ignore list as wpa_supplicant keeps it: a singly linked list edited in place. */
module IgnoreList {
  import opened Common
  import M = IgnoreModel

  class Entry {
    var next: Entry?
    var bssid: M.Bssid
    var count: nat
    var start: int
    var timeoutSecs: int

    constructor (bssid: M.Bssid, start: int, next: Entry?)
      ensures RecOf(this) == M.Rec(bssid, 1, start, 10) && this.next == next
    {
      this.bssid, this.count, this.start, this.timeoutSecs, this.next := bssid, 1, start, 10, next;
    }
  }

  ghost function RecOf(e: Entry): M.Rec
    reads e`bssid, e`count, e`start, e`timeoutSecs
  {
    M.Rec(e.bssid, e.count, e.start, e.timeoutSecs)
  }

  ghost function Members(s: seq<Entry>): set<Entry> {
    set e | e in s
  }

  /** The entries carry these records. */
  ghost predicate Carry(s: seq<Entry>, recs: seq<M.Rec>)
    reads Members(s)`bssid, Members(s)`count, Members(s)`start, Members(s)`timeoutSecs
  {
    |s| == |recs| && forall i :: 0 <= i < |s| ==> RecOf(s[i]) == recs[i]
  }

  ghost function After(s: seq<Entry>, i: nat): Entry? {
    if i + 1 < |s| then s[i + 1] else null
  }

  class IgnoreList {
    var head: Entry?
    var current: Option<M.Network>
    var reconfigured: set<M.Network>
    ghost var entries: seq<Entry>
    ghost var recs: seq<M.Rec>

    /** The entries, linked in this order. */
    ghost predicate InChain()
      reads this`head, this`entries, Members(entries)`next
    {
      && (forall i, j :: 0 <= i < j < |entries| ==> entries[i] != entries[j])
      && (forall i {:trigger entries[i]} :: 0 <= i < |entries| ==> entries[i].next == After(entries, i))
      && head == (if entries == [] then null else entries[0])
    }

    ghost predicate Valid()
      reads this`head, this`entries, this`recs, Members(entries)`next
      reads Members(entries)`bssid, Members(entries)`count, Members(entries)`start, Members(entries)`timeoutSecs
    {
      InChain() && Carry(entries, recs)
    }

    /** The value of the list. */
    ghost function Contents(): M.List
      reads this`recs, this`current, this`reconfigured
    {
      M.List(recs, current, reconfigured)
    }

    constructor ()
      ensures Valid() && Contents() == M.EMPTY
    {
      head, current, reconfigured, entries, recs := null, None, {}, [], [];
    }

    lemma NextInChain(i: nat)
      requires InChain() && i < |entries|
      ensures entries[i].next == After(entries, i)
    {}

    /** Unlinks the entry at position `i`. */
    method Unlink(e: Entry, prev: Entry?, ghost i: nat)
      requires InChain() && i < |entries| && e == entries[i]
      requires prev == if i == 0 then null else entries[i - 1]
      modifies this`head, this`entries, Members(entries)`next
      ensures InChain() && entries == old(entries)[..i] + old(entries)[i + 1..]
    {
      ghost var before := entries;
      NextInChain(i);
      if prev != null {
        prev.next := e.next;
      } else {
        head := e.next;
      }
      entries := before[..i] + before[i + 1..];
      forall j | 0 <= j < |entries| ensures entries[j].next == After(entries, j) {
        var k := if j < i then j else j + 1;
        assert entries[j] == before[k] && old(before[k].next) == After(before, k);
        if i > 0 && k != i - 1 { assert before[k] != before[i - 1]; }
      }
    }

    /** Unlinks the entry at position `i` and forgets its record. */
    method Discard(e: Entry, prev: Entry?, ghost i: nat)
      requires Valid() && i < |entries| && e == entries[i]
      requires prev == if i == 0 then null else entries[i - 1]
      modifies this`head, this`entries, this`recs, Members(entries)`next
      ensures Valid() && entries == old(entries)[..i] + old(entries)[i + 1..]
      ensures recs == old(recs)[..i] + old(recs)[i + 1..]
    {
      ghost var rest, left := entries[..i] + entries[i + 1..], recs[..i] + recs[i + 1..];
      CarryWithout(entries, recs, i);
      Unlink(e, prev, i);
      assert Carry(rest, left);
      recs := left;
    }

    /** One turn of the purge: drops `e` if it is old, and steps on. */
    method PurgeTurn(e: Entry, prev: Entry?, now: int, ghost i: nat) returns (next: Entry?, last: Entry?, ghost j: nat)
      requires Valid() && i < |entries| && e == entries[i]
      requires prev == if i == 0 then null else entries[i - 1]
      modifies this`head, this`entries, this`recs, Members(entries)`next
      ensures Valid() && j <= |entries| && |entries| - j == |old(entries)| - i - 1
      ensures Members(entries) <= Members(old(entries))
      ensures next == (if j < |entries| then entries[j] else null) && last == (if j == 0 then null else entries[j - 1])
      ensures if M.Old(old(recs)[i], now) then j == i && recs == old(recs)[..i] + old(recs)[i + 1..]
              else j == i + 1 && recs == old(recs)
    {
      NextInChain(i);
      next, last, j := e.next, e, i + 1;
      if M.Expired(now, e.start, e.timeoutSecs + M.KEEP) {
        last, j := prev, i;
        Discard(e, prev, i);
      }
    }

    /** Drops the entries that ran out over an hour ago. */
    method Update(now: int)
      requires Valid()
      modifies this`head, this`entries, this`recs, Members(entries)`next
      ensures Valid() && recs == M.Purge(old(recs), now)
      ensures Members(entries) <= Members(old(entries))
    {
      var prev: Entry?, e := null, head;
      ghost var i: nat := 0;
      ghost var members := Members(entries);
      assert recs[0..] == recs;
      while e != null
        invariant Valid() && i <= |entries|
        invariant e == (if i < |entries| then entries[i] else null) && prev == (if i == 0 then null else entries[i - 1])
        invariant Members(entries) <= members
        invariant recs[..i] + M.Purge(recs[i..], now) == M.Purge(old(recs), now)
        decreases |entries| - i
      {
        PurgeStep(recs, i, now);
        e, prev, i := PurgeTurn(e, prev, now, i);
      }
      assert recs[..i] == recs;
    }

    method Clear()
      modifies this`head, this`entries, this`recs
      ensures Valid() && recs == []
    {
      head, entries, recs := null, [], [];
    }

    /** The first entry for this BSSID and the one before it; `i` is its position. */
    method Locate(b: M.Bssid) returns (e: Entry?, prev: Entry?, ghost i: nat)
      requires Valid()
      ensures i <= |entries| && e == (if i < |entries| then entries[i] else null)
      ensures prev == (if i == 0 then null else entries[i - 1])
      ensures e != null ==> e.bssid == b
      ensures (i < |recs| ==> recs[i].bssid == b) && forall j :: 0 <= j < i ==> recs[j].bssid != b
    {
      e, prev := head, null;
      i := 0;
      while e != null && e.bssid != b
        invariant i <= |entries| && e == (if i < |entries| then entries[i] else null)
        invariant prev == (if i == 0 then null else entries[i - 1])
        invariant forall j :: 0 <= j < i ==> recs[j].bssid != b
        decreases |entries| - i
      {
        NextInChain(i);
        prev := e;
        e := e.next;
        i := i + 1;
      }
    }

    /** The entry for this BSSID after a purge, or none after a reconfiguration, which clears the list. */
    method Get(b: M.Bssid, now: int) returns (e: Entry?, ghost i: nat)
      requires Valid()
      modifies this, Members(entries)`next
      ensures Valid() && Contents() == M.Look(old(Contents()), now) && Members(entries) <= Members(old(entries))
      ensures M.Get(old(Contents()), b, now) == if e == null then None else Some(RecOf(e))
      ensures e != null ==> !old(Contents()).Stale() && i < |entries| && e == entries[i] && recs[i].bssid == b
      ensures e != null ==> forall j :: 0 <= j < i ==> recs[j].bssid != b
    {
      if current.Some? && current.value in reconfigured {
        Clear();
        reconfigured := reconfigured - {current.value};
        return null, 0;
      }
      Update(now);
      var prev;
      e, prev, i := Locate(b);
      FindAt(recs, b, i);
    }

    /** Counts a failure in the entry at position `i` and backs off further. */
    method Bump(e: Entry, now: int, ghost i: nat)
      requires Valid() && i < |entries| && e == entries[i]
      modifies this`recs, e`start, e`count, e`timeoutSecs
      ensures Valid() && e.count == old(e.count) + 1
      ensures recs == old(recs)[i := M.Next(old(e.bssid), Some(old(RecOf(e))), now)]
    {
      e.start := now;
      e.count := e.count + 1;
      if e.count > 5 {
        e.timeoutSecs := 1800;
      } else if e.count == 5 {
        e.timeoutSecs := 600;
      } else if e.count == 4 {
        e.timeoutSecs := 120;
      } else if e.count == 3 {
        e.timeoutSecs := 60;
      } else {
        e.timeoutSecs := 10;
      }
      ghost var before := recs;
      recs := before[i := RecOf(e)];
      forall j | 0 <= j < |entries| ensures RecOf(entries[j]) == recs[j] {
        if j != i { assert entries[j] != e && old(RecOf(entries[j])) == before[j]; }
      }
    }

    /** Puts a new entry at the head of the list. */
    method Prepend(b: M.Bssid, now: int)
      requires Valid()
      modifies this`head, this`entries, this`recs
      ensures Valid() && recs == [M.Next(b, None, now)] + old(recs)
    {
      var e := new Entry(b, now, head);
      ghost var before, were := entries, recs;
      head := e;
      entries := [e] + before;
      recs := [RecOf(e)] + were;
      CarryMore(before, were, e);
      ChainMore(before, e);
    }

    /** Counts a failure of this BSSID; the clock is read once for the purge and once for the entry. */
    method Add(b: M.Bssid, t: int, now: int) returns (count: nat)
      requires Valid()
      modifies this, entries
      ensures Valid() && Contents() == M.Add(old(Contents()), b, t, now)
      ensures count == M.Next(b, M.Get(old(Contents()), b, t), now).count
    {
      var e;
      ghost var i;
      e, i := Get(b, t);
      if e != null {
        ChangeAt(recs, M.Next(b, Some(RecOf(e)), now), i);
        Bump(e, now, i);
        return e.count;
      }
      Prepend(b, now);
      return 1;
    }

    method Del(b: M.Bssid) returns (found: bool)
      requires Valid()
      modifies this`head, this`entries, this`recs, Members(entries)`next
      ensures Valid() && recs == M.Drop(old(recs), b) && found == M.Find(old(recs), b).Some?
    {
      var e, prev;
      ghost var i;
      e, prev, i := Locate(b);
      FindAt(recs, b, i);
      DropAt(recs, b, i);
      if e == null { return false; }
      Discard(e, prev, i);
      return true;
    }

    method IsListed(b: M.Bssid, t: int, now: int) returns (count: nat)
      requires Valid()
      modifies this, Members(entries)`next
      ensures Valid() && Contents() == M.Look(old(Contents()), t)
      ensures count == M.Listed(M.Get(old(Contents()), b, t), now)
    {
      var e;
      ghost var i;
      e, i := Get(b, t);
      if e == null { return 0; }
      if M.Expired(now, e.start, e.timeoutSecs) { return 0; }
      return e.count;
    }
  }

  lemma {:induction false} FindAt(recs: seq<M.Rec>, b: M.Bssid, i: nat)
    requires i <= |recs| && (i < |recs| ==> recs[i].bssid == b) && forall j :: 0 <= j < i ==> recs[j].bssid != b
    ensures M.Find(recs, b) == if i < |recs| then Some(recs[i]) else None
  {
    if i > 0 { FindAt(recs[1..], b, i - 1); }
  }

  lemma {:induction false} ChangeAt(recs: seq<M.Rec>, r: M.Rec, i: nat)
    requires i < |recs| && recs[i].bssid == r.bssid && forall j :: 0 <= j < i ==> recs[j].bssid != r.bssid
    ensures M.Change(recs, r) == recs[i := r]
  {
    if i > 0 { ChangeAt(recs[1..], r, i - 1); }
  }

  lemma {:induction false} DropAt(recs: seq<M.Rec>, b: M.Bssid, i: nat)
    requires i <= |recs| && (i < |recs| ==> recs[i].bssid == b) && forall j :: 0 <= j < i ==> recs[j].bssid != b
    ensures M.Drop(recs, b) == if i < |recs| then recs[..i] + recs[i + 1..] else recs
  {
    if i > 0 { DropAt(recs[1..], b, i - 1); }
  }

  /** `e` and what it links to are linked in this order. */
  lemma ChainMore(s: seq<Entry>, e: Entry)
    requires e !in s && e.next == (if s == [] then null else s[0])
    requires forall i {:trigger s[i]} :: 0 <= i < |s| ==> s[i].next == After(s, i)
    ensures var t := [e] + s; forall i {:trigger t[i]} :: 0 <= i < |t| ==> t[i].next == After(t, i)
  {
    var t := [e] + s;
    forall i | 0 <= i < |t| ensures t[i].next == After(t, i) {
      if i > 0 { assert s[i - 1].next == After(s, i - 1); }
    }
  }

  lemma CarryMore(s: seq<Entry>, recs: seq<M.Rec>, e: Entry)
    requires Carry(s, recs)
    ensures Carry([e] + s, [RecOf(e)] + recs)
  {}

  lemma CarryWithout(s: seq<Entry>, recs: seq<M.Rec>, i: nat)
    requires Carry(s, recs) && i < |s|
    ensures Carry(s[..i] + s[i + 1..], recs[..i] + recs[i + 1..])
  {}

  /** What a purge does with the record at position `i`, given what it did with those before. */
  lemma PurgeStep(recs: seq<M.Rec>, i: nat, now: int)
    requires i < |recs|
    ensures var shorter := recs[..i] + recs[i + 1..];
            recs[..i] + M.Purge(recs[i..], now) ==
              if M.Old(recs[i], now) then shorter[..i] + M.Purge(shorter[i..], now)
              else recs[..i + 1] + M.Purge(recs[i + 1..], now)
  {
    var shorter := recs[..i] + recs[i + 1..];
    assert shorter[..i] == recs[..i] && shorter[i..] == recs[i + 1..];
    assert recs[i..][1..] == recs[i + 1..];
    var rest := M.Purge(recs[i + 1..], now);
    assert recs[..i] + ([recs[i]] + rest) == recs[..i + 1] + rest && [] + rest == rest;
  }
}
