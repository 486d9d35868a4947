/**
 The BSS table of wpa_supplicant as a value: what each operation does to the two lists, the
 per-round index of scan results and the pointers into the table from outside.

 Memory is explicit. A pointer is an address, the heap maps the live addresses to entries, a freed
 address leaves the heap and may be handed out again, and growing an entry may move it.
 */
module BssModel {
  import opened Common

  type Ptr = nat
  const NULL: Ptr := 0

  type Bssid = nat
  const ZERO_ADDR: Bssid := 0

  type Ssid = string
  const SSID_MAX_LEN := 32
  const P2P_WILDCARD_SSID := "DIRECT-"

  /** The information elements of a probe response and of a beacon. */
  datatype Elements = Elements(probe: seq<bv8>, beacon: seq<bv8>)
  {
    function Size(): nat { |probe| + |beacon| }
  }

  /** Times are in microseconds. */
  datatype Bss = Bss(id: nat, miss: nat, updateIdx: nat, bssid: Bssid, ssid: Ssid, freq: int,
                     associated: bool, lastUpdate: int, ies: Elements)

  datatype ScanRes = ScanRes(bssid: Bssid, ssid: Option<Ssid>, mesh: Option<Ssid>, freq: int,
                             associated: bool, age: nat, ies: Elements)

  /**
   A pending connect work: the pointer to the entry it is for, and whether that is known to be gone. The id of
   the entry for which it was queued, if it was queued for one, is only carried along for what is proved.
   */
  datatype Work = Work(bss: Ptr, removed: bool, entry: Option<nat>)

  /** The state of the connection that points into the table. */
  datatype Link = Link(current: Ptr, own: Bssid, pending: Bssid, sme: Option<Work>, connect: Option<Work>)

  /** Configuration, and the predicates on entries that depend on it. */
  datatype Config = Config(
    networks: set<Ssid>,
    accepts: Bssid -> bool,                     // the BSSID filter
    p2pPending: (Bssid, seq<bv8>) -> bool,      // a pending P2P join
    wpsCandidate: (Ssid, seq<bv8>) -> bool,
    hasP2p: seq<bv8> -> bool,
    p2pInterface: bool,
    ignoreOld: bool,
    scanTrigger: int,
    expiry: nat,
    freed: Ssid)                                // whatever is read through a dangling pointer

  datatype Table = Table(
    heap: map<Ptr, Bss>,
    bss: seq<Ptr>,          // in refresh order
    bssId: seq<Ptr>,        // in id order
    num: nat,
    scan: seq<Ptr>,         // last_scan_res[0..last_scan_res_used)
    nextId: nat,
    updateIdx: nat,
    maxCount: nat,
    link: Link,
    config: Config)

  // ---------- lists ----------

  predicate NoDup(s: seq<Ptr>) {
    forall i, j :: 0 <= i < j < |s| ==> s[i] != s[j]
  }

  /** The list with the first occurrence of `p` unlinked. */
  function Unlink(s: seq<Ptr>, p: Ptr): seq<Ptr> {
    if s == [] then []
    else if s[0] == p then s[1..]
    else [s[0]] + Unlink(s[1..], p)
  }

  /** The list with the first occurrence of `p` replaced by `q`. */
  function Relink(s: seq<Ptr>, p: Ptr, q: Ptr): seq<Ptr> {
    if s == [] then []
    else if s[0] == p then [q] + s[1..]
    else [s[0]] + Relink(s[1..], p, q)
  }

  /** The first element that satisfies `f`, or NULL. */
  function First(s: seq<Ptr>, f: Ptr -> bool): Ptr {
    if s == [] then NULL else if f(s[0]) then s[0] else First(s[1..], f)
  }

  // ---------- predicates on entries ----------

  function CurrentSsid(t: Table): Ssid {
    if t.link.current in t.heap then t.heap[t.link.current].ssid else t.config.freed
  }

  predicate InUse(t: Table, p: Ptr) {
    if p == t.link.current then true
    else if p !in t.heap then false
    else if t.link.current != NULL && t.heap[p].ssid != CurrentSsid(t) then false
    else t.heap[p].bssid != ZERO_ADDR && (t.heap[p].bssid == t.link.own || t.heap[p].bssid == t.link.pending)
  }

  predicate Known(c: Config, b: Bss) {
    c.p2pPending(b.bssid, b.ies.probe) || (b.ssid != "" && b.ssid in c.networks)
  }

  /** Neither a configured network nor a WPS candidate: such an entry is evicted first. */
  predicate Unknown(t: Table, p: Ptr) {
    p in t.heap && !Known(t.config, t.heap[p]) && !t.config.wpsCandidate(t.heap[p].ssid, t.heap[p].ies.probe)
  }

  predicate Matches(t: Table, p: Ptr, bssid: Bssid, ssid: Ssid) {
    p in t.heap && t.heap[p].bssid == bssid && t.heap[p].ssid == ssid
  }

  function IsUnknown(t: Table): Ptr -> bool { (p: Ptr) => Unknown(t, p) }
  function IsIdle(t: Table): Ptr -> bool { (p: Ptr) => !InUse(t, p) }
  function IsFor(t: Table, bssid: Bssid, ssid: Ssid): Ptr -> bool { (p: Ptr) => Matches(t, p, bssid, ssid) }
  function HasIdIn(t: Table, idf: nat, idl: nat): Ptr -> bool { (p: Ptr) => p in t.heap && idf <= t.heap[p].id <= idl }

  // ---------- removal ----------

  function Redirect(w: Option<Work>, p: Ptr, q: Ptr): Option<Work> {
    if w.Some? && w.value.bss == p then Some(Work(q, q == NULL || w.value.removed, w.value.entry)) else w
  }

  /** Only the first kind of connect work that is pending is looked at. */
  function RedirectPending(l: Link, p: Ptr, q: Ptr): Link {
    if l.sme.Some? then l.(sme := Redirect(l.sme, p, q)) else l.(connect := Redirect(l.connect, p, q))
  }

  function Remove(t: Table, p: Ptr): Table
    requires t.num > 0
  {
    t.(scan := Unlink(t.scan, p),
       link := RedirectPending(t.link, p, NULL),
       bss := Unlink(t.bss, p),
       bssId := Unlink(t.bssId, p),
       num := t.num - 1,
       heap := t.heap - {p})
  }

  /** The entry that gives way when the table is full. */
  function Victim(t: Table): Ptr {
    var unknown := First(t.bss, IsUnknown(t));
    if unknown != NULL then unknown else First(t.bss, IsIdle(t))
  }

  // ---------- scan results ----------

  function UpdateTime(fetch: int, age: nat): int {
    fetch - 1000 * age
  }

  function NewBss(t: Table, ssid: Ssid, res: ScanRes, fetch: int): Bss {
    Bss(t.nextId, 0, t.updateIdx, res.bssid, ssid, res.freq, res.associated, UpdateTime(fetch, res.age), res.ies)
  }

  /** Room for one more entry: evict the victim, or raise the limit if there is none. */
  function MakeRoom(t: Table): Table {
    if t.num + 1 <= t.maxCount then t
    else if Victim(t) != NULL && t.num > 0 then Remove(t, Victim(t))
    else t.(maxCount := t.num + 1)
  }

  function Add(t: Table, addr: Ptr, ssid: Ssid, res: ScanRes, fetch: int): Table {
    var u := MakeRoom(t.(heap := t.heap[addr := NewBss(t, ssid, res, fetch)], nextId := t.nextId + 1));
    u.(bss := u.bss + [addr], bssId := u.bssId + [addr], num := u.num + 1)
  }

  /** A second result for the same entry in one round that looks older than the first. */
  predicate Obsolete(t: Table, b: Bss, res: ScanRes, fetch: int) {
    b.updateIdx == t.updateIdx &&
    (b.associated || (!res.associated && !(b.lastUpdate < UpdateTime(fetch, res.age))))
  }

  function Refreshed(t: Table, b: Bss, res: ScanRes, fetch: int): Bss {
    b.(miss := 0, updateIdx := t.updateIdx, bssid := res.bssid, freq := res.freq,
       associated := res.associated, lastUpdate := UpdateTime(fetch, res.age),
       ies := if LosesP2p(t, b, res) then b.ies else res.ies)
  }

  predicate LosesP2p(t: Table, b: Bss, res: ScanRes) {
    t.config.hasP2p(b.ies.probe) && !t.config.hasP2p(res.ies.probe)
  }

  predicate Reallocates(t: Table, b: Bss, res: ScanRes) {
    !LosesP2p(t, b, res) && b.ies.Size() < res.ies.Size()
  }

  /** Where a refreshed entry ends up; `moved` is the address that reallocation returns. */
  function Home(t: Table, p: Ptr, res: ScanRes, fetch: int, moved: Ptr): Ptr {
    if p in t.heap && !Obsolete(t, t.heap[p], res, fetch) && Reallocates(t, t.heap[p], res) then moved else p
  }

  function Update(t: Table, p: Ptr, res: ScanRes, fetch: int, moved: Ptr): Table
    requires p in t.heap
  {
    var b := t.heap[p];
    if Obsolete(t, b, res, fetch) then t
    else
      var q := Home(t, p, res, fetch, moved);
      t.(heap := (t.heap - {p})[q := Refreshed(t, b, res, fetch)],
         bss := Unlink(t.bss, p) + [q],
         bssId := Relink(t.bssId, p, q),
         scan := Relink(t.scan, p, q),
         link := if q == p then t.link
                 else RedirectPending(t.link.(current := if t.link.current == p then q else t.link.current), p, q))
  }

  function Get(t: Table, bssid: Bssid, ssid: Ssid): Ptr {
    if !t.config.accepts(bssid) then NULL else First(t.bss, IsFor(t, bssid, ssid))
  }

  /** The SSID under which a scan result is stored, or None if the result is ignored. */
  function Relevant(t: Table, res: ScanRes, fetch: int): Option<Ssid> {
    if t.config.ignoreOld && UpdateTime(fetch, res.age) < t.config.scanTrigger then None
    else if res.ssid.None? || |res.ssid.value| > SSID_MAX_LEN then None
    else if !t.config.hasP2p(res.ies.probe) && t.config.p2pInterface then None
    else if t.config.hasP2p(res.ies.probe) && res.ssid.value == P2P_WILDCARD_SSID then None
    else if res.mesh.Some? && |res.mesh.value| <= SSID_MAX_LEN then res.mesh
    else res.ssid
  }

  /** A scan result; `addr` is the address that allocation returns, or reallocation unless it is in place. */
  function UpdateScanRes(t: Table, res: ScanRes, fetch: int, addr: Ptr, inPlace: bool): Table {
    var ssid := Relevant(t, res, fetch);
    if ssid.None? then t
    else
      var p: Ptr := Get(t, res.bssid, ssid.value);
      if p == NULL then
        var u := Add(t, addr, ssid.value, res, fetch);
        u.(scan := u.scan + [addr])
      else if p !in t.heap then t
      else
        var moved := if inPlace then p else addr;
        var u := Update(t, p, res, fetch, moved);
        var q := Home(t, p, res, fetch, moved);
        if q in u.scan then u else u.(scan := u.scan + [q])
  }

  function UpdateStart(t: Table): Table {
    t.(updateIdx := t.updateIdx + 1, scan := [])
  }

  // ---------- expiry and flushing ----------

  /** What a scan covered: no frequencies means all, an empty SSID is the wildcard. */
  datatype ScanInfo = ScanInfo(aborted: bool, freqs: seq<int>, ssids: seq<Ssid>)

  predicate Included(b: Bss, info: Option<ScanInfo>) {
    info.Some? ==>
      && (info.value.freqs != [] ==> b.freq in info.value.freqs)
      && (info.value.ssids != [] ==> "" in info.value.ssids || b.ssid in info.value.ssids)
  }

  function Missed(t: Table, p: Ptr): Table
    requires p in t.heap
  {
    if t.heap[p].updateIdx < t.updateIdx then t.(heap := t.heap[p := t.heap[p].(miss := t.heap[p].miss + 1)]) else t
  }

  /** One turn of the expiry loop at list position `i`: the new table and the next position. */
  function ExpireTurn(t: Table, i: nat, info: Option<ScanInfo>): (r: (Table, nat))
    requires i < |t.bss|
    ensures |r.0.bss| - r.1 == |t.bss| - i - 1
  {
    var p := t.bss[i];
    if p !in t.heap || InUse(t, p) || !Included(t.heap[p], info) then (t, i + 1)
    else
      var u := Missed(t, p);
      if u.heap[p].miss >= t.config.expiry && u.num > 0 then
        UnlinkShortens(t.bss, p);
        (Remove(u, p), i)
      else (u, i + 1)
  }

  function ExpireFrom(t: Table, i: nat, info: Option<ScanInfo>): Table
    decreases |t.bss| - i
  {
    if i >= |t.bss| then t
    else
      var (u, j) := ExpireTurn(t, i, info);
      ExpireFrom(u, j, info)
  }

  lemma UnlinkShortens(s: seq<Ptr>, p: Ptr)
    ensures |Unlink(s, p)| == if p in s then |s| - 1 else |s|
  {}

  function UpdateEnd(t: Table, info: Option<ScanInfo>, newScan: bool): Table {
    if (info.Some? && info.value.aborted) || !newScan then t else ExpireFrom(t, 0, info)
  }

  function FlushFrom(t: Table, i: nat): Table
    decreases |t.bss| - i
  {
    if i >= |t.bss| then t
    else if InUse(t, t.bss[i]) || t.num == 0 then FlushFrom(t, i + 1)
    else
      UnlinkShortens(t.bss, t.bss[i]);
      FlushFrom(Remove(t, t.bss[i]), i)
  }

  /** Flushing by age stops at the first entry not in use that is recent enough. */
  function FlushOldFrom(t: Table, i: nat, cutoff: int): Table
    decreases |t.bss| - i
  {
    if i >= |t.bss| || t.bss[i] !in t.heap then t
    else if InUse(t, t.bss[i]) then FlushOldFrom(t, i + 1, cutoff)
    else if t.heap[t.bss[i]].lastUpdate < cutoff && t.num > 0 then
      UnlinkShortens(t.bss, t.bss[i]);
      FlushOldFrom(Remove(t, t.bss[i]), i, cutoff)
    else t
  }

  // ---------- lookup by id ----------

  function GetIdRange(t: Table, idf: nat, idl: nat): Ptr {
    First(t.bssId, HasIdIn(t, idf, idl))
  }
}
