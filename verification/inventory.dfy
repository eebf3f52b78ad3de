/**
 * The client-side domain model: `Node` and `Slice` snapshots built from
 * remote records, the staleness test on a node and the renewal test on a
 * slice (plc.py:49-137).
 */
module Inventory {
  import opened Records
  import opened Clock

  const NodeIdKey := "node_id"
  const HostKey := "hostname"
  const BootKey := "boot_state"
  const LastContactKey := "last_contact"
  const LastBootKey := "last_boot"
  const SiteIdKey := "site_id"
  const SliceIdsKey := "slice_ids"

  /** The fields a node query asks for unless told otherwise. */
  const RequiredNodeFields: seq<string> := [NodeIdKey, HostKey, BootKey, LastContactKey, SiteIdKey]

  /** A node snapshot. Every field but `lastSeen` is the record's raw value,
      `Null` when the record lacks it; `lastSeen` is `None` when the record's
      value is falsy and the converted instant otherwise. */
  datatype Node = Node(
    nodeId: Value,
    host: Value,
    boot: Value,
    lastSeen: Option<Instant>,
    lastBoot: Value,
    site: Value,
    slices: Value)

  /** `Node(info)`: absent keys read as None; a truthy `last_contact` is
      converted with `utcfromtimestamp`, which fails unless it is a number. */
  function NodeFromRecord(rec: Record): (r: Result<Node>)
    ensures r.Ok? <==> !Truthy(Lookup(rec, LastContactKey)) || rec[LastContactKey].Int?
    ensures r.Err? ==> r.error == BadTimestamp(LastContactKey)
    ensures r.Ok? ==> r.value.lastSeen.Some? == Truthy(Lookup(rec, LastContactKey))
    ensures r.Ok? && r.value.lastSeen.Some? ==> r.value.lastSeen.value == FromUnixSeconds(rec[LastContactKey].i)
    ensures r.Ok? ==> && r.value.nodeId == Lookup(rec, NodeIdKey) && r.value.host == Lookup(rec, HostKey)
                      && r.value.boot == Lookup(rec, BootKey) && r.value.lastBoot == Lookup(rec, LastBootKey)
                      && r.value.site == Lookup(rec, SiteIdKey) && r.value.slices == Lookup(rec, SliceIdsKey)
  {
    var seen := Lookup(rec, LastContactKey);
    if Truthy(seen) && !seen.Int? then Err(BadTimestamp(LastContactKey))
    else
      Ok(Node(
        nodeId := Lookup(rec, NodeIdKey),
        host := Lookup(rec, HostKey),
        boot := Lookup(rec, BootKey),
        lastSeen := if Truthy(seen) then Some(FromUnixSeconds(seen.i)) else None,
        lastBoot := Lookup(rec, LastBootKey),
        site := Lookup(rec, SiteIdKey),
        slices := Lookup(rec, SliceIdsKey)))
  }

  /** `was_seen_after(ts)`: the node was last contacted at or after `ts`. */
  function WasSeenAfter(n: Node, ts: Instant): (seen: bool)
    ensures n.lastSeen.None? ==> !seen
  {
    n.lastSeen.Some? && n.lastSeen.value >= ts
  }

  /** Missing keys never make node construction fail: with a numeric or
      absent `last_contact`, every absent field reads as `Null`. */
  lemma {:induction false} NodeToleratesMissingKeys(rec: Record)
    requires LastContactKey !in rec || rec[LastContactKey].Int?
    ensures NodeFromRecord(rec).Ok?
    ensures var n := NodeFromRecord(rec).value;
      && (NodeIdKey !in rec ==> n.nodeId == Null)
      && (HostKey !in rec ==> n.host == Null)
      && (BootKey !in rec ==> n.boot == Null)
      && (LastContactKey !in rec ==> n.lastSeen == None)
      && (LastBootKey !in rec ==> n.lastBoot == Null)
      && (SiteIdKey !in rec ==> n.site == Null)
      && (SliceIdsKey !in rec ==> n.slices == Null)
  {
  }

  /** A node whose `last_contact` is absent or falsy (0 included) is never
      seen after any cutoff. */
  lemma {:induction false} NeverContactedIsStale(rec: Record, cutoff: Instant)
    requires LastContactKey !in rec || rec[LastContactKey] in {Null, Int(0)}
    ensures NodeFromRecord(rec).Ok?
    ensures !WasSeenAfter(NodeFromRecord(rec).value, cutoff)
  {
  }

  /** The staleness test is inclusive: a node last contacted at `secs` counts
      as seen after exactly the cutoffs at or before that instant. */
  lemma {:induction false} SeenAfterIsInclusive(rec: Record, secs: int, cutoff: Instant)
    requires Lookup(rec, LastContactKey) == Int(secs) && secs != 0
    ensures NodeFromRecord(rec).Ok?
    ensures WasSeenAfter(NodeFromRecord(rec).value, cutoff) <==> cutoff <= FromUnixSeconds(secs)
    ensures WasSeenAfter(NodeFromRecord(rec).value, FromUnixSeconds(secs))
  {
  }

  const NameKey := "name"
  const SliceIdKey := "slice_id"
  const ExpiresKey := "expires"
  const MaxNodesKey := "max_nodes"
  const NodeIdsKey := "node_ids"
  const PersonIdsKey := "person_ids"
  const DescriptionKey := "description"
  const TagIdsKey := "slice_tag_ids"

  /** The record fields read up to `expires`, which is converted at once. */
  const SliceHeadKeys: seq<string> := [NameKey, SliceIdKey, ExpiresKey]

  /** The record fields read after `expires`. */
  const SliceTailKeys: seq<string> := [SiteIdKey, MaxNodesKey, NodeIdsKey, PersonIdsKey, DescriptionKey, TagIdsKey]

  /** The record fields a slice is read from, in the order they are read. */
  const SliceKeys: seq<string> := SliceHeadKeys + SliceTailKeys

  /** A slice snapshot: the record's raw values, `expires` converted. */
  datatype Slice = Slice(
    name: Value,
    sliceId: Value,
    expires: Instant,
    site: Value,
    maxNodes: Value,
    nodes: Value,
    users: Value,
    desc: Value,
    tags: Value)

  /** The first of `keys` absent from `rec`, if any. */
  function FirstMissing(rec: Record, keys: seq<string>): (m: Option<string>)
    ensures m.None? <==> forall k :: k in keys ==> k in rec
    ensures m.Some? ==> exists i :: 0 <= i < |keys| && keys[i] == m.value && m.value !in rec
                                   && forall j :: 0 <= j < i ==> keys[j] in rec
  {
    if keys == [] then None
    else if keys[0] !in rec then Some(keys[0])
    else
      var m := FirstMissing(rec, keys[1..]);
      if m.None? then (assert keys == [keys[0]] + keys[1..]; None)
      else
        ghost var i :| 0 <= i < |keys[1..]| && keys[1..][i] == m.value && m.value !in rec
                       && forall j :: 0 <= j < i ==> keys[1..][j] in rec;
        assert keys[i + 1] == m.value;
        m
  }

  /** The fields `Slice(info)` reads after `expires`, once the first three
      are present and `expires` is a number: the first absent one raises. */
  function SliceFromCheckedRecord(rec: Record): (r: Result<Slice>)
    requires NameKey in rec && SliceIdKey in rec && ExpiresKey in rec && rec[ExpiresKey].Int?
    ensures r.Ok? <==> forall k :: k in SliceTailKeys ==> k in rec
    ensures r.Ok? ==> r.value.expires == FromUnixSeconds(rec[ExpiresKey].i)
    ensures r.Ok? ==> && r.value.name == Lookup(rec, NameKey) && r.value.sliceId == Lookup(rec, SliceIdKey)
                      && r.value.site == Lookup(rec, SiteIdKey) && r.value.maxNodes == Lookup(rec, MaxNodesKey)
                      && r.value.nodes == Lookup(rec, NodeIdsKey) && r.value.users == Lookup(rec, PersonIdsKey)
                      && r.value.desc == Lookup(rec, DescriptionKey) && r.value.tags == Lookup(rec, TagIdsKey)
    ensures r.Err? ==>
      && r.error.MissingField?
      && exists i :: 0 <= i < |SliceTailKeys| && SliceTailKeys[i] == r.error.key && r.error.key !in rec
                     && forall j :: 0 <= j < i ==> SliceTailKeys[j] in rec
  {
    match FirstMissing(rec, SliceTailKeys)
    case Some(k) => Err(MissingField(k))
    case None =>
      Ok(Slice(
        name := rec[NameKey],
        sliceId := rec[SliceIdKey],
        expires := FromUnixSeconds(rec[ExpiresKey].i),
        site := rec[SiteIdKey],
        maxNodes := rec[MaxNodesKey],
        nodes := rec[NodeIdsKey],
        users := rec[PersonIdsKey],
        desc := rec[DescriptionKey],
        tags := rec[TagIdsKey]))
  }

  /** `Slice(info)`: every field is required and read in order, the first
      absent one raising; `expires` must be a number. */
  function SliceFromRecord(rec: Record): (r: Result<Slice>)
    ensures r.Ok? <==> (forall k :: k in SliceKeys ==> k in rec) && Lookup(rec, ExpiresKey).Int?
    ensures r.Ok? ==> r.value.expires == FromUnixSeconds(Lookup(rec, ExpiresKey).i)
    ensures r.Ok? ==> && r.value.name == Lookup(rec, NameKey) && r.value.sliceId == Lookup(rec, SliceIdKey)
                      && r.value.site == Lookup(rec, SiteIdKey) && r.value.maxNodes == Lookup(rec, MaxNodesKey)
                      && r.value.nodes == Lookup(rec, NodeIdsKey) && r.value.users == Lookup(rec, PersonIdsKey)
                      && r.value.desc == Lookup(rec, DescriptionKey) && r.value.tags == Lookup(rec, TagIdsKey)
    ensures r.Err? ==> r.error.MissingField? || r.error == BadTimestamp(ExpiresKey)
    ensures r == Err(BadTimestamp(ExpiresKey)) <==>
      (forall k :: k in SliceHeadKeys ==> k in rec) && !Lookup(rec, ExpiresKey).Int?
    ensures (exists k :: k in SliceHeadKeys && k !in rec) ==> r.Err? && r.error.MissingField?
    ensures r.Err? && r.error.MissingField? ==>
      exists i :: 0 <= i < |SliceKeys| && SliceKeys[i] == r.error.key && r.error.key !in rec
                  && forall j :: 0 <= j < i ==> SliceKeys[j] in rec
  {
    match FirstMissing(rec, SliceHeadKeys)
    case Some(k) =>
      ghost var i :| 0 <= i < |SliceHeadKeys| && SliceHeadKeys[i] == k && k !in rec
                     && forall j :: 0 <= j < i ==> SliceHeadKeys[j] in rec;
      assert SliceKeys[i] == k;
      Err(MissingField(k))
    case None =>
      if !rec[ExpiresKey].Int? then Err(BadTimestamp(ExpiresKey))
      else
        var r := SliceFromCheckedRecord(rec);
        assert forall j :: 0 <= j < 3 ==> SliceKeys[j] == SliceHeadKeys[j];
        assert forall j :: 3 <= j < |SliceKeys| ==> SliceKeys[j] == SliceTailKeys[j - 3];
        if r.Ok? then r
        else
          ghost var i :| 0 <= i < |SliceTailKeys| && SliceTailKeys[i] == r.error.key && r.error.key !in rec
                         && forall j :: 0 <= j < i ==> SliceTailKeys[j] in rec;
          assert SliceKeys[3 + i] == r.error.key;
          r
  }

  /** `can_renew()`: the renewal ceiling lies at least one renewal step
      beyond the current expiry, that is, the slice expires no more than
      eight weeks less a day from `today`. */
  function CanRenew(s: Slice, today: Instant): (ok: bool)
    ensures ok <==> s.expires - today <= 55 * 86_400 * 1_000_000
  {
    RenewUpto(today, RenewalCap) - s.expires >= RenewalResol
  }

  /** A slice renewable today stays renewable later. */
  lemma {:induction false} CanRenewMonotone(s: Slice, today: Instant, later: Instant)
    requires today <= later && CanRenew(s, today)
    ensures CanRenew(s, later)
  {
  }
}
