/**
 * The selection engine of populate-slice.py (lines 57-77): keep the nodes
 * seen after a cutoff, group them by site, and take at most `nps` nodes of
 * each site, shuffling a site's nodes first when it has more than `nps`.
 *
 * Sites are visited in the order they are first met in the active list; the
 * source visits them in dictionary order, so no property below speaks of
 * the order across sites.
 */
module Selection {
  import opened Records
  import opened Clock
  import opened Inventory
  import opened Lists

  /** `random.shuffle` on a site's nodes. */
  type Shuffler = seq<Node> -> seq<Node>

  /** A shuffle returns the very nodes it is given, in some order. */
  ghost predicate IsShuffler(shuffle: Shuffler) {
    forall g :: multiset(shuffle(g)) == multiset(g)
  }

  /** `today - timedelta(days=staleness)`. */
  function Cutoff(today: Instant, staleness: int): Instant {
    today - staleness * Day
  }

  function SeenAfter(cutoff: Instant): Node -> bool {
    (n: Node) => WasSeenAfter(n, cutoff)
  }

  function SiteIs(site: Value): Node -> bool {
    (n: Node) => n.site == site
  }

  /** `[n for n in live_nodes if n.was_seen_after(cutoff)]`. */
  function ActiveNodes(nodes: seq<Node>, cutoff: Instant): (active: seq<Node>)
    ensures forall n :: n in active <==> n in nodes && WasSeenAfter(n, cutoff)
    ensures forall n :: multiset(active)[n] == if WasSeenAfter(n, cutoff) then multiset(nodes)[n] else 0
  {
    FilterCounts(nodes, SeenAfter(cutoff));
    Filter(nodes, SeenAfter(cutoff))
  }

  /** The nodes of a list that belong to `site`, in list order. */
  function AtSite(nodes: seq<Node>, site: Value): (here: seq<Node>)
    ensures forall n :: n in here <==> n in nodes && n.site == site
    ensures forall n :: multiset(here)[n] == if n.site == site then multiset(nodes)[n] else 0
  {
    FilterCounts(nodes, SiteIs(site));
    Filter(nodes, SiteIs(site))
  }

  /** A node is active relative to `Cutoff(today, staleness)` exactly when
      its last contact is at most `staleness` days before `today`. */
  lemma {:induction false} ActiveMeansRecentlySeen(n: Node, today: Instant, staleness: int)
    ensures WasSeenAfter(n, Cutoff(today, staleness)) <==>
            n.lastSeen.Some? && today - n.lastSeen.value <= staleness * Day
  {
  }

  /** The active list keeps the order of the live list. */
  lemma {:induction false} ActiveNodesKeepOrder(a: seq<Node>, b: seq<Node>, cutoff: Instant)
    ensures ActiveNodes(a + b, cutoff) == ActiveNodes(a, cutoff) + ActiveNodes(b, cutoff)
  {
    FilterDistributes(a, b, SeenAfter(cutoff));
  }

  /** A value that can key a dictionary: lists are unhashable, so
      `site_grps[n.site]` raises `TypeError` for a list-valued site. */
  predicate Hashable(v: Value) {
    !v.List?
  }

  /** Every node's site can key the `site_grps` dictionary. */
  predicate SitesHashable(nodes: seq<Node>) {
    forall n :: n in nodes ==> Hashable(n.site)
  }

  /** The `site_grps` dictionary: its keys in insertion order, and the list
      each key maps to. */
  datatype Groups = Groups(sites: seq<Value>, members: map<Value, seq<Node>>)

  /** `site_grps[n.site].append(n)`: a new key is inserted last. */
  function Place(g: Groups, n: Node): (g': Groups)
    ensures n.site in g'.members && g'.members[n.site] == (if n.site in g.members then g.members[n.site] else []) + [n]
    ensures forall s :: s != n.site ==> (s in g'.members <==> s in g.members)
    ensures forall s :: s != n.site && s in g.members ==> g'.members[s] == g.members[s]
    ensures g'.sites == if n.site in g.members then g.sites else g.sites + [n.site]
  {
    if n.site in g.members then Groups(g.sites, g.members[n.site := g.members[n.site] + [n]])
    else Groups(g.sites + [n.site], g.members[n.site := [n]])
  }

  /** The `site_grps` loop over the active nodes. */
  function GroupBySite(nodes: seq<Node>): Groups {
    if nodes == [] then Groups([], map[])
    else Place(GroupBySite(nodes[..|nodes| - 1]), nodes[|nodes| - 1])
  }

  /** No site occurs twice in the list. */
  ghost predicate DistinctSites(sites: seq<Value>) {
    forall i, j :: 0 <= i < j < |sites| ==> sites[i] != sites[j]
  }

  /** The keys of `g` are its distinct sites. */
  ghost predicate WellKeyed(g: Groups) {
    && DistinctSites(g.sites)
    && (forall s :: s in g.members <==> s in g.sites)
  }

  /** Each key of `g` maps to that site's nodes in their original order, and
      a site without a key has no node. */
  ghost predicate ListsMatch(g: Groups, nodes: seq<Node>) {
    && (forall s :: s in g.members ==> g.members[s] == AtSite(nodes, s) && g.members[s] != [])
    && (forall s :: s !in g.members ==> AtSite(nodes, s) == [])
  }

  /** `g` partitions `nodes` by site: one key per site that occurs, each
      mapped to that site's nodes in their original order. */
  ghost predicate Partitions(g: Groups, nodes: seq<Node>) {
    WellKeyed(g) && ListsMatch(g, nodes)
  }

  lemma {:induction false} AtSiteAppend(nodes: seq<Node>, n: Node, site: Value)
    ensures AtSite(nodes + [n], site) == AtSite(nodes, site) + (if n.site == site then [n] else [])
  {
    FilterDistributes(nodes, [n], SiteIs(site));
    FilterSingleton(n, SiteIs(site));
  }

  /** Placing a node inserts its site as a key once. */
  lemma {:induction false} PlaceKeepsKeys(g: Groups, n: Node)
    requires WellKeyed(g)
    ensures WellKeyed(Place(g, n))
  {
    var g' := Place(g, n);
    if n.site !in g.members {
      forall i, j | 0 <= i < j < |g'.sites| ensures g'.sites[i] != g'.sites[j] {
        if j == |g.sites| {
          assert g'.sites[i] == g.sites[i];
        }
      }
    }
  }

  /** Placing a node appends it to its own site's list only. */
  lemma {:induction false} PlaceKeepsLists(g: Groups, nodes: seq<Node>, n: Node)
    requires ListsMatch(g, nodes)
    ensures ListsMatch(Place(g, n), nodes + [n])
  {
    var g' := Place(g, n);
    forall s | s in g'.members ensures g'.members[s] == AtSite(nodes + [n], s) && g'.members[s] != [] {
      AtSiteAppend(nodes, n, s);
    }
    forall s | s !in g'.members ensures AtSite(nodes + [n], s) == [] {
      AtSiteAppend(nodes, n, s);
    }
  }

  /** Grouping partitions the active nodes by site, keeping their order. */
  lemma {:induction false} GroupBySitePartitions(nodes: seq<Node>)
    ensures Partitions(GroupBySite(nodes), nodes)
  {
    if nodes != [] {
      var prefix := nodes[..|nodes| - 1];
      var n := nodes[|nodes| - 1];
      assert nodes == prefix + [n];
      GroupBySitePartitions(prefix);
      PlaceKeepsKeys(GroupBySite(prefix), n);
      PlaceKeepsLists(GroupBySite(prefix), prefix, n);
    }
  }

  /** `nodes[:nps]` after shuffling when the site has more than `nps` nodes. */
  function SampleGroup(members: seq<Node>, nps: int, shuffle: Shuffler): (picked: seq<Node>)
    requires IsShuffler(shuffle)
    ensures |picked| == SliceLength(|members|, nps)
    ensures multiset(picked) <= multiset(members)
    ensures |members| <= nps ==> picked == members
  {
    var pool := if |members| > nps then shuffle(members) else members;
    assert |pool| == |multiset(pool)| == |members|;
    var picked := Take(pool, nps);
    PrefixSubmultiset(pool, |picked|);
    picked
  }

  /** How many nodes the `sel_nodes` loop takes over the keys `sites`: each
      site's `nodes[:nps]` length, summed. */
  function SumOfCaps(sites: seq<Value>, members: map<Value, seq<Node>>, nps: int): nat
    requires forall s :: s in sites ==> s in members
  {
    if sites == [] then 0
    else SliceLength(|members[sites[0]]|, nps) + SumOfCaps(sites[1..], members, nps)
  }

  /** The `sel_nodes` loop over the keys `sites`: each site's sample,
      concatenated in key order. */
  function SelectFromGroups(sites: seq<Value>, members: map<Value, seq<Node>>, nps: int, shuffle: Shuffler)
    : (picked: seq<Node>)
    requires IsShuffler(shuffle)
    requires forall s :: s in sites ==> s in members
    ensures |picked| == SumOfCaps(sites, members, nps)
  {
    if sites == [] then []
    else SampleGroup(members[sites[0]], nps, shuffle) + SelectFromGroups(sites[1..], members, nps, shuffle)
  }

  /** Every node of `s` is at site `t`. */
  lemma {:induction false} AtSiteOfOneSite(s: seq<Node>, t: Value, site: Value)
    requires forall n :: n in s ==> n.site == t
    ensures AtSite(s, site) == if t == site then s else []
  {
    if s != [] {
      assert s == [s[0]] + s[1..];
      FilterDistributes([s[0]], s[1..], SiteIs(site));
      FilterSingleton(s[0], SiteIs(site));
      AtSiteOfOneSite(s[1..], t, site);
    }
  }

  /** Every list holds nodes of its own key's site only. */
  ghost predicate MembersAtSite(members: map<Value, seq<Node>>) {
    forall s, n :: s in members && n in members[s] ==> n.site == s
  }

  /** A group's sample holds nodes of that group's site only. */
  lemma {:induction false} SampleAtSite(members: seq<Node>, t: Value, nps: int, shuffle: Shuffler, site: Value)
    requires IsShuffler(shuffle)
    requires forall n :: n in members ==> n.site == t
    ensures var picked := SampleGroup(members, nps, shuffle);
      AtSite(picked, site) == if t == site then picked else []
  {
    var picked := SampleGroup(members, nps, shuffle);
    forall n | n in picked ensures n.site == t {
      assert multiset(picked)[n] > 0;
      assert n in members;
    }
    AtSiteOfOneSite(picked, t, site);
  }

  /** The tail of a list of distinct sites is distinct and lacks the head. */
  lemma {:induction false} DistinctTail(sites: seq<Value>)
    requires sites != [] && DistinctSites(sites)
    ensures DistinctSites(sites[1..]) && sites[0] !in sites[1..]
  {
    var tail := sites[1..];
    forall i, j | 0 <= i < j < |tail| ensures tail[i] != tail[j] {
      assert tail[i] == sites[i + 1] && tail[j] == sites[j + 1];
    }
    forall k | 0 <= k < |tail| ensures tail[k] != sites[0] {
      assert tail[k] == sites[k + 1];
    }
  }

  /** What the selection keeps of one site is that site's sample. */
  lemma {:induction false} AtSiteOfSelection(sites: seq<Value>, members: map<Value, seq<Node>>, nps: int,
                                            shuffle: Shuffler, site: Value)
    requires IsShuffler(shuffle)
    requires forall s :: s in sites ==> s in members
    requires DistinctSites(sites) && MembersAtSite(members)
    ensures AtSite(SelectFromGroups(sites, members, nps, shuffle), site)
              == if site in sites then SampleGroup(members[site], nps, shuffle) else []
  {
    if sites != [] {
      var t := sites[0];
      var first := SampleGroup(members[t], nps, shuffle);
      var rest := SelectFromGroups(sites[1..], members, nps, shuffle);
      FilterDistributes(first, rest, SiteIs(site));
      SampleAtSite(members[t], t, nps, shuffle, site);
      DistinctTail(sites);
      AtSiteOfSelection(sites[1..], members, nps, shuffle, site);
      MemberOfNonEmpty(sites, site);
      if t == site {
        assert first + [] == first;
      }
    }
  }

  /** The nodes the engine selects from the active nodes. */
  function SelectSample(active: seq<Node>, nps: int, shuffle: Shuffler): (picked: seq<Node>)
    requires IsShuffler(shuffle)
  {
    var g := GroupBySite(active);
    GroupBySitePartitions(active);
    SelectFromGroups(g.sites, g.members, nps, shuffle)
  }

  /** Each site contributes `active[:nps]`-many of its own active nodes, all
      of them, in their original order, when it has no more than `nps`. */
  lemma {:induction false} SelectionPerSite(active: seq<Node>, nps: int, shuffle: Shuffler, site: Value)
    requires IsShuffler(shuffle)
    ensures var picked := SelectSample(active, nps, shuffle);
      && |AtSite(picked, site)| == SliceLength(|AtSite(active, site)|, nps)
      && multiset(AtSite(picked, site)) <= multiset(AtSite(active, site))
      && (|AtSite(active, site)| <= nps ==> AtSite(picked, site) == AtSite(active, site))
  {
    var g := GroupBySite(active);
    GroupBySitePartitions(active);
    assert MembersAtSite(g.members) by {
      forall s, n | s in g.members && n in g.members[s] ensures n.site == s {
        assert g.members[s] == AtSite(active, s);
      }
    }
    AtSiteOfSelection(g.sites, g.members, nps, shuffle, site);
  }

  /** Nothing is selected that was not active, and nothing more often. */
  lemma {:induction false} SelectionWithinActive(active: seq<Node>, nps: int, shuffle: Shuffler)
    requires IsShuffler(shuffle)
    ensures multiset(SelectSample(active, nps, shuffle)) <= multiset(active)
    ensures |SelectSample(active, nps, shuffle)| <= |active|
  {
    var picked := SelectSample(active, nps, shuffle);
    forall n ensures multiset(picked)[n] <= multiset(active)[n] {
      SelectionPerSite(active, nps, shuffle, n.site);
      assert multiset(AtSite(picked, n.site))[n] <= multiset(AtSite(active, n.site))[n];
    }
    SubmultisetNoLonger(picked, active);
  }

  /** The sum over `sites` of how many of each site's active nodes
      `nodes[:nps]` keeps. This is the total stated over the active list
      alone; `SumOfCaps` is the same sum over the groups the loop reads,
      and `SumOfCapsIsCapSum` joins the two. */
  function CapSum(sites: seq<Value>, active: seq<Node>, nps: int): nat {
    if sites == [] then 0
    else SliceLength(|AtSite(active, sites[0])|, nps) + CapSum(sites[1..], active, nps)
  }

  lemma {:induction false} SumOfCapsIsCapSum(sites: seq<Value>, members: map<Value, seq<Node>>, active: seq<Node>, nps: int)
    requires forall s :: s in sites ==> s in members && members[s] == AtSite(active, s)
    ensures SumOfCaps(sites, members, nps) == CapSum(sites, active, nps)
  {
    if sites != [] {
      SumOfCapsIsCapSum(sites[1..], members, active, nps);
    }
  }

  /** The groups are keyed by exactly the distinct sites of the active
      nodes, and the selection size is the sum over those sites of
      `len(group[:nps])`: `min(|group|, nps)` for a non-negative `nps`. */
  lemma {:induction false} SelectionTotal(active: seq<Node>, nps: int, shuffle: Shuffler)
    requires IsShuffler(shuffle)
    ensures var sites := GroupBySite(active).sites;
      && DistinctSites(sites)
      && (forall n :: n in active ==> n.site in sites)
      && (forall s :: s in sites ==> AtSite(active, s) != [])
      && |SelectSample(active, nps, shuffle)| == CapSum(sites, active, nps)
  {
    var g := GroupBySite(active);
    GroupBySitePartitions(active);
    forall n | n in active ensures n.site in g.sites {
      assert n in AtSite(active, n.site);
    }
    SumOfCapsIsCapSum(g.sites, g.members, active, nps);
  }

  /** The per-site sizes do not depend on the shuffle. */
  lemma {:induction false} SelectionSizesIgnoreShuffle(active: seq<Node>, nps: int, shuffle1: Shuffler, shuffle2: Shuffler, site: Value)
    requires IsShuffler(shuffle1) && IsShuffler(shuffle2)
    ensures |AtSite(SelectSample(active, nps, shuffle1), site)| == |AtSite(SelectSample(active, nps, shuffle2), site)|
    ensures |SelectSample(active, nps, shuffle1)| == |SelectSample(active, nps, shuffle2)|
  {
    SelectionPerSite(active, nps, shuffle1, site);
    SelectionPerSite(active, nps, shuffle2, site);
    GroupBySitePartitions(active);
  }

  /** `[n.node_id for n in nodes]`. */
  function Ids(nodes: seq<Node>): (ids: seq<Value>)
    ensures |ids| == |nodes|
    ensures forall i :: 0 <= i < |nodes| ==> ids[i] == nodes[i].nodeId
  {
    if nodes == [] then [] else [nodes[0].nodeId] + Ids(nodes[1..])
  }

  /** The node ids the engine would add to the slice. */
  function SelectedIds(nodes: seq<Node>, cutoff: Instant, nps: int, shuffle: Shuffler): seq<Value>
    requires IsShuffler(shuffle)
  {
    Ids(SelectSample(ActiveNodes(nodes, cutoff), nps, shuffle))
  }

  /** No two nodes of the list share an id. */
  ghost predicate DistinctIds(nodes: seq<Node>) {
    forall i, j :: 0 <= i < j < |nodes| ==> nodes[i].nodeId != nodes[j].nodeId
  }

  lemma {:induction false} DistinctIdsOccurOnce(nodes: seq<Node>, n: Node)
    requires DistinctIds(nodes)
    ensures multiset(nodes)[n] <= 1
  {
    if nodes != [] {
      var tail := nodes[1..];
      assert nodes == [nodes[0]] + tail;
      assert DistinctIds(tail) by {
        forall i, j | 0 <= i < j < |tail| ensures tail[i].nodeId != tail[j].nodeId {
          assert tail[i] == nodes[i + 1] && tail[j] == nodes[j + 1];
        }
      }
      DistinctIdsOccurOnce(tail, n);
      forall k | 0 <= k < |tail| ensures tail[k] != nodes[0] {
        assert tail[k] == nodes[k + 1];
      }
    }
  }

  lemma {:induction false} TwoPositionsCountTwice(s: seq<Node>, i: nat, j: nat)
    requires i < j < |s|
    ensures s[i] == s[j] ==> multiset(s)[s[i]] >= 2
  {
    assert s == s[..j] + s[j..];
    assert s[i] in s[..j];
    assert s[j] in s[j..];
  }

  /** Distinct ids survive taking a sub-multiset. */
  lemma {:induction false} DistinctIdsOfSubmultiset(a: seq<Node>, b: seq<Node>)
    requires multiset(a) <= multiset(b) && DistinctIds(b)
    ensures DistinctIds(a)
  {
    forall i, j | 0 <= i < j < |a| ensures a[i].nodeId != a[j].nodeId {
      TwoPositionsCountTwice(a, i, j);
      DistinctIdsOccurOnce(b, a[i]);
      assert a[i] != a[j];
      assert a[i] in multiset(b) && a[j] in multiset(b);
      var p :| 0 <= p < |b| && b[p] == a[i];
      var q :| 0 <= q < |b| && b[q] == a[j];
      if p < q {
        assert b[p].nodeId != b[q].nodeId;
      } else {
        assert b[q].nodeId != b[p].nodeId;
      }
    }
  }

  /** Every selected id is the id of a live node seen after the cutoff, and
      with unique live ids no id is selected twice. */
  lemma {:induction false} SelectedIdsAreActive(nodes: seq<Node>, cutoff: Instant, nps: int, shuffle: Shuffler)
    requires IsShuffler(shuffle)
    ensures var ids := SelectedIds(nodes, cutoff, nps, shuffle);
      forall i :: 0 <= i < |ids| ==> exists n :: n in nodes && WasSeenAfter(n, cutoff) && n.nodeId == ids[i]
    ensures DistinctIds(nodes) ==> var ids := SelectedIds(nodes, cutoff, nps, shuffle);
      forall i, j :: 0 <= i < j < |ids| ==> ids[i] != ids[j]
  {
    var active := ActiveNodes(nodes, cutoff);
    var picked := SelectSample(active, nps, shuffle);
    SelectionWithinActive(active, nps, shuffle);
    var ids := Ids(picked);
    forall i | 0 <= i < |ids| ensures exists n :: n in nodes && WasSeenAfter(n, cutoff) && n.nodeId == ids[i] {
      assert picked[i] in multiset(active);
      assert picked[i] in active;
    }
    if DistinctIds(nodes) {
      DistinctIdsOfSubmultiset(active, nodes);
      DistinctIdsOfSubmultiset(picked, active);
    }
  }
}
