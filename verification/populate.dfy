/**
 * The populate-slice run (populate-slice.py:54-89): query the live nodes,
 * select the active ones site by site, fetch the slice, report it, check
 * its capacity and add the selection in a single update.
 */
module Populate {
  import opened Records
  import opened Clock
  import opened Inventory
  import opened Lists
  import opened Selection
  import opened Client

  /** The report lines on a slice's size format its id with `%d` and its
      node list with `len`, which raise unless those are an integer and a
      sized value. */
  predicate ReportsSize(s: Slice) {
    s.sliceId.Int? && (s.nodes.Str? || s.nodes.List?)
  }

  /** The report line on a slice's capacity formats `max_nodes` with `%d`. */
  predicate ReportsCapacity(s: Slice) {
    s.sliceId.Int? && s.maxNodes.Int?
  }

  /** The slice can be reported and its capacity is below `want`. */
  predicate TooSmall(s: Slice, want: nat) {
    ReportsSize(s) && ReportsCapacity(s) && s.maxNodes.i < want
  }

  /** The slice can be reported and hosts `want` nodes. */
  predicate LargeEnough(s: Slice, want: nat) {
    ReportsSize(s) && ReportsCapacity(s) && want <= s.maxNodes.i
  }

  /** Fetch the slice named `sliceName`, report it, and add `ids` to it when
      it can host them. The only update ever issued adds exactly `ids` to
      the fetched slice, after the capacity check passed. */
  function Submit(server: Server, log: seq<Call>, sliceName: string, ids: seq<Value>): (r: Run<Slice>)
    ensures log < r.log
    ensures var fetched := GetSlice(server, log, Str(sliceName));
      Updates(r.log) != Updates(log) ==>
        && fetched.result.Ok?
        && LargeEnough(fetched.result.value, |ids|)
        && ids != []
        && Updates(r.log) == Updates(log) + [UpdateSlice(fetched.result.value.sliceId, NodesField, List(ids))]
    ensures var fetched := GetSlice(server, log, Str(sliceName));
      fetched.result.Ok? && TooSmall(fetched.result.value, |ids|) ==> r == Run(Err(SliceTooSmall), fetched.log)
    ensures var fetched := GetSlice(server, log, Str(sliceName));
      fetched.result.Ok? && LargeEnough(fetched.result.value, |ids|) && ids != [] ==>
        Updates(r.log) == Updates(log) + [UpdateSlice(fetched.result.value.sliceId, NodesField, List(ids))]
    ensures r.result.Ok? ==> Updates(r.log) != Updates(log) && ReportsSize(r.result.value)
  {
    var fetched := GetSlice(server, log, Str(sliceName));
    match fetched.result
    case Err(_) => fetched
    case Ok(s) =>
      if !(ReportsSize(s) && ReportsCapacity(s)) then Run(Err(BadFormat), fetched.log)
      else if s.maxNodes.i < |ids| then Run(Err(SliceTooSmall), fetched.log)
      else
        var added := AddNodes(server, fetched.log, s.sliceId, ids);
        if added.result.Ok? && !ReportsSize(added.result.value) then Run(Err(BadFormat), added.log)
        else added
  }

  /** The ids the run selects from the live nodes. */
  function Selected(nodes: seq<Node>, today: Instant, staleness: int, nps: int, shuffle: Shuffler): seq<Value>
    requires IsShuffler(shuffle)
  {
    SelectedIds(nodes, Cutoff(today, staleness), nps, shuffle)
  }

  /** The whole run, with the clock reading `today` and the shuffle given:
      the node query comes first, and at most one update is ever issued. */
  function PopulateSlice(server: Server, today: Instant, staleness: int, sliceName: string, nps: int, shuffle: Shuffler)
    : (r: Run<Slice>)
    requires IsShuffler(shuffle)
    ensures 0 < |r.log| && r.log[0] == GetNodes(BootFilter, RequiredNodeFields)
    ensures |Updates(r.log)| <= 1
    ensures r.result.Ok? ==> |Updates(r.log)| == 1
    ensures var live := GetLiveNodes(server, [], None);
      live.result.Ok? && !SitesHashable(ActiveNodes(live.result.value, Cutoff(today, staleness))) ==>
        r == Run(Err(UnhashableSite), live.log)
  {
    var live := GetLiveNodes(server, [], None);
    assert Updates(live.log) == [] by {
      assert Updates([]) == [];
    }
    match live.result
    case Err(e) => Run(Err(e), live.log)
    case Ok(nodes) =>
      if !SitesHashable(ActiveNodes(nodes, Cutoff(today, staleness))) then Run(Err(UnhashableSite), live.log)
      else
        var r := Submit(server, live.log, sliceName, Selected(nodes, today, staleness, nps, shuffle));
        assert r.log[0] == live.log[0];
        r
  }

  /** The capacity check decides whether the run mutates the slice: a slice
      too small for the selection gets no update, a large enough one gets
      exactly one update adding the selection, and no other update is ever
      issued. */
  lemma {:induction false} CapacityCheckedBeforeAdd(server: Server, today: Instant, staleness: int, sliceName: string,
                                                   nps: int, shuffle: Shuffler)
    requires IsShuffler(shuffle)
    ensures var live := GetLiveNodes(server, [], None);
      var r := PopulateSlice(server, today, staleness, sliceName, nps, shuffle);
      live.result.Ok? && SitesHashable(ActiveNodes(live.result.value, Cutoff(today, staleness))) ==>
        var ids := Selected(live.result.value, today, staleness, nps, shuffle);
        var fetched := GetSlice(server, live.log, Str(sliceName));
        && (fetched.result.Ok? && TooSmall(fetched.result.value, |ids|) ==>
              r.result == Err(SliceTooSmall) && Updates(r.log) == [])
        && (fetched.result.Ok? && LargeEnough(fetched.result.value, |ids|) && ids != [] ==>
              Updates(r.log) == [UpdateSlice(fetched.result.value.sliceId, NodesField, List(ids))])
        && (Updates(r.log) != [] ==>
              && fetched.result.Ok? && LargeEnough(fetched.result.value, |ids|)
              && Updates(r.log) == [UpdateSlice(fetched.result.value.sliceId, NodesField, List(ids))])
  {
    var live := GetLiveNodes(server, [], None);
    assert Updates(live.log) == [] by {
      assert Updates([]) == [];
    }
  }

  /** The one update a run may issue adds the node ids selected from the
      live nodes the run read. */
  lemma {:induction false} UpdateCarriesSelection(server: Server, today: Instant, staleness: int, sliceName: string,
                                                  nps: int, shuffle: Shuffler)
    requires IsShuffler(shuffle)
    ensures var live := GetLiveNodes(server, [], None);
      var r := PopulateSlice(server, today, staleness, sliceName, nps, shuffle);
      forall u :: u in Updates(r.log) ==>
        && live.result.Ok?
        && SitesHashable(ActiveNodes(live.result.value, Cutoff(today, staleness)))
        && u == UpdateSlice(u.sid, NodesField, List(Selected(live.result.value, today, staleness, nps, shuffle)))
  {
    var live := GetLiveNodes(server, [], None);
    CapacityCheckedBeforeAdd(server, today, staleness, sliceName, nps, shuffle);
    if live.result.Err? {
      assert Updates(live.log) == [] by {
        assert Updates([]) == [];
      }
    }
  }

  /** Every node id the run adds is the id of a live node seen after the
      cutoff, and with unique live ids none is added twice. */
  lemma {:induction false} AddedNodesAreActive(server: Server, today: Instant, staleness: int, sliceName: string,
                                              nps: int, shuffle: Shuffler)
    requires IsShuffler(shuffle)
    ensures var live := GetLiveNodes(server, [], None);
      var added := Updates(PopulateSlice(server, today, staleness, sliceName, nps, shuffle).log);
      added != [] ==>
        && live.result.Ok?
        && added[0].UpdateSlice? && added[0].value.List?
        && (forall i :: 0 <= i < |added[0].value.items| ==>
              exists n :: n in live.result.value && WasSeenAfter(n, Cutoff(today, staleness))
                          && n.nodeId == added[0].value.items[i])
        && (DistinctIds(live.result.value) ==>
              forall i, j :: 0 <= i < j < |added[0].value.items| ==> added[0].value.items[i] != added[0].value.items[j])
  {
    var added := Updates(PopulateSlice(server, today, staleness, sliceName, nps, shuffle).log);
    UpdateCarriesSelection(server, today, staleness, sliceName, nps, shuffle);
    if added != [] {
      assert added[0] in added;
      var live := GetLiveNodes(server, [], None);
      SelectedIdsAreActive(live.result.value, Cutoff(today, staleness), nps, shuffle);
    }
  }
}
