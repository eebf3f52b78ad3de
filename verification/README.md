# PlanetLab slice population, modelled in Dafny

This project models the core of a small PlanetLab client. `plc.py` is a facade over the PLC XML-RPC interface, with `Node` and `Slice` snapshots built from remote records. `populate-slice.py` uses it to add nodes to a slice. It takes the live nodes that were contacted recently, up to `nps` of them per site, and adds them in one update once the slice is known to be large enough.

Modules, one per file:

- `Records` (records.dfy): the loosely typed values of a remote record (`Null`, integers, strings, lists), Python truthiness, lookup with a `None` default, and the errors the code raises, including the `TypeError` of a list used as a dictionary key.
- `Lists` (lists.dfy): the list comprehension filter and Python's `s[:k]` slice, including a negative `k`.
- `Clock` (clock.dfy): instants are integer microseconds since the epoch, which is the resolution of Python's `datetime`. It also covers conversion to whole epoch seconds, which truncates toward zero, and the renewal constants: eight weeks of reach and one day of resolution.
- `Inventory` (inventory.dfy): `Node` and `Slice` construction, `was_seen_after`, `can_renew`.
- `Client` (client.dfy): the PLC facade's guards and reply handling.
  - The remote service is a `Server`: reply functions that see the whole call log, so a stateful or faulting server is allowed.
  - Every operation returns its result together with the extended log.
  - "No remote mutation" means the log gains no `UpdateSlice` call, that is, `Updates(log)` is unchanged.
- `Selection` (selection.dfy): the cutoff, the active filter, grouping by site, capped per-site sampling and the node ids selected.
  - The shuffle is a parameter that may be any function returning a permutation of its input (`IsShuffler`).
- `Populate` (populate.dfy): the whole run.
  - It queries the live nodes and selects ids.
  - It fetches the slice and formats two report lines on it.
  - It checks capacity, adds the nodes and formats a third report line on the result.
  - The report lines raise unless `slice_id` and `max_nodes` are integers and `node_ids` has a length.

Some behaviours of the code worth noting:

- A `Node` record without `node_id` is accepted. Its id is `None`, like every other missing field.
- Ids selected from different sites can repeat when the node query returns two records with the same id. `Selection.SelectedIdsAreActive` therefore proves the absence of duplicates only for live nodes with distinct ids.
- Errors in a run are caught and reported on stderr. That reporting is not modelled.

The sites of the grouping are visited in the order they are first met. The source iterates a Python 2 `defaultdict`, whose order is arbitrary, so no property here speaks of the order across sites. `dt.today()` is a local, naive clock reading, yet it is compared with naive UTC instants from `utcfromtimestamp`. The model takes `today` as a parameter on the same axis, as the code does.

## Model

| member | source | states |
|---|---|---|
| Clock.ToUnixSeconds | plc.py:36-39 | `int(to_unix_time(t))` is the whole number of seconds of `t`, truncated toward zero: at most one second below a non-negative instant and at most one second above a negative one |
| Clock.UnixSecondsRoundTrip | plc.py:36-39 | a whole number of epoch seconds converted to an instant and back is unchanged; this and the bounds of `Clock.ToUnixSeconds` are the contract of `Clock.FromUnixSeconds`, the `utcfromtimestamp` of whole seconds at plc.py:72 and plc.py:122 |
| Inventory.NodeFromRecord | plc.py:109-122 | building a node fails exactly when `last_contact` is truthy and not a number; `node_id`, `hostname`, `boot_state`, `last_boot`, `site_id` and `slice_ids` are the record's values, `None` when absent; `last_seen` is present exactly when `last_contact` is truthy, and is then that many seconds after the epoch |
| Inventory.NodeToleratesMissingKeys | plc.py:98-119 | a record missing any keys still gives a node when `last_contact` is absent or numeric, and each missing field reads as `None` |
| Inventory.NeverContactedIsStale | plc.py:121-128 | a node whose `last_contact` is absent, `None` or `0` is never seen after any cutoff; with the next row this is the contract of `Inventory.WasSeenAfter` (plc.py:125-128) |
| Inventory.SeenAfterIsInclusive | plc.py:121-128 | for a non-zero `last_contact`, the node is seen after exactly the cutoffs at or before that instant, its own instant included, which is how `Inventory.WasSeenAfter` compares with `>=` |
| Inventory.FirstMissing | plc.py:70-78 | the result is the first key of the list absent from the record, all keys before it being present; none iff every key is present |
| Inventory.SliceFromCheckedRecord | plc.py:73-78 | once `name`, `slice_id` and a numeric `expires` have been read, the slice is built iff the six later keys are present, with the record's values as fields; otherwise the error is the `KeyError` of the first later key missing |
| Inventory.SliceFromRecord | plc.py:67-78 | a slice is built iff all nine keys are present and `expires` is a number; its fields are the record's values with `expires` converted; a missing `name`, `slice_id` or `expires` gives the `KeyError` of the first one missing; with those three present, a non-numeric `expires` gives the conversion error before any later key is read; otherwise the error is the `KeyError` of the first missing key in reading order |
| Inventory.CanRenew | plc.py:81-84 | a slice can be renewed iff it expires no later than eight weeks less one day after `today`; this is where `Clock.RenewUpto` (plc.py:43-46, `today` plus the eight-week default) is stated |
| Inventory.CanRenewMonotone | plc.py:81-84 | a slice renewable at some instant stays renewable at every later instant |
| Client.GetSlice | plc.py:174-185 | one `GetSlices` call and no update; a fault, no record and several records are errors; exactly one record gives the slice built from it |
| Client.UpdateThenFetch | plc.py:196-198 | one `UpdateSlice` call; an answer of 1 leads to a re-fetch of the same slice id and nothing else; any other answer is an error after that single call |
| Client.RenewSlice | plc.py:188-198 | exactly one update of `expires` is submitted, carrying the whole seconds of `ts` when given and of eight weeks from `today` otherwise, truncated toward zero, so never further from zero than the target and within one second of it (the value `Client.RenewalTarget` computes, plc.py:191-194); success implies the service answered 1 |
| Client.RenewedToCeilingCannotRenew | plc.py:191-192 | a slice renewed to the default ceiling cannot be renewed again until almost a day later |
| Client.ResizeSlice | plc.py:201-210 | a size at or below 0 is an error with no call made; otherwise exactly one update of `max_nodes`, and success implies the service answered 1 |
| Client.AddNodes | plc.py:213-221 | an empty node list is an error with no call made; otherwise exactly one update of `nodes` with that list, and success implies the service answered 1 |
| Client.NodesFromRecords | plc.py:229-231 | the node list is built iff every record gives a node, position by position; otherwise the error is the `last_contact` conversion error |
| Client.GetLiveNodes | plc.py:224-231 | one `GetNodes` call filtered to booted nodes, for the required fields unless fields are given; no update; a fault is reported as such; an answered query gives exactly the nodes converted from its records |
| Lists.FilterCounts | populate-slice.py:59 | the filtered list holds exactly the accepted elements, each as often as in the input; this is the contract of `Lists.Filter`, the comprehension itself |
| Lists.FilterDistributes | populate-slice.py:59 | filtering distributes over concatenation, so it keeps the input order |
| Lists.Take | populate-slice.py:74 | `s[:k]` is the prefix of `s` of length `min(len(s), k)` for `k >= 0`, and of `len(s) + k` floored at 0 for negative `k` |
| Selection.ActiveNodes | populate-slice.py:59 | the active list holds exactly the live nodes seen after the cutoff, each as often as among the live nodes |
| Selection.ActiveMeansRecentlySeen | populate-slice.py:57-59 | a node is active iff its last contact is at most `staleness` days before `today`; this is the contract of `Selection.Cutoff` (populate-slice.py:58) |
| Selection.ActiveNodesKeepOrder | populate-slice.py:59 | the active list of a concatenation is the concatenation of the active lists |
| Selection.Place | populate-slice.py:63-64 | a node is appended to its own site's list, a new site's key being inserted last; every other key and list is unchanged; it is reached only with hashable sites, a list-valued site ending the run first (see `Populate.PopulateSlice`) |
| Selection.PlaceKeepsKeys | populate-slice.py:63-64 | placing a node keeps the keys distinct and in step with the lists |
| Selection.PlaceKeepsLists | populate-slice.py:63-64 | placing a node keeps each site's list equal to that site's nodes so far, in order |
| Selection.GroupBySitePartitions | populate-slice.py:62-64 | the groups `Selection.GroupBySite` builds partition the active nodes: one non-empty group per site that occurs, holding that site's nodes in their original order |
| Selection.SampleGroup | populate-slice.py:69-74 | a site's sample has length `len(nodes[:nps])` and holds none of its nodes more often than the site has them; a site with at most `nps` nodes is taken whole, unshuffled |
| Selection.SelectFromGroups | populate-slice.py:67-74 | the concatenated samples are as long as the sum of the per-site sample lengths |
| Selection.AtSiteOfSelection | populate-slice.py:67-74 | what the selection keeps of a site is that site's own sample, and nothing for a site without a group |
| Selection.SelectionPerSite | populate-slice.py:62-74 | every site contributes `min(n, nps)` of its `n` active nodes, for `nps >= 0`, never more than it has; all of them in their original order when `n <= nps`; this states what `Selection.SelectSample` (populate-slice.py:62-74) selects |
| Selection.SelectionWithinActive | populate-slice.py:59-74 | the selection holds no node more often than the active list, and is no longer |
| Selection.SelectionTotal | populate-slice.py:62-77 | the group keys are exactly the distinct sites of the active nodes, and the selection size is the sum over them of `len(nodes[:nps])` for the site's `n` active nodes: `min(n, nps)` for `nps >= 0`, and `max(n + nps, 0)` for a negative `nps` |
| Selection.SelectionSizesIgnoreShuffle | populate-slice.py:71-74 | the number of nodes selected, per site and in total, does not depend on the shuffle |
| Selection.Ids | populate-slice.py:74 | the id list has one entry per node: its `node_id`, in order |
| Selection.SelectedIdsAreActive | populate-slice.py:57-77 | every selected id is the id of a live node seen after the cutoff, and when the live ids are distinct no id is selected twice; this is the contract of `Selection.SelectedIds` and of `Populate.Selected`, the ids `Selection.SelectSample` picks |
| Populate.Submit | populate-slice.py:78-89 | a fetch error, a malformed report and a too-small slice end the run with no update; a large enough slice gets exactly one update adding the ids when they are non-empty; any update adds exactly those ids to the fetched slice after the capacity check passed; the report guards `Populate.ReportsSize` (lines 79-80 and 88-89) and `Populate.ReportsCapacity` (lines 81-82) hold of the slice whenever an update is made, and a successful result has a node list whose length can be reported |
| Populate.PopulateSlice | populate-slice.py:54-89 | the node query is the first call, at most one update is issued, and a successful run issued exactly one; an active node whose site is a list ends the run with the `TypeError` of line 64, after the node query alone |
| Populate.CapacityCheckedBeforeAdd | populate-slice.py:84-87 | once every active site could key the groups and the fetched slice has been reported, if its `max_nodes` is below the selection size, the run fails and makes no update; otherwise, for a non-empty selection, exactly one update adds the selection; no other update is ever made |
| Populate.UpdateCarriesSelection | populate-slice.py:74-87 | the one update a run may issue adds exactly the ids selected from the live nodes it read, whose active sites were all hashable, that is, `Populate.Selected` of those nodes |
| Populate.AddedNodesAreActive | populate-slice.py:57-87 | every node id a run adds belongs to a live node seen after the cutoff, and with distinct live ids none is added twice |

## Left out

- Authentication: the `PLC` constructor, `check_auth` and its fault 103 mapping, and `get_pwd`. These are remote calls and terminal I/O; the model starts with an authenticated client.
- The XML-RPC transport. Replies are inputs given by `Server`, and a fault keeps its code and message.
- The `print` lines, `argparse` and the stderr report in the catch-all handler. These are I/O. The three report lines that can raise are modelled only as guards on the types of `slice_id`, `max_nodes` and `node_ids`.
- Floating-point timestamps and `total_seconds`. Remote timestamps are integers here, and a float `last_contact` or `expires` is not representable in `Value`.
- The year range of `datetime` and the `OverflowError` of `utcfromtimestamp` for out-of-range timestamps. Instants are unbounded integers.
- The uniform distribution of `random.shuffle`. Only the fact that it returns a permutation is modelled.
- The order of the selection across sites. It depends on `defaultdict` iteration order.
- Clock.ToUnixSeconds: the float rounding of `total_seconds` for instants beyond 2^53 microseconds is not modelled; the conversion is exact here.
- Client.GetLiveNodes: the server-side `boot_state` filter is only recorded in the call, not checked against the returned records.
- Dictionary and boolean values in remote records are not representable in `Value`.
