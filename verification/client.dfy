/**
 * The client-side logic of the PLC facade: the guards it applies before a
 * remote call and the way it reads the replies (plc.py:174-231). The remote
 * service is a `Server` whose replies may depend on every call made so far,
 * and each operation returns its result together with the log of calls it
 * issued, so that "no remote mutation" is a statement about that log.
 */
module Client {
  import opened Records
  import opened Clock
  import opened Inventory

  /** A remote procedure call with its arguments; the credentials every call
      carries are left implicit. */
  datatype Call =
    | GetNodes(filter: Record, fields: seq<string>)
    | GetSlices(ident: Value)
    | UpdateSlice(sid: Value, field: string, value: Value)

  /** A reply: a value, or an XML-RPC fault. */
  datatype Reply<T> = Answer(value: T) | Fault(code: int, message: string)

  /** A remote service. Each reply function is given the calls made so far,
      the last one being the call it answers. */
  datatype Server = Server(
    nodes: seq<Call> -> Reply<seq<Record>>,
    slices: seq<Call> -> Reply<seq<Record>>,
    update: seq<Call> -> Reply<int>)

  /** The outcome of a client operation and the call log after it. */
  datatype Run<T> = Run(result: Result<T>, log: seq<Call>)

  /** The mutating calls of a log, in order. */
  function Updates(log: seq<Call>): (u: seq<Call>)
    ensures |u| <= |log|
  {
    if log == [] then []
    else
      var c := log[|log| - 1];
      Updates(log[..|log| - 1]) + (if c.UpdateSlice? then [c] else [])
  }

  /** Appending a call to a log extends its mutations by that call alone
      when it is an update. */
  lemma {:induction false} UpdatesAppend(log: seq<Call>, c: Call)
    ensures Updates(log + [c]) == Updates(log) + (if c.UpdateSlice? then [c] else [])
  {
    assert (log + [c])[..|log|] == log;
  }

  /** The mutations of a log are exactly its update calls. */
  lemma {:induction false} UpdatesAreUpdateCalls(log: seq<Call>)
    ensures forall c :: c in Updates(log) <==> c in log && c.UpdateSlice?
  {
    if log != [] {
      var prefix := log[..|log| - 1];
      UpdatesAreUpdateCalls(prefix);
      assert log == prefix + [log[|log| - 1]];
    }
  }

  /** `get_slice(ident)`: exactly one record is accepted; none and several
      are errors. */
  function GetSlice(server: Server, log: seq<Call>, ident: Value): (r: Run<Slice>)
    ensures r.log == log + [GetSlices(ident)]
    ensures Updates(r.log) == Updates(log)
    ensures var reply := server.slices(r.log);
      && (reply.Fault? ==> r.result == Err(RemoteFault(reply.code, reply.message)))
      && (reply == Answer([]) ==> r.result == Err(NoSliceFound))
      && (reply.Answer? && |reply.value| > 1 ==> r.result == Err(SeveralSlicesFound))
      && (reply.Answer? && |reply.value| == 1 ==> r.result == SliceFromRecord(reply.value[0]))
  {
    var log' := log + [GetSlices(ident)];
    UpdatesAppend(log, GetSlices(ident));
    match server.slices(log')
    case Fault(code, message) => Run(Err(RemoteFault(code, message)), log')
    case Answer(recs) =>
      if |recs| == 0 then Run(Err(NoSliceFound), log')
      else if |recs| != 1 then Run(Err(SeveralSlicesFound), log')
      else Run(SliceFromRecord(recs[0]), log')
  }

  /** Issue one `UpdateSlice` and, when it answers 1, re-fetch the slice;
      any other answer raises `rejected`. */
  function UpdateThenFetch(server: Server, log: seq<Call>, sid: Value, field: string, value: Value, rejected: Error)
    : (r: Run<Slice>)
    ensures var log' := log + [UpdateSlice(sid, field, value)];
      && Updates(r.log) == Updates(log) + [UpdateSlice(sid, field, value)]
      && r.log == log' + (if server.update(log') == Answer(1) then [GetSlices(sid)] else [])
      && (server.update(log') == Answer(1) ==> r == GetSlice(server, log', sid))
      && (server.update(log') != Answer(1) ==> r.log == log' && r.result.Err?)
      && (server.update(log').Answer? && server.update(log').value != 1 ==> r.result == Err(rejected))
  {
    var call := UpdateSlice(sid, field, value);
    var log' := log + [call];
    UpdatesAppend(log, call);
    match server.update(log')
    case Fault(code, message) => Run(Err(RemoteFault(code, message)), log')
    case Answer(ack) =>
      if ack == 1 then GetSlice(server, log', sid)
      else Run(Err(rejected), log')
  }

  /** The expiry a renewal submits: `ts` when given, otherwise the renewal
      ceiling, in whole epoch seconds. */
  function RenewalTarget(ts: Option<Instant>, today: Instant): int {
    ToUnixSeconds(if ts.Some? then ts.value else RenewUpto(today, RenewalCap))
  }

  /** `renew_slice(sid, ts)`: always submits exactly one update of `expires`,
      within a second of the chosen instant. */
  function RenewSlice(server: Server, log: seq<Call>, sid: Value, ts: Option<Instant>, today: Instant)
    : (r: Run<Slice>)
    ensures var target := if ts.Some? then ts.value else today + RenewalCap;
      var secs := RenewalTarget(ts, today);
      && Updates(r.log) == Updates(log) + [UpdateSlice(sid, ExpiresKey, Int(secs))]
      && (0 <= target ==> FromUnixSeconds(secs) <= target < FromUnixSeconds(secs) + MicrosPerSecond)
      && (target < 0 ==> target <= FromUnixSeconds(secs) < target + MicrosPerSecond)
    ensures r.result.Ok? ==> server.update(log + [UpdateSlice(sid, ExpiresKey, Int(RenewalTarget(ts, today)))]) == Answer(1)
    ensures r.result.Err? && r.log == log + [UpdateSlice(sid, ExpiresKey, Int(RenewalTarget(ts, today)))] ==>
      server.update(r.log) != Answer(1)
  {
    UpdateThenFetch(server, log, sid, ExpiresKey, Int(RenewalTarget(ts, today)), RenewRejected)
  }

  /** A slice renewed to the ceiling cannot be renewed again until almost a
      day has passed. */
  lemma {:induction false} RenewedToCeilingCannotRenew(s: Slice, today: Instant, later: Instant)
    requires s.expires == FromUnixSeconds(RenewalTarget(None, today))
    requires later <= today + Day - MicrosPerSecond
    ensures !CanRenew(s, later)
  {
  }

  /** `resize_slice(sid, sz)`: a non-positive size is refused before any call. */
  function ResizeSlice(server: Server, log: seq<Call>, sid: Value, sz: int): (r: Run<Slice>)
    ensures sz <= 0 ==> r == Run(Err(NonPositiveSize), log)
    ensures 0 < sz ==> Updates(r.log) == Updates(log) + [UpdateSlice(sid, MaxNodesKey, Int(sz))]
    ensures log <= r.log
    ensures r.result.Ok? ==> 0 < sz && server.update(log + [UpdateSlice(sid, MaxNodesKey, Int(sz))]) == Answer(1)
  {
    if sz <= 0 then Run(Err(NonPositiveSize), log)
    else UpdateThenFetch(server, log, sid, MaxNodesKey, Int(sz), ResizeRejected)
  }

  /** The field name `add_nodes` patches. */
  const NodesField := "nodes"

  /** `add_nodes(sid, nodes)`: an empty list is refused before any call. */
  function AddNodes(server: Server, log: seq<Call>, sid: Value, nodes: seq<Value>): (r: Run<Slice>)
    ensures nodes == [] ==> r == Run(Err(EmptyNodeList), log)
    ensures nodes != [] ==> Updates(r.log) == Updates(log) + [UpdateSlice(sid, NodesField, List(nodes))]
    ensures log <= r.log
    ensures r.result.Ok? ==> nodes != [] && server.update(log + [UpdateSlice(sid, NodesField, List(nodes))]) == Answer(1)
  {
    if nodes == [] then Run(Err(EmptyNodeList), log)
    else UpdateThenFetch(server, log, sid, NodesField, List(nodes), AddRejected)
  }

  /** The server-side filter of `get_live_nodes`: booted nodes only. */
  const BootFilter: Record := map[BootKey := Str("boot")]

  /** `[Node(n) for n in recs]`: the first record that cannot be read
      fails the whole list. */
  function NodesFromRecords(recs: seq<Record>): (r: Result<seq<Node>>)
    ensures r.Ok? <==> forall i :: 0 <= i < |recs| ==> NodeFromRecord(recs[i]).Ok?
    ensures r.Ok? ==> |r.value| == |recs| && forall i :: 0 <= i < |recs| ==> r.value[i] == NodeFromRecord(recs[i]).value
    ensures r.Err? ==> r.error == BadTimestamp(LastContactKey)
  {
    if recs == [] then Ok([])
    else
      match NodeFromRecord(recs[0])
      case Err(e) => Err(e)
      case Ok(n) =>
        match NodesFromRecords(recs[1..])
        case Err(e) => Err(e)
        case Ok(rest) => Ok([n] + rest)
  }

  /** `get_live_nodes(fields)`: one node query, for the required fields
      unless `fields` are given. */
  function GetLiveNodes(server: Server, log: seq<Call>, fields: Option<seq<string>>): (r: Run<seq<Node>>)
    ensures r.log == log + [GetNodes(BootFilter, if fields.None? then RequiredNodeFields else fields.value)]
    ensures Updates(r.log) == Updates(log)
    ensures r.result.Ok? ==> server.nodes(r.log).Answer?
    ensures server.nodes(r.log).Answer? ==> r.result == NodesFromRecords(server.nodes(r.log).value)
    ensures server.nodes(r.log).Fault? ==> r.result == Err(RemoteFault(server.nodes(r.log).code, server.nodes(r.log).message))
  {
    var call := GetNodes(BootFilter, if fields.None? then RequiredNodeFields else fields.value);
    var log' := log + [call];
    UpdatesAppend(log, call);
    match server.nodes(log')
    case Fault(code, message) => Run(Err(RemoteFault(code, message)), log')
    case Answer(recs) => Run(NodesFromRecords(recs), log')
  }
}
