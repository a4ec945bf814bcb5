/** The dispatcher (`Storage`): one logical store over an ordered list of backends.
    Reads are answered by the default backend alone. Writes and deletes go to the
    default backend first and, when asked, are then "reflected" to the other backends
    one at a time in ascending index order, stopping at the first failure and undoing
    nothing.

    Every operation is a function of the dispatcher's state that returns its result,
    the dispatcher's new state and the trace of backend calls it made, in order. */
module Dispatcher {
  import opened Containers
  import opened Failures
  import opened Containering
  import opened Backends

  datatype Storage = Storage(endpoints: seq<Backend>, defaultEndpoint: nat)

  /** One backend call: which endpoint was called, and with what. */
  datatype Event = Event(endpoint: nat, call: Call)

  /** The outcome of a dispatcher operation. */
  datatype Step<T> = Step(result: Result<T>, storage: Storage, trace: seq<Event>)

  /** The outcome of calling a run of endpoints. */
  datatype Sweep = Sweep(result: Result<()>, endpoints: seq<Backend>, trace: seq<Event>)

  /** The default endpoint names a backend; otherwise every operation fails. */
  predicate Resolvable(s: Storage)
  {
    s.defaultEndpoint < |s.endpoints|
  }

  /** Only the stored containers of a backend may change; its name, its policy for
      absent ids and its failure oracle stay as they are. */
  predicate SameBackends(eps: seq<Backend>, eps': seq<Backend>)
  {
    |eps'| == |eps| && forall j :: 0 <= j < |eps| ==> eps'[j] == eps[j].(entries := eps'[j].entries)
  }

  // ---------------------------------------------------------------------------
  // Introspection

  function NamesOf(eps: seq<Backend>): (r: seq<string>)
    ensures |r| == |eps|
    ensures forall k :: 0 <= k < |eps| ==> r[k] == eps[k].name
  {
    if |eps| == 0 then [] else [eps[0].name] + NamesOf(eps[1..])
  }

  /** The endpoints' names, in construction order. */
  function Names(s: Storage): (r: seq<string>)
    ensures |r| == |s.endpoints|
    ensures forall k :: 0 <= k < |s.endpoints| ==> r[k] == s.endpoints[k].name
  {
    NamesOf(s.endpoints)
  }

  // ---------------------------------------------------------------------------
  // Fan-out

  /** The indices `from`, `from + 1`, ..., `n - 1` with `skip` left out: the order in
      which a reflect loop that starts at `from` calls the endpoints. */
  function Ascending(from: nat, n: nat, skip: nat): (r: seq<nat>)
    ensures forall j :: j in r <==> from <= j < n && j != skip
    decreases n - from
  {
    if from >= n then []
    else if from == skip then Ascending(from + 1, n, skip)
    else [from] + Ascending(from + 1, n, skip)
  }

  /** Strictly increasing: each index comes before every larger one. */
  ghost predicate Increasing(r: seq<nat>)
  {
    forall a, b :: 0 <= a < b < |r| ==> r[a] < r[b]
  }

  lemma {:induction false} AscendingIncreases(from: nat, n: nat, skip: nat)
    ensures Increasing(Ascending(from, n, skip))
    decreases n - from
  {
    if from < n {
      AscendingIncreases(from + 1, n, skip);
      var rest := Ascending(from + 1, n, skip);
      assert forall a :: 0 <= a < |rest| ==> rest[a] in rest;
    }
  }

  /** How a sweep sees one backend call: the answer reduced to success or failure,
      and the backend after the call. The dispatcher's sweeps use `Handle`; the
      sweeps are written for any such function that behaves like it. */
  type Serve = (Backend, Call) -> Response<()>

  /** A serve function that keeps `Handle`'s promises: a faulting call fails with its
      fault and changes nothing; a write fails only by faulting; a failed call or a
      read changes nothing; only stored containers ever change; a successful call
      leaves its effect behind. */
  ghost predicate Faithful(serve: Serve)
  {
    forall b: Backend, call: Call ::
      && (Faulty(b, call) ==> serve(b, call) == Response(Err(FaultOf(b, call)), b))
      && (IsWrite(call) ==> (serve(b, call).result.Ok? <==> !Faulty(b, call)))
      && (serve(b, call).result.Err? || !Mutates(call) ==> serve(b, call).after == b)
      && serve(b, call).after == b.(entries := serve(b, call).after.entries)
      && (serve(b, call).result.Ok? ==> Effect(serve(b, call).after, call))
  }

  lemma HandleFaithful()
    ensures Faithful(Handle)
  {
  }

  /** The reference executor: call each listed endpoint with `call`, in list order,
      and stop at the first failure, which becomes the result. */
  function Run(serve: Serve, eps: seq<Backend>, call: Call, targets: seq<nat>): (r: Sweep)
    requires Faithful(serve)
    requires forall k :: 0 <= k < |targets| ==> targets[k] < |eps|
    ensures SameBackends(eps, r.endpoints)
    ensures |r.trace| <= |targets|
    ensures forall k :: 0 <= k < |r.trace| ==> r.trace[k] == Event(targets[k], call)
    ensures r.result.Ok? ==> |r.trace| == |targets|
    ensures r.result.Err? ==> |r.trace| > 0
    decreases |targets|
  {
    if |targets| == 0 then Sweep(Ok(()), eps, [])
    else
      var k := targets[0];
      var resp := serve(eps[k], call);
      var eps' := eps[k := resp.after];
      if resp.result.Err? then Sweep(resp.result, eps', [Event(k, call)])
      else
        var rest := Run(serve, eps', call, targets[1..]);
        assert forall m :: 0 <= m < |rest.trace| ==> targets[1..][m] == targets[m + 1];
        Sweep(rest.result, rest.endpoints, [Event(k, call)] + rest.trace)
  }

  /** The reflect loop: walk the endpoints from index `i` upwards, skip `skip`, call
      every other one with `call`, and stop at the first failure. */
  function FanOut(serve: Serve, eps: seq<Backend>, call: Call, skip: nat, i: nat): (r: Sweep)
    requires Faithful(serve)
    requires i <= |eps|
    ensures SameBackends(eps, r.endpoints)
    ensures forall j :: 0 <= j < |eps| && (j < i || j == skip) ==> r.endpoints[j] == eps[j]
    ensures forall k :: 0 <= k < |r.trace| ==>
      r.trace[k].call == call && i <= r.trace[k].endpoint < |eps| && r.trace[k].endpoint != skip
    decreases |eps| - i
  {
    if i == |eps| then Sweep(Ok(()), eps, [])
    else if i == skip then FanOut(serve, eps, call, skip, i + 1)
    else
      var resp := serve(eps[i], call);
      var eps' := eps[i := resp.after];
      if resp.result.Err? then Sweep(resp.result, eps', [Event(i, call)])
      else
        var rest := FanOut(serve, eps', call, skip, i + 1);
        Sweep(rest.result, rest.endpoints, [Event(i, call)] + rest.trace)
  }

  /** The shared write discipline: call the default endpoint, then, when `reflect`
      holds, every endpoint except `index` in ascending order. The primary is always
      the default endpoint; `index` only decides which endpoint the loop skips. */
  function Reflect(s: Storage, reflect: bool, index: nat, call: Call): (r: Step<()>)
    ensures !Resolvable(s) ==> r == Step(Err(EndpointMissing), s, [])
    ensures r.storage.defaultEndpoint == s.defaultEndpoint
    ensures SameBackends(s.endpoints, r.storage.endpoints)
    ensures forall k :: 0 <= k < |r.trace| ==> r.trace[k].call == call && r.trace[k].endpoint < |s.endpoints|
    ensures Resolvable(s) ==> |r.trace| >= 1 && r.trace[0] == Event(s.defaultEndpoint, call)
    ensures forall k :: 1 <= k < |r.trace| ==> r.trace[k].endpoint != index
    ensures !reflect ==>
      && |r.trace| <= 1
      && forall j :: 0 <= j < |s.endpoints| && j != s.defaultEndpoint ==> r.storage.endpoints[j] == s.endpoints[j]
  {
    if !Resolvable(s) then Step(Err(EndpointMissing), s, [])
    else
      var d := s.defaultEndpoint;
      var primary := Handle(s.endpoints[d], call);
      var eps := s.endpoints[d := primary.after];
      var first := [Event(d, call)];
      if primary.result.Err? then Step(primary.result, s.(endpoints := eps), first)
      else if !reflect then Step(Ok(()), s.(endpoints := eps), first)
      else
        HandleFaithful();
        var sweep := FanOut(Handle, eps, call, index, 0);
        Step(sweep.result, s.(endpoints := sweep.endpoints), first + sweep.trace)
  }

  /** The endpoint index a write names: the explicit one if given, else the default. */
  function TargetIndex(s: Storage, endpointIndex: Option<nat>): (r: nat)
    ensures endpointIndex.Some? ==> r == endpointIndex.value
    ensures endpointIndex.None? ==> r == s.defaultEndpoint
  {
    match endpointIndex
    case Some(i) => i
    case None => s.defaultEndpoint
  }

  // ---------------------------------------------------------------------------
  // Writes

  /** Encodes the object, then writes it to the default endpoint and, if asked,
      reflects it to the others. An encoding failure is reported before any
      endpoint is resolved or called. */
  function WriteContainer<T>(s: Storage, codec: Codec<T>, item: T, endpointIndex: Option<nat>, reflectOnAll: bool): (r: Step<()>)
    ensures codec.toContainer(item).Err? ==> r == Step(Err(codec.toContainer(item).error), s, [])
    ensures !Resolvable(s) ==> r.result.Err? && r.storage == s && r.trace == []
    ensures r.storage.defaultEndpoint == s.defaultEndpoint
    ensures SameBackends(s.endpoints, r.storage.endpoints)
    ensures codec.toContainer(item).Ok? ==>
      forall k :: 0 <= k < |r.trace| ==> r.trace[k].call == WriteOne(codec.toContainer(item).value)
    ensures codec.toContainer(item).Ok? && Resolvable(s) ==>
      |r.trace| >= 1 && r.trace[0] == Event(s.defaultEndpoint, WriteOne(codec.toContainer(item).value))
    ensures forall k :: 0 <= k < |r.trace| ==> r.trace[k].endpoint < |s.endpoints|
    ensures !reflectOnAll ==>
      forall j :: 0 <= j < |s.endpoints| && j != s.defaultEndpoint ==> r.storage.endpoints[j] == s.endpoints[j]
  {
    match codec.toContainer(item)
    case Err(e) => Step(Err(e), s, [])
    case Ok(c) =>
      Reflect(s, reflectOnAll, TargetIndex(s, endpointIndex), WriteOne(Clone(c)))
  }

  /** Encodes every object, in order, before anything else happens; the first
      encoding failure aborts. */
  function EncodeAll<T>(codec: Codec<T>, items: seq<T>): (r: Result<seq<Container>>)
    ensures r.Ok? <==> forall k :: 0 <= k < |items| ==> codec.toContainer(items[k]).Ok?
    ensures r.Ok? ==> |r.value| == |items| && forall k :: 0 <= k < |items| ==> codec.toContainer(items[k]) == Ok(r.value[k])
    ensures r.Err? ==> exists k :: 0 <= k < |items| && codec.toContainer(items[k]) == Err(r.error) &&
                                   (forall m :: 0 <= m < k ==> codec.toContainer(items[m]).Ok?)
    decreases |items|
  {
    if |items| == 0 then Ok([])
    else
      assert forall k :: 1 <= k < |items| ==> items[1..][k - 1] == items[k];
      match codec.toContainer(items[0])
      case Err(e) => Err(e)
      case Ok(c) =>
        match EncodeAll(codec, items[1..])
        case Err(e) =>
          assert exists k :: 1 <= k < |items| && codec.toContainer(items[k]) == Err(e) &&
                             (forall m :: 0 <= m < k ==> codec.toContainer(items[m]).Ok?) by {
            var k' :| 0 <= k' < |items[1..]| && codec.toContainer(items[1..][k']) == Err(e) &&
                      (forall m :: 0 <= m < k' ==> codec.toContainer(items[1..][m]).Ok?);
            assert forall m :: 1 <= m < k' + 1 ==> items[m] == items[1..][m - 1];
          }
          Err(e)
        case Ok(cs) =>
          assert forall k :: 1 <= k < |items| ==> ([c] + cs)[k] == cs[k - 1];
          Ok([c] + cs)
  }

  /** Encodes all objects first, then writes the batch with one call per endpoint,
      under the same discipline as a single write. */
  function WriteContainers<T>(s: Storage, codec: Codec<T>, items: seq<T>, endpointIndex: Option<nat>, reflectOnAll: bool): (r: Step<()>)
    ensures EncodeAll(codec, items).Err? ==> r == Step(Err(EncodeAll(codec, items).error), s, [])
    ensures !Resolvable(s) ==> r.result.Err? && r.storage == s && r.trace == []
    ensures r.storage.defaultEndpoint == s.defaultEndpoint
    ensures SameBackends(s.endpoints, r.storage.endpoints)
    ensures EncodeAll(codec, items).Ok? ==>
      forall k :: 0 <= k < |r.trace| ==> r.trace[k].call == WriteMany(EncodeAll(codec, items).value)
    ensures EncodeAll(codec, items).Ok? && Resolvable(s) ==>
      |r.trace| >= 1 && r.trace[0] == Event(s.defaultEndpoint, WriteMany(EncodeAll(codec, items).value))
    ensures forall k :: 0 <= k < |r.trace| ==> r.trace[k].endpoint < |s.endpoints|
    ensures !reflectOnAll ==>
      forall j :: 0 <= j < |s.endpoints| && j != s.defaultEndpoint ==> r.storage.endpoints[j] == s.endpoints[j]
  {
    var index := TargetIndex(s, endpointIndex);
    match EncodeAll(codec, items)
    case Err(e) => Step(Err(e), s, [])
    case Ok(cs) => Reflect(s, reflectOnAll, index, WriteMany(cs))
  }

  // ---------------------------------------------------------------------------
  // Reads: the default endpoint alone answers, and nothing changes

  function GetContainerIds(s: Storage): (r: Step<seq<ContainerId>>)
    ensures r.storage == s
    ensures !Resolvable(s) ==> r.result == Err(EndpointMissing) && r.trace == []
    ensures Resolvable(s) ==> r.trace == [Event(s.defaultEndpoint, ListIds)]
    ensures Resolvable(s) ==> r.result == ContainerIds(s.endpoints[s.defaultEndpoint])
    ensures Resolvable(s) && r.result.Ok? ==>
      var entries := s.endpoints[s.defaultEndpoint].entries;
      |r.result.value| == |entries| && forall k :: 0 <= k < |entries| ==> r.result.value[k] == entries[k].id
  {
    if !Resolvable(s) then Step(Err(EndpointMissing), s, [])
    else Step(ContainerIds(s.endpoints[s.defaultEndpoint]), s, [Event(s.defaultEndpoint, ListIds)])
  }

  function ExistsContainer(s: Storage, id: ContainerId): (r: Step<bool>)
    ensures r.storage == s
    ensures !Resolvable(s) ==> r.result == Err(EndpointMissing) && r.trace == []
    ensures Resolvable(s) ==> r.trace == [Event(s.defaultEndpoint, ExistsOne(id))]
    ensures Resolvable(s) ==> r.result == Exists(s.endpoints[s.defaultEndpoint], id)
    ensures Resolvable(s) && r.result.Ok? ==>
      (r.result.value <==> Lookup(s.endpoints[s.defaultEndpoint].entries, id).Some?)
  {
    if !Resolvable(s) then Step(Err(EndpointMissing), s, [])
    else Step(Exists(s.endpoints[s.defaultEndpoint], id), s, [Event(s.defaultEndpoint, ExistsOne(id))])
  }

  function ReadContainer(s: Storage, id: ContainerId): (r: Step<Container>)
    ensures r.storage == s
    ensures !Resolvable(s) ==> r.result == Err(EndpointMissing) && r.trace == []
    ensures Resolvable(s) ==> r.trace == [Event(s.defaultEndpoint, ReadOne(id))]
    ensures Resolvable(s) ==> r.result == Read(s.endpoints[s.defaultEndpoint], id)
    ensures r.result.Ok? ==> Resolvable(s) && Lookup(s.endpoints[s.defaultEndpoint].entries, id) == Some(r.result.value)
  {
    if !Resolvable(s) then Step(Err(EndpointMissing), s, [])
    else Step(Read(s.endpoints[s.defaultEndpoint], id), s, [Event(s.defaultEndpoint, ReadOne(id))])
  }

  function ReadContainers(s: Storage, ids: seq<ContainerId>): (r: Step<seq<Container>>)
    ensures r.storage == s
    ensures !Resolvable(s) ==> r.result == Err(EndpointMissing) && r.trace == []
    ensures Resolvable(s) ==> r.trace == [Event(s.defaultEndpoint, ReadMany(ids))]
    ensures Resolvable(s) ==> r.result == ReadBatch(s.endpoints[s.defaultEndpoint], ids)
    ensures r.result.Ok? ==>
      && Resolvable(s)
      && forall x :: x in r.result.value ==> x in s.endpoints[s.defaultEndpoint].entries && x.id in ids
  {
    if !Resolvable(s) then Step(Err(EndpointMissing), s, [])
    else Step(ReadBatch(s.endpoints[s.defaultEndpoint], ids), s, [Event(s.defaultEndpoint, ReadMany(ids))])
  }

  function ReadAllContainers(s: Storage): (r: Step<seq<Container>>)
    ensures r.storage == s
    ensures !Resolvable(s) ==> r.result == Err(EndpointMissing) && r.trace == []
    ensures Resolvable(s) ==> r.trace == [Event(s.defaultEndpoint, ReadAll)]
    ensures Resolvable(s) ==> r.result == ReadEverything(s.endpoints[s.defaultEndpoint])
    ensures r.result.Ok? ==>
      && Resolvable(s)
      && forall x :: x in r.result.value <==> x in s.endpoints[s.defaultEndpoint].entries
  {
    if !Resolvable(s) then Step(Err(EndpointMissing), s, [])
    else Step(ReadEverything(s.endpoints[s.defaultEndpoint]), s, [Event(s.defaultEndpoint, ReadAll)])
  }

  // ---------------------------------------------------------------------------
  // Deletes

  /** Deletes `id` from the default endpoint and, if asked, from every other endpoint
      in ascending order, each of those without asking for the container back. The
      answer is the default endpoint's. */
  function DeleteContainer(s: Storage, id: ContainerId, returnContainer: bool, reflectOnAll: bool): (r: Step<Option<Container>>)
    ensures !Resolvable(s) ==> r == Step(Err(EndpointMissing), s, [])
    ensures r.storage.defaultEndpoint == s.defaultEndpoint
    ensures SameBackends(s.endpoints, r.storage.endpoints)
    ensures Resolvable(s) ==> |r.trace| >= 1 && r.trace[0] == Event(s.defaultEndpoint, DeleteOne(id, returnContainer))
    ensures forall k :: 0 <= k < |r.trace| ==> r.trace[k].endpoint < |s.endpoints|
    ensures forall k :: 1 <= k < |r.trace| ==>
      r.trace[k].call == DeleteOne(id, false) && r.trace[k].endpoint != s.defaultEndpoint
    ensures !reflectOnAll ==>
      && |r.trace| <= 1
      && forall j :: 0 <= j < |s.endpoints| && j != s.defaultEndpoint ==> r.storage.endpoints[j] == s.endpoints[j]
    ensures r.result.Ok? ==>
      && Resolvable(s)
      && Lookup(r.storage.endpoints[s.defaultEndpoint].entries, id) == None
      && r.result.value == (if returnContainer then Lookup(s.endpoints[s.defaultEndpoint].entries, id) else None)
    ensures Resolvable(s) ==>
      var primary := Delete(s.endpoints[s.defaultEndpoint], id, returnContainer);
      var alone := s.(endpoints := s.endpoints[s.defaultEndpoint := primary.after]);
      && (primary.result.Err? ==> r.result == primary.result && r.storage == s)
      && (!reflectOnAll ==> r.result == primary.result && r.storage == alone)
  {
    if !Resolvable(s) then Step(Err(EndpointMissing), s, [])
    else
      var d := s.defaultEndpoint;
      var primary := Delete(s.endpoints[d], id, returnContainer);
      var eps := s.endpoints[d := primary.after];
      var first := [Event(d, DeleteOne(id, returnContainer))];
      if primary.result.Err? then Step(Err(primary.result.error), s.(endpoints := eps), first)
      else if !reflectOnAll then Step(Ok(primary.result.value), s.(endpoints := eps), first)
      else
        HandleFaithful();
        var sweep := FanOut(Handle, eps, DeleteOne(id, false), d, 0);
        var result := if sweep.result.Err? then Err(sweep.result.error) else Ok(primary.result.value);
        Step(result, s.(endpoints := sweep.endpoints), first + sweep.trace)
  }

  /** Deletes the ids from the default endpoint; only when the deleted containers are
      asked for does it go on to delete them from every other endpoint, in ascending
      order, without asking for them back. */
  function DeleteContainers(s: Storage, ids: seq<ContainerId>, returnContainers: bool): (r: Step<Option<seq<Container>>>)
    ensures !Resolvable(s) ==> r == Step(Err(EndpointMissing), s, [])
    ensures r.storage.defaultEndpoint == s.defaultEndpoint
    ensures SameBackends(s.endpoints, r.storage.endpoints)
    ensures Resolvable(s) ==> |r.trace| >= 1 && r.trace[0] == Event(s.defaultEndpoint, DeleteMany(ids, returnContainers))
    ensures forall k :: 0 <= k < |r.trace| ==> r.trace[k].endpoint < |s.endpoints|
    ensures forall k :: 1 <= k < |r.trace| ==>
      r.trace[k].call == DeleteMany(ids, false) && r.trace[k].endpoint != s.defaultEndpoint
    ensures !returnContainers ==>
      && |r.trace| <= 1
      && forall j :: 0 <= j < |s.endpoints| && j != s.defaultEndpoint ==> r.storage.endpoints[j] == s.endpoints[j]
    ensures r.result.Ok? ==>
      && Resolvable(s)
      && (forall id :: id in ids ==> Lookup(r.storage.endpoints[s.defaultEndpoint].entries, id) == None)
      && (r.result.value.Some? <==> returnContainers)
      && DeleteBatch(s.endpoints[s.defaultEndpoint], ids, returnContainers).result == Ok(r.result.value)
    ensures Resolvable(s) ==>
      var primary := DeleteBatch(s.endpoints[s.defaultEndpoint], ids, returnContainers);
      var alone := s.(endpoints := s.endpoints[s.defaultEndpoint := primary.after]);
      && (primary.result.Err? ==> r.result == primary.result && r.storage == s)
      && (!returnContainers ==> r.result == primary.result && r.storage == alone)
  {
    if !Resolvable(s) then Step(Err(EndpointMissing), s, [])
    else
      var d := s.defaultEndpoint;
      var primary := DeleteBatch(s.endpoints[d], ids, returnContainers);
      var eps := s.endpoints[d := primary.after];
      var first := [Event(d, DeleteMany(ids, returnContainers))];
      if primary.result.Err? then Step(Err(primary.result.error), s.(endpoints := eps), first)
      else if !returnContainers then Step(Ok(primary.result.value), s.(endpoints := eps), first)
      else
        HandleFaithful();
        var sweep := FanOut(Handle, eps, DeleteMany(ids, false), d, 0);
        var result := if sweep.result.Err? then Err(sweep.result.error) else Ok(primary.result.value);
        Step(result, s.(endpoints := sweep.endpoints), first + sweep.trace)
  }
}
