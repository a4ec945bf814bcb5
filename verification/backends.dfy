/** The backend capability (`Storaging`): a named store of containers that can write,
    enumerate, read and delete them, every call of which may fail.

    Concrete backends are not part of this model. `Backend` is a reference in-memory
    backend that meets the capability: its store is a sequence of containers, and a
    failure oracle `faults` names the calls that fail and the error code each one
    reports. A failing call changes nothing. Where the capability leaves a choice to
    the backend (a requested id that is absent), `missing` records the backend's choice. */
module Backends {
  import opened Containers
  import opened Failures

  /** What a backend does with a requested id it does not hold: `Strict` fails the
      call with `NotFound`, `Lenient` omits the id (a batch read leaves it out, a delete
      reports that nothing was removed). */
  datatype MissingPolicy = Strict | Lenient

  /** One call on the backend capability, with its arguments. */
  datatype Call =
    | WriteOne(container: Container)
    | WriteMany(containers: seq<Container>)
    | ListIds
    | ExistsOne(id: ContainerId)
    | ReadOne(id: ContainerId)
    | ReadMany(ids: seq<ContainerId>)
    | ReadAll
    | DeleteOne(id: ContainerId, returnContainer: bool)
    | DeleteMany(ids: seq<ContainerId>, returnContainers: bool)

  datatype Backend = Backend(
    name: string,
    entries: seq<Container>,
    missing: MissingPolicy,
    faults: map<Call, nat>)

  /** The answer of a call together with the backend's state after it. */
  datatype Response<T> = Response(result: Result<T>, after: Backend)

  predicate Faulty(b: Backend, call: Call)
  {
    call in b.faults
  }

  function FaultOf(b: Backend, call: Call): Error
    requires Faulty(b, call)
  {
    Failed(b.faults[call])
  }

  /** The calls that may change what a backend stores. */
  predicate Mutates(call: Call)
  {
    call.WriteOne? || call.WriteMany? || call.DeleteOne? || call.DeleteMany?
  }

  // ---------------------------------------------------------------------------
  // The store: a sequence of containers looked up by id

  /** The ids of a sequence of containers, in the same order. */
  function Ids(cs: seq<Container>): (r: seq<ContainerId>)
    ensures |r| == |cs|
    ensures forall k :: 0 <= k < |cs| ==> r[k] == cs[k].id
  {
    if |cs| == 0 then [] else [cs[0].id] + Ids(cs[1..])
  }

  /** The first stored container with the given id, if any. */
  function Lookup(entries: seq<Container>, id: ContainerId): (r: Option<Container>)
    ensures r.Some? ==> r.value in entries && r.value.id == id
    ensures r.None? <==> forall k :: 0 <= k < |entries| ==> entries[k].id != id
  {
    if |entries| == 0 then None
    else if entries[0].id == id then Some(entries[0])
    else
      assert forall k :: 1 <= k < |entries| ==> entries[k] == entries[1..][k - 1];
      Lookup(entries[1..], id)
  }

  /** The store without any container carrying `id`. */
  function Remove(entries: seq<Container>, id: ContainerId): (r: seq<Container>)
    ensures forall x :: x in r <==> x in entries && x.id != id
    ensures Lookup(r, id) == None
  {
    if |entries| == 0 then []
    else if entries[0].id == id then Remove(entries[1..], id)
    else [entries[0]] + Remove(entries[1..], id)
  }

  lemma {:induction false} LookupRemove(entries: seq<Container>, id: ContainerId, other: ContainerId)
    requires other != id
    ensures Lookup(Remove(entries, id), other) == Lookup(entries, other)
  {
    if |entries| > 0 {
      LookupRemove(entries[1..], id, other);
      if entries[0].id != id {
        assert ([entries[0]] + Remove(entries[1..], id))[1..] == Remove(entries[1..], id);
      }
    }
  }

  lemma {:induction false} LookupAppend(entries: seq<Container>, c: Container, id: ContainerId)
    ensures Lookup(entries + [c], id) ==
      if Lookup(entries, id).Some? then Lookup(entries, id)
      else if c.id == id then Some(c) else None
  {
    if |entries| > 0 {
      assert (entries + [c])[1..] == entries[1..] + [c];
      LookupAppend(entries[1..], c, id);
    } else {
      assert entries + [c] == [c];
    }
  }

  /** Writing `c` into the store: an existing container with the same id is replaced
      (the store keeps the newest one last). */
  function Upsert(entries: seq<Container>, c: Container): (r: seq<Container>)
    ensures Lookup(r, c.id) == Some(c)
    ensures forall id :: id != c.id ==> Lookup(r, id) == Lookup(entries, id)
    ensures forall x :: x in r <==> x == c || (x in entries && x.id != c.id)
  {
    var kept := Remove(entries, c.id);
    assert Lookup(kept + [c], c.id) == Some(c) by { LookupAppend(kept, c, c.id); }
    assert forall id :: id != c.id ==> Lookup(kept + [c], id) == Lookup(entries, id) by {
      forall id | id != c.id
        ensures Lookup(kept + [c], id) == Lookup(entries, id)
      {
        LookupAppend(kept, c, id);
        LookupRemove(entries, c.id, id);
      }
    }
    kept + [c]
  }

  /** True when no container after position `k` of `cs` carries `cs[k]`'s id, so that
      `cs[k]` is the one a batch write leaves behind for that id. */
  predicate LastOfId(cs: seq<Container>, k: nat)
    requires k < |cs|
  {
    forall m :: k < m < |cs| ==> cs[m].id != cs[k].id
  }

  /** Writing a batch in order, one container after another. */
  function UpsertAll(entries: seq<Container>, cs: seq<Container>): seq<Container>
    decreases |cs|
  {
    if |cs| == 0 then entries else UpsertAll(Upsert(entries, cs[0]), cs[1..])
  }

  /** Ids outside a batch keep their containers. */
  lemma {:induction false} UpsertAllKeepsOthers(entries: seq<Container>, cs: seq<Container>, id: ContainerId)
    requires forall k :: 0 <= k < |cs| ==> cs[k].id != id
    ensures Lookup(UpsertAll(entries, cs), id) == Lookup(entries, id)
    decreases |cs|
  {
    if |cs| > 0 {
      assert forall m :: 0 <= m < |cs| - 1 ==> cs[1..][m] == cs[m + 1];
      UpsertAllKeepsOthers(Upsert(entries, cs[0]), cs[1..], id);
    }
  }

  /** For each id, the batch's last container with that id is the one stored. */
  lemma {:induction false} UpsertAllLastWins(entries: seq<Container>, cs: seq<Container>, k: nat)
    requires k < |cs| && LastOfId(cs, k)
    ensures Lookup(UpsertAll(entries, cs), cs[k].id) == Some(cs[k])
    decreases |cs|
  {
    assert forall m :: 0 <= m < |cs| - 1 ==> cs[1..][m] == cs[m + 1];
    if k == 0 {
      UpsertAllKeepsOthers(Upsert(entries, cs[0]), cs[1..], cs[0].id);
    } else {
      UpsertAllLastWins(Upsert(entries, cs[0]), cs[1..], k - 1);
    }
  }

  /** The stored containers for the requested ids, in the requested order, leaving
      out ids the store does not hold. */
  function Found(entries: seq<Container>, ids: seq<ContainerId>): (r: seq<Container>)
    ensures forall x :: x in r ==> Lookup(entries, x.id) == Some(x) && x.id in ids
    ensures forall k :: 0 <= k < |ids| && Lookup(entries, ids[k]).Some? ==> Lookup(entries, ids[k]).value in r
    ensures (forall k :: 0 <= k < |ids| ==> Lookup(entries, ids[k]).Some?) ==>
      |r| == |ids| && forall k :: 0 <= k < |ids| ==> Lookup(entries, ids[k]) == Some(r[k])
  {
    if |ids| == 0 then []
    else
      var rest := Found(entries, ids[1..]);
      assert forall k :: 1 <= k < |ids| ==> ids[k] == ids[1..][k - 1];
      match Lookup(entries, ids[0])
      case None => rest
      case Some(c) =>
        var r := [c] + rest;
        assert forall k :: 1 <= k < |r| ==> r[k] == rest[k - 1];
        assert forall x :: x in r <==> x == c || x in rest;
        r
  }

  /** Which of the requested ids the store holds, position by position. */
  function Held(entries: seq<Container>, ids: seq<ContainerId>): (r: seq<bool>)
    ensures |r| == |ids|
    ensures forall k :: 0 <= k < |ids| ==> (r[k] <==> Lookup(entries, ids[k]).Some?)
  {
    seq(|ids|, k requires 0 <= k < |ids| => Lookup(entries, ids[k]).Some?)
  }

  /** The marked positions from `from` on, in ascending order. */
  function Positions(marks: seq<bool>, from: nat): (r: seq<nat>)
    requires from <= |marks|
    ensures forall m :: 0 <= m < |r| ==> from <= r[m] < |marks| && marks[r[m]]
    ensures forall k :: from <= k < |marks| && marks[k] ==> k in r
    ensures forall a, b :: 0 <= a < b < |r| ==> r[a] < r[b]
    decreases |marks| - from
  {
    if from == |marks| then []
    else
      var rest := Positions(marks, from + 1);
      if marks[from] then
        var r := [from] + rest;
        assert forall m :: 1 <= m < |r| ==> r[m] == rest[m - 1];
        r
      else rest
  }

  /** `Found` answers, for each held position from `from` on in ascending order, the
      stored container. */
  lemma {:induction false} FoundAtPositions(entries: seq<Container>, ids: seq<ContainerId>, from: nat)
    requires from <= |ids|
    ensures var r, p := Found(entries, ids[from..]), Positions(Held(entries, ids), from);
      |r| == |p| && forall m :: 0 <= m < |r| ==> Lookup(entries, ids[p[m]]) == Some(r[m])
    decreases |ids| - from
  {
    if from < |ids| {
      FoundAtPositions(entries, ids, from + 1);
      FoundStep(entries, ids, from);
      var held := Held(entries, ids);
      var r, p := Found(entries, ids[from..]), Positions(held, from);
      var r', p' := Found(entries, ids[from + 1..]), Positions(held, from + 1);
      if held[from] {
        forall m | 0 <= m < |r| ensures Lookup(entries, ids[p[m]]) == Some(r[m]) {
          if m > 0 {
            assert r[m] == r'[m - 1] && p[m] == p'[m - 1];
          }
        }
      } else {
        assert r == r' && p == p';
      }
    }
  }

  /** One step of `FoundAtPositions`: the answer for the suffix from `from` extends the
      one from `from + 1` exactly when `ids[from]` is held. */
  lemma FoundStep(entries: seq<Container>, ids: seq<ContainerId>, from: nat)
    requires from < |ids|
    ensures var held := Held(entries, ids);
      Found(entries, ids[from..]) ==
        (if held[from] then [Lookup(entries, ids[from]).value] else []) + Found(entries, ids[from + 1..])
      && Positions(held, from) == (if held[from] then [from] else []) + Positions(held, from + 1)
  {
    assert ids[from..][1..] == ids[from + 1..];
  }

  /** The first requested id the store does not hold, if any. */
  function FirstMissing(entries: seq<Container>, ids: seq<ContainerId>): (r: Option<ContainerId>)
    ensures r.None? <==> forall k :: 0 <= k < |ids| ==> Lookup(entries, ids[k]).Some?
    ensures r.Some? ==> r.value in ids && Lookup(entries, r.value).None?
  {
    if |ids| == 0 then None
    else if Lookup(entries, ids[0]).None? then Some(ids[0])
    else
      assert forall k :: 1 <= k < |ids| ==> ids[k] == ids[1..][k - 1];
      FirstMissing(entries, ids[1..])
  }

  /** The store without any container carrying one of `ids`. */
  function RemoveAll(entries: seq<Container>, ids: seq<ContainerId>): (r: seq<Container>)
    ensures forall x :: x in r <==> x in entries && x.id !in ids
    ensures forall id :: id in ids ==> Lookup(r, id) == None
    ensures forall id :: id !in ids ==> Lookup(r, id) == Lookup(entries, id)
    decreases |ids|
  {
    if |ids| == 0 then entries
    else
      var r := RemoveAll(Remove(entries, ids[0]), ids[1..]);
      assert forall id :: id in ids <==> id == ids[0] || id in ids[1..];
      assert forall id :: id !in ids ==> Lookup(Remove(entries, ids[0]), id) == Lookup(entries, id) by {
        forall id | id !in ids ensures Lookup(Remove(entries, ids[0]), id) == Lookup(entries, id) {
          LookupRemove(entries, ids[0], id);
        }
      }
      assert Lookup(r, ids[0]) == None by {
        if ids[0] !in ids[1..] {
          assert Lookup(Remove(entries, ids[0]), ids[0]) == None;
        }
      }
      r
  }

  // ---------------------------------------------------------------------------
  // The capability's operations

  function Write(b: Backend, c: Container): (r: Response<()>)
    ensures Faulty(b, WriteOne(c)) ==> r == Response(Err(FaultOf(b, WriteOne(c))), b)
    ensures !Faulty(b, WriteOne(c)) ==>
      && r.result.Ok?
      && r.after == b.(entries := r.after.entries)
      && Lookup(r.after.entries, c.id) == Some(c)
      && forall id :: id != c.id ==> Lookup(r.after.entries, id) == Lookup(b.entries, id)
  {
    if Faulty(b, WriteOne(c)) then Response(Err(FaultOf(b, WriteOne(c))), b)
    else Response(Ok(()), b.(entries := Upsert(b.entries, c)))
  }

  function WriteBatch(b: Backend, cs: seq<Container>): (r: Response<()>)
    ensures Faulty(b, WriteMany(cs)) ==> r == Response(Err(FaultOf(b, WriteMany(cs))), b)
    ensures !Faulty(b, WriteMany(cs)) ==>
      && r.result.Ok?
      && r.after == b.(entries := r.after.entries)
      && (forall k :: 0 <= k < |cs| && LastOfId(cs, k) ==> Lookup(r.after.entries, cs[k].id) == Some(cs[k]))
      && forall id :: id !in Ids(cs) ==> Lookup(r.after.entries, id) == Lookup(b.entries, id)
  {
    if Faulty(b, WriteMany(cs)) then Response(Err(FaultOf(b, WriteMany(cs))), b)
    else
      var e := UpsertAll(b.entries, cs);
      assert forall k :: 0 <= k < |cs| && LastOfId(cs, k) ==> Lookup(e, cs[k].id) == Some(cs[k]) by {
        forall k | 0 <= k < |cs| && LastOfId(cs, k) ensures Lookup(e, cs[k].id) == Some(cs[k]) {
          UpsertAllLastWins(b.entries, cs, k);
        }
      }
      assert forall id :: id !in Ids(cs) ==> Lookup(e, id) == Lookup(b.entries, id) by {
        forall id | id !in Ids(cs) ensures Lookup(e, id) == Lookup(b.entries, id) {
          assert forall k :: 0 <= k < |cs| ==> Ids(cs)[k] in Ids(cs);
          UpsertAllKeepsOthers(b.entries, cs, id);
        }
      }
      Response(Ok(()), b.(entries := e))
  }

  function ContainerIds(b: Backend): (r: Result<seq<ContainerId>>)
    ensures r.Ok? <==> !Faulty(b, ListIds)
    ensures r.Err? ==> r.error == FaultOf(b, ListIds)
    ensures r.Ok? ==> |r.value| == |b.entries| && forall k :: 0 <= k < |b.entries| ==> r.value[k] == b.entries[k].id
  {
    if Faulty(b, ListIds) then Err(FaultOf(b, ListIds)) else Ok(Ids(b.entries))
  }

  function Exists(b: Backend, id: ContainerId): (r: Result<bool>)
    ensures r.Ok? <==> !Faulty(b, ExistsOne(id))
    ensures r.Err? ==> r.error == FaultOf(b, ExistsOne(id))
    ensures r.Ok? ==> (r.value <==> exists k :: 0 <= k < |b.entries| && b.entries[k].id == id)
  {
    if Faulty(b, ExistsOne(id)) then Err(FaultOf(b, ExistsOne(id)))
    else Ok(Lookup(b.entries, id).Some?)
  }

  function Read(b: Backend, id: ContainerId): (r: Result<Container>)
    ensures Faulty(b, ReadOne(id)) ==> r == Err(FaultOf(b, ReadOne(id)))
    ensures !Faulty(b, ReadOne(id)) ==>
      && (r.Ok? ==> r.value in b.entries && r.value.id == id)
      && (r.Err? <==> forall k :: 0 <= k < |b.entries| ==> b.entries[k].id != id)
      && (r.Err? ==> r.error == NotFound(id))
  {
    if Faulty(b, ReadOne(id)) then Err(FaultOf(b, ReadOne(id)))
    else
      match Lookup(b.entries, id)
      case None => Err(NotFound(id))
      case Some(c) => Ok(c)
  }

  /** A batch read answers in the requested order; an absent id fails a `Strict`
      backend's call and is left out by a `Lenient` one. */
  function ReadBatch(b: Backend, ids: seq<ContainerId>): (r: Result<seq<Container>>)
    ensures Faulty(b, ReadMany(ids)) ==> r == Err(FaultOf(b, ReadMany(ids)))
    ensures r.Ok? ==> forall x :: x in r.value ==> x in b.entries && x.id in ids
    ensures !Faulty(b, ReadMany(ids)) && b.missing == Lenient ==>
      r.Ok? && forall k :: 0 <= k < |ids| && Lookup(b.entries, ids[k]).Some? ==> Lookup(b.entries, ids[k]).value in r.value
    ensures !Faulty(b, ReadMany(ids)) && b.missing == Strict ==>
      && (r.Ok? <==> forall k :: 0 <= k < |ids| ==> Lookup(b.entries, ids[k]).Some?)
      && (r.Ok? ==> |r.value| == |ids| && forall k :: 0 <= k < |ids| ==> Lookup(b.entries, ids[k]) == Some(r.value[k]))
      && (r.Err? ==> r.error.NotFound? && r.error.id in ids && Lookup(b.entries, r.error.id).None?)
  {
    if Faulty(b, ReadMany(ids)) then Err(FaultOf(b, ReadMany(ids)))
    else if b.missing == Strict && FirstMissing(b.entries, ids).Some? then
      Err(NotFound(FirstMissing(b.entries, ids).value))
    else Ok(Found(b.entries, ids))
  }

  function ReadEverything(b: Backend): (r: Result<seq<Container>>)
    ensures r.Ok? <==> !Faulty(b, ReadAll)
    ensures r.Err? ==> r.error == FaultOf(b, ReadAll)
    ensures r.Ok? ==> forall x :: x in r.value <==> x in b.entries
  {
    if Faulty(b, ReadAll) then Err(FaultOf(b, ReadAll)) else Ok(b.entries)
  }

  /** Deleting one id; the removed container is handed back only when asked for. */
  function Delete(b: Backend, id: ContainerId, returnContainer: bool): (r: Response<Option<Container>>)
    ensures Faulty(b, DeleteOne(id, returnContainer)) ==>
      r == Response(Err(FaultOf(b, DeleteOne(id, returnContainer))), b)
    ensures r.result.Err? ==> r.after == b
    ensures r.after == b.(entries := r.after.entries)
    ensures r.result.Ok? ==>
      && Lookup(r.after.entries, id) == None
      && (forall other :: other != id ==> Lookup(r.after.entries, other) == Lookup(b.entries, other))
      && r.result.value == (if returnContainer then Lookup(b.entries, id) else None)
    ensures !Faulty(b, DeleteOne(id, returnContainer)) ==>
      && (r.result.Err? <==> b.missing == Strict && Lookup(b.entries, id).None?)
      && (r.result.Err? ==> r.result.error == NotFound(id))
  {
    if Faulty(b, DeleteOne(id, returnContainer)) then
      Response(Err(FaultOf(b, DeleteOne(id, returnContainer))), b)
    else
      match Lookup(b.entries, id)
      case None =>
        if b.missing == Strict then Response(Err(NotFound(id)), b) else Response(Ok(None), b)
      case Some(c) =>
        assert forall other :: other != id ==> Lookup(Remove(b.entries, id), other) == Lookup(b.entries, other) by {
          forall other | other != id ensures Lookup(Remove(b.entries, id), other) == Lookup(b.entries, other) {
            LookupRemove(b.entries, id, other);
          }
        }
        Response(Ok(if returnContainer then Some(c) else None), b.(entries := Remove(b.entries, id)))
  }

  /** Deleting a batch of ids; a `Strict` backend refuses the whole batch when one id
      is absent. */
  function DeleteBatch(b: Backend, ids: seq<ContainerId>, returnContainers: bool): (r: Response<Option<seq<Container>>>)
    ensures Faulty(b, DeleteMany(ids, returnContainers)) ==>
      r == Response(Err(FaultOf(b, DeleteMany(ids, returnContainers))), b)
    ensures r.result.Err? ==> r.after == b
    ensures r.after == b.(entries := r.after.entries)
    ensures r.result.Ok? ==>
      && (forall id :: id in ids ==> Lookup(r.after.entries, id) == None)
      && (forall id :: id !in ids ==> Lookup(r.after.entries, id) == Lookup(b.entries, id))
      && (r.result.value.Some? <==> returnContainers)
    ensures !Faulty(b, DeleteMany(ids, returnContainers)) ==>
      && (r.result.Err? <==> b.missing == Strict && exists k :: 0 <= k < |ids| && Lookup(b.entries, ids[k]).None?)
      && (r.result.Err? ==> r.result.error.NotFound? && r.result.error.id in ids && Lookup(b.entries, r.result.error.id).None?)
  {
    if Faulty(b, DeleteMany(ids, returnContainers)) then
      Response(Err(FaultOf(b, DeleteMany(ids, returnContainers))), b)
    else if b.missing == Strict && FirstMissing(b.entries, ids).Some? then
      Response(Err(NotFound(FirstMissing(b.entries, ids).value)), b)
    else
      Response(Ok(if returnContainers then Some(Found(b.entries, ids)) else None),
               b.(entries := RemoveAll(b.entries, ids)))
  }

  /** A batch read answers, in request order, the stored container of every requested
      id the store holds: `Positions` names which request each answer belongs to. */
  lemma ReadBatchKeepsOrder(b: Backend, ids: seq<ContainerId>)
    ensures var r, p := ReadBatch(b, ids), Positions(Held(b.entries, ids), 0);
      r.Ok? ==> |r.value| == |p| && forall m :: 0 <= m < |p| ==> Lookup(b.entries, ids[p[m]]) == Some(r.value[m])
  {
    assert ids[0..] == ids;
    FoundAtPositions(b.entries, ids, 0);
  }

  /** A batch delete asked to return what it removed hands back the stored containers
      of the requested ids in request order: exactly what a batch read of the same ids
      would have answered beforehand. */
  lemma DeleteBatchReturnsStored(b: Backend, ids: seq<ContainerId>)
    ensures var r, p := DeleteBatch(b, ids, true), Positions(Held(b.entries, ids), 0);
      r.result.Ok? ==>
        && |r.result.value.value| == |p|
        && (forall m :: 0 <= m < |p| ==> Lookup(b.entries, ids[p[m]]) == Some(r.result.value.value[m]))
        && (!Faulty(b, ReadMany(ids)) ==> ReadBatch(b, ids) == Ok(r.result.value.value))
  {
    assert ids[0..] == ids;
    FoundAtPositions(b.entries, ids, 0);
  }

  /** The calls whose only way to fail is the failure oracle. */
  predicate IsWrite(call: Call)
  {
    call.WriteOne? || call.WriteMany?
  }

  /** What a successful call leaves behind in the backend it was made on: a write
      leaves its containers stored (for a batch, the last one per id), a delete leaves
      its ids absent. */
  predicate Effect(b: Backend, call: Call)
  {
    match call
    case WriteOne(c) => Lookup(b.entries, c.id) == Some(c)
    case WriteMany(cs) => forall k :: 0 <= k < |cs| && LastOfId(cs, k) ==> Lookup(b.entries, cs[k].id) == Some(cs[k])
    case DeleteOne(id, _) => Lookup(b.entries, id) == None
    case DeleteMany(ids, _) => forall id :: id in ids ==> Lookup(b.entries, id) == None
    case _ => true
  }

  /** Any call, its answer reduced to success or failure: how the dispatcher's fan-out
      sees a backend. */
  function Handle(b: Backend, call: Call): (r: Response<()>)
    ensures Faulty(b, call) ==> r == Response(Err(FaultOf(b, call)), b)
    ensures IsWrite(call) ==> (r.result.Ok? <==> !Faulty(b, call))
    ensures r.result.Err? || !Mutates(call) ==> r.after == b
    ensures r.after == b.(entries := r.after.entries)
    ensures r.result.Ok? ==> Effect(r.after, call)
  {
    match call
    case WriteOne(c) => var w := Write(b, c); Response(w.result.Drop(), w.after)
    case WriteMany(cs) => var w := WriteBatch(b, cs); Response(w.result.Drop(), w.after)
    case ListIds => Response(ContainerIds(b).Drop(), b)
    case ExistsOne(id) => Response(Exists(b, id).Drop(), b)
    case ReadOne(id) => Response(Read(b, id).Drop(), b)
    case ReadMany(ids) => Response(ReadBatch(b, ids).Drop(), b)
    case ReadAll => Response(ReadEverything(b).Drop(), b)
    case DeleteOne(id, ret) => var d := Delete(b, id, ret); Response(d.result.Drop(), d.after)
    case DeleteMany(ids, ret) => var d := DeleteBatch(b, ids, ret); Response(d.result.Drop(), d.after)
  }
}
