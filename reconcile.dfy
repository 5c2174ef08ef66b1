/**
 * One pass of the daemon's main loop: the key difference between the
 * last-known devices and the current snapshot, and the registry calls that
 * update the last-known map device by device.
 */
module Reconcile {
  import opened Discovery

  /** No identifier occurs twice. */
  ghost predicate Distinct(s: seq<string>)
  {
    forall i, j :: 0 <= i < j < |s| ==> s[i] != s[j]
  }

  /**
   * `diff(before, after)`: the keys only `after` has (entering) and the keys
   * only `before` has (leaving), each once.
   */
  method Diff<V>(before: map<string, V>, after: map<string, V>) returns (enter: seq<string>, leaving: seq<string>)
    ensures forall k :: k in enter <==> k in after && k !in before
    ensures forall k :: k in leaving <==> k in before && k !in after
    ensures Distinct(enter) && Distinct(leaving)
    ensures forall k :: k in enter ==> k !in leaving
  {
    enter, leaving := [], [];
    var todo := before.Keys;
    while todo != {}
      invariant todo <= before.Keys
      invariant forall k :: k in leaving <==> k in before && k !in after && k !in todo
      invariant Distinct(leaving)
      decreases todo
    {
      var key :| key in todo;
      if key !in after {
        leaving := leaving + [key];
      }
      todo := todo - {key};
    }
    todo := after.Keys;
    while todo != {}
      invariant todo <= after.Keys
      invariant forall k :: k in enter <==> k in after && k !in before && k !in todo
      invariant Distinct(enter)
      decreases todo
    {
      var key :| key in todo;
      if key !in before {
        enter := enter + [key];
      }
      todo := todo - {key};
    }
  }

  /**
   * What the registry answers during one pass, per identifier:
   * `bluetoothCheck` (is the peripheral registered?), and whether
   * `post_peripheral` and `delete_peripheral` succeed.
   */
  datatype Registry = Registry(isRegistered: string -> bool, postSucceeds: string -> bool, deleteSucceeds: string -> bool)

  /** An entering device is recorded when it is already registered or its post succeeds. */
  predicate Publishes(registry: Registry, id: string)
  {
    registry.isRegistered(id) || registry.postSucceeds(id)
  }

  /** A leaving device is forgotten when it is not registered or its delete succeeds. */
  predicate Unpublishes(registry: Registry, id: string)
  {
    !registry.isRegistered(id) || registry.deleteSucceeds(id)
  }

  /** Whether an identifier of either map is known after one pass. */
  predicate KeptAfterPass(known: map<string, Record>, current: map<string, Record>, registry: Registry, id: string)
  {
    if id in known && id in current then true
    else if id in current then Publishes(registry, id)
    else id in known && !Unpublishes(registry, id)
  }

  /**
   * The last-known map after one pass, identifier by identifier: unchanged
   * when it equals the snapshot; otherwise a key of both keeps its old
   * record, an entering key is added with its current record when published,
   * a leaving key stays while its deletion has not gone through.
   */
  function AfterPass(known: map<string, Record>, current: map<string, Record>, registry: Registry): map<string, Record>
  {
    if current == known then known
    else
      map id | id in known.Keys + current.Keys && KeptAfterPass(known, current, registry, id) ::
        if id in known then known[id] else current[id]
  }

  /** Every post and every delete the pass makes succeeds: each entering device is published and each leaving one unpublished. */
  ghost predicate AllSucceed(known: map<string, Record>, current: map<string, Record>, registry: Registry)
  {
    && (forall id :: id in current && id !in known ==> Publishes(registry, id))
    && (forall id :: id in known && id !in current ==> Unpublishes(registry, id))
  }

  /** A snapshot equal to the last-known map changes nothing and calls nothing. */
  lemma UnchangedWhenEqual(known: map<string, Record>, registry: Registry)
    ensures AfterPass(known, known, registry) == known
  {
  }

  /** An identifier in both maps keeps its old record, even if the snapshot's record differs. */
  lemma SharedKeepsOldRecord(known: map<string, Record>, current: map<string, Record>, registry: Registry, id: string)
    requires id in known && id in current
    ensures id in AfterPass(known, current, registry) && AfterPass(known, current, registry)[id] == known[id]
  {
  }

  /** An entering device that is already registered is recorded with its current record, with no post. */
  lemma AlreadyRegisteredRecorded(known: map<string, Record>, current: map<string, Record>, registry: Registry, id: string)
    requires id in current && id !in known && registry.isRegistered(id)
    ensures id in AfterPass(known, current, registry) && AfterPass(known, current, registry)[id] == current[id]
  {
  }

  /** An entering device whose post fails is not recorded, so the next diff lists it as entering again. */
  lemma FailedPostRetried(known: map<string, Record>, current: map<string, Record>, registry: Registry, id: string)
    requires id in current && id !in known
    requires !registry.isRegistered(id) && !registry.postSucceeds(id)
    ensures id !in AfterPass(known, current, registry)
  {
  }

  /** A leaving device whose delete fails stays recorded with its old record, so the next pass removes it again. */
  lemma FailedDeleteKept(known: map<string, Record>, current: map<string, Record>, registry: Registry, id: string)
    requires id in known && id !in current
    requires registry.isRegistered(id) && !registry.deleteSucceeds(id)
    ensures id in AfterPass(known, current, registry) && AfterPass(known, current, registry)[id] == known[id]
  {
  }

  /** A leaving device the registry no longer holds is forgotten without a delete. */
  lemma UnregisteredLeavingForgotten(known: map<string, Record>, current: map<string, Record>, registry: Registry, id: string)
    requires id in known && id !in current && !registry.isRegistered(id)
    ensures id !in AfterPass(known, current, registry)
  {
  }

  /** When every call succeeds, the last-known identifiers become exactly the snapshot's. */
  lemma {:induction false} AllSucceedSyncsKeys(known: map<string, Record>, current: map<string, Record>, registry: Registry)
    requires AllSucceed(known, current, registry)
    ensures AfterPass(known, current, registry).Keys == current.Keys
  {
    var next := AfterPass(known, current, registry);
    forall id
      ensures id in next <==> id in current
    {
      if id in current && id !in known {
        assert Publishes(registry, id);
      } else if id in known && id !in current {
        assert Unpublishes(registry, id);
      }
    }
  }

  /**
   * After a pass in which every call succeeds, a second pass against the same
   * snapshot changes nothing, whatever the registry answers then.
   */
  lemma {:induction false} ConvergesAfterSuccessfulPass(known: map<string, Record>, current: map<string, Record>,
                                                         registry: Registry, later: Registry)
    requires AllSucceed(known, current, registry)
    ensures var next := AfterPass(known, current, registry);
      AfterPass(next, current, later) == next
  {
    var next := AfterPass(known, current, registry);
    AllSucceedSyncsKeys(known, current, registry);
    if current != next {
      var again := AfterPass(next, current, later);
      forall id
        ensures id in again <==> id in next
        ensures id in again ==> again[id] == next[id]
      {
      }
    }
  }

  /**
   * There is no guard against an empty snapshot: a scan that finds nothing
   * forgets every known device that is not registered or whose delete succeeds.
   */
  lemma EmptySnapshotRemoves(known: map<string, Record>, registry: Registry)
    ensures AfterPass(known, map[], registry).Keys == set id | id in known && !Unpublishes(registry, id)
  {
  }

  /** The records the publishing loop has added after visiting `ids`. */
  ghost function Added(ids: seq<string>, current: map<string, Record>, registry: Registry): map<string, Record>
  {
    map id | id in ids && id in current && Publishes(registry, id) :: current[id]
  }

  /** The identifiers the removing loop has deleted after visiting `ids`. */
  ghost function Dropped(ids: seq<string>, registry: Registry): set<string>
  {
    set id | id in ids && Unpublishes(registry, id)
  }

  lemma AddedSnoc(ids: seq<string>, id: string, current: map<string, Record>, registry: Registry)
    requires id in current
    ensures Added(ids + [id], current, registry) ==
      if Publishes(registry, id) then Added(ids, current, registry)[id := current[id]] else Added(ids, current, registry)
  {
  }

  lemma DroppedSnoc(ids: seq<string>, id: string, registry: Registry)
    ensures Dropped(ids + [id], registry) ==
      if Unpublishes(registry, id) then Dropped(ids, registry) + {id} else Dropped(ids, registry)
  {
  }

  /** Publishing every entering key and then removing every leaving key is one pass. */
  lemma PassAsTwoLoops(known: map<string, Record>, current: map<string, Record>, registry: Registry,
                       publishing: seq<string>, removing: seq<string>)
    requires current != known
    requires forall k :: k in publishing <==> k in current && k !in known
    requires forall k :: k in removing <==> k in known && k !in current
    ensures (known + Added(publishing, current, registry)) - Dropped(removing, registry) == AfterPass(known, current, registry)
  {
    var lhs := (known + Added(publishing, current, registry)) - Dropped(removing, registry);
    var rhs := AfterPass(known, current, registry);
    forall id
      ensures id in lhs <==> id in rhs
      ensures id in lhs ==> lhs[id] == rhs[id]
    {
    }
  }

  /** The daemon's state between passes: `old_devices`. */
  class Reconciler {
    var oldDevices: map<string, Record>

    /** Starts from the peripherals the registry already holds (`get_saved_peripherals`). */
    constructor (saved: map<string, Record>)
      ensures oldDevices == saved
    {
      oldDevices := saved;
    }

    /** The body of the main loop for a given snapshot and registry behaviour. */
    method Step(current: map<string, Record>, registry: Registry)
      modifies this
      ensures oldDevices == AfterPass(old(oldDevices), current, registry)
    {
      if current != oldDevices {
        ghost var known := oldDevices;
        var publishing, removing := Diff(oldDevices, current);
        Publish(publishing, current, registry);
        Remove(removing, registry);
        PassAsTwoLoops(known, current, registry, publishing, removing);
      }
    }

    /** The loop over the entering devices: record each one already registered or successfully posted. */
    method Publish(publishing: seq<string>, current: map<string, Record>, registry: Registry)
      requires forall id :: id in publishing ==> id in current
      modifies this
      ensures oldDevices == old(oldDevices) + Added(publishing, current, registry)
    {
      ghost var known := oldDevices;
      for i := 0 to |publishing|
        invariant oldDevices == known + Added(publishing[..i], current, registry)
      {
        var device := publishing[i];
        assert publishing[..i + 1] == publishing[..i] + [device];
        AddedSnoc(publishing[..i], device, current, registry);
        var alreadyRegistered := registry.isRegistered(device);
        if !alreadyRegistered {
          var posted := registry.postSucceeds(device);
          if !posted {
            continue;
          }
        }
        oldDevices := oldDevices[device := current[device]];
      }
      assert publishing[..|publishing|] == publishing;
    }

    /** The loop over the leaving devices: forget each one not registered or successfully deleted. */
    method Remove(removing: seq<string>, registry: Registry)
      modifies this
      ensures oldDevices == old(oldDevices) - Dropped(removing, registry)
    {
      ghost var published := oldDevices;
      for i := 0 to |removing|
        invariant oldDevices == published - Dropped(removing[..i], registry)
      {
        var device := removing[i];
        assert removing[..i + 1] == removing[..i] + [device];
        DroppedSnoc(removing[..i], device, registry);
        var alreadyRegistered := registry.isRegistered(device);
        if alreadyRegistered {
          var deleted := registry.deleteSucceeds(device);
          if !deleted {
            continue;
          }
        }
        oldDevices := oldDevices - {device};
      }
      assert removing[..|removing|] == removing;
    }

    /** One full iteration: build the snapshot from the two scans, then reconcile against it. */
    method Cycle(bluetoothDevices: seq<ClassicDevice>, bleDevices: seq<LeDevice>, registry: Registry)
      modifies this
      ensures oldDevices == AfterPass(old(oldDevices), Snapshot(bluetoothDevices, bleDevices), registry)
    {
      var current := BluetoothManager(bluetoothDevices, bleDevices);
      Step(current, registry);
    }
  }
}
