/**
 * The discovery snapshot: `compareBluetooth` merges the classic and
 * low-energy scan results into one list, and `bluetoothManager` turns that
 * list into the map of device records keyed by identifier.
 */
module Discovery {
  import opened Wrappers
  import opened ClassOfDevice

  /** A classic inquiry result, the tuple `(address, name, class)`. */
  datatype ClassicDevice = ClassicDevice(address: string, name: string, deviceClass: nat)

  /** A low-energy scan result: one `identifier -> name` entry of the scan's dict, in insertion order. */
  type LeDevice = (string, string)

  /** The `"interface"` field: "Bluetooth" or "Bluetooth-LE". */
  datatype Interface = Classic | LowEnergy

  /** One element of the list `compareBluetooth` returns; `name` is absent when the scan reported "". */
  datatype Discovered = Discovered(identifier: string, deviceClass: ClassCode, interface: Interface, name: Option<string>)

  /** The record `bluetoothManager` keeps for each identifier. */
  datatype Record = Record(available: bool, name: string, classes: seq<Option<string>>, identifier: string, interface: string)

  /** The `"interface"` string a record carries. */
  function InterfaceName(i: Interface): string
  {
    match i
    case Classic => "Bluetooth"
    case LowEnergy => "Bluetooth-LE"
  }

  /** The identifiers of the low-energy dict. */
  function LeKeys(ble: seq<LeDevice>): set<string>
  {
    set j | 0 <= j < |ble| :: ble[j].0
  }

  /** A Python dict has each key once. */
  ghost predicate DistinctKeys(ble: seq<LeDevice>)
  {
    forall i, j :: 0 <= i < j < |ble| ==> ble[i].0 != ble[j].0
  }

  /** The `"name"` entry is set only for a non-empty scanned name. */
  function NameField(name: string): (r: Option<string>)
    ensures r.Some? <==> name != ""
    ensures r.Some? ==> r.value == name
  {
    if name != "" then Some(name) else None
  }

  function ClassicEntry(d: ClassicDevice): Discovered
  {
    Discovered(d.address, Code(d.deviceClass), Classic, NameField(d.name))
  }

  function LeEntry(e: LeDevice): Discovered
  {
    Discovered(e.0, NoClass, LowEnergy, NameField(e.1))
  }

  /** The classic devices whose address is not a low-energy key, in scan order. */
  function ClassicEntries(bluetooth: seq<ClassicDevice>, ble: seq<LeDevice>): seq<Discovered>
  {
    if bluetooth == [] then []
    else
      var last := bluetooth[|bluetooth| - 1];
      ClassicEntries(bluetooth[..|bluetooth| - 1], ble) + (if last.address in LeKeys(ble) then [] else [ClassicEntry(last)])
  }

  /** Every low-energy device, in dict order. */
  function LeEntries(ble: seq<LeDevice>): seq<Discovered>
  {
    if ble == [] then [] else LeEntries(ble[..|ble| - 1]) + [LeEntry(ble[|ble| - 1])]
  }

  /** What `compareBluetooth` returns: the surviving classic entries, then the low-energy ones. */
  function Merged(bluetooth: seq<ClassicDevice>, ble: seq<LeDevice>): seq<Discovered>
  {
    ClassicEntries(bluetooth, ble) + LeEntries(ble)
  }

  /** `compareBluetooth`: the two loops of output appends. */
  method CompareBluetooth(bluetooth: seq<ClassicDevice>, ble: seq<LeDevice>) returns (output: seq<Discovered>)
    ensures output == Merged(bluetooth, ble)
  {
    output := [];
    for i := 0 to |bluetooth|
      invariant output == ClassicEntries(bluetooth[..i], ble)
    {
      var device := bluetooth[i];
      assert bluetooth[..i + 1][..i] == bluetooth[..i];
      if device.address !in LeKeys(ble) {
        var d := Discovered(device.address, Code(device.deviceClass), Classic, None);
        if device.name != "" {
          d := d.(name := Some(device.name));
        }
        output := output + [d];
      }
    }
    assert bluetooth[..|bluetooth|] == bluetooth;
    ghost var classic := output;
    for i := 0 to |ble|
      invariant output == classic + LeEntries(ble[..i])
    {
      var (deviceId, deviceName) := ble[i];
      assert ble[..i + 1][..i] == ble[..i];
      var d := Discovered(deviceId, NoClass, LowEnergy, None);
      if deviceName != "" {
        d := d.(name := Some(deviceName));
      }
      output := output + [d];
    }
    assert ble[..|ble|] == ble;
  }

  /** The record built for one listed device: name defaulting to "unknown", classes decoded. */
  function Format(d: Discovered): Record
  {
    Record(true, if d.name.Some? then d.name.value else "unknown", CodConverter(d.deviceClass), d.identifier, InterfaceName(d.interface))
  }

  /** The records keyed by identifier, a later entry overwriting an earlier one with the same identifier. */
  function Formatted(ds: seq<Discovered>): map<string, Record>
  {
    if ds == [] then map[] else Formatted(ds[..|ds| - 1])[ds[|ds| - 1].identifier := Format(ds[|ds| - 1])]
  }

  /** What `bluetoothManager` returns for the two scan results. */
  function Snapshot(bluetooth: seq<ClassicDevice>, ble: seq<LeDevice>): map<string, Record>
  {
    Formatted(Merged(bluetooth, ble))
  }

  /** The loop of `bluetoothManager` that keys the merged list by identifier. */
  method FormatDevices(bluetooth: seq<Discovered>) returns (output: map<string, Record>)
    ensures output == Formatted(bluetooth)
  {
    output := map[];
    for i := 0 to |bluetooth|
      invariant output == Formatted(bluetooth[..i])
    {
      var device := bluetooth[i];
      ghost var upTo := bluetooth[..i + 1];
      assert upTo[..i] == bluetooth[..i] && upTo[i] == device;
      assert Formatted(upTo) == Formatted(bluetooth[..i])[device.identifier := Format(device)];
      var name := if device.name.Some? then device.name.value else "unknown";
      var classes := CodConverter(device.deviceClass);
      var record := Record(true, name, classes, device.identifier, InterfaceName(device.interface));
      assert record == Format(device);
      output := output[device.identifier := record];
    }
    assert bluetooth[..|bluetooth|] == bluetooth;
  }

  /**
   * `bluetoothManager`, with both scan results as inputs (a failed scan is
   * an empty input).
   */
  method BluetoothManager(bluetoothDevices: seq<ClassicDevice>, bleDevices: seq<LeDevice>) returns (output: map<string, Record>)
    ensures output == Snapshot(bluetoothDevices, bleDevices)
  {
    output := map[];
    var bluetooth := CompareBluetooth(bluetoothDevices, bleDevices);
    if |bluetooth| > 0 {
      output := FormatDevices(bluetooth);
    }
  }

  /** The classic part of the merged list holds exactly the entries of the devices whose address is not a low-energy key. */
  lemma {:induction false} ClassicEntriesMembers(bluetooth: seq<ClassicDevice>, ble: seq<LeDevice>)
    ensures forall d :: d in ClassicEntries(bluetooth, ble) <==>
      exists i :: 0 <= i < |bluetooth| && bluetooth[i].address !in LeKeys(ble) && d == ClassicEntry(bluetooth[i])
  {
    if bluetooth != [] {
      var n := |bluetooth|;
      var prefix := bluetooth[..n - 1];
      ClassicEntriesMembers(prefix, ble);
      forall d
        ensures d in ClassicEntries(bluetooth, ble) <==>
          exists i :: 0 <= i < n && bluetooth[i].address !in LeKeys(ble) && d == ClassicEntry(bluetooth[i])
      {
        if d in ClassicEntries(prefix, ble) {
          var i :| 0 <= i < n - 1 && prefix[i].address !in LeKeys(ble) && d == ClassicEntry(prefix[i]);
          assert bluetooth[i] == prefix[i];
        }
        if exists i :: 0 <= i < n && bluetooth[i].address !in LeKeys(ble) && d == ClassicEntry(bluetooth[i]) {
          var i :| 0 <= i < n && bluetooth[i].address !in LeKeys(ble) && d == ClassicEntry(bluetooth[i]);
          if i < n - 1 {
            assert prefix[i] == bluetooth[i];
          }
        }
      }
    }
  }

  /** The low-energy part of the merged list is the dict's entries, one for one and in order. */
  lemma {:induction false} LeEntriesAt(ble: seq<LeDevice>)
    ensures |LeEntries(ble)| == |ble|
    ensures forall j :: 0 <= j < |ble| ==> LeEntries(ble)[j] == LeEntry(ble[j])
  {
    if ble != [] {
      var prefix := ble[..|ble| - 1];
      LeEntriesAt(prefix);
      forall j | 0 <= j < |ble| - 1
        ensures LeEntries(ble)[j] == LeEntry(ble[j])
      {
        assert prefix[j] == ble[j];
      }
    }
  }

  /**
   * `compareBluetooth`: a classic device is listed exactly when its address
   * is not a low-energy key, every low-energy device is listed (as
   * "Bluetooth-LE" with class ""), every classic entry precedes every
   * low-energy entry, and a listed name is never empty.
   */
  lemma MergedProperties(bluetooth: seq<ClassicDevice>, ble: seq<LeDevice>)
    ensures var merged := Merged(bluetooth, ble);
      && (forall i :: 0 <= i < |merged| && merged[i].interface == Classic ==> merged[i].identifier !in LeKeys(ble))
      && (forall c :: c in bluetooth ==> (ClassicEntry(c) in merged <==> c.address !in LeKeys(ble)))
      && (forall j :: 0 <= j < |ble| ==> LeEntry(ble[j]) in merged)
      && (forall i :: 0 <= i < |merged| && merged[i].interface == LowEnergy ==>
            exists j :: 0 <= j < |ble| && merged[i] == LeEntry(ble[j]))
      && (forall i, j :: 0 <= i < j < |merged| && merged[i].interface == LowEnergy ==> merged[j].interface == LowEnergy)
      && (forall i :: 0 <= i < |merged| && merged[i].name.Some? ==> merged[i].name.value != "")
  {
    var classic, le := ClassicEntries(bluetooth, ble), LeEntries(ble);
    var merged := classic + le;
    ClassicEntriesMembers(bluetooth, ble);
    LeEntriesAt(ble);
    forall i | 0 <= i < |merged|
      ensures i < |classic| ==> merged[i] == classic[i] && merged[i] in classic && merged[i].interface == Classic
      ensures i >= |classic| ==> merged[i] == le[i - |classic|] && merged[i].interface == LowEnergy
      ensures merged[i].name.Some? ==> merged[i].name.value != ""
    {
      if i < |classic| {
        assert merged[i] in classic;
      }
    }
    forall c | c in bluetooth
      ensures ClassicEntry(c) in merged <==> c.address !in LeKeys(ble)
    {
      var k :| 0 <= k < |bluetooth| && bluetooth[k] == c;
      if c.address !in LeKeys(ble) {
        assert ClassicEntry(bluetooth[k]) in classic;
      }
    }
    forall j | 0 <= j < |ble|
      ensures LeEntry(ble[j]) in merged
    {
      assert merged[|classic| + j] == LeEntry(ble[j]);
    }
  }

  /** The list entries keyed by identifier, a later entry overwriting an earlier one. */
  function Keyed(ds: seq<Discovered>): map<string, Discovered>
  {
    if ds == [] then map[] else Keyed(ds[..|ds| - 1])[ds[|ds| - 1].identifier := ds[|ds| - 1]]
  }

  /** The records are the formatted keyed entries: one record per identifier, built from the entry that won. */
  lemma {:induction false} FormattedIsKeyed(ds: seq<Discovered>)
    ensures Formatted(ds).Keys == Keyed(ds).Keys
    ensures forall k :: k in Keyed(ds) ==> Formatted(ds)[k] == Format(Keyed(ds)[k])
  {
    if ds != [] {
      FormattedIsKeyed(ds[..|ds| - 1]);
    }
  }

  /** An entry exists exactly for every identifier of the list. */
  lemma {:induction false} KeyedKeys(ds: seq<Discovered>)
    ensures forall k :: k in Keyed(ds) <==> exists i :: 0 <= i < |ds| && ds[i].identifier == k
  {
    if ds != [] {
      var prefix := ds[..|ds| - 1];
      KeyedKeys(prefix);
      forall k | k in Keyed(prefix)
        ensures exists i :: 0 <= i < |ds| && ds[i].identifier == k
      {
        var i :| 0 <= i < |prefix| && prefix[i].identifier == k;
        assert ds[i] == prefix[i];
      }
      forall k | exists i :: 0 <= i < |ds| && ds[i].identifier == k
        ensures k in Keyed(ds)
      {
        var i :| 0 <= i < |ds| && ds[i].identifier == k;
        if i < |ds| - 1 {
          assert prefix[i] == ds[i];
        }
      }
    }
  }

  /** The entry kept for an identifier is the LAST list entry that carries it. */
  lemma {:induction false} KeyedLast(ds: seq<Discovered>, j: nat)
    requires j < |ds|
    requires forall l :: j < l < |ds| ==> ds[l].identifier != ds[j].identifier
    ensures ds[j].identifier in Keyed(ds) && Keyed(ds)[ds[j].identifier] == ds[j]
  {
    if j < |ds| - 1 {
      var prefix := ds[..|ds| - 1];
      assert prefix[j] == ds[j];
      forall l | j < l < |prefix|
        ensures prefix[l].identifier != prefix[j].identifier
      {
        assert prefix[l] == ds[l];
      }
      KeyedLast(prefix, j);
    }
  }

  /** Keying a concatenation: the second list's entries win. */
  lemma {:induction false} KeyedConcat(a: seq<Discovered>, b: seq<Discovered>)
    ensures Keyed(a + b) == Keyed(a) + Keyed(b)
  {
    if b == [] {
      assert a + b == a;
    } else {
      var prefix, last := b[..|b| - 1], b[|b| - 1];
      assert (a + b)[..|a + b| - 1] == a + prefix;
      assert (a + b)[|a + b| - 1] == last;
      assert Keyed(a + b) == Keyed(a + prefix)[last.identifier := last];
      KeyedConcat(a, prefix);
      UpdateAfterUnion(Keyed(a), Keyed(prefix), last.identifier, last);
    }
  }

  lemma UpdateAfterUnion<K, V>(m: map<K, V>, n: map<K, V>, k: K, v: V)
    ensures (m + n)[k := v] == m + n[k := v]
  {
  }

  /** Each position of the merged list holds a surviving classic entry or the matching low-energy entry. */
  lemma MergedAt(bluetooth: seq<ClassicDevice>, ble: seq<LeDevice>, m: nat)
    requires m < |Merged(bluetooth, ble)|
    ensures var classic := ClassicEntries(bluetooth, ble);
      if m < |classic| then
        exists i :: 0 <= i < |bluetooth| && bluetooth[i].address !in LeKeys(ble) && Merged(bluetooth, ble)[m] == ClassicEntry(bluetooth[i])
      else
        m - |classic| < |ble| && Merged(bluetooth, ble)[m] == LeEntry(ble[m - |classic|])
  {
    var classic := ClassicEntries(bluetooth, ble);
    ClassicEntriesMembers(bluetooth, ble);
    LeEntriesAt(ble);
    if m < |classic| {
      assert Merged(bluetooth, ble)[m] == classic[m];
      assert classic[m] in classic;
    }
  }

  /**
   * `bluetoothManager` keeps one record per scanned identifier: every classic
   * address and every low-energy identifier, and nothing else.
   */
  lemma SnapshotKeys(bluetooth: seq<ClassicDevice>, ble: seq<LeDevice>)
    ensures forall k :: k in Snapshot(bluetooth, ble) <==>
      (exists i :: 0 <= i < |bluetooth| && bluetooth[i].address == k) || k in LeKeys(ble)
  {
    FormattedIsKeyed(Merged(bluetooth, ble));
    MergedKeys(bluetooth, ble);
  }

  /** The merged list carries every classic address and every low-energy identifier, and nothing else. */
  lemma MergedKeys(bluetooth: seq<ClassicDevice>, ble: seq<LeDevice>)
    ensures forall k :: k in Keyed(Merged(bluetooth, ble)) <==>
      (exists i :: 0 <= i < |bluetooth| && bluetooth[i].address == k) || k in LeKeys(ble)
  {
    var classic, merged := ClassicEntries(bluetooth, ble), Merged(bluetooth, ble);
    KeyedKeys(merged);
    LeEntriesAt(ble);
    forall k | k in Keyed(merged)
      ensures (exists i :: 0 <= i < |bluetooth| && bluetooth[i].address == k) || k in LeKeys(ble)
    {
      var m :| 0 <= m < |merged| && merged[m].identifier == k;
      MergedAt(bluetooth, ble, m);
    }
    forall k | (exists i :: 0 <= i < |bluetooth| && bluetooth[i].address == k) || k in LeKeys(ble)
      ensures k in Keyed(merged)
    {
      if k in LeKeys(ble) {
        var j :| 0 <= j < |ble| && ble[j].0 == k;
        assert merged[|classic| + j] == LeEntry(ble[j]);
      } else {
        var i :| 0 <= i < |bluetooth| && bluetooth[i].address == k;
        ClassicEntriesMembers(bluetooth, ble);
        assert ClassicEntry(bluetooth[i]) in classic;
        var m :| 0 <= m < |classic| && classic[m] == ClassicEntry(bluetooth[i]);
        assert merged[m] == classic[m];
      }
    }
  }

  /** The entry kept for the last classic device with an address is that device's entry. */
  lemma {:induction false} KeyedClassic(bluetooth: seq<ClassicDevice>, ble: seq<LeDevice>, i: nat)
    requires i < |bluetooth| && bluetooth[i].address !in LeKeys(ble)
    requires forall l :: i < l < |bluetooth| ==> bluetooth[l].address != bluetooth[i].address
    ensures var m := Keyed(ClassicEntries(bluetooth, ble));
      bluetooth[i].address in m && m[bluetooth[i].address] == ClassicEntry(bluetooth[i])
  {
    var n := |bluetooth|;
    var prefix, last := bluetooth[..n - 1], bluetooth[n - 1];
    var before := ClassicEntries(prefix, ble);
    var after := Keyed(ClassicEntries(bluetooth, ble));
    if last.address in LeKeys(ble) {
      assert ClassicEntries(bluetooth, ble) == before + [];
      assert before + [] == before;
      assert after == Keyed(before);
    } else {
      var e := ClassicEntry(last);
      var all := before + [e];
      assert ClassicEntries(bluetooth, ble) == all;
      assert all[..|all| - 1] == before && all[|all| - 1] == e;
      assert after == Keyed(before)[last.address := e];
    }
    if i < n - 1 {
      assert prefix[i] == bluetooth[i];
      forall l | i < l < |prefix|
        ensures prefix[l].address != prefix[i].address
      {
        assert prefix[l] == bluetooth[l];
      }
      KeyedClassic(prefix, ble, i);
      assert last.address != bluetooth[i].address;
    }
  }

  /**
   * A classic device whose address is not a low-energy key gets interface
   * "Bluetooth", its name (or "unknown") and its decoded class, from the last
   * scan entry with that address.
   */
  lemma SnapshotClassic(bluetooth: seq<ClassicDevice>, ble: seq<LeDevice>, i: nat)
    requires i < |bluetooth| && bluetooth[i].address !in LeKeys(ble)
    requires forall l :: i < l < |bluetooth| ==> bluetooth[l].address != bluetooth[i].address
    ensures var d := bluetooth[i];
      && d.address in Snapshot(bluetooth, ble)
      && Snapshot(bluetooth, ble)[d.address] ==
         Record(true, if d.name != "" then d.name else "unknown", CodConverter(Code(d.deviceClass)), d.address, "Bluetooth")
  {
    var classic, le := ClassicEntries(bluetooth, ble), LeEntries(ble);
    var d := bluetooth[i];
    KeyedConcat(classic, le);
    KeyedKeys(le);
    LeEntriesAt(ble);
    KeyedClassic(bluetooth, ble, i);
    assert Keyed(Merged(bluetooth, ble))[d.address] == ClassicEntry(d);
    FormattedIsKeyed(Merged(bluetooth, ble));
  }

  /**
   * Every low-energy device gets interface "Bluetooth-LE", no classes and its
   * name (or "unknown"), whatever the classic scan reported for that address.
   */
  lemma SnapshotLowEnergy(bluetooth: seq<ClassicDevice>, ble: seq<LeDevice>, j: nat)
    requires DistinctKeys(ble) && j < |ble|
    ensures var (id, name) := ble[j];
      && id in Snapshot(bluetooth, ble)
      && Snapshot(bluetooth, ble)[id] == Record(true, if name != "" then name else "unknown", [], id, "Bluetooth-LE")
  {
    var classic, le := ClassicEntries(bluetooth, ble), LeEntries(ble);
    KeyedConcat(classic, le);
    LeEntriesAt(ble);
    KeyedLast(le, j);
    assert Keyed(Merged(bluetooth, ble))[ble[j].0] == LeEntry(ble[j]);
    FormattedIsKeyed(Merged(bluetooth, ble));
  }
}
