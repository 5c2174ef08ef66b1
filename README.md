# NuvlaBox Bluetooth peripheral manager — Dafny model

This project models the core of the NuvlaBox Bluetooth peripheral manager
(`code/bluetooth_manager.py`). The daemon scans for Bluetooth devices on a
timer, classifies them, and keeps the NuvlaBox Agent's peripheral registry in
step with what it sees. Four pieces are modelled and proved:

- **Class of Device decoder** (`cod_converter`, module `ClassOfDevice`). It
  decodes the 24-bit Class of Device field (Bluetooth SIG Assigned Numbers,
  section 2.8) into a list of labels: the major class, the minor class and,
  for Peripheral devices only, a keyboard/pointing "feel" label. Python's
  `>>` is floor division by 2^k. Python's `&` is the recursive `BitOps.BitAnd`.
  Lemmas show that `(c >> 8) & 0x1f` is `(c / 256) % 32` and that
  `(c >> 2) & 0x3f` is `(c / 4) % 64`. Python's `None` in the list is kept as
  `Option.None`. Every minor table is keyed by number; Python keys them by
  `str(n)`, which gives the same lookups.
- **Snapshot builder** (`compareBluetooth` and the record-building loop of
  `bluetoothManager`, module `Discovery`). Both scan results are inputs, and
  a failed scan is an empty input. The low-energy scan result is a
  `seq<(id, name)>` in dict insertion order. Each method is proved equal to a
  recursive definition (`Merged`, `Snapshot`), and the lemmas state what
  those definitions contain. The lemmas about keys work on `Keyed`, the
  list keyed by identifier before formatting, which `FormattedIsKeyed`
  ties to the record map.
- **Key diff** (`diff`, `Reconcile.Diff`). It returns the entering and
  leaving identifiers, each list duplicate-free, with exact membership.
- **Reconciliation pass** (the body of the `__main__` loop, class
  `Reconcile.Reconciler`). `old_devices` is the field `oldDevices`, a map
  that `Step` updates in place through the publishing loop and the removing
  loop. The Agent API calls are an oracle `Registry` that gives, for each
  identifier, the `bluetoothCheck` answer and whether `post_peripheral` and
  `delete_peripheral` succeed. `Step` is proved to produce
  `AfterPass(old, current, registry)`, a declarative, per-identifier
  definition of the new state. The lemmas about `AfterPass` state what
  happens in each case.

The model follows the code where the code differs from the intended design
of the daemon:

- Major class 31 yields two labels, `["Uncategorized", "reserved"]`, not
  `["Uncategorized"]` alone. The empty minor table still gives the
  `"reserved"` default.
- A missing Imaging minor label stays in the list as `None`. It is not
  omitted.
- The Imaging flags are scanned in table insertion order. That order is
  already ascending (4, 8, 16, 32).
- Nothing guards against an empty snapshot. A scan that finds nothing starts
  removal of every known device (`EmptySnapshotRemoves`).
- A failed delete keeps the entry in `old_devices`. It is not dropped.
- No durable per-device store and no registry resource id exist in this
  code. The initial `old_devices` comes from the registry.
- The Peripheral minor label is looked up on the whole 6-bit minor number,
  feel bits included. So a keyboard with the common code 0x2540 gets
  `"reserved"`, not `"Uncategorized"` (`Keyboard`).

## Model

| member | source | states |
|---|---|---|
| `BitOps.ShiftRight` | code/bluetooth_manager.py:300-301 | Python's `>>` on non-negative integers, floor division by `2^k`; `ClassOfDevice.DecodedFields` and `ClassOfDevice.FeelAlwaysPresent` state what it gives on the decoder's inputs |
| `BitOps.BitAnd` | code/bluetooth_manager.py:300-301 | Python's `&` on non-negative integers; the result is at most either operand |
| `BitOps.MaskIsMod` | code/bluetooth_manager.py:300-301 | `a & (2^k - 1)` equals `a % 2^k`, which is what the `0x1f`/`0x3f` masks compute |
| `BitOps.BitTest` | code/bluetooth_manager.py:324 | `a & 2^k` is non-zero exactly when bit k of `a` is set |
| `ClassOfDevice.DecodedFields` | code/bluetooth_manager.py:300-301 | major = `(c >> 8) & 0x1f` = `(c / 256) % 32`; minor = `(c >> 2) & 0x3f` = `(c / 4) % 64` |
| `ClassOfDevice.MajorEntry` | code/bluetooth_manager.py:303-311 | the name is always one of the 12 major labels; the minor table is bitwise exactly for major 6 and has a feel sub-table exactly for major 5 |
| `ClassOfDevice.FirstFlag` | code/bluetooth_manager.py:314-326 | a found label belongs to the first flag, in table order, that shares a bit with the minor number (no earlier flag does, as the `break` gives); None means no flag shares a bit |
| `ClassOfDevice.MinorName` | code/bluetooth_manager.py:312-328 | the second label: a flag scan for the bitwise Imaging table, a lookup defaulting to "reserved" otherwise; `ClassOfDevice.NumberedMinor`, `ClassOfDevice.ImagingMinor` and `ClassOfDevice.PeripheralLabels` state its value per major |
| `ClassOfDevice.FeelLabels` | code/bluetooth_manager.py:334-338 | the third label for Peripheral, the feel entry for `minor >> 4`; `ClassOfDevice.PeripheralLabels` and `ClassOfDevice.Keyboard` state that it is always present and what it is |
| `ClassOfDevice.CodConverter` | code/bluetooth_manager.py:144-340 | empty list exactly for an absent or zero code; otherwise 2 or 3 labels, the first one of the 12 major labels, and 3 labels exactly when the major number is 5 (Peripheral) |
| `ClassOfDevice.UncategorizedMajor` | code/bluetooth_manager.py:304-306 | major bits 31 give exactly `["Uncategorized", "reserved"]`, whatever the minor bits |
| `ClassOfDevice.ReservedMajors` | code/bluetooth_manager.py:307-311 | majors 10..30 give exactly `["Reserved", "reserved"]` |
| `ClassOfDevice.NumberedMinor` | code/bluetooth_manager.py:327-332 | for majors 0..9 except Peripheral and Imaging: exactly the major name and the minor table entry for the 6-bit minor, defaulting to "reserved" |
| `ClassOfDevice.MiscellaneousMinorReserved` | code/bluetooth_manager.py:157-158 | major 0 always gives `["Miscellaneous", "reserved"]` |
| `ClassOfDevice.DesktopWorkstation` | code/bluetooth_manager.py:159-171 | any code with major 1 and minor 1 (such as 0x104) decodes to `["Computer", "Desktop workstation"]` |
| `ClassOfDevice.ImagingScanIsLowestFlag` | code/bluetooth_manager.py:312-326 | the Imaging scan returns the label of the lowest of bits 4, 8, 16, 32 set in the minor number, or None |
| `ClassOfDevice.ImagingMinor` | code/bluetooth_manager.py:245-253 | major 6 gives exactly two labels, "Imaging" and the lowest set flag's label; the second is None exactly when `minor & 60 == 0` |
| `ClassOfDevice.Camera` | code/bluetooth_manager.py:250 | Imaging with minor bitmask 8 gives `["Imaging", "Camera"]` |
| `ClassOfDevice.PeripheralLabels` | code/bluetooth_manager.py:334-338 | major 5 always gives three labels: "Peripheral", the entry for the full 6-bit minor ("reserved" from 10 up), and the feel entry for `minor >> 4`, which is below 4 |
| `ClassOfDevice.Keyboard` | code/bluetooth_manager.py:227-243 | Peripheral with feel bits 01 has third label "Keyboard"; with minor 16 the list is `["Peripheral", "reserved", "Keyboard"]` |
| `Discovery.NameField` | code/bluetooth_manager.py:124-125 | the name entry is present exactly when the scanned name is non-empty, and then equals it |
| `Discovery.ClassicEntry` | code/bluetooth_manager.py:118-125 | the entry for a classic device: its address, its class code, interface "Bluetooth", the name when non-empty; `Discovery.ClassicEntriesMembers` and `Discovery.SnapshotClassic` state where it ends up |
| `Discovery.LeEntry` | code/bluetooth_manager.py:130-137 | the entry for a low-energy device: its identifier, class "", interface "Bluetooth-LE", the name when non-empty; `Discovery.LeEntriesAt` and `Discovery.SnapshotLowEnergy` state where it ends up |
| `Discovery.CompareBluetooth` | code/bluetooth_manager.py:113-141 | the two append loops build exactly the surviving classic entries followed by all low-energy entries |
| `Discovery.ClassicEntriesMembers` | code/bluetooth_manager.py:116-127 | the classic part holds exactly the entries of classic devices whose address is not a low-energy key |
| `Discovery.LeEntriesAt` | code/bluetooth_manager.py:129-139 | the low-energy part has one entry per dict item, in order, with class "" and interface "Bluetooth-LE" |
| `Discovery.MergedProperties` | code/bluetooth_manager.py:113-141 | classic entries never carry a low-energy id; a classic device is listed iff its id is not a low-energy key; every low-energy device is listed; nothing else is low-energy; classic entries precede low-energy ones; a listed name is non-empty |
| `Discovery.Format` | code/bluetooth_manager.py:369-376 | the record for one listed device; `Discovery.SnapshotClassic` and `Discovery.SnapshotLowEnergy` state its fields for each kind of device |
| `Discovery.FormatDevices` | code/bluetooth_manager.py:367-376 | the keying loop builds exactly the identifier-keyed record map, default name "unknown", classes decoded |
| `Discovery.BluetoothManager` | code/bluetooth_manager.py:343-378 | the snapshot is the keyed map of the merged list |
| `Discovery.FormattedIsKeyed` | code/bluetooth_manager.py:370-376 | the record map has the keys of the identifier-keyed list, and each record is the formatted entry kept for that identifier |
| `Discovery.KeyedKeys` | code/bluetooth_manager.py:370 | an identifier is kept exactly when some list entry carries it |
| `Discovery.KeyedLast` | code/bluetooth_manager.py:370-376 | an identifier's kept entry is its last list entry |
| `Discovery.KeyedConcat` | code/bluetooth_manager.py:370-376 | keying a concatenation gives the union of the two keyed maps, the second one winning (so low-energy entries overwrite classic ones) |
| `Discovery.KeyedClassic` | code/bluetooth_manager.py:116-127 | the entry kept for the last classic device with a given address, not a low-energy key, is that device's entry |
| `Discovery.MergedAt` | code/bluetooth_manager.py:113-141 | each position of the merged list holds a surviving classic device's entry or, after them, the matching low-energy entry |
| `Discovery.MergedKeys` | code/bluetooth_manager.py:113-141 | the merged list carries exactly the classic addresses and the low-energy identifiers |
| `Discovery.SnapshotKeys` | code/bluetooth_manager.py:366-376 | the snapshot's keys are exactly the classic addresses and the low-energy identifiers |
| `Discovery.SnapshotClassic` | code/bluetooth_manager.py:116-127 | a classic device not in the low-energy dict gets interface "Bluetooth", its name or "unknown", and `cod_converter` of its class |
| `Discovery.SnapshotLowEnergy` | code/bluetooth_manager.py:129-139 | a low-energy device gets interface "Bluetooth-LE", no classes, and its name or "unknown", even if the classic scan saw the same address |
| `Reconcile.Diff` | code/bluetooth_manager.py:381-393 | `enter` holds exactly the keys only `after` has and `leaving` exactly the keys only `before` has; both are duplicate-free and disjoint; shared keys are in neither |
| `Reconcile.Reconciler.constructor` | code/bluetooth_manager.py:507 | the last-known map starts as the registry's saved peripherals |
| `Reconcile.Reconciler.Step` | code/bluetooth_manager.py:514-548 | the new `old_devices` is `AfterPass` of the old one, the snapshot and the registry answers |
| `Reconcile.Reconciler.Publish` | code/bluetooth_manager.py:518-531 | the publishing loop adds the current record of each entering device that is registered or posted successfully |
| `Reconcile.Reconciler.Remove` | code/bluetooth_manager.py:533-548 | the removing loop deletes each leaving device that is unregistered or deleted successfully, and keeps the rest |
| `Reconcile.Reconciler.Cycle` | code/bluetooth_manager.py:509-548 | one loop iteration reconciles against `bluetoothManager`'s snapshot of the two scans |
| `Reconcile.AfterPass` | code/bluetooth_manager.py:514-548 | the last-known map after one pass, identifier by identifier; `Reconcile.Reconciler.Step` is proved to compute it and the lemmas below state each of its cases |
| `Reconcile.PassAsTwoLoops` | code/bluetooth_manager.py:516-548 | publishing every entering key and then removing every leaving key gives `AfterPass` |
| `Reconcile.UnchangedWhenEqual` | code/bluetooth_manager.py:514 | a snapshot equal to `old_devices` changes nothing |
| `Reconcile.SharedKeepsOldRecord` | code/bluetooth_manager.py:516 | a key in both maps keeps its old record, even if the snapshot's record differs |
| `Reconcile.AlreadyRegisteredRecorded` | code/bluetooth_manager.py:520-531 | an entering device already registered is recorded with its current record |
| `Reconcile.FailedPostRetried` | code/bluetooth_manager.py:525-529 | an entering device whose post fails stays unrecorded, so it enters again on the next pass |
| `Reconcile.FailedDeleteKept` | code/bluetooth_manager.py:539-544 | a leaving device whose delete fails stays recorded with its old record |
| `Reconcile.UnregisteredLeavingForgotten` | code/bluetooth_manager.py:545-548 | a leaving device the registry does not hold is forgotten without a delete |
| `Reconcile.AllSucceedSyncsKeys` | code/bluetooth_manager.py:514-548 | when every post of an entering device and every delete of a leaving device succeeds (or is not needed), the new keys are exactly the snapshot's keys |
| `Reconcile.ConvergesAfterSuccessfulPass` | code/bluetooth_manager.py:509-548 | after a pass in which every post and delete it makes succeeds, another pass on the same snapshot changes nothing, whatever the registry answers then |
| `Reconcile.EmptySnapshotRemoves` | code/bluetooth_manager.py:511-516 | an empty snapshot keeps only the known devices whose removal fails; there is no guard |

## Left out

- `init_logger` and every `logging` call: logging only.
- `wait_bootstrap`: an HTTP readiness wait before the loop starts.
- `get_saved_peripherals`: its HTTP result is the constructor's argument. Its
  records are registry resources, whose shape differs from the snapshot's
  records. The model gives both maps the same `Record` type.
- `bluetoothCheck`, `post_peripheral` and `delete_peripheral`: HTTP calls. Only
  their outcomes are modelled, as the `Registry` oracle for each identifier.
  The re-raised `InvalidSchema` and `ConnectionError` of `bluetoothCheck` are
  not caught by the loop, so they end the process. That abort is not
  modelled.
- `deviceDiscovery`: a wrapper around the radio scan. Its result is an input.
  The low-energy scan is commented out in the code, so `bleDevices` is
  always `{}` there. The model keeps it as an input.
- `createDeviceFile`, `readDeviceFile`, `removeDeviceFile` and
  `remove_legacy_peripherals`: filesystem and JSON I/O, never reached from
  the reconciliation pass.
- The `Event.wait` sleep between passes and the endless loop itself: timing
  only. `Cycle` models one iteration.
- `ClassOfDevice.CodConverter`: only `int` class codes and the empty string
  are modelled. The `int(...)` parse of a non-empty numeric string and
  negative inputs are not: the classic scan returns non-negative integers.
- `Reconcile.Diff`: returns the keys in an unspecified order, where Python
  follows dict insertion order. Only the lists' contents and the absence of
  duplicates are stated.
- code/manager.py, code/manager2.py and code/nuvla.py: older discovery-and-HTTP
  variants and session plumbing, with no logic of the core. They are not
  part of this model.
