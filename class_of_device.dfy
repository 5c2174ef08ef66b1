/**
 * The Bluetooth Class of Device decoder (`cod_converter`): the 24-bit
 * Class of Device field of the Bluetooth SIG Assigned Numbers document
 * (section 2.8) turned into a list of human-readable labels.
 */
module ClassOfDevice {
  import opened Wrappers
  import opened BitOps

  /** The class value of a discovered device: a number for a classic device, the empty string for a low-energy one. */
  datatype ClassCode = NoClass | Code(value: nat)

  /**
   * A minor-class table. Python keys these tables by `str(n)` and every
   * numbered table (and the feel sub-table) has exactly the keys 0 to
   * length - 1, so a sequence indexed by n gives the same lookups.
   */
  datatype MinorTable =
    | Numbered(labels: seq<string>, feel: Option<seq<string>>)
      /** The Imaging table (`'bitwise': True`): flags in the table's insertion order. */
    | Bitwise(flags: seq<(nat, string)>)

  datatype MajorClass = MajorClass(name: string, minor: MinorTable)

  const ComputerMinors: seq<string> := [
    "Uncategorized", "Desktop workstation", "Server-class computer", "Laptop",
    "Handheld PC/PDA (clamshell)", "Palm-size PC/PDA", "Wearable computer (watch size)", "Tablet"]

  const PhoneMinors: seq<string> := [
    "Uncategorized", "Cellular", "Cordless", "Smartphone", "Wired modem or voice gateway", "Common ISDN access"]

  const NetworkMinors: seq<string> := [
    "Fully available", "1% to 17% utilized", "17% to 33% utilized", "33% to 50% utilized",
    "50% to 67% utilized", "67% to 83% utilized", "83% to 99% utilized", "No service available"]

  const AudioVideoMinors: seq<string> := [
    "Uncategorized", "Wearable Headset Device", "Hands-free Device", "(Reserved)", "Microphone",
    "Loudspeaker", "Headphones", "Portable Audio", "Car audio", "Set-top box", "HiFi Audio Device", "VCR",
    "Video Camera", "Camcorder", "Video Monitor", "Video Display and Loudspeaker", "Video Conferencing",
    "(Reserved)", "Gaming/Toy"]

  const PeripheralFeel: seq<string> := [
    "Not Keyboard / Not Pointing Device", "Keyboard", "Pointing device", "Combo keyboard/pointing device"]

  const PeripheralMinors: seq<string> := [
    "Uncategorized", "Joystick", "Gamepad", "Remote control", "Sensing device", "Digitizer tablet",
    "Card Reader", "Digital Pen", "Handheld scanner for bar-codes, RFID, etc.", "Handheld gestural input device"]

  /** The Imaging flags; the table's non-numeric `'bitwise'` key is skipped by the scan, so only these remain. */
  const ImagingFlags: seq<(nat, string)> := [(4, "Display"), (8, "Camera"), (16, "Scanner"), (32, "Printer")]

  const WearableMinors: seq<string> := ["Wristwatch", "Pager", "Jacket", "Helmet", "Glasses"]

  const ToyMinors: seq<string> := ["Robot", "Vehicle", "Doll / Action figure", "Controller", "Game"]

  const HealthMinors: seq<string> := [
    "Undefined", "Blood Pressure Monitor", "Thermometer", "Weighing Scale", "Glucose Meter",
    "Pulse Oximeter", "Heart/Pulse Rate Monitor", "Health Data Display", "Step Counter",
    "Body Composition Analyzer", "Peak Flow Monitor", "Medication Monitor", "Knee Prosthesis",
    "Ankle Prosthesis", "Generic Health Manager", "Personal Mobility Device"]

  /** The major classes 0 to 9, indexed by major number. */
  const Classes: seq<MajorClass> := [
    MajorClass("Miscellaneous", Numbered([], None)),
    MajorClass("Computer", Numbered(ComputerMinors, None)),
    MajorClass("Phone", Numbered(PhoneMinors, None)),
    MajorClass("LAN/Network Access Point", Numbered(NetworkMinors, None)),
    MajorClass("Audio/Video", Numbered(AudioVideoMinors, None)),
    MajorClass("Peripheral", Numbered(PeripheralMinors, Some(PeripheralFeel))),
    MajorClass("Imaging", Bitwise(ImagingFlags)),
    MajorClass("Wearable", Numbered(WearableMinors, None)),
    MajorClass("Toy", Numbered(ToyMinors, None)),
    MajorClass("Health", Numbered(HealthMinors, None))]

  /** Every label the first position of a decoded class list can hold. */
  const MajorNames: set<string> := {
    "Miscellaneous", "Computer", "Phone", "LAN/Network Access Point", "Audio/Video", "Peripheral",
    "Imaging", "Wearable", "Toy", "Health", "Reserved", "Uncategorized"}

  /** `(cod >> 8) & 0x1f` */
  function MajorNumber(cod: nat): nat
  {
    BitAnd(ShiftRight(cod, 8), 0x1f)
  }

  /** `(cod >> 2) & 0x3f` */
  function MinorNumber(cod: nat): nat
  {
    BitAnd(ShiftRight(cod, 2), 0x3f)
  }

  /** The entry the decoder consults for a major number: 31 and the numbers past the table get an empty minor table. */
  function MajorEntry(major: nat): (e: MajorClass)
    ensures e.name in MajorNames
    ensures e.minor.Bitwise? <==> major == 6
    ensures e.minor.Numbered? && e.minor.feel.Some? <==> major == 5
  {
    if major == 31 then MajorClass("Uncategorized", Numbered([], None))
    else if major < |Classes| then Classes[major]
    else MajorClass("Reserved", Numbered([], None))
  }

  /** Flag `i` shares a bit with the minor number and no earlier flag does. */
  predicate FirstMatch(flags: seq<(nat, string)>, minor: nat, i: nat)
  {
    i < |flags| && BitAnd(minor, flags[i].0) != 0 && forall j :: 0 <= j < i ==> BitAnd(minor, flags[j].0) == 0
  }

  /** The label of the first flag, in table order, that shares a bit with the minor number; None when none does. */
  function FirstFlag(flags: seq<(nat, string)>, minor: nat): (r: Option<string>)
    ensures r.Some? ==> exists i: nat :: FirstMatch(flags, minor, i) && flags[i].1 == r.value
    ensures r.None? ==> forall i :: 0 <= i < |flags| ==> BitAnd(minor, flags[i].0) == 0
  {
    if flags == [] then None
    else if BitAnd(minor, flags[0].0) != 0 then Some(flags[0].1)
    else
      var r := FirstFlag(flags[1..], minor);
      assert r.Some? ==> exists i: nat :: FirstMatch(flags, minor, i) && flags[i].1 == r.value by {
        if r.Some? {
          var i: nat :| FirstMatch(flags[1..], minor, i) && flags[1..][i].1 == r.value;
          assert flags[i + 1] == flags[1..][i];
          forall j | 0 <= j < i + 1
            ensures BitAnd(minor, flags[j].0) == 0
          {
            if j > 0 {
              assert flags[j] == flags[1..][j - 1];
            }
          }
          assert FirstMatch(flags, minor, i + 1);
        }
      }
      assert r.None? ==> forall i :: 0 <= i < |flags| ==> BitAnd(minor, flags[i].0) == 0 by {
        if r.None? {
          forall i | 1 <= i < |flags|
            ensures BitAnd(minor, flags[i].0) == 0
          {
            assert flags[i] == flags[1..][i - 1];
          }
        }
      }
      r
  }

  /** The second label: a flag scan for the bitwise table, otherwise a lookup defaulting to "reserved". */
  function MinorName(table: MinorTable, minor: nat): Option<string>
  {
    match table
    case Bitwise(flags) => FirstFlag(flags, minor)
    case Numbered(labels, _) => Some(if minor < |labels| then labels[minor] else "reserved")
  }

  /** The optional third label: the feel sub-table looked up on `minor >> 4`, kept only when present and non-empty. */
  function FeelLabels(table: MinorTable, minor: nat): seq<Option<string>>
  {
    match table
    case Numbered(_, Some(feel)) =>
      var n := ShiftRight(minor, 4);
      if n < |feel| && feel[n] != "" then [Some(feel[n])] else []
    case _ => []
  }

  /**
   * `cod_converter`: no labels for an absent or zero code; otherwise the
   * major label, the minor label (None when the Imaging scan finds no flag)
   * and, for Peripheral only, the feel label.
   */
  function CodConverter(cod: ClassCode): (labels: seq<Option<string>>)
    ensures labels == [] <==> cod.NoClass? || cod.value == 0
    ensures labels != [] ==> 2 <= |labels| <= 3 && labels[0].Some? && labels[0].value in MajorNames
    ensures labels != [] ==> (|labels| == 3 <==> MajorNumber(cod.value) == 5)
  {
    if cod.NoClass? || cod.value == 0 then []
    else
      var minor := MinorNumber(cod.value);
      var entry := MajorEntry(MajorNumber(cod.value));
      FeelAlwaysPresent(minor);
      [Some(entry.name), MinorName(entry.minor, minor)] + FeelLabels(entry.minor, minor)
  }

  /** The feel index of a six-bit minor number is always a key of the feel table. */
  lemma FeelAlwaysPresent(minor: nat)
    ensures minor < 64 ==> ShiftRight(minor, 4) < |PeripheralFeel| && PeripheralFeel[ShiftRight(minor, 4)] != ""
  {
  }

  /** The major and minor numbers are the 5-bit field at bit 8 and the 6-bit field at bit 2. */
  lemma DecodedFields(cod: nat)
    ensures MajorNumber(cod) == (cod / 256) % 32
    ensures MinorNumber(cod) == (cod / 4) % 64
  {
    assert Pow2(2) == 4 && Pow2(5) == 32 && Pow2(6) == 64 && Pow2(8) == 256;
    MaskIsMod(cod / 256, 5);
    MaskIsMod(cod / 4, 6);
  }

  /** Major 31 yields exactly "Uncategorized" with the default "reserved" minor, whatever the minor bits. */
  lemma UncategorizedMajor(cod: nat)
    requires (cod / 256) % 32 == 31
    ensures CodConverter(Code(cod)) == [Some("Uncategorized"), Some("reserved")]
  {
    DecodedFields(cod);
  }

  /** The majors past the table, 10 to 30, yield "Reserved" with the default "reserved" minor. */
  lemma ReservedMajors(cod: nat)
    requires 10 <= (cod / 256) % 32 <= 30
    ensures CodConverter(Code(cod)) == [Some("Reserved"), Some("reserved")]
  {
    DecodedFields(cod);
  }

  /**
   * Every tabled major other than Peripheral and Imaging: exactly its name,
   * then the entry of its minor table for the 6-bit minor number, or
   * "reserved" when there is none.
   */
  lemma NumberedMinor(cod: nat)
    requires cod > 0
    requires (cod / 256) % 32 < 10 && (cod / 256) % 32 != 5 && (cod / 256) % 32 != 6
    ensures var major, minor := (cod / 256) % 32, (cod / 4) % 64;
      var table := Classes[major].minor.labels;
      CodConverter(Code(cod)) == [Some(Classes[major].name), Some(if minor < |table| then table[minor] else "reserved")]
  {
    DecodedFields(cod);
  }

  /** Miscellaneous (major 0) has an empty minor table, so its minor label is always "reserved". */
  lemma MiscellaneousMinorReserved(cod: nat)
    requires cod > 0 && (cod / 256) % 32 == 0
    ensures CodConverter(Code(cod)) == [Some("Miscellaneous"), Some("reserved")]
  {
    NumberedMinor(cod);
  }

  /** Major 1 with minor 1, as in the code 0x104, decodes to a desktop workstation. */
  lemma DesktopWorkstation(cod: nat)
    requires (cod / 256) % 32 == 1 && (cod / 4) % 64 == 1
    ensures CodConverter(Code(cod)) == [Some("Computer"), Some("Desktop workstation")]
  {
    NumberedMinor(cod);
  }

  /** The Imaging minor label, defined bit by bit from the lowest flag: Display, Camera, Scanner, Printer. */
  function ImagingReference(minor: nat): Option<string>
  {
    if (minor / 4) % 2 == 1 then Some("Display")
    else if (minor / 8) % 2 == 1 then Some("Camera")
    else if (minor / 16) % 2 == 1 then Some("Scanner")
    else if (minor / 32) % 2 == 1 then Some("Printer")
    else None
  }

  /** The flag scan over the Imaging table picks the lowest set flag bit. */
  lemma ImagingScanIsLowestFlag(minor: nat)
    ensures FirstFlag(ImagingFlags, minor) == ImagingReference(minor)
  {
    assert Pow2(2) == 4 && Pow2(3) == 8 && Pow2(4) == 16 && Pow2(5) == 32;
    BitTest(minor, 2);
    BitTest(minor, 3);
    BitTest(minor, 4);
    BitTest(minor, 5);
    var f0, f1, f2, f3 := ImagingFlags, ImagingFlags[1..], ImagingFlags[2..], ImagingFlags[3..];
    assert f1 == [(8, "Camera"), (16, "Scanner"), (32, "Printer")] && f1[1..] == f2;
    assert f2 == [(16, "Scanner"), (32, "Printer")] && f2[1..] == f3;
    assert f3 == [(32, "Printer")] && f3[1..] == [];
    assert FirstFlag(f3, minor) == if (minor / 32) % 2 == 1 then Some("Printer") else None;
    assert FirstFlag(f2, minor) == if (minor / 16) % 2 == 1 then Some("Scanner") else FirstFlag(f3, minor);
    assert FirstFlag(f1, minor) == if (minor / 8) % 2 == 1 then Some("Camera") else FirstFlag(f2, minor);
    assert FirstFlag(f0, minor) == if (minor / 4) % 2 == 1 then Some("Display") else FirstFlag(f1, minor);
  }

  /** For a 6-bit minor number, no Imaging flag is set exactly when the number is below 4. */
  lemma NoImagingFlag(minor: nat)
    requires minor < 64
    ensures ImagingReference(minor).None? <==> minor < 4
  {
  }

  /**
   * Imaging (major 6): exactly two labels, the second being the lowest set
   * flag of the minor number, and None exactly when no flag bit is set
   * (`minor & 60 == 0`, i.e. minor < 4 for a 6-bit minor).
   */
  lemma ImagingMinor(cod: nat)
    requires (cod / 256) % 32 == 6
    ensures var labels, minor := CodConverter(Code(cod)), (cod / 4) % 64;
      && labels == [Some("Imaging"), ImagingReference(minor)]
      && (labels[1] == None <==> minor < 4)
  {
    var minor := (cod / 4) % 64;
    DecodedFields(cod);
    ImagingScanIsLowestFlag(minor);
    NoImagingFlag(minor);
    assert MajorEntry(6) == MajorClass("Imaging", Bitwise(ImagingFlags));
  }

  /** Imaging with minor bitmask 8 (the Camera flag alone) decodes to Camera. */
  lemma Camera(cod: nat)
    requires (cod / 256) % 32 == 6 && (cod / 4) % 64 == 8
    ensures CodConverter(Code(cod)) == [Some("Imaging"), Some("Camera")]
  {
    ImagingMinor(cod);
  }

  /**
   * Peripheral (major 5): always three labels; the second is looked up on the
   * full 6-bit minor (so minors 10 and up give "reserved"), the third is the
   * feel entry for the top two minor bits.
   */
  lemma PeripheralLabels(cod: nat)
    requires (cod / 256) % 32 == 5
    ensures var labels, minor := CodConverter(Code(cod)), (cod / 4) % 64;
      && minor / 16 < 4
      && labels == [Some("Peripheral"),
                    Some(if minor < |PeripheralMinors| then PeripheralMinors[minor] else "reserved"),
                    Some(PeripheralFeel[minor / 16])]
      && (minor >= 10 ==> labels[1] == Some("reserved"))
  {
    DecodedFields(cod);
  }

  /**
   * Peripheral with top minor bits 01 carries the feel label "Keyboard"; with
   * the low minor bits at 0 (minor 16, as in the common keyboard code 0x2540) the
   * second label is "reserved", because the lookup takes all six minor bits.
   */
  lemma Keyboard(cod: nat)
    requires (cod / 256) % 32 == 5 && (cod / 4) % 64 / 16 == 1
    ensures |CodConverter(Code(cod))| == 3 && CodConverter(Code(cod))[2] == Some("Keyboard")
    ensures (cod / 4) % 64 == 16 ==> CodConverter(Code(cod)) == [Some("Peripheral"), Some("reserved"), Some("Keyboard")]
  {
    PeripheralLabels(cod);
    var minor := (cod / 4) % 64;
    assert PeripheralFeel[minor / 16] == "Keyboard";
    assert minor == 16 ==> minor >= |PeripheralMinors|;
  }
}
