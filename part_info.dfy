/**
  * The partition descriptions logged by `part_info_show` (main/part_info.c): the type
  * and subtype labels, and the size in whole kilobytes.
  */
module PartInfo {
  import opened CStrings

  /** `esp_partition_type_t`. */
  const TypeApp: int := 0x00
  const TypeData: int := 0x01

  /** `esp_partition_subtype_t` for application partitions. */
  const SubtypeAppFactory: int := 0x00
  const SubtypeAppOta0: int := 0x10
  const OtaSlots: nat := 16

  /** `esp_partition_subtype_t` for data partitions. */
  const SubtypeDataOta: int := 0x00
  const SubtypeDataPhy: int := 0x01
  const SubtypeDataNvs: int := 0x02
  const SubtypeDataCoredump: int := 0x03
  const SubtypeDataNvsKeys: int := 0x04
  const SubtypeDataEfuseEm: int := 0x05
  const SubtypeDataEsphttpd: int := 0x80
  const SubtypeDataFat: int := 0x81
  const SubtypeDataSpiffs: int := 0x82

  const DataSubtypes: set<int> := {
    SubtypeDataOta, SubtypeDataPhy, SubtypeDataNvs, SubtypeDataCoredump, SubtypeDataNvsKeys,
    SubtypeDataEfuseEm, SubtypeDataEsphttpd, SubtypeDataFat, SubtypeDataSpiffs
  }

  const DataLabels: set<string> := {
    "OTA selection", "PHY init data", "NVS", "COREDUMP", "NVS keys", "Emulate eFuse bits",
    "ESPHTTPD", "FAT", "SPIFFS"
  }

  /** The fields of `esp_partition_t` that the log line shows. */
  datatype Partition = Partition(ptype: int, subtype: int, address: nat, size: nat, name: string)

  /** `part_type`. */
  function PartType(p: Partition): (s: string)
    ensures s == "app" <==> p.ptype == TypeApp
    ensures s == "data" <==> p.ptype == TypeData
    ensures s == "?" <==> p.ptype != TypeApp && p.ptype != TypeData
  {
    if p.ptype == TypeApp then "app"
    else if p.ptype == TypeData then "data"
    else "?"
  }

  /**
    * The `switch` on an application partition's subtype: a label exactly for the factory
    * image and the 16 OTA slots.
    */
  function AppSubtype(subtype: int): (s: string)
    ensures s != "?" <==> subtype == SubtypeAppFactory || SubtypeAppOta0 <= subtype < SubtypeAppOta0 + OtaSlots
    ensures subtype == SubtypeAppFactory ==> s == "Factory application"
  {
    match subtype
    case 0x00 => "Factory application"
    case 0x10 => "OTA 0"
    case 0x11 => "OTA 1"
    case 0x12 => "OTA 2"
    case 0x13 => "OTA 3"
    case 0x14 => "OTA 4"
    case 0x15 => "OTA 5"
    case 0x16 => "OTA 6"
    case 0x17 => "OTA 7"
    case 0x18 => "OTA 8"
    case 0x19 => "OTA 9"
    case 0x1a => "OTA 10"
    case 0x1b => "OTA 11"
    case 0x1c => "OTA 12"
    case 0x1d => "OTA 13"
    case 0x1e => "OTA 14"
    case 0x1f => "OTA 15"
    case _ => "?"
  }

  /** The `switch` on a data partition's subtype: a label exactly for the nine known subtypes. */
  function DataSubtype(subtype: int): (s: string)
    ensures s != "?" <==> subtype in DataSubtypes
    ensures s != "?" ==> s in DataLabels
  {
    match subtype
    case 0x00 => "OTA selection"
    case 0x01 => "PHY init data"
    case 0x02 => "NVS"
    case 0x03 => "COREDUMP"
    case 0x04 => "NVS keys"
    case 0x05 => "Emulate eFuse bits"
    case 0x80 => "ESPHTTPD"
    case 0x81 => "FAT"
    case 0x82 => "SPIFFS"
    case _ => "?"
  }

  /** `part_subtype`: the subtype is looked up in the table of the partition's own type. */
  function PartSubtype(p: Partition): (s: string)
    ensures p.ptype == TypeApp ==> s == AppSubtype(p.subtype)
    ensures p.ptype == TypeData ==> s == DataSubtype(p.subtype)
    ensures p.ptype != TypeApp && p.ptype != TypeData ==> s == "?"
  {
    if p.ptype == TypeApp then AppSubtype(p.subtype)
    else if p.ptype == TypeData then DataSubtype(p.subtype)
    else "?"
  }

  /** The OTA slots 0x10 to 0x1f are labelled "OTA n", n printed as `%d` from 0 to 15. */
  lemma AppOtaLabels(n: nat)
    requires n < OtaSlots
    ensures AppSubtype(SubtypeAppOta0 + n) == "OTA " + Decimal(n)
  {
    if n < 10 {
      assert Decimal(n) == [DigitChar(n)];
    } else {
      assert Decimal(n) == Decimal(1) + [DigitChar(n % 10)];
    }
  }

  /** The nine data labels differ from each other. */
  lemma DataLabelsDistinct(a: int, b: int)
    requires a in DataSubtypes && b in DataSubtypes && a != b
    ensures DataSubtype(a) != DataSubtype(b)
  {
  }

  /**
    * The two tables are never mixed: an application partition never gets a data label and
    * a data partition never gets an application label, although their subtype codes overlap.
    */
  lemma TablesNotMixed(p: Partition)
    ensures p.ptype == TypeApp ==> PartSubtype(p) !in DataLabels
    ensures p.ptype == TypeData ==> PartSubtype(p) == "?" || PartSubtype(p) in DataLabels
    ensures PartSubtype(Partition(TypeApp, 0x00, p.address, p.size, p.name)) == "Factory application"
    ensures PartSubtype(Partition(TypeData, 0x00, p.address, p.size, p.name)) == "OTA selection"
  {
  }

  /** `size / 1024` on the unsigned size: whole kilobytes, the remainder dropped. */
  function SizeKB(size: nat): (kb: nat)
    ensures kb * 1024 <= size < (kb + 1) * 1024
  {
    size / 1024
  }

  /** The values `part_info_show` logs, in the order of its format string. */
  datatype Summary = Summary(heading: string, typeLabel: string, subtypeLabel: string, address: nat, sizeKB: nat, name: string)

  function Show(heading: string, p: Partition): (r: Summary)
    ensures r.typeLabel == PartType(p) && r.subtypeLabel == PartSubtype(p)
    ensures r.sizeKB * 1024 <= p.size < (r.sizeKB + 1) * 1024
    ensures r.heading == heading && r.address == p.address && r.name == p.name
  {
    Summary(heading, PartType(p), PartSubtype(p), p.address, SizeKB(p.size), p.name)
  }
}
