/**
  The packed on-disk structures of fs/fat.cpp, as field layouts.  They
  live in a module of their own so that the structures' sizes and offsets
  are computed from the constants rather than from their inlined values.
 */
module FatLayouts {
  import opened Layouts

  /** `FatBootRecord`: the BIOS parameter block and the FAT12/16 or FAT32 header after it. */
  const BOOT_RECORD_LAYOUT: seq<Field> := [
    Bytes(3),   // boot_jump
    Bytes(8),   // oem_name
    UInt(2),    // bytes_per_sector
    UInt(1),    // sectors_per_cluster
    UInt(2),    // reserved_sector_count
    UInt(1),    // fat_count
    UInt(2),    // root_entry_count
    UInt(2),    // total_sectors_16
    UInt(1),    // media_type
    UInt(2),    // sectors_per_fat
    UInt(2),    // sectors_per_track
    UInt(2),    // head_side_count
    UInt(4),    // hidden_sector_count
    UInt(4),    // total_sectors_32
    Bytes(54)   // the union of FatHeader16 and FatHeader32
  ]

  /** `FatHeader32`. */
  const FAT32_HEADER_LAYOUT: seq<Field> := [
    UInt(4),    // sectors_per_fat
    UInt(2),    // flags
    UInt(2),    // version
    UInt(4),    // root_cluster
    UInt(2),    // fat_info_sector
    UInt(2),    // backup_boot_sector
    Bytes(12),  // reserved_0
    UInt(1),    // drive_number
    UInt(1),    // reserved_1
    UInt(1),    // signature
    UInt(4),    // volume_id
    Bytes(11),  // volume_label
    Bytes(8)    // fat_type_label
  ]

  /** `FatHeader16`. */
  const FAT16_HEADER_LAYOUT: seq<Field> := [
    UInt(1),    // drive_number
    UInt(1),    // reserved_0
    UInt(1),    // signature
    UInt(4),    // volume_id
    Bytes(11),  // volume_label
    Bytes(8)    // fat_type_label
  ]

  /** `FileEntry`: a short-name directory entry. */
  const FILE_ENTRY_LAYOUT: seq<Field> := [
    Bytes(11),  // name
    UInt(1),    // attributes
    UInt(1),    // reserved
    UInt(1),    // creation_time_tenths_of_sec
    UInt(2),    // creation_time
    UInt(2),    // creation_date
    UInt(2),    // last_accessed_date
    UInt(2),    // first_cluster_high
    UInt(2),    // last_modified_time
    UInt(2),    // last_modified_date
    UInt(2),    // first_cluster_low
    UInt(4)     // file_size
  ]

  /** `LongNameEntry`: a long-name directory entry, with its 13 UTF-16 units in three groups. */
  const LONG_NAME_ENTRY_LAYOUT: seq<Field> := [
    UInt(1),                                      // order
    UInt(2), UInt(2), UInt(2), UInt(2), UInt(2),  // name_0
    UInt(1),                                      // attributes
    UInt(1),                                      // long_entry_type
    UInt(1),                                      // checksum
    UInt(2), UInt(2), UInt(2), UInt(2), UInt(2), UInt(2),  // name_1
    UInt(2),                                      // zero
    UInt(2), UInt(2)                              // name_2
  ]
}
