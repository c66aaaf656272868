/** On-disk extents of an ext4 file (vfs/extents.go, vfs/writer.go). */
module Ext4Types {
  import opened Wrappers
  import opened Bytes

  /** EE_len above 0x7FFF marks an extent that is allocated but not initialized. */
  datatype Extent = Extent(block: u32, len: u16, startHi: u16, startLo: u32) {
    predicate Uninit() {
      len >= 0x8000
    }

    function Count(): nat {
      len % 0x8000
    }

    function Phys(): nat {
      startHi * 0x1_0000_0000 + startLo
    }
  }

  /** findPhysicalBlock; the end of an extent is a 32-bit sum. */
  function FindPhysicalBlock(extents: seq<Extent>, logical: u32): Option<nat> {
    if extents == [] then None
    else
      var e := extents[0];
      if !e.Uninit() && e.block <= logical < (e.block + e.Count()) % 0x1_0000_0000
      then Some(e.Phys() + (logical - e.block))
      else FindPhysicalBlock(extents[1..], logical)
  }
}
