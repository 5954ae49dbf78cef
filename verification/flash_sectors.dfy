/** The sector map of the flash: four sectors of 16 KiB, one of 64 and three of 128. */
module FlashSectors {

  const FLASH_BASE: nat := 0x8000000
  const NUM_SECTORS: nat := 8

  function SectorToAddr(x: int): nat {
    FLASH_BASE
    + (if x > 0 then 0x4000 else 0)
    + (if x > 1 then 0x4000 else 0)
    + (if x > 2 then 0x4000 else 0)
    + (if x > 3 then 0x4000 else 0)
    + (if x > 4 then 0x10000 else 0)
    + (if x > 5 then 0x20000 else 0)
    + (if x > 6 then 0x20000 else 0)
    + (if x > 7 then 0x20000 else 0)
  }

  function FirstSector(addr: nat, from: nat): int
    requires from <= NUM_SECTORS
    decreases NUM_SECTORS - from
  {
    if from == NUM_SECTORS then -1
    else if SectorToAddr(from) <= addr < SectorToAddr(from + 1) then from
    else FirstSector(addr, from + 1)
  }

  method AddrToSector(addr: nat) returns (sector: int)
    ensures sector == FirstSector(addr, 0)
  {
    var i := 0;
    while i < NUM_SECTORS
      invariant i <= NUM_SECTORS && FirstSector(addr, i) == FirstSector(addr, 0)
    {
      var start := SectorToAddr(i);
      var end := SectorToAddr(i + 1);
      if start <= addr < end {
        return i;
      }
      i := i + 1;
    }
    return -1;
  }

  lemma {:induction false} SectorFound(addr: nat, from: nat, s: nat)
    requires from <= s < NUM_SECTORS && SectorToAddr(s) <= addr < SectorToAddr(s + 1)
    ensures FirstSector(addr, from) == s
    decreases s - from
  {
    if from < s {
      SectorFound(addr, from + 1, s);
    }
  }

  lemma {:induction false} NoSectorFound(addr: nat, from: nat)
    requires from <= NUM_SECTORS && (addr < FLASH_BASE || addr >= SectorToAddr(NUM_SECTORS))
    ensures FirstSector(addr, from) == -1
    decreases NUM_SECTORS - from
  {
    if from < NUM_SECTORS {
      NoSectorFound(addr, from + 1);
    }
  }

  /** The two maps are inverse: an address belongs to exactly the sector whose range holds it, and to none
      outside the flash. */
  lemma SectorsPartitionFlash(addr: nat, s: nat)
    requires s < NUM_SECTORS
    ensures FirstSector(addr, 0) == s <==> SectorToAddr(s) <= addr < SectorToAddr(s + 1)
    ensures FirstSector(addr, 0) == -1 <==> addr < FLASH_BASE || addr >= SectorToAddr(NUM_SECTORS)
    ensures FirstSector(SectorToAddr(s), 0) == s
  {
    SectorFound(SectorToAddr(s), 0, s);
    if addr < FLASH_BASE || addr >= SectorToAddr(NUM_SECTORS) {
      NoSectorFound(addr, 0);
    } else {
      var t: nat := if addr < 0x8004000 then 0 else if addr < 0x8008000 then 1 else if addr < 0x800C000 then 2
        else if addr < 0x8010000 then 3 else if addr < 0x8020000 then 4 else if addr < 0x8040000 then 5
        else if addr < 0x8060000 then 6 else 7;
      SectorFound(addr, 0, t);
    }
  }

  /** The bounds of the sectors. */
  lemma SectorBounds()
    ensures SectorToAddr(0) == 0x8000000 && SectorToAddr(1) == 0x8004000 && SectorToAddr(2) == 0x8008000
    ensures SectorToAddr(3) == 0x800C000 && SectorToAddr(4) == 0x8010000 && SectorToAddr(5) == 0x8020000
    ensures SectorToAddr(6) == 0x8040000 && SectorToAddr(7) == 0x8060000 && SectorToAddr(8) == 0x8080000
  {
  }
}
