/** The mass-storage read of drivers/usb/usb.c: one sector is read with
    the READ (10) command of SCSI Block Commands (SBC-3),
    sent as a 10-byte command block over a bulk transfer. The OHCI bulk
    transfer itself (drivers/usb/usb_ohci.c) is not part of this model; it
    is an input that maps a request to the status it returns. */
module Usb {
  import opened Machine

  /** The READ (10) operation code. */
  const READ_10: Byte := 0x28
  const CDB_LENGTH: nat := 10
  const SECTOR_SIZE: nat := 512
  /** The direction usb_mass_read_sector passes: device to host. */
  const DIR_IN: int := 1

  /** The command block usb_mass_read_sector builds: opcode, flags 0, the
      logical block address most significant byte first, group 0, a
      transfer length of one block, control 0. */
  function Read10Cdb(lba: Word32): seq<Byte>
  {
    [READ_10, 0,
     (lba / 0x100_0000) % 0x100, (lba / 0x1_0000) % 0x100, (lba / 0x100) % 0x100, lba % 0x100,
     0, 0, 1, 0]
  }

  /** A 10-byte command block read as READ (10) defines it. */
  datatype Read10 = Read10(opcode: Byte, flags: Byte, lba: Word32, group: Byte, blocks: Word16, control: Byte)

  /** The fields of a 10-byte command block under the READ (10) layout:
      bytes 2-5 the block address and bytes 7-8 the transfer length, both
      big-endian. */
  function ParseRead10(cdb: seq<Byte>): Read10
    requires |cdb| == CDB_LENGTH
  {
    Read10(cdb[0], cdb[1],
           cdb[2] as int * 0x100_0000 + cdb[3] as int * 0x1_0000 + cdb[4] as int * 0x100 + cdb[5] as int,
           cdb[6], cdb[7] as int * 0x100 + cdb[8] as int, cdb[9])
  }

  /** The block built for `lba` is a well-formed READ (10) of exactly one
      block at exactly that address. */
  lemma Read10CdbParses(lba: Word32)
    ensures |Read10Cdb(lba)| == CDB_LENGTH
    ensures ParseRead10(Read10Cdb(lba)) == Read10(READ_10, 0, lba, 0, 1, 0)
  {
    var b2, b3, b4, b5 := (lba / 0x100_0000) % 0x100, (lba / 0x1_0000) % 0x100, (lba / 0x100) % 0x100, lba % 0x100;
    assert lba / 0x100_0000 < 0x100;
    assert lba == (lba / 0x100) * 0x100 + b5;
    assert lba / 0x100 == (lba / 0x1_0000) * 0x100 + b4;
    assert lba / 0x1_0000 == (lba / 0x100_0000) * 0x100 + b3;
    assert b2 == lba / 0x100_0000;
  }

  /** Different addresses give different command blocks. */
  lemma Read10CdbInjective(a: Word32, b: Word32)
    requires Read10Cdb(a) == Read10Cdb(b)
    ensures a == b
  {
    Read10CdbParses(a);
    Read10CdbParses(b);
  }

  /** What usb_mass_read_sector hands to the bulk transfer; the physical
      addresses of the two buffers are left out. */
  datatype BulkRequest = BulkRequest(dev: Byte, cmd: seq<Byte>, cmdLen: Byte, len: Word32, dir: int)

  function ReadRequest(dev: Byte, lba: Word32): BulkRequest
  {
    BulkRequest(dev, Read10Cdb(lba), CDB_LENGTH, SECTOR_SIZE, DIR_IN)
  }

  /** usb_mass_read_sector: one bulk transfer to `dev` carrying the READ
      (10) block for `lba`, with all 10 command bytes sent and one 512-byte
      sector read back; its status is returned as it is. */
  function ReadSector(dev: Byte, lba: Word32, bulk: BulkRequest -> Int32): (r: Int32)
    ensures var q := ReadRequest(dev, lba);
            r == bulk(q) && q.dev == dev && q.cmdLen as int == |q.cmd| == CDB_LENGTH
            && q.len == SECTOR_SIZE && q.dir == DIR_IN
            && ParseRead10(q.cmd) == Read10(READ_10, 0, lba, 0, 1, 0)
  {
    Read10CdbParses(lba);
    bulk(ReadRequest(dev, lba))
  }
}
