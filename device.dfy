/**
 * The block device underneath the filesystem: BLOCK_NUM device blocks of
 * BLOCK_SIZE bytes each. Only its interface is modelled (file-backed I/O is
 * not): `bread` returns a copy of one block and `bwrite` replaces one block;
 * both insist that the block number is on the device.
 */
module Device {
  import opened Bytes

  const BLOCK_SIZE: nat := 1024
  const BLOCK_NUM: nat := 1440

  type DeviceBlock = s: seq<byte> | |s| == BLOCK_SIZE witness seq(1024, _ => 0)

  class Disk {
    var blocks: seq<DeviceBlock>

    predicate Valid()
      reads this
    {
      |blocks| == BLOCK_NUM
    }

    constructor (contents: seq<DeviceBlock>)
      requires |contents| == BLOCK_NUM
      ensures Valid() && blocks == contents
    {
      blocks := contents;
    }

    method Bread(blockNo: int) returns (b: DeviceBlock)
      requires Valid() && 0 <= blockNo < BLOCK_NUM
      ensures b == blocks[blockNo]
    {
      b := blocks[blockNo];
    }

    method Bwrite(b: DeviceBlock, blockNo: int)
      requires Valid() && 0 <= blockNo < BLOCK_NUM
      modifies this
      ensures Valid() && blocks == old(blocks)[blockNo := b]
    {
      blocks := blocks[blockNo := b];
    }
  }
}
