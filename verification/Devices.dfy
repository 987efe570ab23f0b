/** Block devices, as what is stored at each address. */
module Devices {

  /** The contents of a block. */
  type Data = nat

  /** A device: addresses never written are blank. */
  type Disk = map<nat, Data>

  function At(disk: Disk, a: nat): Data {
    if a in disk then disk[a] else 0
  }
}
