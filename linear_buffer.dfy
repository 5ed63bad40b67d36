/** The linear buffer BUF_t that the transfers exchange bytes with. Its own
    operations (initialisation, reads, writes) are not part of this model; only
    the fields the ring buffer touches and the two queries it calls are, with
    the meaning assumed here: bytes are read from `readIndex` up to
    `writeIndex`, and written from `writeIndex` up to `capacity`. */
module Linear {
  import opened Sizes

  class LinearBuffer {
    var data: array<uint8>
    var dataAddr: nat  // address of `data`; 0 stands for a NULL pointer
    var capacity: uint16
    var readIndex: uint16
    var writeIndex: uint16

    ghost predicate Valid()
      reads this
    {
      readIndex <= writeIndex <= capacity <= data.Length
    }

    /** Binds the fields as given. */
    constructor (data: array<uint8>, dataAddr: nat, capacity: uint16, readIndex: uint16, writeIndex: uint16)
      requires readIndex <= writeIndex <= capacity <= data.Length
      ensures Valid()
      ensures this.data == data && this.dataAddr == dataAddr && this.capacity == capacity
      ensures this.readIndex == readIndex && this.writeIndex == writeIndex
    {
      this.data, this.dataAddr, this.capacity := data, dataAddr, capacity;
      this.readIndex, this.writeIndex := readIndex, writeIndex;
    }

    /** BUF_GetToReadCount: the bytes written and not yet read. */
    function ToReadCount(): uint16
      reads this
      requires Valid()
    {
      writeIndex - readIndex
    }

    /** BUF_GetFreeSize: the cells after the write cursor. */
    function FreeSize(): uint16
      reads this
      requires Valid()
    {
      capacity - writeIndex
    }

    /** The bytes still to be read, in order. */
    ghost function Unread(): seq<uint8>
      reads this, data
      requires Valid()
    {
      data[readIndex..writeIndex]
    }
  }
}
