/**
 * The shared, shrinking byte buffer that consuming decoders advance.
 * It stands for a `Vec<u8>` passed by exclusive mutable reference: each
 * decoder removes the bytes it reads from the front and leaves the rest
 * for the next decoder in the chain.
 */
module ConsumableList {
  import opened Results

  class ByteBuffer {
    var bytes: seq<bv8>

    constructor (bytes: seq<bv8>)
      ensures this.bytes == bytes
    {
      this.bytes := bytes;
    }

    /**
     * Removes and returns the byte at `index` when there is one; the bytes
     * after it move down by one. Out of bounds, returns None and changes nothing.
     */
    method ConsumeAt(index: nat) returns (r: Option<bv8>)
      modifies this
      ensures index < |old(bytes)| ==>
        r == Some(old(bytes)[index]) && bytes == old(bytes)[..index] + old(bytes)[index + 1..]
      ensures index >= |old(bytes)| ==> r == None && bytes == old(bytes)
    {
      if index < |bytes| {
        r := Some(bytes[index]);
        bytes := bytes[..index] + bytes[index + 1..];
      } else {
        r := None;
      }
    }
  }
}
