/** The string that the XER text converters fill, with its terminating 0. */
module XerBuffer {
  import opened Octets

  class Buffer {
    var buf: array<Byte>
    var size: nat
    var bitsUnused: nat

    ghost predicate Valid()
      reads this, buf
    {
      size < buf.Length && buf[size] == 0
    }

    ghost function Contents(): seq<Byte>
      reads this, buf
      requires Valid()
    {
      buf[..size]
    }

    /** The string OCTET_STRING__decode_xer starts from. */
    constructor ()
      ensures Valid() && Contents() == [] && bitsUnused == 0
    {
      buf := new Byte[1](_ => 0);
      size, bitsUnused := 0, 0;
    }

    /** REALLOC: room for `room` octets and a terminating 0. */
    method Reserve(room: nat)
      requires Valid() && size <= room
      modifies `buf
      ensures Valid() && fresh(buf) && buf.Length == room + 1 && Contents() == old(Contents())
    {
      var ptr := new Byte[room + 1];
      forall i | 0 <= i <= size {
        ptr[i] := buf[i];
      }
      assert ptr[..size] == buf[..size];
      buf := ptr;
    }
  }
}
