/**
 * What the two transports share from `common.h`: the key under which a
 * fragmented message waits for its other fragments. The union
 * `data_serial` lays a connection id and a data serial side by side as two
 * 32-bit ints and reads them back as one little-endian `int64`.
 */
module Common {
  import opened CInt

  /**
   * The size of the packed frame header `struct data_unit` shared by both
   * transports. No file defines the struct; its size is fixed here so that
   * MAX_DATA_SIZE is TCP_DATA_SIZE plus one header, which the TCP framing
   * relies on.
   */
  const UNIT_SIZE: int := 20

  /** `data_serial.no` for the pair (`id`, `serial`): the id's bit pattern low, the signed serial high. */
  function SerialKey(id: int, serial: int): (no: int)
    requires IsInt32(id) && IsInt32(serial)
    ensures -I32_BOUND * U32_MOD <= no < I32_BOUND * U32_MOD
    ensures no % U32_MOD == ToU32(id)
  {
    var lo := ToU32(id);
    DivModUnique(lo + serial * U32_MOD, U32_MOD, serial, lo);
    assert -I32_BOUND * U32_MOD <= serial * U32_MOD < I32_BOUND * U32_MOD by {
      MulBounds(serial);
    }
    lo + serial * U32_MOD
  }

  lemma MulBounds(serial: int)
    requires IsInt32(serial)
    ensures -I32_BOUND * U32_MOD <= serial * U32_MOD <= (I32_BOUND - 1) * U32_MOD
  {
  }

  /** Different (id, serial) pairs never share a key, so fragments of different messages are never merged. */
  lemma SerialKeyInjective(id1: int, serial1: int, id2: int, serial2: int)
    requires IsInt32(id1) && IsInt32(serial1) && IsInt32(id2) && IsInt32(serial2)
    requires SerialKey(id1, serial1) == SerialKey(id2, serial2)
    ensures id1 == id2 && serial1 == serial2
  {
    var k := SerialKey(id1, serial1);
    DivModUnique(k, U32_MOD, serial1, ToU32(id1));
    DivModUnique(k, U32_MOD, serial2, ToU32(id2));
  }

  /** How many of a fan-out's sends succeeded. */
  function Successes(outcome: seq<bool>): (n: nat)
    ensures n <= |outcome|
  {
    if outcome == [] then 0 else Successes(outcome[..|outcome| - 1]) + (if outcome[|outcome| - 1] then 1 else 0)
  }

  /** One more reference on a count kept modulo 2^32. */
  lemma ModStep(a: int, s: int)
    ensures ((a + s) % U32_MOD + 1) % U32_MOD == (a + s + 1) % U32_MOD
  {
    DivModUnique(a + s + 1, U32_MOD, (a + s) / U32_MOD + (if (a + s) % U32_MOD + 1 == U32_MOD then 1 else 0),
                 ((a + s) % U32_MOD + 1) % U32_MOD);
  }
}
