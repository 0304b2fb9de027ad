/** Types shared by the hash table and the loader: optional values, machine words and C strings. */
module Common {

  /** An absent or present value; `None` plays the part of a NULL pointer result. */
  datatype Option<+T> = None | Some(value: T)
  {
    function GetOr(default: T): T
    {
      match this
      case Some(v) => v
      case None => default
    }
  }

  /** 2^64: the modulus of `unsigned long`, `addr_t` and pointer arithmetic. */
  const WORD_MOD: nat := 0x1_0000_0000_0000_0000

  /** An `unsigned long` / `addr_t` / pointer-sized value. */
  type Word = x: int | 0 <= x < WORD_MOD

  /** The bytes of a NUL-terminated C string, without the terminator. */
  type CString = s: seq<bv8> | forall i :: 0 <= i < |s| ==> s[i] != 0
}
