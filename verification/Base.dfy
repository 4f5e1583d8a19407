/** Keys, values and the small types every store shares. */
module Base {
  /** Keys lie below this bound. */
  const KEY_BOUND: int := 0x1_0000_0000_0000_0000

  /** A `uint64_t` key: the stores compare keys and never compute with them. */
  type Key = k: int | 0 <= k < KEY_BOUND

  /** A value is an opaque string (a `char[128]` in the stores). */
  type Value = string

  datatype Option<+T> = None | Some(value: T)

  /** `check()` stops the program when the store has no root yet. */
  datatype Checked<+T> = Fatal | Done(result: T)

  datatype Entry<+V> = Entry(key: Key, value: V)

  /** BPLUSTREE_MIN_DEGREE, BP_MIN_DEGREE, BTREE_MIN_DEGREE and BT_MIN_DEGREE. */
  const MIN_DEGREE: nat := 9
}
