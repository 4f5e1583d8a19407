/** Entries outside the nodes of a B-tree. */
module EntryItem {
  import opened Base

  /** `struct bt_entry`: no code writes its key after `create_entry`. */
  class Item {
    const key: Key
    var value: Value

    /** `create_entry`. */
    constructor (k: Key, v: Value)
      ensures key == k && value == v
    {
      key := k;
      value := v;
    }
  }
}
