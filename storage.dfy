/**
 The browser's local storage as the page uses it: a map from slot names to
 strings, read with `localStorage.getItem(key) || fallback`, so that a
 missing slot and an empty one both give the fallback.
 */
module Storage {
  import opened Text

  class LocalStorage {
    var slots: map<string, string>

    /** The storage as the browser hands it to the page. */
    constructor (initial: map<string, string>)
      ensures slots == initial
    {
      slots := initial;
    }

    /** `localStorage.setItem(key, value)`: only that slot changes. */
    method SetItem(key: string, value: string)
      modifies this
      ensures slots == old(slots)[key := value]
    {
      slots := slots[key := value];
    }
  }

  /** `localStorage.getItem(key)` on the slots: `null` for a missing slot. */
  function GetItem(slots: map<string, string>, key: string): (r: Option<string>)
    ensures r.Some? <==> key in slots
    ensures r.Some? ==> r.value == slots[key]
  {
    if key in slots then Some(slots[key]) else None
  }

  /** `item || fallback` for the result of `getItem`: `null` and `''` are both falsy. */
  function OrElse(item: Option<string>, fallback: string): (r: string)
    ensures item.Some? && item.value != [] ==> r == item.value
    ensures item.None? || item.value == [] ==> r == fallback
  {
    if item.Some? && item.value != [] then item.value else fallback
  }

  /** `localStorage.getItem(key) || fallback` on the slots. */
  function ItemOr(slots: map<string, string>, key: string, fallback: string): (r: string)
    ensures (key in slots && r == slots[key]) || r == fallback
    ensures fallback != [] ==> r != []
  {
    OrElse(GetItem(slots, key), fallback)
  }

  /** A value written to a slot is read back, unless it is empty and so falls back. */
  lemma StoredValueReadBack(slots: map<string, string>, key: string, value: string, fallback: string)
    ensures ItemOr(slots[key := value], key, fallback) == if value == [] then fallback else value
  {
  }

  /** Without a slot, or with an empty one, the fallback is read. */
  lemma MissingOrEmptyFallsBack(slots: map<string, string>, key: string, fallback: string)
    requires key !in slots || slots[key] == []
    ensures ItemOr(slots, key, fallback) == fallback
  {
  }

  /** Writing one slot does not change what another reads. */
  lemma OtherSlotUnchanged(slots: map<string, string>, key: string, value: string, other: string, fallback: string)
    requires other != key
    ensures ItemOr(slots[key := value], other, fallback) == ItemOr(slots, other, fallback)
  {
  }
}
