/**
 * The browser's `localStorage` as a value: the keys in the order
 * `storage.key(index)` enumerates them, and the map from key to string.
 * A new key is enumerated after the existing ones and a removed key drops out
 * of the enumeration; the other keys keep their relative order.
 */
module HostStorage {
  import opened Wrappers

  ghost predicate Distinct(s: seq<string>) {
    forall i, j :: 0 <= i < j < |s| ==> s[i] != s[j]
  }

  lemma DistinctPrefix(s: seq<string>, i: nat)
    requires Distinct(s) && i < |s|
    ensures s[i] !in s[..i]
  {
    forall j | 0 <= j < i ensures s[..i][j] != s[i] {
      assert s[..i][j] == s[j];
    }
  }

  /** `s` with every occurrence of `k` removed, the rest in order. */
  function Without(s: seq<string>, k: string): (r: seq<string>)
    ensures forall x :: x in r <==> x in s && x != k
    ensures Distinct(s) ==> Distinct(r)
  {
    if s == [] then []
    else
      var rest := Without(s[1..], k);
      if s[0] == k then rest
      else
        assert Distinct(s) ==> s[0] !in s[1..];
        [s[0]] + rest
  }

  datatype Store = Store(order: seq<string>, items: map<string, string>) {

    /** Every stored key is enumerated exactly once. */
    ghost predicate WellFormed() {
      Distinct(order) && forall k :: k in items <==> k in order
    }

    /** `storage.length` */
    function Length(): nat {
      |order|
    }

    /** `storage.key(index)`: `null` outside `0 .. length - 1`. */
    function Key(index: int): (r: Option<string>)
      ensures r.Some? <==> 0 <= index < Length()
      ensures WellFormed() && r.Some? ==> r.value in items
    {
      if 0 <= index < |order| then Some(order[index]) else None
    }

    /** `storage.getItem(key)` */
    function GetItem(key: string): Option<string> {
      if key in items then Some(items[key]) else None
    }

    /** The native `storage.setItem(key, value)`. */
    function SetItem(key: string, value: string): (r: Store)
      ensures r.GetItem(key) == Some(value)
      ensures forall k :: k != key ==> r.GetItem(k) == GetItem(k)
      ensures WellFormed() ==> r.WellFormed()
    {
      Store(if key in items then order else order + [key], items[key := value])
    }

    /** The native `storage.removeItem(key)`. */
    function RemoveItem(key: string): (r: Store)
      ensures r.GetItem(key) == None
      ensures forall k :: k != key ==> r.GetItem(k) == GetItem(k)
      ensures WellFormed() ==> r.WellFormed()
    {
      Store(Without(order, key), items - {key})
    }
  }

  /** The storage after the native `storage.clear()`. */
  const Empty: Store := Store([], map[])

  lemma EmptyWellFormed()
    ensures Empty.WellFormed()
    ensures forall k :: Empty.GetItem(k) == None
  {
  }
}
