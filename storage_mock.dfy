/** The in-memory `chrome.storage.local` stand-in of the test utilities
    (tests/test-utils.js:2-41): a map from keys to values and a
    `bytesInUse` counter charged on every write. */
module StorageMock {
  import opened Wrappers

  const QUOTA_BYTES := 5242880
  const QUOTA_ERROR := "QUOTA_BYTES_PER_ITEM exceeded"

  /** The `keys` argument of `get`: one key, an array of keys, or anything
      else (which reads everything). */
  datatype KeyQuery = Key(name: string) | Keys(names: seq<string>) | AllKeys

  /** Object keys are distinct. */
  predicate DistinctKeys<V>(items: seq<(string, V)>)
  {
    forall i, j :: 0 <= i < j < |items| ==> items[i].0 != items[j].0
  }

  /** `data` after `set(items)` has written each entry in turn. */
  function Written<V>(data: map<string, V>, items: seq<(string, V)>): map<string, V>
    decreases |items|
  {
    if items == [] then data else Written(data[items[0].0 := items[0].1], items[1..])
  }

  /** The size charged for what `key` held before the write. */
  function OldSize<V>(data: map<string, V>, key: string, sizeOf: V -> nat): nat
  {
    if key in data then sizeOf(data[key]) else 0
  }

  /** `bytesInUse` after `set(items)`: for each entry in turn, the old
      value's size is released and the size of the whole `items` object is
      charged. */
  function Charged<V>(bytesInUse: int, data: map<string, V>, items: seq<(string, V)>,
                      itemsSize: nat, sizeOf: V -> nat): int
    decreases |items|
  {
    if items == [] then bytesInUse
    else Charged(bytesInUse - OldSize(data, items[0].0, sizeOf) + itemsSize,
                 data[items[0].0 := items[0].1], items[1..], itemsSize, sizeOf)
  }

  /** After a write, each written key holds its written value and every
      other key is as before. */
  lemma {:induction false} WrittenLookup<V>(data: map<string, V>, items: seq<(string, V)>)
    requires DistinctKeys(items)
    ensures forall i :: 0 <= i < |items| ==>
      (items[i].0 in Written(data, items) && Written(data, items)[items[i].0] == items[i].1)
    ensures forall k :: (forall i :: 0 <= i < |items| ==> items[i].0 != k) ==>
      ((k in Written(data, items) <==> k in data) && (k in data ==> Written(data, items)[k] == data[k]))
    decreases |items|
  {
    if items != [] {
      var d' := data[items[0].0 := items[0].1];
      WrittenLookup(d', items[1..]);
      forall i | 0 <= i < |items| ensures items[i].0 in Written(data, items) && Written(data, items)[items[i].0] == items[i].1 {
        if i > 0 {
          assert items[i] == items[1..][i - 1];
        } else {
          assert forall j :: 0 <= j < |items[1..]| ==> items[1..][j].0 != items[0].0 by {
            forall j | 0 <= j < |items[1..]| ensures items[1..][j].0 != items[0].0 {
              assert items[1..][j] == items[j + 1];
            }
          }
        }
      }
      forall k | (forall i :: 0 <= i < |items| ==> items[i].0 != k)
        ensures (k in Written(data, items) <==> k in data) && (k in data ==> Written(data, items)[k] == data[k])
      {
        assert items[0].0 != k;
        assert forall j :: 0 <= j < |items[1..]| ==> items[1..][j].0 != k by {
          forall j | 0 <= j < |items[1..]| ensures items[1..][j].0 != k {
            assert items[1..][j] == items[j + 1];
          }
        }
      }
    }
  }

  /** Writing keys that are all new charges the size of the whole `items`
      object once per key, not once per write. */
  lemma {:induction false} ChargedForNewKeys<V>(bytesInUse: int, data: map<string, V>,
                                                items: seq<(string, V)>, itemsSize: nat, sizeOf: V -> nat)
    requires DistinctKeys(items)
    requires forall i :: 0 <= i < |items| ==> items[i].0 !in data
    decreases |items|
    ensures Charged(bytesInUse, data, items, itemsSize, sizeOf) == bytesInUse + |items| * itemsSize
  {
    if items != [] {
      var d' := data[items[0].0 := items[0].1];
      forall i | 0 <= i < |items[1..]| ensures items[1..][i].0 !in d' {
        assert items[1..][i] == items[i + 1];
      }
      ChargedForNewKeys(bytesInUse + itemsSize, d', items[1..], itemsSize, sizeOf);
    }
  }

  /** The storage area. `sizeOf(v)` is the UTF-8 length of
      `JSON.stringify(v)`. */
  class LocalArea<V> {
    var data: map<string, V>
    var bytesInUse: int
    const sizeOf: V -> nat

    constructor (sizeOf: V -> nat)
      ensures data == map[] && bytesInUse == 0 && this.sizeOf == sizeOf
    {
      data := map[];
      bytesInUse := 0;
      this.sizeOf := sizeOf;
    }

    /** `data.get(key)`: `None` is `undefined`. */
    function Lookup(key: string): (r: Option<V>)
      reads this
      ensures r.Some? <==> key in data
      ensures r.Some? ==> r.value == data[key]
    {
      if key in data then Some(data[key]) else None
    }

    /** `get(keys)`: one entry per requested key, absent keys included (as
        `undefined`); everything stored when no key or array is given. */
    method Get(keys: KeyQuery) returns (result: map<string, Option<V>>)
      ensures keys.Key? ==> result == map[keys.name := Lookup(keys.name)]
      ensures keys.Keys? ==> result.Keys == set k | k in keys.names
      ensures keys.Keys? ==> forall k :: k in keys.names ==> k in result && result[k] == Lookup(k)
      ensures keys.AllKeys? ==> result.Keys == data.Keys
      ensures keys.AllKeys? ==> forall k :: k in data ==> k in result && result[k] == Some(data[k])
    {
      match keys
      case Key(name) =>
        result := map[name := Lookup(name)];
      case Keys(names) =>
        result := map[];
        var i := 0;
        while i < |names|
          invariant 0 <= i <= |names|
          invariant result.Keys == set k | k in names[..i]
          invariant forall k :: k in names[..i] ==> result[k] == Lookup(k)
        {
          assert names[..i + 1] == names[..i] + [names[i]];
          result := result[names[i] := Lookup(names[i])];
          i := i + 1;
        }
        assert names[..i] == names;
      case AllKeys =>
        result := map k | k in data :: Some(data[k]);
    }

    /** `set(items)`: rejected with the quota error, changing nothing, when
        the current usage plus the size of `items` exceeds the quota;
        otherwise each entry is written and charged in turn. */
    method Set(items: seq<(string, V)>, itemsSize: nat) returns (error: Option<string>)
      requires DistinctKeys(items)
      modifies this
      ensures old(bytesInUse) + itemsSize > QUOTA_BYTES ==>
        error == Some(QUOTA_ERROR) && data == old(data) && bytesInUse == old(bytesInUse)
      ensures old(bytesInUse) + itemsSize <= QUOTA_BYTES ==>
        error.None? && data == Written(old(data), items)
        && bytesInUse == Charged(old(bytesInUse), old(data), items, itemsSize, sizeOf)
    {
      if bytesInUse + itemsSize > QUOTA_BYTES {
        return Some(QUOTA_ERROR);
      }
      error := None;
      var i := 0;
      while i < |items|
        invariant 0 <= i <= |items|
        invariant Written(data, items[i..]) == Written(old(data), items)
        invariant Charged(bytesInUse, data, items[i..], itemsSize, sizeOf)
          == Charged(old(bytesInUse), old(data), items, itemsSize, sizeOf)
      {
        assert items[i..][1..] == items[i + 1..];
        var (key, value) := items[i];
        var oldSize := if key in data then sizeOf(data[key]) else 0;
        bytesInUse := bytesInUse - oldSize + itemsSize;
        data := data[key := value];
        i := i + 1;
      }
    }

    /** `clear()`. */
    method Clear()
      modifies this
      ensures data == map[] && bytesInUse == 0
    {
      data := map[];
      bytesInUse := 0;
    }
  }
}
