/**
 * `MessageCollection`: an `ArrayObject` of messages. The storage is an
 * ordered PHP array: every element keeps the integer key it was stored
 * under, `append` uses the next free key, and unsetting a key neither
 * renumbers the others nor lowers the next free key.
 */
module MessageCollections {
  import opened Wrappers

  /** One slot of the ordered array: its key and the message stored there. */
  datatype Entry<T> = Entry(key: nat, value: T)

  /** The keys of the array, in order, strictly increasing. */
  predicate KeysIncreasing<T>(entries: seq<Entry<T>>)
  {
    forall i, j :: 0 <= i < j < |entries| ==> entries[i].key < entries[j].key
  }

  /** Every key is below the next free key. */
  predicate KeysBelow<T>(entries: seq<Entry<T>>, nextKey: nat)
  {
    forall i :: 0 <= i < |entries| ==> entries[i].key < nextKey
  }

  /** The messages, in the array's order. */
  function Values<T>(entries: seq<Entry<T>>): (r: seq<T>)
    ensures |r| == |entries|
    ensures forall i :: 0 <= i < |entries| ==> r[i] == entries[i].value
  {
    seq(|entries|, i requires 0 <= i < |entries| => entries[i].value)
  }

  /** A PHP list: the items under keys 0, 1, ..., in order. */
  function Numbered<T>(items: seq<T>): (r: seq<Entry<T>>)
    ensures Values(r) == items
    ensures KeysIncreasing(r) && KeysBelow(r, |items|)
  {
    seq(|items|, i requires 0 <= i < |items| => Entry(i, items[i]))
  }

  /**
   * `array_search($message, $array, false)`: the position of the first
   * element that `eq` (PHP's loose `==` on the messages) finds equal to
   * `m`, or `|entries|` when there is none.
   */
  function IndexOf<T>(entries: seq<Entry<T>>, m: T, eq: (T, T) -> bool): (r: nat)
    ensures r <= |entries|
    ensures forall i :: 0 <= i < r ==> !eq(m, entries[i].value)
    ensures r < |entries| ==> eq(m, entries[r].value)
  {
    if entries == [] then 0
    else if eq(m, entries[0].value) then 0
    else 1 + IndexOf(entries[1..], m, eq)
  }

  /** `unset($array[$key])`: every entry but the one under `key`, in order. */
  function Unset<T>(entries: seq<Entry<T>>, key: nat): (r: seq<Entry<T>>)
    ensures |r| <= |entries|
    ensures forall i :: 0 <= i < |r| ==> r[i].key != key
  {
    if entries == [] then []
    else if entries[0].key == key then Unset(entries[1..], key)
    else [entries[0]] + Unset(entries[1..], key)
  }

  /** Unsetting adds nothing: every entry left was in the array before. */
  lemma {:induction false} UnsetAddsNothing<T>(entries: seq<Entry<T>>, key: nat)
    ensures forall i :: 0 <= i < |Unset(entries, key)| ==> Unset(entries, key)[i] in entries
  {
    if entries != [] {
      UnsetAddsNothing(entries[1..], key);
      var rest := Unset(entries[1..], key);
      forall i | 0 <= i < |rest| ensures rest[i] in entries {
        assert rest[i] in entries[1..];
      }
    }
  }

  /** Unsetting a key that is not in the array changes nothing. */
  lemma {:induction false} UnsetAbsent<T>(entries: seq<Entry<T>>, key: nat)
    requires forall i :: 0 <= i < |entries| ==> entries[i].key != key
    ensures Unset(entries, key) == entries
  {
    if entries != [] {
      UnsetAbsent(entries[1..], key);
      assert entries == [entries[0]] + entries[1..];
    }
  }

  /**
   * With distinct keys, unsetting the key found at position `i` removes
   * exactly that element: the others keep their order and their keys.
   */
  lemma {:induction false} UnsetAt<T>(entries: seq<Entry<T>>, i: nat)
    requires KeysIncreasing(entries) && i < |entries|
    ensures Unset(entries, entries[i].key) == entries[..i] + entries[i + 1..]
  {
    var key := entries[i].key;
    if i == 0 {
      UnsetAbsent(entries[1..], key);
    } else {
      var rest := entries[1..];
      assert rest[i - 1] == entries[i];
      UnsetAt(rest, i - 1);
      assert entries[..i] == [entries[0]] + rest[..i - 1];
      assert entries[i + 1..] == rest[i..];
    }
  }

  /** Removing one element keeps the remaining keys increasing and below the next free key. */
  lemma RemoveKeepsKeys<T>(entries: seq<Entry<T>>, nextKey: nat, i: nat)
    requires KeysIncreasing(entries) && KeysBelow(entries, nextKey) && i < |entries|
    ensures KeysIncreasing(entries[..i] + entries[i + 1..])
    ensures KeysBelow(entries[..i] + entries[i + 1..], nextKey)
  {
    var r := entries[..i] + entries[i + 1..];
    forall a, b | 0 <= a < b < |r| ensures r[a].key < r[b].key {
      var a' := if a < i then a else a + 1;
      var b' := if b < i then b else b + 1;
      assert r[a] == entries[a'] && r[b] == entries[b'];
    }
  }

  class MessageCollection<T> {
    var entries: seq<Entry<T>>
    /** PHP's next free element: the key `append` uses next. */
    var nextKey: nat

    ghost predicate Valid()
      reads this
    {
      KeysIncreasing(entries) && KeysBelow(entries, nextKey)
    }

    /** `new MessageCollection($list)`: the messages under keys 0, 1, .... */
    constructor (items: seq<T>)
      ensures Valid()
      ensures entries == Numbered(items) && nextKey == |items|
    {
      entries := Numbered(items);
      nextKey := |items|;
    }

    /** `first()`: the first message in insertion order, or `false` (`None`) when there is none. */
    method First() returns (r: Option<T>)
      ensures entries == [] <==> r.None?
      ensures r.Some? ==> r.value == Values(entries)[0]
    {
      if entries == [] {
        r := None;
      } else {
        r := Some(entries[0].value);
      }
    }

    /** `last()`: the last message in insertion order, or `false` (`None`) when there is none. */
    method Last() returns (r: Option<T>)
      ensures entries == [] <==> r.None?
      ensures r.Some? ==> r.value == Values(entries)[|entries| - 1]
    {
      if entries == [] {
        r := None;
      } else {
        r := Some(entries[|entries| - 1].value);
      }
    }

    /** `count()`. */
    method Count() returns (n: nat)
      ensures n == |Values(entries)|
    {
      n := |entries|;
    }

    /** `isEmpty()`: `0 === count()`. */
    method IsEmpty() returns (empty: bool)
      ensures empty <==> Values(entries) == []
    {
      var n := Count();
      empty := n == 0;
    }

    /**
     * `toArray()`: a copy of the ordered array, keys and messages; being a
     * value, later changes to the copy or to the collection do not reach the other.
     */
    method ToArray() returns (copy: seq<Entry<T>>)
      ensures copy == entries
    {
      copy := entries;
    }

    /** `add($message)`: append under the next free key and return the collection itself. */
    method Add(m: T) returns (self: MessageCollection<T>)
      requires Valid()
      modifies this
      ensures Valid() && self == this
      ensures entries == old(entries) + [Entry(old(nextKey), m)]
      ensures Values(entries) == Values(old(entries)) + [m]
      ensures nextKey == old(nextKey) + 1
    {
      entries := entries + [Entry(nextKey, m)];
      nextKey := nextKey + 1;
      self := this;
    }

    /**
     * `remove($message)`: unset the first element found equal to `m`, and
     * return the collection itself; `false` (`None`) and no change when none is.
     */
    method Remove(m: T, eq: (T, T) -> bool) returns (r: Option<MessageCollection<T>>)
      requires Valid()
      modifies this
      ensures Valid() && nextKey == old(nextKey)
      ensures IndexOf(old(entries), m, eq) == |old(entries)| ==> r.None? && entries == old(entries)
      ensures IndexOf(old(entries), m, eq) < |old(entries)| ==>
        r == Some(this) &&
        entries == old(entries)[..IndexOf(old(entries), m, eq)] + old(entries)[IndexOf(old(entries), m, eq) + 1..]
      ensures IndexOf(old(entries), m, eq) < |old(entries)| ==> |Values(entries)| == |Values(old(entries))| - 1
    {
      var copy := ToArray();
      var i := IndexOf(copy, m, eq);
      if i == |copy| {
        return None;
      }
      var key := copy[i].key;
      UnsetAt(entries, i);
      RemoveKeepsKeys(entries, nextKey, i);
      entries := Unset(entries, key);
      r := Some(this);
    }

    /** `clear()`: `exchangeArray(array())`, which also restarts the keys at 0. */
    method Clear() returns (self: MessageCollection<T>)
      modifies this
      ensures Valid() && self == this
      ensures entries == [] && nextKey == 0
    {
      entries := [];
      nextKey := 0;
      self := this;
    }
  }

  /**
   * `remove` undoes `add` of a message no earlier element is equal to: the
   * search stops at the appended element, and unsetting it leaves the
   * earlier array as it was.
   */
  lemma {:induction false} AddThenRemove<T>(entries: seq<Entry<T>>, key: nat, m: T, eq: (T, T) -> bool)
    requires eq(m, m) && IndexOf(entries, m, eq) == |entries|
    ensures IndexOf(entries + [Entry(key, m)], m, eq) == |entries|
    ensures (entries + [Entry(key, m)])[..|entries|] + (entries + [Entry(key, m)])[|entries| + 1..] == entries
  {
    var added := entries + [Entry(key, m)];
    assert forall i :: 0 <= i < |entries| ==> added[i] == entries[i];
    assert added[|entries|].value == m;
    assert added[..|entries|] == entries;
    assert added[|entries| + 1..] == [];
  }

  /**
   * Of three distinct messages: `first` and `last` are the first and third,
   * removing the last leaves two, adding it back makes three again, and it
   * is then last once more; `clear` then empties the collection.
   */
  method ArrayObjectRound<T>(a: T, b: T, c: T, eq: (T, T) -> bool)
    returns (first: Option<T>, last: Option<T>, afterRemove: nat, afterAdd: nat, lastAgain: Option<T>,
             afterClear: nat, empty: bool)
    requires eq(c, c) && !eq(c, a) && !eq(c, b)
    ensures first == Some(a) && last == Some(c)
    ensures afterRemove == 2 && afterAdd == 3 && lastAgain == Some(c)
    ensures afterClear == 0 && empty
  {
    var messages := new MessageCollection([a, b, c]);
    first := messages.First();
    last := messages.Last();
    var removed := messages.Remove(c, eq);
    afterRemove := messages.Count();
    var self := messages.Add(c);
    afterAdd := messages.Count();
    lastAgain := messages.Last();
    self := messages.Clear();
    afterClear := messages.Count();
    empty := messages.IsEmpty();
  }
}
