/** Python dicts with string keys: the keys in insertion order, and the
    value each key currently holds. */
module Dicts {
  import opened Wrappers

  datatype Dict<V> = Dict(keys: seq<string>, values: map<string, V>)

  /** Every key is listed once, and the listed keys are those of the table. */
  predicate Valid<V>(d: Dict<V>)
  {
    && (forall i, j :: 0 <= i < j < |d.keys| ==> d.keys[i] != d.keys[j])
    && (forall k :: k in d.keys ==> k in d.values)
    && (forall k :: k in d.values ==> k in d.keys)
  }

  function EmptyDict<V>(): (r: Dict<V>)
    ensures Valid(r) && r.keys == [] && r.values == map[]
  {
    Dict([], map[])
  }

  /** `d[k] = v`: a new key goes last, a key already present keeps its
      place and takes the new value. */
  function Put<V>(d: Dict<V>, k: string, v: V): (r: Dict<V>)
    requires Valid(d)
    ensures Valid(r)
    ensures k in r.values && r.values[k] == v
    ensures forall j :: j != k ==> (j in r.values <==> j in d.values)
    ensures forall j :: j != k && j in d.values ==> r.values[j] == d.values[j]
    ensures k in d.values ==> r.keys == d.keys
    ensures k !in d.values ==> r.keys == d.keys + [k]
  {
    Dict(if k in d.values then d.keys else d.keys + [k], d.values[k := v])
  }

  /** The keys of a list of items, in order, repeats included. */
  function ItemKeys<V>(items: seq<(string, V)>): (r: seq<string>)
    ensures |r| == |items| && forall i :: 0 <= i < |items| ==> r[i] == items[i].0
  {
    seq(|items|, i requires 0 <= i < |items| => items[i].0)
  }

  lemma ItemKeysSnoc<V>(items: seq<(string, V)>)
    requires items != []
    ensures ItemKeys(items) == ItemKeys(items[..|items| - 1]) + [items[|items| - 1].0]
  {
  }

  /** A dict comprehension `{k: v for (k, v) in items}`: the items are put
      one after the other. */
  function FromItems<V>(items: seq<(string, V)>): (r: Dict<V>)
    decreases |items|
    ensures Valid(r)
    ensures forall k :: k in r.values <==> k in ItemKeys(items)
  {
    if items == [] then EmptyDict()
    else
      var init := items[..|items| - 1];
      var last := items[|items| - 1];
      ItemKeysSnoc(items);
      Put(FromItems(init), last.0, last.1)
  }

  /** A key maps to the value of its last item. */
  lemma {:induction false} FromItemsLastWins<V>(items: seq<(string, V)>, i: nat)
    requires i < |items|
    requires forall j :: i < j < |items| ==> items[j].0 != items[i].0
    decreases |items|
    ensures items[i].0 in FromItems(items).values && FromItems(items).values[items[i].0] == items[i].1
  {
    if i < |items| - 1 {
      var init := items[..|items| - 1];
      assert forall j :: i < j < |init| ==> init[j].0 != init[i].0;
      FromItemsLastWins(init, i);
    }
  }

  /** Items with distinct keys keep their order. */
  lemma {:induction false} FromDistinctItems<V>(items: seq<(string, V)>)
    requires forall i, j :: 0 <= i < j < |items| ==> items[i].0 != items[j].0
    decreases |items|
    ensures FromItems(items).keys == ItemKeys(items)
  {
    if items != [] {
      var init := items[..|items| - 1];
      var last := items[|items| - 1];
      assert forall i, j :: 0 <= i < j < |init| ==> init[i].0 != init[j].0 by {
        forall i, j | 0 <= i < j < |init| ensures init[i].0 != init[j].0 {
          assert init[i] == items[i] && init[j] == items[j];
        }
      }
      FromDistinctItems(init);
      var ks := ItemKeys(init);
      assert last.0 !in ks by {
        forall i | 0 <= i < |ks| ensures ks[i] != last.0 {
          assert ks[i] == items[i].0;
        }
      }
      var before := FromItems(init);
      assert last.0 !in before.values;
      assert FromItems(items) == Put(before, last.0, last.1);
      ItemKeysSnoc(items);
    }
  }

  /** `d.get(k, default)`. */
  function Get<V>(d: Dict<V>, k: string, default: V): (r: V)
    ensures k in d.values ==> r == d.values[k]
    ensures k !in d.values ==> r == default
  {
    if k in d.values then d.values[k] else default
  }

  /** Python's `d or fallback` on an optional dict: None and an empty dict
      both count as absent. */
  function OrElse<V>(d: Option<Dict<V>>, fallback: Dict<V>): (r: Dict<V>)
    ensures d.Some? && d.value.keys != [] ==> r == d.value
    ensures d.None? || d.value.keys == [] ==> r == fallback
  {
    if d.Some? && d.value.keys != [] then d.value else fallback
  }
}
