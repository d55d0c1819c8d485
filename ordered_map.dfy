/**
 * A JavaScript `Map<string, V>`: entries kept in the order their keys were
 * first inserted. `set` on a key already present replaces the value in place
 * and keeps the key's position; `values()` yields the values in insertion
 * order. `clear()` is the empty sequence, which the service assigns.
 */
module OrderedMap {

  datatype Entry<V> = Entry(key: string, value: V)

  /** The representation invariant: each key occurs once. */
  predicate KeysUnique<V>(m: seq<Entry<V>>) {
    forall i, j :: 0 <= i < j < |m| ==> m[i].key != m[j].key
  }

  function Keys<V>(m: seq<Entry<V>>): set<string> {
    set i | 0 <= i < |m| :: m[i].key
  }

  /** `map.has(k)` */
  predicate Has<V>(m: seq<Entry<V>>, k: string) {
    k in Keys(m)
  }

  /** `map.set(k, v)`: a present key keeps its position and gets the new value;
      a new key goes to the end. */
  function Put<V>(m: seq<Entry<V>>, k: string, v: V): (r: seq<Entry<V>>)
    requires KeysUnique(m)
    ensures KeysUnique(r)
    ensures Keys(r) == Keys(m) + {k}
    ensures |r| == if Has(m, k) then |m| else |m| + 1
    ensures forall i :: 0 <= i < |m| ==> r[i] == if m[i].key == k then Entry(k, v) else m[i]
    ensures !Has(m, k) ==> r == m + [Entry(k, v)]
  {
    if Has(m, k) then
      var r := seq(|m|, i requires 0 <= i < |m| => if m[i].key == k then Entry(k, v) else m[i]);
      assert Keys(r) == Keys(m) by {
        forall x | x in Keys(r) ensures x in Keys(m) {
          var i :| 0 <= i < |r| && r[i].key == x;
          assert m[i].key == x;
        }
        forall x | x in Keys(m) ensures x in Keys(r) {
          var i :| 0 <= i < |m| && m[i].key == x;
          assert r[i].key == x;
        }
      }
      r
    else
      var r := m + [Entry(k, v)];
      assert Keys(r) == Keys(m) + {k} by {
        forall x | x in Keys(r) ensures x in Keys(m) + {k} {
          var i :| 0 <= i < |r| && r[i].key == x;
          if i < |m| { assert m[i].key == x; }
        }
        forall x | x in Keys(m) ensures x in Keys(r) {
          var i :| 0 <= i < |m| && m[i].key == x;
          assert r[i].key == x;
        }
        assert r[|m|].key == k;
      }
      assert forall i :: 0 <= i < |m| ==> m[i].key != k;
      r
  }

  /** `Array.from(map.values())` */
  function Values<V>(m: seq<Entry<V>>): (r: seq<V>)
    ensures |r| == |m|
    ensures forall i :: 0 <= i < |m| ==> r[i] == m[i].value
  {
    seq(|m|, i requires 0 <= i < |m| => m[i].value)
  }
}
