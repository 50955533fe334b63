/** The metadata mapping behind `Meta._data`: string keys, each present once.
    A Python 2 dict iterates in an order it does not promise; the model fixes one
    order, the order in which the keys were first inserted. */
module Dicts {
  import opened Bytes
  import opened Results
  import opened Seqs

  /** The closed set of value kinds a metadata entry can hold. */
  datatype Value =
    | Nil
    | Boolean(b: bool)
    | Integer(i: int)
    | Text(s: string)
    | Blob(bytes: seq<byte>)

  type Entry = (string, Value)

  /** A dict: its entries in insertion order. */
  type Entries = seq<Entry>

  /** The mapping the entries stand for. */
  function ToMap(es: Entries): map<string, Value> {
    if es == [] then map[] else ToMap(es[1..])[es[0].0 := es[0].1]
  }

  /** No key occurs twice: the invariant every dict keeps. */
  predicate Distinct(es: Entries) {
    es == [] || (es[0].0 !in ToMap(es[1..]) && Distinct(es[1..]))
  }

  /** The keys in insertion order: what iterating over the dict yields. */
  function Keys(es: Entries): (ks: seq<string>)
    ensures |ks| == |es|
    ensures forall i {:trigger ks[i]} :: 0 <= i < |es| ==> ks[i] == es[i].0
  {
    if es == [] then [] else [es[0].0] + Keys(es[1..])
  }

  /** `d[k]`: the value stored under `k`, if any. */
  function Lookup(es: Entries, k: string): (r: Option<Value>)
    ensures r.Some? <==> k in ToMap(es)
    ensures r.Some? ==> r.value == ToMap(es)[k]
  {
    if es == [] then None
    else if es[0].0 == k then Some(es[0].1)
    else Lookup(es[1..], k)
  }

  /** `d[k] = v`: overwrites the value of a present key in place and appends a new
      key at the end, so the mapping gains or changes exactly `k`. */
  function Assign(es: Entries, k: string, v: Value): (r: Entries)
    requires Distinct(es)
    ensures Distinct(r)
    ensures ToMap(r) == ToMap(es)[k := v]
    ensures Keys(r) == if k in ToMap(es) then Keys(es) else Keys(es) + [k]
    ensures k !in ToMap(es) ==> r == es + [(k, v)]
  {
    if es == [] then
      Cons((k, v), []);
      [(k, v)]
    else if es[0].0 == k then
      Cons(es[0], es[1..]);
      Cons((k, v), es[1..]);
      ConsTail(es);
      [(k, v)] + es[1..]
    else
      var rest := Assign(es[1..], k, v);
      AssignBehind(es, k, v, rest);
      [es[0]] + rest
  }

  /** The recursive case of Assign: the first entry has another key, so it stays
      in front of the assignment into the rest. */
  lemma AssignBehind(es: Entries, k: string, v: Value, rest: Entries)
    requires Distinct(es) && es != [] && es[0].0 != k
    requires Distinct(rest) && ToMap(rest) == ToMap(es[1..])[k := v]
    requires Keys(rest) == if k in ToMap(es[1..]) then Keys(es[1..]) else Keys(es[1..]) + [k]
    requires k !in ToMap(es[1..]) ==> rest == es[1..] + [(k, v)]
    ensures Distinct([es[0]] + rest)
    ensures ToMap([es[0]] + rest) == ToMap(es)[k := v]
    ensures Keys([es[0]] + rest) == if k in ToMap(es) then Keys(es) else Keys(es) + [k]
    ensures k !in ToMap(es) ==> [es[0]] + rest == es + [(k, v)]
  {
    var e, tail := es[0], es[1..];
    Cons(e, tail);
    Cons(e, rest);
    ConsTail(es);
    assert (k in ToMap(es)) == (k in ToMap(tail));
    SwapUpdates(ToMap(tail), k, v, e.0, e.1);
    if k !in ToMap(es) {
      Assoc([e.0], Keys(tail), [k]);
      Assoc([e], tail, [(k, v)]);
    }
  }

  lemma SwapUpdates(m: map<string, Value>, k: string, v: Value, j: string, w: Value)
    requires k != j
    ensures m[k := v][j := w] == m[j := w][k := v]
  {
  }

  /** What the dict functions see of an entry put in front of others. */
  lemma Cons(e: Entry, rest: Entries)
    ensures ([e] + rest)[0] == e && ([e] + rest)[1..] == rest
    ensures ToMap([e] + rest) == ToMap(rest)[e.0 := e.1]
    ensures Keys([e] + rest) == [e.0] + Keys(rest)
    ensures Distinct([e] + rest) <==> e.0 !in ToMap(rest) && Distinct(rest)
  {
    assert ([e] + rest)[1..] == rest;
  }

  /** `del d[k]`: the entry of `k` goes and nothing else changes. */
  function Remove(es: Entries, k: string): (r: Entries)
    requires Distinct(es)
    ensures Distinct(r)
    ensures ToMap(r) == ToMap(es) - {k}
    ensures k in ToMap(es) ==> |r| == |es| - 1
    ensures k !in ToMap(es) ==> r == es
  {
    if es == [] then []
    else if es[0].0 == k then
      assert ToMap(es) - {k} == ToMap(es[1..]) - {k};
      es[1..]
    else
      var rest := Remove(es[1..], k);
      var r := [es[0]] + rest;
      assert r[1..] == rest;
      r
  }

  /** Iteration yields exactly the keys of the mapping. */
  lemma {:induction false} KeysAreMapKeys(es: Entries)
    ensures forall x :: x in Keys(es) <==> x in ToMap(es)
  {
    if es != [] {
      KeysAreMapKeys(es[1..]);
      assert Keys(es) == [es[0].0] + Keys(es[1..]);
    }
  }

  /** `len(d)`: a dict with distinct keys has as many keys as entries. */
  lemma {:induction false} SizeIsLength(es: Entries)
    requires Distinct(es)
    ensures |ToMap(es)| == |es|
  {
    if es != [] {
      SizeIsLength(es[1..]);
    }
  }

  /** Iteration yields each key once: no key is repeated in `Keys`. */
  lemma {:induction false} KeysDistinct(es: Entries)
    requires Distinct(es)
    ensures forall i, j :: 0 <= i < j < |es| ==> Keys(es)[i] != Keys(es)[j]
  {
    if es != [] {
      KeysDistinct(es[1..]);
      KeysAreMapKeys(es[1..]);
      forall i, j | 0 <= i < j < |es| ensures Keys(es)[i] != Keys(es)[j] {
        if i == 0 {
          assert Keys(es)[j] == Keys(es[1..])[j - 1];
        } else {
          assert Keys(es)[i] == Keys(es[1..])[i - 1];
          assert Keys(es)[j] == Keys(es[1..])[j - 1];
        }
      }
    }
  }
}
