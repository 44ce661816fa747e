/** A Python `dict` keyed by strings, as the reference collectors use it: an association list
    in insertion order. Assigning to a key that is already present overwrites its value and
    keeps its position; a new key goes to the end. */
module RefTable {
  import opened Results

  type Table<V> = seq<(string, V)>

  function Keys<V>(t: Table<V>): (r: seq<string>)
    ensures |r| == |t|
    ensures forall i :: 0 <= i < |t| ==> r[i] == t[i].0
  {
    if |t| == 0 then [] else [t[0].0] + Keys(t[1..])
  }

  predicate Distinct(ks: seq<string>) {
    forall i, j :: 0 <= i < j < |ks| ==> ks[i] != ks[j]
  }

  lemma KeysSnoc<V>(t: Table<V>, e: (string, V))
    ensures Keys(t + [e]) == Keys(t) + [e.0]
  {
    var a, b := Keys(t + [e]), Keys(t) + [e.0];
    assert forall i :: 0 <= i < |a| ==> a[i] == b[i];
  }

  lemma DistinctSnoc(ks: seq<string>, x: string)
    ensures Distinct(ks + [x]) <==> Distinct(ks) && x !in ks
  {
    var xs := ks + [x];
    if Distinct(xs) {
      forall i, j | 0 <= i < j < |ks| ensures ks[i] != ks[j] {
        assert xs[i] == ks[i] && xs[j] == ks[j];
      }
      forall i | 0 <= i < |ks| ensures ks[i] != x {
        assert xs[i] == ks[i] && xs[|ks|] == x;
      }
    }
    if Distinct(ks) && x !in ks {
      forall i, j | 0 <= i < j < |xs| ensures xs[i] != xs[j] {
        assert xs[i] == ks[i];
        if j < |ks| {
          assert xs[j] == ks[j];
        }
      }
    }
  }

  /** `t.get(k)` for a table with distinct keys (the first match otherwise). */
  function Lookup<V>(t: Table<V>, k: string): Option<V>
  {
    if |t| == 0 then None else if t[0].0 == k then Some(t[0].1) else Lookup(t[1..], k)
  }

  /** `t[k] = v`. */
  function Put<V>(t: Table<V>, k: string, v: V): Table<V>
  {
    if |t| == 0 then [(k, v)]
    else if t[0].0 == k then [(k, v)] + t[1..]
    else [t[0]] + Put(t[1..], k, v)
  }

  /** Assigning to a present key keeps the key order; a new key goes to the end. */
  lemma {:induction false} PutKeys<V>(t: Table<V>, k: string, v: V)
    ensures k in Keys(t) ==> Keys(Put(t, k, v)) == Keys(t)
    ensures k !in Keys(t) ==> Keys(Put(t, k, v)) == Keys(t) + [k]
  {
    if |t| > 0 {
      var first, tail := t[0], t[1..];
      assert t == [first] + tail;
      assert Keys(t) == [first.0] + Keys(tail);
      if first.0 == k {
        assert Keys([(k, v)] + tail) == [k] + Keys(tail);
      } else {
        PutKeys(tail, k, v);
        assert Keys([first] + Put(tail, k, v)) == [first.0] + Keys(Put(tail, k, v));
      }
    }
  }

  /** After `t[k] = v` the key maps to `v` and every other key to what it mapped to before. */
  lemma {:induction false} PutLookup<V>(t: Table<V>, k: string, v: V)
    ensures Lookup(Put(t, k, v), k) == Some(v)
    ensures forall k' :: k' != k ==> Lookup(Put(t, k, v), k') == Lookup(t, k')
  {
    var r := Put(t, k, v);
    if |t| == 0 {
      assert r[1..] == [];
    } else if t[0].0 == k {
      assert r[1..] == t[1..];
    } else {
      PutLookup(t[1..], k, v);
      assert r[1..] == Put(t[1..], k, v);
    }
  }

  /** Assignment never introduces a duplicate key. */
  lemma PutDistinct<V>(t: Table<V>, k: string, v: V)
    requires Distinct(Keys(t))
    ensures Distinct(Keys(Put(t, k, v)))
  {
    PutKeys(t, k, v);
    DistinctSnoc(Keys(t), k);
  }

  /** Assigning the entries one after the other, as the collecting loops do. */
  function PutAll<V>(t: Table<V>, es: seq<(string, V)>): Table<V>
  {
    if |es| == 0 then t else Put(PutAll(t, es[..|es| - 1]), es[|es| - 1].0, es[|es| - 1].1)
  }

  /** Reference definition of the key order: every key once, at its first occurrence. */
  function FirstOccurrences(ks: seq<string>): seq<string>
  {
    if |ks| == 0 then []
    else
      var d := FirstOccurrences(ks[..|ks| - 1]);
      if ks[|ks| - 1] in ks[..|ks| - 1] then d else d + [ks[|ks| - 1]]
  }

  /** Reference definition of the stored value: the last one assigned. */
  function LastValue<V>(es: seq<(string, V)>, k: string): Option<V>
  {
    if |es| == 0 then None
    else if es[|es| - 1].0 == k then Some(es[|es| - 1].1)
    else LastValue(es[..|es| - 1], k)
  }

  lemma {:induction false} FirstOccurrencesMembers(ks: seq<string>)
    ensures forall k :: k in FirstOccurrences(ks) <==> k in ks
  {
    if |ks| > 0 {
      var init := ks[..|ks| - 1];
      FirstOccurrencesMembers(init);
      assert ks == init + [ks[|ks| - 1]];
    }
  }

  lemma {:induction false} FirstOccurrencesDistinct(ks: seq<string>)
    ensures Distinct(FirstOccurrences(ks))
  {
    if |ks| > 0 {
      FirstOccurrencesDistinct(ks[..|ks| - 1]);
      FirstOccurrencesMembers(ks[..|ks| - 1]);
    }
  }

  /** Assigning a list of entries into an empty table: keys in first-occurrence order, each
      bound to the last value assigned to it, and no key twice. */
  lemma {:induction false} PutAllSemantics<V>(es: seq<(string, V)>)
    ensures Keys(PutAll([], es)) == FirstOccurrences(Keys(es))
    ensures Distinct(Keys(PutAll([], es)))
    ensures forall k :: Lookup(PutAll([], es), k) == LastValue(es, k)
  {
    if |es| > 0 {
      var init := es[..|es| - 1];
      var k, v := es[|es| - 1].0, es[|es| - 1].1;
      var t := PutAll([], init);
      PutAllSemantics(init);
      assert Keys(es)[..|es| - 1] == Keys(init);
      FirstOccurrencesMembers(Keys(init));
      assert k in Keys(t) <==> k in Keys(init);
      PutKeys(t, k, v);
      PutLookup(t, k, v);
      PutDistinct(t, k, v);
    }
  }

  /** With no repeated key, the table is exactly the list of entries. */
  lemma {:induction false} PutAllDistinct<V>(es: seq<(string, V)>)
    requires Distinct(Keys(es))
    ensures PutAll([], es) == es
  {
    if |es| > 0 {
      var init := es[..|es| - 1];
      var e := es[|es| - 1];
      assert es == init + [e];
      KeysSnoc(init, e);
      DistinctSnoc(Keys(init), e.0);
      PutAllDistinct(init);
      PutAbsentAppends(init, e.0, e.1);
    }
  }

  lemma {:induction false} PutAbsentAppends<V>(t: Table<V>, k: string, v: V)
    requires k !in Keys(t)
    ensures Put(t, k, v) == t + [(k, v)]
  {
    if |t| > 0 {
      assert Keys(t) == [t[0].0] + Keys(t[1..]);
      PutAbsentAppends(t[1..], k, v);
    }
  }

  lemma {:induction false} PutAllConcat<V>(t: Table<V>, a: seq<(string, V)>, b: seq<(string, V)>)
    ensures PutAll(t, a + b) == PutAll(PutAll(t, a), b)
  {
    if |b| == 0 {
      assert a + b == a;
    } else {
      assert (a + b)[..|a + b| - 1] == a + b[..|b| - 1];
      PutAllConcat(t, a, b[..|b| - 1]);
    }
  }
}
