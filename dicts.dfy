/** Python dictionaries with string keys, as the program uses them: an ordered
    sequence of (key, value) pairs with unique keys. Order is insertion order,
    which matters because `max`/`min` over `dict.items()` break ties by it and
    because the serialized output lists its keys in that order. */
module Dicts {
  import opened Wrappers

  type Dict<V> = seq<(string, V)>

  /** A serialized (JSON-like) value produced by the `to_dict` methods. */
  datatype Json = Str(s: string) | Int(n: int) | Num(r: real) | Obj(fields: Dict<Json>)

  function Keys<V>(d: Dict<V>): (ks: seq<string>)
    ensures |ks| == |d|
    ensures forall i :: 0 <= i < |d| ==> ks[i] == d[i].0
  {
    seq(|d|, i requires 0 <= i < |d| => d[i].0)
  }

  predicate UniqueKeys<V>(d: Dict<V>)
  {
    forall i, j :: 0 <= i < j < |d| ==> d[i].0 != d[j].0
  }

  /** Position of key `k` in `d`, or `|d|` when `k` is absent. */
  function IndexOf<V>(d: Dict<V>, k: string): (i: nat)
    ensures i <= |d|
    ensures i < |d| ==> d[i].0 == k
    ensures forall j :: 0 <= j < i ==> d[j].0 != k
    decreases |d|
  {
    if d == [] then 0
    else if d[0].0 == k then 0
    else 1 + IndexOf(d[1..], k)
  }

  /** `d[k]` when `k in d`. */
  function Lookup<V>(d: Dict<V>, k: string): (r: Option<V>)
    ensures r.Some? <==> k in Keys(d)
  {
    var i := IndexOf(d, k);
    if i < |d| then Some(d[i].1) else None
  }

  /** `d[k] = v`: an existing key keeps its position and gets the new value,
      a new key goes to the end. */
  function Assign<V>(d: Dict<V>, k: string, v: V): (r: Dict<V>)
    ensures Lookup(r, k) == Some(v)
    ensures forall k' :: k' != k ==> Lookup(r, k') == Lookup(d, k')
    ensures Keys(r) == if k in Keys(d) then Keys(d) else Keys(d) + [k]
    ensures UniqueKeys(d) ==> UniqueKeys(r)
  {
    var i := IndexOf(d, k);
    if i < |d| then
      var r := d[i := (k, v)];
      assert Keys(r) == Keys(d);
      forall k' | k' != k ensures Lookup(r, k') == Lookup(d, k') {
        IndexOfSameKeys(r, d, k');
      }
      IndexOfAt(r, k, i);
      r
    else
      var r := d + [(k, v)];
      assert Keys(r) == Keys(d) + [k];
      IndexOfAt(r, k, |d|);
      forall k' | k' != k ensures Lookup(r, k') == Lookup(d, k') {
        var j := IndexOf(d, k');
        if j < |d| {
          IndexOfAt(r, k', j);
        } else {
          IndexOfAt(r, k', |r|);
        }
      }
      r
  }

  /** Each entry after a dict assignment is the assigned pair or the entry that was there. */
  lemma AssignAt<V>(d: Dict<V>, k: string, v: V, j: nat)
    requires j < |Assign(d, k, v)|
    ensures Assign(d, k, v)[j] == (k, v) || (j < |d| && Assign(d, k, v)[j] == d[j])
  {
  }

  /** The value the last pair with key `k` carries. */
  function LastValue<V>(ps: Dict<V>, k: string): (r: Option<V>)
    ensures r.Some? <==> k in Keys(ps)
    decreases |ps|
  {
    if ps == [] then None
    else if ps[|ps| - 1].0 == k then Some(ps[|ps| - 1].1)
    else
      assert Keys(ps) == Keys(ps[..|ps| - 1]) + [ps[|ps| - 1].0];
      LastValue(ps[..|ps| - 1], k)
  }

  /** `{k: v for (k, v) in ps}`: later pairs overwrite earlier ones, but a key
      stays where it first appeared. */
  function FromPairs<V>(ps: Dict<V>): (d: Dict<V>)
    ensures UniqueKeys(d)
    ensures forall k :: Lookup(d, k) == LastValue(ps, k)
    decreases |ps|
  {
    if ps == [] then []
    else
      var init := ps[..|ps| - 1];
      var last := ps[|ps| - 1];
      var d := Assign(FromPairs(init), last.0, last.1);
      assert forall k :: Lookup(d, k) == LastValue(ps, k) by {
        forall k ensures Lookup(d, k) == LastValue(ps, k) {
          if k != last.0 {
            assert Lookup(d, k) == Lookup(FromPairs(init), k);
          }
        }
      }
      d
  }

  /** The comprehension over one more pair assigns that pair last. */
  lemma FromPairsSnoc<V>(ps: Dict<V>, k: string, v: V)
    ensures FromPairs(ps + [(k, v)]) == Assign(FromPairs(ps), k, v)
  {
    assert (ps + [(k, v)])[..|ps|] == ps;
  }

  /** Assigning a key that is not present appends it. */
  lemma AssignNew<V>(d: Dict<V>, k: string, v: V)
    requires k !in Keys(d)
    ensures Assign(d, k, v) == d + [(k, v)]
  {
    assert Lookup(d, k).None?;
  }

  /** Dropping the last pair keeps the keys unique, and the dropped key is not among the rest. */
  lemma UniqueKeysInit<V>(ps: Dict<V>)
    requires ps != [] && UniqueKeys(ps)
    ensures UniqueKeys(ps[..|ps| - 1])
    ensures ps[|ps| - 1].0 !in Keys(ps[..|ps| - 1])
  {
    var init := ps[..|ps| - 1];
    forall j | 0 <= j < |init| ensures Keys(init)[j] != ps[|ps| - 1].0 {
      assert Keys(init)[j] == ps[j].0;
    }
  }

  /** A non-empty sequence is its front followed by its last element. */
  lemma DropLast<T>(s: seq<T>)
    requires s != []
    ensures s == s[..|s| - 1] + [s[|s| - 1]]
  {
  }

  /** Overwriting the element just appended is appending the new one. */
  lemma SetLast<T>(s: seq<T>, x: T, y: T)
    ensures (s + [x])[|s| := y] == s + [y]
  {
  }

  /** Pairs whose keys are already unique pass through the comprehension unchanged. */
  lemma {:induction false} FromPairsUnique<V>(ps: Dict<V>)
    requires UniqueKeys(ps)
    ensures FromPairs(ps) == ps
    decreases |ps|
  {
    if ps != [] {
      var init := ps[..|ps| - 1];
      var last := ps[|ps| - 1];
      UniqueKeysInit(ps);
      FromPairsUnique(init);
      AssignNew(init, last.0, last.1);
      assert FromPairs(ps) == Assign(init, last.0, last.1);
      DropLast(ps);
    }
  }

  /** The comprehension has exactly the keys of its pairs. */
  lemma FromPairsKeys<V>(ps: Dict<V>, k: string)
    ensures k in Keys(FromPairs(ps)) <==> k in Keys(ps)
  {
    assert Lookup(FromPairs(ps), k) == LastValue(ps, k);
  }

  /** The keys of a concatenation are the keys of its parts. */
  lemma KeysAppend<V>(a: Dict<V>, b: Dict<V>)
    ensures Keys(a + b) == Keys(a) + Keys(b)
  {
  }

  /** Every entry of the comprehension's dict is one of the pairs it was built from. */
  lemma FromPairsEntry<V>(ps: Dict<V>, i: nat)
    requires i < |FromPairs(ps)|
    ensures exists j :: 0 <= j < |ps| && ps[j] == FromPairs(ps)[i]
  {
    var d := FromPairs(ps);
    IndexOfAt(d, d[i].0, i);
    assert Lookup(d, d[i].0) == Some(d[i].1);
    LastValueFrom(ps, d[i].0);
  }

  /** The last value for `k` is the value of some pair with key `k`. */
  lemma {:induction false} LastValueFrom<V>(ps: Dict<V>, k: string)
    requires LastValue(ps, k).Some?
    ensures exists j :: 0 <= j < |ps| && ps[j] == (k, LastValue(ps, k).value)
    decreases |ps|
  {
    if ps[|ps| - 1].0 != k {
      LastValueFrom(ps[..|ps| - 1], k);
      var j :| 0 <= j < |ps| - 1 && ps[..|ps| - 1][j] == (k, LastValue(ps, k).value);
      assert ps[j] == ps[..|ps| - 1][j];
    }
  }

  /** The index the first occurrence of `k` determines is `i`. */
  lemma IndexOfAt<V>(d: Dict<V>, k: string, i: nat)
    requires i <= |d|
    requires i < |d| ==> d[i].0 == k
    requires forall j :: 0 <= j < i ==> d[j].0 != k
    ensures IndexOf(d, k) == i
  {
  }

  lemma IndexOfSameKeys<V, W>(d: Dict<V>, e: Dict<W>, k: string)
    requires Keys(d) == Keys(e)
    ensures IndexOf(d, k) == IndexOf(e, k)
  {
    var i := IndexOf(d, k);
    assert forall j :: 0 <= j < |d| ==> d[j].0 == Keys(d)[j] == e[j].0;
    IndexOfAt(e, k, i);
  }

  /** Where the pairs of `a + b` last mention `k`: in `b` if `b` mentions it at all. */
  lemma {:induction false} LastValueAppend<V>(a: Dict<V>, b: Dict<V>, k: string)
    ensures LastValue(a + b, k) == if k in Keys(b) then LastValue(b, k) else LastValue(a, k)
    decreases |b|
  {
    if b == [] {
      assert a + b == a;
    } else {
      var b' := b[..|b| - 1];
      assert (a + b)[..|a + b| - 1] == a + b';
      assert Keys(b) == Keys(b') + [b[|b| - 1].0];
      LastValueAppend(a, b', k);
    }
  }

  /** With unique keys the last pair for `k` is the only one. */
  lemma {:induction false} LastValueUnique<V>(ps: Dict<V>, k: string)
    requires UniqueKeys(ps)
    ensures LastValue(ps, k) == Lookup(ps, k)
  {
    FromPairsUnique(ps);
  }

  /** Two dicts with unique keys and no key in common concatenate into one. */
  lemma UniqueKeysAppend<V>(a: Dict<V>, b: Dict<V>)
    requires UniqueKeys(a) && UniqueKeys(b)
    requires forall i :: 0 <= i < |a| ==> a[i].0 !in Keys(b)
    ensures UniqueKeys(a + b)
  {
    forall i, j | 0 <= i < j < |a + b| ensures (a + b)[i].0 != (a + b)[j].0 {
      if i < |a| && j >= |a| {
        assert (a + b)[j].0 == Keys(b)[j - |a|];
      }
    }
  }

  /** Looking up in a concatenation finds the first part's entry first. */
  lemma LookupAppend<V>(a: Dict<V>, b: Dict<V>, k: string)
    ensures Lookup(a + b, k) == if k in Keys(a) then Lookup(a, k) else Lookup(b, k)
  {
    var i := IndexOf(a, k);
    if i < |a| {
      IndexOfAt(a + b, k, i);
    } else {
      var j := IndexOf(b, k);
      IndexOfAt(a + b, k, |a| + j);
      assert k !in Keys(a);
    }
  }
}
