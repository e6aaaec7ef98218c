/** BTreeMap<String, V> as the strictly ascending sequence of its entries,
    which is also the order in which it iterates. */
module SortedMap {
  import opened Wrappers
  import opened StringOrder

  type Entries<V> = seq<(string, V)>

  ghost predicate Sorted<V>(e: Entries<V>) {
    forall i, j :: 0 <= i < j < |e| ==> Less(e[i].0, e[j].0)
  }

  function Keys<V>(e: Entries<V>): set<string> {
    set i | 0 <= i < |e| :: e[i].0
  }

  /** `BTreeMap::get`. */
  function Get<V>(e: Entries<V>, k: string): Option<V> {
    if e == [] then None
    else if e[0].0 == k then Some(e[0].1)
    else Get(e[1..], k)
  }

  lemma {:induction false} GetKeys<V>(e: Entries<V>, k: string)
    ensures Get(e, k).Some? <==> k in Keys(e)
  {
    if e != [] {
      GetKeys(e[1..], k);
      KeysCons(e);
    }
  }

  lemma KeysCons<V>(e: Entries<V>)
    requires e != []
    ensures Keys(e) == {e[0].0} + Keys(e[1..])
  {
    forall k | k in Keys(e) ensures k in {e[0].0} + Keys(e[1..]) {
      var i :| 0 <= i < |e| && e[i].0 == k;
      if i > 0 {
        assert e[1..][i - 1].0 == k;
      }
    }
    forall k | k in Keys(e[1..]) ensures k in Keys(e) {
      var i :| 0 <= i < |e[1..]| && e[1..][i].0 == k;
      assert e[i + 1].0 == k;
    }
  }

  lemma SortedTail<V>(e: Entries<V>)
    requires Sorted(e) && e != []
    ensures Sorted(e[1..])
    ensures forall k :: k in Keys(e[1..]) ==> Less(e[0].0, k)
    ensures e[0].0 !in Keys(e[1..])
  {
    forall k | k in Keys(e[1..]) ensures Less(e[0].0, k) {
      var i :| 0 <= i < |e[1..]| && e[1..][i].0 == k;
      assert e[i + 1].0 == k;
    }
    if e[0].0 in Keys(e[1..]) {
      Irreflexive(e[0].0);
    }
  }

  /** Every entry of an ascending sequence is what a lookup of its key finds. */
  lemma {:induction false} GetAt<V>(e: Entries<V>, i: nat)
    requires Sorted(e) && i < |e|
    ensures Get(e, e[i].0) == Some(e[i].1)
  {
    if i > 0 {
      assert Less(e[0].0, e[i].0);
      Irreflexive(e[0].0);
      SortedTail(e);
      GetAt(e[1..], i - 1);
    }
  }

  lemma SortedCons<V>(x: (string, V), e: Entries<V>)
    requires Sorted(e)
    requires forall k :: k in Keys(e) ==> Less(x.0, k)
    ensures Sorted([x] + e)
  {
    forall j | 0 <= j < |e| ensures Less(x.0, e[j].0) {
      assert e[j].0 in Keys(e);
    }
  }

  /** `BTreeMap::insert`: binds `k` to `v`, replacing an earlier value, and
      keeps the entries ascending. */
  function Insert<V>(e: Entries<V>, k: string, v: V): (r: Entries<V>)
    requires Sorted(e)
    ensures Sorted(r)
    ensures Get(r, k) == Some(v)
    ensures forall k' :: k' != k ==> Get(r, k') == Get(e, k')
    ensures |r| == if Get(e, k).Some? then |e| else |e| + 1
  {
    if e == [] then
      KeysSingleton(k, v);
      [(k, v)]
    else if e[0].0 == k then
      ReplaceHead(e, v);
      [(k, v)] + e[1..]
    else if Less(k, e[0].0) then
      PrependLess(e, k, v);
      GetKeys(e, k);
      [(k, v)] + e
    else
      Total(k, e[0].0);
      SortedTail(e);
      var rest := Insert(e[1..], k, v);
      InsertKeys(e[1..], k, v, rest);
      KeepHead(e, k, rest);
      [e[0]] + rest
  }

  /** The keys of an insertion are the old keys and the inserted one. */
  lemma InsertKeys<V>(e: Entries<V>, k: string, v: V, r: Entries<V>)
    requires Get(r, k) == Some(v)
    requires forall k' :: k' != k ==> Get(r, k') == Get(e, k')
    ensures Keys(r) == Keys(e) + {k}
  {
    forall k' ensures k' in Keys(r) <==> k' in Keys(e) + {k} {
      GetKeys(r, k');
      GetKeys(e, k');
    }
  }

  lemma KeysSingleton<V>(k: string, v: V)
    ensures Keys([(k, v)]) == {k}
  {
    assert [(k, v)][0].0 == k;
  }

  lemma ReplaceHead<V>(e: Entries<V>, v: V)
    requires Sorted(e) && e != []
    ensures Sorted([(e[0].0, v)] + e[1..])
    ensures Keys([(e[0].0, v)] + e[1..]) == Keys(e)
    ensures ([(e[0].0, v)] + e[1..])[1..] == e[1..]
  {
    SortedTail(e);
    KeysCons(e);
    SortedCons((e[0].0, v), e[1..]);
    KeysCons([(e[0].0, v)] + e[1..]);
    assert ([(e[0].0, v)] + e[1..])[1..] == e[1..];
  }

  lemma PrependLess<V>(e: Entries<V>, k: string, v: V)
    requires Sorted(e) && e != [] && Less(k, e[0].0)
    ensures Sorted([(k, v)] + e)
    ensures Keys([(k, v)] + e) == Keys(e) + {k}
    ensures k !in Keys(e)
    ensures ([(k, v)] + e)[1..] == e
  {
    SortedTail(e);
    KeysCons(e);
    forall k' | k' in Keys(e) ensures Less(k, k') {
      if k' != e[0].0 {
        Transitive(k, e[0].0, k');
      }
    }
    SortedCons((k, v), e);
    KeysCons([(k, v)] + e);
    assert ([(k, v)] + e)[1..] == e;
    if k in Keys(e) {
      Irreflexive(k);
    }
  }

  lemma KeepHead<V>(e: Entries<V>, k: string, rest: Entries<V>)
    requires Sorted(e) && e != [] && Less(e[0].0, k)
    requires Sorted(rest) && Keys(rest) == Keys(e[1..]) + {k}
    ensures Sorted([e[0]] + rest)
    ensures Keys([e[0]] + rest) == Keys(e) + {k}
    ensures ([e[0]] + rest)[1..] == rest
  {
    SortedTail(e);
    KeysCons(e);
    SortedCons(e[0], rest);
    KeysCons([e[0]] + rest);
    assert ([e[0]] + rest)[1..] == rest;
  }

  /** Two ascending entry sequences that answer every lookup alike are equal:
      a BTreeMap's iteration depends only on its contents. */
  lemma {:induction false} Extensional<V>(a: Entries<V>, b: Entries<V>)
    requires Sorted(a) && Sorted(b)
    requires forall k :: Get(a, k) == Get(b, k)
    ensures a == b
  {
    assert a != [] ==> Get(a, a[0].0).Some?;
    assert b != [] ==> Get(b, b[0].0).Some?;
    if a != [] && b != [] {
      var ka, kb := a[0].0, b[0].0;
      GetKeys(a, kb);
      GetKeys(b, ka);
      KeysCons(a);
      KeysCons(b);
      SortedTail(a);
      SortedTail(b);
      assert ka == kb by {
        assert Get(a, ka).Some? && Get(b, kb).Some?;
        if ka != kb {
          assert Less(kb, ka) && Less(ka, kb);
          Asymmetric(ka, kb);
        }
      }
      forall k ensures Get(a[1..], k) == Get(b[1..], k) {
        if k == ka {
          GetKeys(a[1..], k);
          GetKeys(b[1..], k);
        } else {
          assert Get(a, k) == Get(b, k);
        }
      }
      Extensional(a[1..], b[1..]);
      assert a == [a[0]] + a[1..];
      assert b == [b[0]] + b[1..];
    }
  }
}
