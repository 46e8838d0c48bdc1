/** JavaScript's insertion-ordered collections. A `Set` is seen through its
    iteration order, a sequence without repetitions; a `Map` is a finite map
    together with the order in which its keys were first set, which is the
    order `forEach` visits them in. */
module JsCollections {

  ghost predicate NoDup<T>(s: seq<T>) {
    forall i, j :: 0 <= i < j < |s| ==> s[i] != s[j]
  }

  /** `set.add(x)`: a new element goes last, a present one keeps its place. */
  function SetAdd(s: seq<string>, x: string): (r: seq<string>)
    ensures forall y :: y in r <==> y in s || y == x
    ensures NoDup(s) ==> NoDup(r)
    ensures |s| <= |r| && r[..|s|] == s
  {
    if x in s then s else s + [x]
  }

  /** A value absent from `b` is absent from anything made of some of
      `b`'s elements, and from that followed by a sequence without it. */
  lemma AbsentFromPart<T>(a: seq<T>, b: seq<T>, c: seq<T>, x: T)
    requires multiset(a) <= multiset(b) && x !in b && x !in c
    ensures x !in a + c
  {
    assert x !in multiset(b);
  }

  /** A non-empty sequence is its head followed by its tail. */
  lemma HeadTail<T>(s: seq<T>)
    requires |s| > 0
    ensures s == [s[0]] + s[1..]
  {
  }

  /** Dropping the first element keeps a sequence free of repetitions, and
      that element does not occur again. */
  lemma NoDupTail<T>(s: seq<T>)
    requires NoDup(s) && |s| > 0
    ensures NoDup(s[1..])
    ensures s[0] !in s[1..]
  {
    var t := s[1..];
    forall i, k | 0 <= i < k < |t| ensures t[i] != t[k] {
      assert t[i] == s[i + 1] && t[k] == s[k + 1];
    }
  }

  lemma SetAddContents(s: seq<string>, x: string)
    ensures (set q | q in SetAdd(s, x)) == (set q | q in s) + {x}
  {
  }

  /** A `Map` with string keys. */
  datatype OrderedMap<V> = OrderedMap(keys: seq<string>, items: map<string, V>) {

    /** The key order lists every key once and nothing else. */
    ghost predicate Valid() {
      NoDup(keys) && forall k :: k in items <==> k in keys
    }

    /** `map.set(k, v)`: a new key goes last in the order, an existing key
        keeps its place and takes the new value. */
    function Set(k: string, v: V): (r: OrderedMap<V>)
      ensures r.items == items[k := v]
      ensures Valid() ==> r.Valid()
      ensures Valid() && k in items ==> r.keys == keys
      ensures k !in items ==> r.keys == keys + [k]
    {
      OrderedMap(if k in items then keys else keys + [k], items[k := v])
    }
  }

  function EmptyMap<V>(): (m: OrderedMap<V>)
    ensures m.Valid() && m.items == map[]
  {
    OrderedMap([], map[])
  }
}
