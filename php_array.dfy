/** The part of PHP's built-in array that an LDAP entry relies on.

    A PHP array is an ORDERED table: each key (an integer or a string) occurs
    at most once, and iteration follows insertion order. It is modelled here as
    the sequence of its (key, value) entries; `UniqueKeys` is the invariant every
    PHP array satisfies. The operations are those the entry uses: lookup by key
    (`isset`/`$a[$k]`), assignment `$a[$k] = $v`, `unset($a[$k])`,
    `array_values` and single-array `array_map`.
 */
module PhpArray {

  datatype Option<+T> = None | Some(value: T)

  /** A PHP array key. */
  datatype Key = IntKey(n: int) | StrKey(s: string)

  /** A PHP array as its entries in iteration order. */
  type Arr<K, V> = seq<(K, V)>

  /** No key occurs twice: true of every PHP array. */
  predicate UniqueKeys<K(==), V>(a: Arr<K, V>) {
    forall i, j :: 0 <= i < j < |a| ==> a[i].0 != a[j].0
  }

  /** The keys in iteration order (`array_keys`). */
  function KeysOf<K, V>(a: Arr<K, V>): seq<K> {
    seq(|a|, i requires 0 <= i < |a| => a[i].0)
  }

  /** The position of the entry for `k`, if there is one (the first one, which is
      the only one in a PHP array). */
  function Find<K(==), V>(a: Arr<K, V>, k: K): (r: Option<nat>)
    ensures r.Some? ==> r.value < |a| && a[r.value].0 == k
    ensures r.Some? ==> forall j :: 0 <= j < r.value ==> a[j].0 != k
    ensures r.None? ==> forall j :: 0 <= j < |a| ==> a[j].0 != k
  {
    if a == [] then None
    else if a[0].0 == k then Some(0)
    else match Find(a[1..], k)
      case None =>
        assert forall j :: 1 <= j < |a| ==> a[j] == a[1..][j - 1];
        None
      case Some(i) => Some(i + 1)
  }

  /** `isset($a[$k]) ? $a[$k] : null`, for an array whose values are never null. */
  function Lookup<K(==), V>(a: Arr<K, V>, k: K): (r: Option<V>)
    ensures r.Some? <==> k in KeysOf(a)
    ensures UniqueKeys(a) ==> forall i :: 0 <= i < |a| && a[i].0 == k ==> r == Some(a[i].1)
  {
    match Find(a, k)
    case None =>
      assert forall j :: 0 <= j < |a| ==> KeysOf(a)[j] != k;
      None
    case Some(i) =>
      assert KeysOf(a)[i] == k;
      Some(a[i].1)
  }

  /** `$a[$k] = $v`: an existing key keeps its position and gets the new value;
      a new key is appended at the end. */
  function Assign<K(==), V>(a: Arr<K, V>, k: K, v: V): (r: Arr<K, V>)
    ensures KeysOf(r) == if k in KeysOf(a) then KeysOf(a) else KeysOf(a) + [k]
  {
    match Find(a, k)
    case None =>
      assert k !in KeysOf(a) by {
        assert forall j :: 0 <= j < |a| ==> KeysOf(a)[j] != k;
      }
      assert KeysOf(a + [(k, v)]) == KeysOf(a) + [k];
      a + [(k, v)]
    case Some(i) =>
      assert KeysOf(a)[i] == k;
      assert KeysOf(a[i := (k, v)]) == KeysOf(a);
      a[i := (k, v)]
  }

  /** `unset($a[$k])`: drops the entry for `k`, if any, and keeps the others in
      their order. */
  function Unset<K(==), V>(a: Arr<K, V>, k: K): (r: Arr<K, V>)
    ensures k !in KeysOf(a) ==> r == a
    ensures k in KeysOf(a) ==> |r| == |a| - 1
  {
    match Find(a, k)
    case None =>
      assert k !in KeysOf(a) by {
        assert forall j :: 0 <= j < |a| ==> KeysOf(a)[j] != k;
      }
      a
    case Some(i) =>
      assert KeysOf(a)[i] == k;
      a[..i] + a[i + 1..]
  }

  /** `array_values`: the values in iteration order; the keys are dropped. */
  function Values<K, V>(a: Arr<K, V>): (r: seq<V>)
    ensures |r| == |a|
    ensures forall i :: 0 <= i < |a| ==> r[i] == a[i].1
  {
    if a == [] then [] else [a[0].1] + Values(a[1..])
  }

  /** `array_map($f, $a)` with a single array: the keys and their order are
      kept, each value is replaced by its image under `f`. */
  function MapValues<K, V, W>(a: Arr<K, V>, f: V -> W): (r: Arr<K, W>)
    ensures KeysOf(r) == KeysOf(a)
  {
    var r := seq(|a|, i requires 0 <= i < |a| => (a[i].0, f(a[i].1)));
    assert KeysOf(r) == KeysOf(a);
    r
  }

  /** A PHP list: the keys are exactly 0, 1, 2, ... in this order. */
  predicate IsList<V>(a: Arr<Key, V>) {
    forall i :: 0 <= i < |a| ==> a[i].0 == IntKey(i)
  }

  /** The PHP list holding the elements of `s` in order. */
  function ListOf<V>(s: seq<V>): Arr<Key, V> {
    seq(|s|, i requires 0 <= i < |s| => (IntKey(i), s[i]))
  }

  /** `s` with every occurrence of `x` dropped, the rest in order. */
  function Without<T(==)>(s: seq<T>, x: T): (r: seq<T>)
    ensures x !in r
    ensures |r| <= |s|
  {
    if s == [] then [] else (if s[0] == x then [] else [s[0]]) + Without(s[1..], x)
  }

  /** The abstract view of an array as a finite map; it forgets the order. */
  ghost function ToMap<K, V>(a: Arr<K, V>): map<K, V> {
    map k | k in KeysOf(a) :: Lookup(a, k).value
  }

  // ---------------------------------------------------------------------------
  // Lookup

  /** `Find` gives the first position holding `k`. */
  lemma FindIs<K, V>(a: Arr<K, V>, k: K, i: nat)
    requires i < |a| && a[i].0 == k
    requires forall j :: 0 <= j < i ==> a[j].0 != k
    ensures Find(a, k) == Some(i)
  {
  }

  /** `Find` gives nothing when no position holds `k`. */
  lemma FindNone<K, V>(a: Arr<K, V>, k: K)
    requires forall j :: 0 <= j < |a| ==> a[j].0 != k
    ensures Find(a, k) == None
  {
  }

  /** Where `k` is found depends on the keys alone. */
  lemma FindKeys<K, V, W>(a: Arr<K, V>, b: Arr<K, W>, k: K)
    requires KeysOf(a) == KeysOf(b)
    ensures Find(a, k) == Find(b, k)
  {
    assert |a| == |KeysOf(a)| == |b|;
    assert forall j :: 0 <= j < |a| ==> a[j].0 == KeysOf(a)[j] == b[j].0;
    match Find(a, k)
    case None => FindNone(b, k);
    case Some(i) => FindIs(b, k, i);
  }

  /** Two arrays of equal length that agree on every entry holding `k` give the
      same lookup for `k`. */
  lemma LookupAgree<K, V>(a: Arr<K, V>, b: Arr<K, V>, k: K)
    requires |a| == |b|
    requires forall i :: 0 <= i < |a| && (a[i].0 == k || b[i].0 == k) ==> a[i] == b[i]
    ensures Lookup(a, k) == Lookup(b, k)
  {
  }

  // ---------------------------------------------------------------------------
  // Assignment: $a[$k] = $v

  /** After `$a[$k] = $v`, `$a[$k]` is `$v` and every other key reads as before. */
  lemma AssignLookup<K, V>(a: Arr<K, V>, k: K, v: V, k': K)
    ensures Lookup(Assign(a, k, v), k') == if k' == k then Some(v) else Lookup(a, k')
  {
    var r := Assign(a, k, v);
    match Find(a, k)
    case None =>
      assert forall j :: 0 <= j < |a| ==> r[j] == a[j];
      if k' == k {
        FindIs(r, k, |a|);
      } else {
        match Find(a, k')
        case None => FindNone(r, k');
        case Some(j) => FindIs(r, k', j);
      }
    case Some(i) =>
      if k' == k {
        FindIs(r, k, i);
      } else {
        LookupAgree(a, r, k');
      }
  }

  /** `$a[$k] = $v` keeps a PHP array a PHP array. */
  lemma AssignUnique<K, V>(a: Arr<K, V>, k: K, v: V)
    requires UniqueKeys(a)
    ensures UniqueKeys(Assign(a, k, v))
  {
    var r := Assign(a, k, v);
    match Find(a, k)
    case None =>
      assert forall j :: 0 <= j < |a| ==> r[j] == a[j];
    case Some(i) =>
      assert forall j :: 0 <= j < |a| && j != i ==> r[j] == a[j];
  }

  /** Assigning the same value twice is the same as assigning it once. */
  lemma AssignIdempotent<K, V>(a: Arr<K, V>, k: K, v: V)
    ensures Assign(Assign(a, k, v), k, v) == Assign(a, k, v)
  {
    var r := Assign(a, k, v);
    AssignLookup(a, k, v, k);
    var i := Find(r, k).value;
    assert r[i] == (k, v);
  }

  /** The map view of `$a[$k] = $v` is map update. */
  lemma ToMapAssign<K, V>(a: Arr<K, V>, k: K, v: V)
    ensures ToMap(Assign(a, k, v)) == ToMap(a)[k := v]
  {
    var r := Assign(a, k, v);
    forall k' | k' in KeysOf(r)
      ensures ToMap(r)[k'] == ToMap(a)[k := v][k']
    {
      AssignLookup(a, k, v, k');
    }
  }

  // ---------------------------------------------------------------------------
  // Removal: unset($a[$k])

  /** Where the entries of `Unset(a, k)` come from, when `k` is at position `i`. */
  lemma UnsetAt<K, V>(a: Arr<K, V>, k: K, i: nat)
    requires Find(a, k) == Some(i)
    ensures |Unset(a, k)| == |a| - 1
    ensures forall j :: 0 <= j < i ==> Unset(a, k)[j] == a[j]
    ensures forall j :: i <= j < |a| - 1 ==> Unset(a, k)[j] == a[j + 1]
  {
    var left, right := a[..i], a[i + 1..];
    assert Unset(a, k) == left + right;
    assert forall j :: 0 <= j < i ==> left[j] == a[j];
    assert forall j :: 0 <= j < |right| ==> right[j] == a[i + 1 + j];
  }

  /** After `unset($a[$k])`, `$a[$k]` is absent and every other key reads as
      before. */
  lemma UnsetLookup<K, V>(a: Arr<K, V>, k: K, k': K)
    requires UniqueKeys(a)
    ensures Lookup(Unset(a, k), k') == if k' == k then None else Lookup(a, k')
  {
    match Find(a, k)
    case None =>
    case Some(i) =>
      var r := Unset(a, k);
      UnsetAt(a, k, i);
      if k' == k {
        FindNone(r, k);
      } else {
        match Find(a, k')
        case None => FindNone(r, k');
        case Some(j) =>
          if j < i { FindIs(r, k', j); } else { FindIs(r, k', j - 1); }
      }
  }

  /** `unset` keeps a PHP array a PHP array. */
  lemma UnsetUnique<K, V>(a: Arr<K, V>, k: K)
    requires UniqueKeys(a)
    ensures UniqueKeys(Unset(a, k))
  {
  }

  /** Dropping `x` distributes over concatenation. */
  lemma {:induction false} WithoutAppend<T>(s: seq<T>, t: seq<T>, x: T)
    ensures Without(s + t, x) == Without(s, x) + Without(t, x)
  {
    if s == [] {
      assert s + t == t;
    } else {
      var head := if s[0] == x then [] else [s[0]];
      assert (s + t)[0] == s[0] && (s + t)[1..] == s[1..] + t;
      WithoutAppend(s[1..], t, x);
      assert Without(s + t, x) == head + (Without(s[1..], x) + Without(t, x));
    }
  }

  /** Dropping an element that does not occur changes nothing. */
  lemma {:induction false} WithoutAbsent<T>(s: seq<T>, x: T)
    requires x !in s
    ensures Without(s, x) == s
  {
    if s != [] {
      assert s == [s[0]] + s[1..];
      WithoutAbsent(s[1..], x);
    }
  }

  /** Dropping the one occurrence of `x` from `left + [x] + right`. */
  lemma {:induction false} WithoutOne<T>(left: seq<T>, x: T, right: seq<T>)
    requires x !in left && x !in right
    ensures Without(left + [x] + right, x) == left + right
  {
    calc {
      Without(left + [x] + right, x);
      { WithoutAppend(left + [x], right, x); }
      Without(left + [x], x) + Without(right, x);
      { WithoutAppend(left, [x], x); }
      Without(left, x) + Without([x], x) + Without(right, x);
      { assert Without([x], x) == []; }
      Without(left, x) + Without(right, x);
      { WithoutAbsent(left, x); WithoutAbsent(right, x); }
      left + right;
    }
  }

  /** The keys of `Unset(a, k)` around the position `i` of `k`. */
  lemma UnsetKeysAt<K, V>(a: Arr<K, V>, k: K, i: nat)
    requires UniqueKeys(a) && Find(a, k) == Some(i)
    ensures KeysOf(a) == KeysOf(a)[..i] + [k] + KeysOf(a)[i + 1..]
    ensures KeysOf(Unset(a, k)) == KeysOf(a)[..i] + KeysOf(a)[i + 1..]
    ensures k !in KeysOf(a)[..i] && k !in KeysOf(a)[i + 1..]
  {
    var ks := KeysOf(a);
    var left, right := ks[..i], ks[i + 1..];
    UnsetAt(a, k, i);
    assert KeysOf(Unset(a, k)) == left + right;
    assert ks == left + [k] + right;
    assert forall j :: 0 <= j < |left| ==> left[j] == a[j].0;
    assert forall j :: 0 <= j < |right| ==> right[j] == a[i + 1 + j].0;
  }

  /** `unset($a[$k])` keeps the other keys in their order; if `$k` is absent
      the array is untouched. */
  lemma UnsetKeys<K, V>(a: Arr<K, V>, k: K)
    requires UniqueKeys(a)
    ensures KeysOf(Unset(a, k)) == Without(KeysOf(a), k)
    ensures k !in KeysOf(a) ==> Unset(a, k) == a
  {
    var ks := KeysOf(a);
    match Find(a, k)
    case None =>
      assert forall j :: 0 <= j < |a| ==> ks[j] != k;
      WithoutAbsent(ks, k);
    case Some(i) =>
      UnsetKeysAt(a, k, i);
      WithoutOne(ks[..i], k, ks[i + 1..]);
  }

  /** Removing a key twice is the same as removing it once. */
  lemma UnsetIdempotent<K, V>(a: Arr<K, V>, k: K)
    requires UniqueKeys(a)
    ensures Unset(Unset(a, k), k) == Unset(a, k)
  {
  }

  /** The map view of `unset($a[$k])` is removal of the key. */
  lemma ToMapUnset<K, V>(a: Arr<K, V>, k: K)
    requires UniqueKeys(a)
    ensures ToMap(Unset(a, k)) == ToMap(a) - {k}
  {
    var r, m := ToMap(Unset(a, k)), ToMap(a) - {k};
    forall k' | k' in r ensures k' in m && r[k'] == m[k'] {
      UnsetLookup(a, k, k');
    }
    forall k' | k' in m ensures k' in r {
      UnsetLookup(a, k, k');
    }
  }

  // ---------------------------------------------------------------------------
  // array_map and array_values

  /** `array_map` with one array keeps every key and its position and maps the
      value found under each key. */
  lemma MapValuesLookup<K, V, W>(a: Arr<K, V>, f: V -> W)
    ensures KeysOf(MapValues(a, f)) == KeysOf(a)
    ensures UniqueKeys(a) ==> UniqueKeys(MapValues(a, f))
    ensures forall k :: Lookup(MapValues(a, f), k) == match Lookup(a, k)
                                                      case None => None
                                                      case Some(x) => Some(f(x))
  {
    var r := MapValues(a, f);
    assert KeysOf(r) == KeysOf(a);
    forall k ensures Lookup(r, k) == match Lookup(a, k)
                                     case None => None
                                     case Some(x) => Some(f(x))
    {
      FindKeys(a, r, k);
    }
  }

  /** `array_values` turns any array into a list with the same values in the
      same order. */
  lemma ListOfValues<K, V>(a: Arr<K, V>)
    ensures IsList(ListOf(Values(a)))
    ensures UniqueKeys(ListOf(Values(a)))
    ensures Values(ListOf(Values(a))) == Values(a)
  {
  }

  /** On a list, `array_values` changes nothing. */
  lemma ValuesOfList<V>(a: Arr<Key, V>)
    requires IsList(a)
    ensures ListOf(Values(a)) == a
  {
  }
}
