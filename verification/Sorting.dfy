/**
 Sorting, and enumeration of finite sets in ascending order.

 Go iterates a map in an unspecified order; the code then sorts the keys. The
 lemmas here say that the sorted list depends on the set of keys alone.
 */
module Sorting {
  import opened Bytes

  ghost predicate TotalOrder<T(!new)>(le: (T, T) -> bool) {
    && (forall x, y :: le(x, y) || le(y, x))
    && (forall x, y :: le(x, y) && le(y, x) ==> x == y)
    && (forall x, y, z :: le(x, y) && le(y, z) ==> le(x, z))
  }

  ghost predicate Sorted<T>(le: (T, T) -> bool, s: seq<T>) {
    forall i, j | 0 <= i < j < |s| :: le(s[i], s[j])
  }

  ghost predicate NoDuplicates<T>(s: seq<T>) {
    forall i, j | 0 <= i < j < |s| :: s[i] != s[j]
  }

  function Insert<T>(le: (T, T) -> bool, x: T, s: seq<T>): seq<T> {
    if s == [] then [x]
    else if le(x, s[0]) then [x] + s
    else [s[0]] + Insert(le, x, s[1..])
  }

  function Sort<T>(le: (T, T) -> bool, s: seq<T>): seq<T> {
    if s == [] then [] else Insert(le, s[0], Sort(le, s[1..]))
  }

  lemma {:induction false} InsertPermutes<T>(le: (T, T) -> bool, x: T, s: seq<T>)
    ensures multiset(Insert(le, x, s)) == multiset(s) + multiset{x}
  {
    if s != [] && !le(x, s[0]) {
      InsertPermutes(le, x, s[1..]);
      assert s == [s[0]] + s[1..];
    }
  }

  lemma {:induction false} SortPermutes<T>(le: (T, T) -> bool, s: seq<T>)
    ensures multiset(Sort(le, s)) == multiset(s)
    ensures |Sort(le, s)| == |s|
  {
    if s != [] {
      SortPermutes(le, s[1..]);
      InsertPermutes(le, s[0], Sort(le, s[1..]));
      assert s == [s[0]] + s[1..];
    }
    assert |multiset(Sort(le, s))| == |multiset(s)|;
  }

  lemma {:induction false} InsertKeepsSorted<T(!new)>(le: (T, T) -> bool, x: T, s: seq<T>)
    requires TotalOrder(le) && Sorted(le, s)
    ensures Sorted(le, Insert(le, x, s))
  {
    if s != [] && !le(x, s[0]) {
      InsertKeepsSorted(le, x, s[1..]);
      InsertPermutes(le, x, s[1..]);
      var r := Insert(le, x, s[1..]);
      forall j | 0 <= j < |r| ensures le(s[0], r[j]) {
        assert r[j] in multiset(r);
        assert r[j] == x || r[j] in s[1..];
      }
    }
  }

  lemma {:induction false} SortSorts<T(!new)>(le: (T, T) -> bool, s: seq<T>)
    requires TotalOrder(le)
    ensures Sorted(le, Sort(le, s))
  {
    if s != [] {
      SortSorts(le, s[1..]);
      InsertKeepsSorted(le, s[0], Sort(le, s[1..]));
    }
  }

  lemma {:induction false} SortedUnique<T(!new)>(le: (T, T) -> bool, s: seq<T>, t: seq<T>)
    requires TotalOrder(le) && Sorted(le, s) && Sorted(le, t)
    requires multiset(s) == multiset(t)
    ensures s == t
  {
    assert |multiset(s)| == |s| && |multiset(t)| == |t|;
    if s != [] {
      assert s[0] in multiset(t) && t[0] in multiset(s);
      assert s[0] == t[0];
      assert s == [s[0]] + s[1..] && t == [t[0]] + t[1..];
      assert multiset(s[1..]) == multiset(s) - multiset{s[0]};
      assert multiset(t[1..]) == multiset(t) - multiset{t[0]};
      SortedUnique(le, s[1..], t[1..]);
    }
  }

  lemma SortOfPermutation<T(!new)>(le: (T, T) -> bool, s: seq<T>, t: seq<T>)
    requires TotalOrder(le)
    requires multiset(s) == multiset(t)
    ensures Sort(le, s) == Sort(le, t)
  {
    SortSorts(le, s);
    SortSorts(le, t);
    SortPermutes(le, s);
    SortPermutes(le, t);
    SortedUnique(le, Sort(le, s), Sort(le, t));
  }

  ghost predicate Enumerates<T>(s: seq<T>, elements: set<T>) {
    NoDuplicates(s) && (set x | x in s) == elements
  }

  /** Some listing of a finite set. */
  ghost function Listing<T>(elements: set<T>): (s: seq<T>)
    ensures Enumerates(s, elements)
  {
    if elements == {} then []
    else
      var x :| x in elements;
      var rest := Listing(elements - {x});
      assert (set y | y in [x] + rest) == {x} + set y | y in rest;
      [x] + rest
  }

  lemma EnumerateOneMore<T>(s: seq<T>, elements: set<T>, x: T)
    requires Enumerates(s, elements) && x !in elements
    ensures Enumerates(s + [x], elements + {x})
  {
    assert (set y | y in s + [x]) == (set y | y in s) + {x};
  }

  lemma EnumerationMultiset<T>(s: seq<T>, elements: set<T>)
    requires Enumerates(s, elements)
    ensures multiset(s) == multiset(elements)
    decreases |s|
  {
    if s == [] {
      assert elements == {};
    } else {
      assert s == [s[0]] + s[1..];
      EnumerationMultiset(s[1..], elements - {s[0]});
    }
  }

  /** A set in ascending order. */
  ghost function Ascending<T>(le: (T, T) -> bool, elements: set<T>): seq<T> {
    Sort(le, Listing(elements))
  }

  lemma SortedEnumeration<T(!new)>(le: (T, T) -> bool, s: seq<T>, elements: set<T>)
    requires TotalOrder(le) && Enumerates(s, elements)
    ensures Sort(le, s) == Ascending(le, elements)
  {
    EnumerationMultiset(s, elements);
    EnumerationMultiset(Listing(elements), elements);
    SortOfPermutation(le, s, Listing(elements));
  }

  lemma SameMultisetEnumerates<T>(s: seq<T>, t: seq<T>, elements: set<T>)
    requires Enumerates(s, elements) && multiset(s) == multiset(t)
    ensures Enumerates(t, elements)
  {
    forall x ensures x in t <==> x in elements {
      assert x in multiset(s) <==> x in multiset(t);
    }
    forall i, j | 0 <= i < j < |t| ensures t[i] != t[j] {
      EnumerationMultiset(s, elements);
      assert t == t[..j] + t[j..];
      assert t[..j][i] == t[i] && t[j..][0] == t[j];
      assert multiset(t) == multiset(t[..j]) + multiset(t[j..]);
      assert multiset(elements)[t[i]] <= 1;
    }
  }

  lemma AscendingShape<T(!new)>(le: (T, T) -> bool, elements: set<T>)
    requires TotalOrder(le)
    ensures Sorted(le, Ascending(le, elements))
    ensures Enumerates(Ascending(le, elements), elements)
  {
    SortSorts(le, Listing(elements));
    SortPermutes(le, Listing(elements));
    SameMultisetEnumerates(Listing(elements), Ascending(le, elements), elements);
  }

  lemma AscendingMembers<T(!new)>(le: (T, T) -> bool, elements: set<T>)
    requires TotalOrder(le)
    ensures forall x :: x in Ascending(le, elements) <==> x in elements
    ensures NoDuplicates(Ascending(le, elements))
    ensures elements == {} ==> Ascending(le, elements) == []
  {
    AscendingShape(le, elements);
    var s := Ascending(le, elements);
    forall x ensures x in s <==> x in elements {
      assert x in (set y | y in s) <==> x in elements;
    }
    if elements == {} {
      assert Listing(elements) == [];
    }
  }

  lemma ConcatNoDuplicates<T>(a: seq<T>, b: seq<T>)
    requires NoDuplicates(a) && NoDuplicates(b)
    requires forall x | x in a :: x !in b
    ensures NoDuplicates(a + b)
  {
    forall i, j | 0 <= i < j < |a + b| ensures (a + b)[i] != (a + b)[j] {
      if i < |a| <= j {
        assert a[i] in a;
        assert b[j - |a|] in b;
      }
    }
  }

  /** The only sorted listing of a set is its ascending one. */
  lemma SortedListing<T(!new)>(le: (T, T) -> bool, s: seq<T>, elements: set<T>)
    requires TotalOrder(le) && Sorted(le, s) && Enumerates(s, elements)
    ensures s == Ascending(le, elements)
  {
    SortedEnumeration(le, s, elements);
    SortSorts(le, s);
    SortPermutes(le, s);
    SortedUnique(le, s, Sort(le, s));
  }

  // ---- filling a map in key order ----

  /** `target` with the entries of `source` put in, key by key. */
  function PutAll<K, V>(source: map<K, V>, keys: seq<K>, target: map<K, V>): map<K, V> {
    if keys == [] then target
    else PutAll(source, keys[1..], if keys[0] in source then target[keys[0] := source[keys[0]]] else target)
  }

  lemma {:induction false} PutAllAt<K, V>(source: map<K, V>, keys: seq<K>, target: map<K, V>, k: K)
    ensures
      var filled := PutAll(source, keys, target);
      && (k in filled <==> (k in keys && k in source) || k in target)
      && (k in keys && k in source ==> filled[k] == source[k])
      && (k !in keys && k in target ==> filled[k] == target[k])
    decreases |keys|
  {
    if keys != [] {
      PutAllAt(source, keys[1..], if keys[0] in source then target[keys[0] := source[keys[0]]] else target, k);
    }
  }

  /** Put in from nothing, a listing of at least its keys gives the map back. */
  lemma PutListing<K(!new), V>(source: map<K, V>, keys: seq<K>)
    requires forall k | k in source :: k in keys
    ensures PutAll(source, keys, map[]) == source
  {
    var filled := PutAll(source, keys, map[]);
    forall k
      ensures k in filled <==> k in source
      ensures k in source ==> filled[k] == source[k]
    {
      PutAllAt(source, keys, map[], k);
    }
  }

  // ---- the two orders the code sorts by ----

  predicate ByteLe(a: byte, b: byte) {
    a <= b
  }

  /** Go's byte-wise string order. */
  predicate TextLe(a: text, b: text) {
    a == [] || (b != [] && (a[0] < b[0] || (a[0] == b[0] && TextLe(a[1..], b[1..]))))
  }

  lemma ByteOrder()
    ensures TotalOrder(ByteLe)
  {
  }

  /** One text is ahead of another when it is its beginning, or smaller where they first differ. */
  lemma {:induction false} TextLeMeans(a: text, b: text)
    ensures TextLe(a, b) <==> a <= b || exists i :: 0 <= i < |a| && i < |b| && a[..i] == b[..i] && a[i] < b[i]
  {
    if a != [] && b != [] && a[0] == b[0] {
      var x, y := a[1..], b[1..];
      TextLeMeans(x, y);
      assert a == [a[0]] + x && b == [b[0]] + y;
      if i :| 0 <= i < |x| && i < |y| && x[..i] == y[..i] && x[i] < y[i] {
        assert a[..i + 1] == [a[0]] + x[..i] && b[..i + 1] == [b[0]] + y[..i];
        assert a[i + 1] < b[i + 1];
      }
      if i :| 0 <= i < |a| && i < |b| && a[..i] == b[..i] && a[i] < b[i] {
        assert x[..i - 1] == a[..i][1..] && y[..i - 1] == b[..i][1..];
        assert x[i - 1] < y[i - 1];
      }
    }
  }

  lemma {:induction false} TextLeTotal(a: text, b: text)
    ensures TextLe(a, b) || TextLe(b, a)
    ensures TextLe(a, b) && TextLe(b, a) ==> a == b
  {
    if a != [] && b != [] && a[0] == b[0] {
      TextLeTotal(a[1..], b[1..]);
      assert a == [a[0]] + a[1..] && b == [b[0]] + b[1..];
    }
  }

  lemma {:induction false} TextLeTransitive(a: text, b: text, c: text)
    requires TextLe(a, b) && TextLe(b, c)
    ensures TextLe(a, c)
  {
    if a != [] && a[0] == b[0] && b[0] == c[0] {
      TextLeTransitive(a[1..], b[1..], c[1..]);
    }
  }

  lemma TextOrder()
    ensures TotalOrder(TextLe)
  {
    forall a, b ensures TextLe(a, b) || TextLe(b, a)
      ensures TextLe(a, b) && TextLe(b, a) ==> a == b
    {
      TextLeTotal(a, b);
    }
    forall a, b, c | TextLe(a, b) && TextLe(b, c) ensures TextLe(a, c) {
      TextLeTransitive(a, b, c);
    }
  }
}
