/** The order sort.Strings and slices.Sort put strings in, and the one sorted list of a set. */
module Sorting {

  /** Elements compare by their codes: bytes by value, characters by code point, which is also the order of their
      UTF-8 bytes. */
  ghost predicate OneToOne<T(!new)>(code: T -> int) {
    forall x, y :: code(x) == code(y) ==> x == y
  }

  /** Element by element, left to right. */
  predicate Less<T(==)>(code: T -> int, a: seq<T>, b: seq<T>)
    decreases |a|
  {
    b != [] && (a == [] || code(a[0]) < code(b[0]) || (code(a[0]) == code(b[0]) && Less(code, a[1..], b[1..])))
  }

  lemma {:induction false} LessIsTotal<T(!new)>(code: T -> int, a: seq<T>, b: seq<T>)
    requires OneToOne(code)
    ensures Less(code, a, b) || a == b || Less(code, b, a)
    ensures !(Less(code, a, b) && Less(code, b, a)) && !Less(code, a, a)
    decreases |a|
  {
    if a != [] {
      LessIsTotal(code, a[1..], a[1..]);
      if b != [] && a[0] == b[0] {
        LessIsTotal(code, a[1..], b[1..]);
        assert a[1..] == b[1..] ==> a == [a[0]] + a[1..] == b;
      }
    }
  }

  lemma {:induction false} LessIsTransitive<T(!new)>(code: T -> int, a: seq<T>, b: seq<T>, c: seq<T>)
    requires OneToOne(code)
    requires Less(code, a, b) && Less(code, b, c)
    ensures Less(code, a, c)
    decreases |a|
  {
    if a != [] && a[0] == b[0] && b[0] == c[0] {
      LessIsTransitive(code, a[1..], b[1..], c[1..]);
    }
  }

  ghost predicate Ascending<T>(code: T -> int, keys: seq<seq<T>>) {
    forall i, j :: 0 <= i < j < |keys| ==> Less(code, keys[i], keys[j])
  }

  /** The keys of a map in sorted order, each once. */
  ghost predicate SortedKeys<T>(code: T -> int, keys: seq<seq<T>>, of: set<seq<T>>) {
    && Ascending(code, keys)
    && (forall k :: k in keys ==> k in of)
    && (forall k :: k in of ==> k in keys)
  }

  lemma FirstIsLeast<T(!new)>(code: T -> int, keys: seq<seq<T>>, of: set<seq<T>>, k: seq<T>)
    requires SortedKeys(code, keys, of) && k in of
    ensures keys != [] && (keys[0] == k || Less(code, keys[0], k))
  {
    var i :| 0 <= i < |keys| && keys[i] == k;
  }

  lemma TailIsSorted<T(!new)>(code: T -> int, keys: seq<seq<T>>, of: set<seq<T>>)
    requires OneToOne(code)
    requires SortedKeys(code, keys, of) && keys != []
    ensures SortedKeys(code, keys[1..], of - {keys[0]})
  {
    LessIsTotal(code, keys[0], keys[0]);
    forall k | k in keys[1..] ensures k in of - {keys[0]} {
      var i :| 0 <= i < |keys| - 1 && keys[1..][i] == k;
      assert Less(code, keys[0], keys[i + 1]);
    }
    forall k | k in of - {keys[0]} ensures k in keys[1..] {
      var i :| 0 <= i < |keys| && keys[i] == k;
      assert keys[1..][i - 1] == k;
    }
  }

  lemma NoKeysNoList<T(!new)>(code: T -> int, keys: seq<seq<T>>, of: set<seq<T>>)
    requires SortedKeys(code, keys, of)
    ensures keys == [] <==> of == {}
  {
    if k :| k in of {
      assert k in keys;
    }
    if keys != [] {
      assert keys[0] in of;
    }
  }

  lemma AscendingIsDistinct<T(!new)>(code: T -> int, keys: seq<seq<T>>)
    requires OneToOne(code) && Ascending(code, keys)
    ensures forall i, j :: 0 <= i < j < |keys| ==> keys[i] != keys[j]
  {
    forall i, j | 0 <= i < j < |keys| ensures keys[i] != keys[j] {
      LessIsTotal(code, keys[i], keys[j]);
    }
  }

  /** A set of keys has one sorted order, so map iteration order never shows. */
  lemma {:induction false} OneSortedOrder<T(!new)>(code: T -> int, a: seq<seq<T>>, b: seq<seq<T>>, of: set<seq<T>>)
    requires OneToOne(code)
    requires SortedKeys(code, a, of) && SortedKeys(code, b, of)
    ensures a == b
    decreases |a|
  {
    NoKeysNoList(code, a, of);
    NoKeysNoList(code, b, of);
    if of != {} {
      FirstIsLeast(code, b, of, a[0]);
      FirstIsLeast(code, a, of, b[0]);
      LessIsTotal(code, a[0], b[0]);
      TailIsSorted(code, a, of);
      TailIsSorted(code, b, of);
      OneSortedOrder(code, a[1..], b[1..], of - {a[0]});
      assert a == [a[0]] + a[1..] && b == [b[0]] + b[1..];
    }
  }

  /** One more key into an already sorted list. */
  method InsertKey<T(==, !new)>(code: T -> int, keys: seq<seq<T>>, k: seq<T>) returns (more: seq<seq<T>>)
    requires OneToOne(code)
    requires Ascending(code, keys) && k !in keys
    ensures Ascending(code, more)
    ensures forall x :: x in more <==> x == k || x in keys
  {
    var i := 0;
    while i < |keys| && Less(code, keys[i], k)
      invariant 0 <= i <= |keys|
      invariant forall j :: 0 <= j < i ==> Less(code, keys[j], k)
    {
      i := i + 1;
    }
    more := keys[..i] + [k] + keys[i..];
    forall j | i <= j < |keys| ensures Less(code, k, keys[j]) {
      LessIsTotal(code, keys[i], k);
      assert keys[i] in keys;
      if j > i { LessIsTransitive(code, k, keys[i], keys[j]); }
    }
    forall x | x == k || x in keys ensures x in more {
      if x == k {
        assert more[i] == k;
      } else {
        var j :| 0 <= j < |keys| && keys[j] == x;
        assert x == more[if j < i then j else j + 1];
      }
    }
  }

  /** The keys, met in any order, sorted. */
  method SortKeys<T(==, !new)>(code: T -> int, of: set<seq<T>>) returns (sorted: seq<seq<T>>)
    requires OneToOne(code)
    ensures SortedKeys(code, sorted, of)
  {
    sorted := [];
    var rest := of;
    while rest != {}
      invariant Ascending(code, sorted) && rest <= of
      invariant forall k :: k in sorted <==> k in of - rest
      decreases rest
    {
      var k :| k in rest;
      sorted := InsertKey(code, sorted, k);
      rest := rest - {k};
    }
  }
}
