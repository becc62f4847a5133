/** The order of the generated rules: processed_rows.sort with the key
    (int(priority), pattern_name). Python compares the key tuples
    lexicographically, strings by code point, and list.sort is stable. */
module Ordering {
  import opened Rules

  /** Python's < on str: lexicographic by code point, a proper prefix being
      smaller. */
  predicate StrLt(a: string, b: string) {
    if |a| == 0 then |b| > 0
    else if |b| == 0 then false
    else a[0] < b[0] || (a[0] == b[0] && StrLt(a[1..], b[1..]))
  }

  lemma {:induction false} StrLtIrreflexive(a: string)
    ensures !StrLt(a, a)
  {
    if |a| > 0 {
      StrLtIrreflexive(a[1..]);
    }
  }

  lemma {:induction false} StrLtTransitive(a: string, b: string, c: string)
    requires StrLt(a, b) && StrLt(b, c)
    ensures StrLt(a, c)
  {
    if |a| > 0 && a[0] == b[0] && b[0] == c[0] {
      StrLtTransitive(a[1..], b[1..], c[1..]);
    }
  }

  lemma {:induction false} StrLtTotal(a: string, b: string)
    ensures a == b || StrLt(a, b) || StrLt(b, a)
  {
    if |a| > 0 && |b| > 0 && a[0] == b[0] {
      StrLtTotal(a[1..], b[1..]);
      if a[1..] == b[1..] {
        assert a == [a[0]] + a[1..] && b == [b[0]] + b[1..];
      }
    }
  }

  /** The sort key of a processed row. */
  type Key = (int, string)

  function KeyOf(e: Entry): Key {
    (e.priority, e.name)
  }

  /** Tuple comparison: priorities first, names on a tie. */
  predicate KeyLt(x: Key, y: Key) {
    x.0 < y.0 || (x.0 == y.0 && StrLt(x.1, y.1))
  }

  /** The key order is a strict total order. */
  lemma KeyLtOrder(x: Key, y: Key, z: Key)
    ensures !KeyLt(x, x)
    ensures KeyLt(x, y) && KeyLt(y, z) ==> KeyLt(x, z)
    ensures x == y || KeyLt(x, y) || KeyLt(y, x)
  {
    StrLtIrreflexive(x.1);
    if KeyLt(x, y) && KeyLt(y, z) && x.0 == y.0 && y.0 == z.0 {
      StrLtTransitive(x.1, y.1, z.1);
    }
    StrLtTotal(x.1, y.1);
  }

  /** "Not after": no element after another has a smaller key. */
  predicate KeyLe(x: Key, y: Key) {
    !KeyLt(y, x)
  }

  lemma KeyLeTransitive(x: Key, y: Key, z: Key)
    requires KeyLe(x, y) && KeyLe(y, z)
    ensures KeyLe(x, z)
  {
    KeyLtOrder(z, x, y);
    KeyLtOrder(x, y, z);
  }

  /** Ordered by key, as list.sort leaves a list. */
  predicate Sorted(s: seq<Entry>) {
    forall i, j :: 0 <= i < j < |s| ==> KeyLe(KeyOf(s[i]), KeyOf(s[j]))
  }

  /** The elements with key k, in their order in s. */
  function KeyFilter(s: seq<Entry>, k: Key): (r: seq<Entry>)
    ensures |r| <= |s|
  {
    if |s| == 0 then []
    else (if KeyOf(s[0]) == k then [s[0]] else []) + KeyFilter(s[1..], k)
  }

  /** What list.sort promises: out is ordered by key, and elements with the
      same key keep their relative order from input. */
  ghost predicate StablySorted(out: seq<Entry>, input: seq<Entry>) {
    Sorted(out) && forall k :: KeyFilter(out, k) == KeyFilter(input, k)
  }

  /** Insert x in front of the first element whose key is not smaller. */
  function Insert(x: Entry, t: seq<Entry>): (r: seq<Entry>)
    ensures multiset(r) == multiset(t) + multiset{x}
  {
    if |t| == 0 || KeyLe(KeyOf(x), KeyOf(t[0])) then [x] + t
    else
      assert t == [t[0]] + t[1..];
      [t[0]] + Insert(x, t[1..])
  }

  /** A stable insertion sort: the first element goes in front of the
      sorted rest's elements with the same key. */
  function StableSort(s: seq<Entry>): (r: seq<Entry>)
    ensures multiset(r) == multiset(s)
  {
    if |s| == 0 then []
    else
      assert s == [s[0]] + s[1..];
      Insert(s[0], StableSort(s[1..]))
  }

  lemma SortedCons(x: Entry, t: seq<Entry>)
    requires Sorted(t)
    requires forall y :: y in t ==> KeyLe(KeyOf(x), KeyOf(y))
    ensures Sorted([x] + t)
  {
    var s := [x] + t;
    forall i, j | 0 <= i < j < |s| ensures KeyLe(KeyOf(s[i]), KeyOf(s[j])) {
      if i == 0 {
        assert s[j] == t[j - 1] && s[j] in t;
      } else {
        assert s[i] == t[i - 1] && s[j] == t[j - 1];
      }
    }
  }

  lemma {:induction false} InsertSorted(x: Entry, t: seq<Entry>)
    requires Sorted(t)
    ensures Sorted(Insert(x, t))
  {
    if |t| == 0 || KeyLe(KeyOf(x), KeyOf(t[0])) {
      forall y | y in t ensures KeyLe(KeyOf(x), KeyOf(y)) {
        var j :| 0 <= j < |t| && t[j] == y;
        if j > 0 {
          KeyLeTransitive(KeyOf(x), KeyOf(t[0]), KeyOf(y));
        }
      }
      SortedCons(x, t);
    } else {
      var rest := t[1..];
      InsertSorted(x, rest);
      var r := Insert(x, rest);
      forall y | y in r ensures KeyLe(KeyOf(t[0]), KeyOf(y)) {
        assert y in multiset(r);
        if y == x {
          KeyLtOrder(KeyOf(t[0]), KeyOf(x), KeyOf(t[0]));
        } else {
          assert y in multiset(rest);
          var j :| 0 <= j < |rest| && rest[j] == y;
          assert t[j + 1] == y;
        }
      }
      SortedCons(t[0], r);
    }
  }

  /** Inserting x adds x to the elements with x's key, in front of them, and
      changes no other key's elements. */
  lemma {:induction false} InsertFilter(x: Entry, t: seq<Entry>, k: Key)
    ensures KeyFilter(Insert(x, t), k) == (if KeyOf(x) == k then [x] else []) + KeyFilter(t, k)
  {
    if |t| == 0 || KeyLe(KeyOf(x), KeyOf(t[0])) {
      assert ([x] + t)[1..] == t;
    } else {
      InsertFilter(x, t[1..], k);
      var r := Insert(x, t[1..]);
      assert ([t[0]] + r)[1..] == r;
      KeyLtOrder(KeyOf(x), KeyOf(t[0]), KeyOf(t[0]));
    }
  }

  lemma {:induction false} StableSortSorted(s: seq<Entry>)
    ensures Sorted(StableSort(s))
  {
    if |s| > 0 {
      StableSortSorted(s[1..]);
      InsertSorted(s[0], StableSort(s[1..]));
    }
  }

  lemma {:induction false} StableSortFilter(s: seq<Entry>, k: Key)
    ensures KeyFilter(StableSort(s), k) == KeyFilter(s, k)
  {
    if |s| > 0 {
      StableSortFilter(s[1..], k);
      InsertFilter(s[0], StableSort(s[1..]), k);
    }
  }

  /** StableSort does what list.sort promises. */
  lemma StableSortStable(s: seq<Entry>)
    ensures StablySorted(StableSort(s), s)
  {
    StableSortSorted(s);
    forall k ensures KeyFilter(StableSort(s), k) == KeyFilter(s, k) {
      StableSortFilter(s, k);
    }
  }

  lemma {:induction false} KeyFilterHas(s: seq<Entry>, j: nat)
    requires j < |s|
    ensures s[j] in KeyFilter(s, KeyOf(s[j]))
  {
    if j > 0 {
      KeyFilterHas(s[1..], j - 1);
    }
  }

  lemma {:induction false} KeyFilterFrom(s: seq<Entry>, k: Key, y: Entry)
    requires y in KeyFilter(s, k)
    ensures y in s && KeyOf(y) == k
  {
    if |s| > 0 {
      var head := if KeyOf(s[0]) == k then [s[0]] else [];
      assert KeyFilter(s, k) == head + KeyFilter(s[1..], k);
      if y in KeyFilter(s[1..], k) {
        KeyFilterFrom(s[1..], k, y);
      } else {
        assert y in head;
      }
    }
  }

  lemma SortedTail(s: seq<Entry>)
    requires |s| > 0 && Sorted(s)
    ensures Sorted(s[1..])
  {
    var t := s[1..];
    forall i, j | 0 <= i < j < |t| ensures KeyLe(KeyOf(t[i]), KeyOf(t[j])) {
      assert t[i] == s[i + 1] && t[j] == s[j + 1];
    }
  }

  /** The first element of a sorted list has a key no greater than any
      element's. */
  lemma SortedHead(s: seq<Entry>, y: Entry)
    requires |s| > 0 && Sorted(s) && y in s
    ensures KeyLe(KeyOf(s[0]), KeyOf(y))
  {
    var j :| 0 <= j < |s| && s[j] == y;
    if j == 0 {
      KeyLtOrder(KeyOf(y), KeyOf(y), KeyOf(y));
    }
  }

  /** There is exactly one stably sorted arrangement of a list: any two
      sorted lists with the same elements per key, in the same order, are
      equal. */
  lemma {:induction false} SortedUnique(a: seq<Entry>, b: seq<Entry>)
    requires Sorted(a) && Sorted(b)
    requires forall k :: KeyFilter(a, k) == KeyFilter(b, k)
    ensures a == b
    decreases |a| + |b|
  {
    if |a| == 0 && |b| > 0 {
      KeyFilterHas(b, 0);
    } else if |a| > 0 && |b| == 0 {
      KeyFilterHas(a, 0);
    } else if |a| > 0 {
      var ka, kb := KeyOf(a[0]), KeyOf(b[0]);
      KeyFilterHas(a, 0);
      KeyFilterFrom(b, ka, a[0]);
      SortedHead(b, a[0]);
      KeyFilterHas(b, 0);
      KeyFilterFrom(a, kb, b[0]);
      SortedHead(a, b[0]);
      KeyLtOrder(ka, kb, kb);
      assert ka == kb;
      assert KeyFilter(a, ka) == [a[0]] + KeyFilter(a[1..], ka);
      assert KeyFilter(b, ka) == [b[0]] + KeyFilter(b[1..], ka);
      assert a[0] == KeyFilter(a, ka)[0] == KeyFilter(b, ka)[0] == b[0];
      forall k ensures KeyFilter(a[1..], k) == KeyFilter(b[1..], k) {
        var fa, fb := KeyFilter(a[1..], k), KeyFilter(b[1..], k);
        var ha := if KeyOf(a[0]) == k then [a[0]] else [];
        var hb := if KeyOf(b[0]) == k then [b[0]] else [];
        assert KeyFilter(a, k) == ha + fa;
        assert KeyFilter(b, k) == hb + fb;
        assert ha == hb;
        assert ha + fa == hb + fb;
        assert fa == (ha + fa)[|ha|..];
        assert fb == (hb + fb)[|hb|..];
      }
      SortedTail(a);
      SortedTail(b);
      SortedUnique(a[1..], b[1..]);
      assert a == [a[0]] + a[1..] && b == [b[0]] + b[1..];
    }
  }

  /** Any list that is a stable sort of the input is StableSort's result, so
      the model's sort stands for list.sort exactly. */
  lemma StablySortedIsStableSort(out: seq<Entry>, input: seq<Entry>)
    requires StablySorted(out, input)
    ensures out == StableSort(input)
  {
    StableSortStable(input);
    SortedUnique(out, StableSort(input));
  }
}
