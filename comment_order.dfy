/**
 * The sibling order of the comment tree: buildCommentComparator (a createTime
 * comparison with a sign taken from the page's sort) and the stable sort that
 * List.sort applies with it.
 */
module CommentOrder {

  datatype Direction = Asc | Desc

  /** One order of a Spring `Sort`: a property name and a direction. */
  datatype Order = Order(property: string, direction: Direction)

  type Sort = seq<Order>

  const CREATE_TIME: string := "createTime"

  /** The sort pageVosBy falls back to when the request is unsorted. */
  const DEFAULT_SORT: Sort := [Order(CREATE_TIME, Desc)]

  /** `Pageable.getSortOr`: the request's sort, or `default` when it has no orders. */
  function SortOr(sort: Sort, default: Sort): Sort {
    if sort == [] then default else sort
  }

  /** The direction the comparator applies: that of the first order on createTime,
      or descending when the sort has none. */
  function CreateTimeDirection(sort: Sort): Direction {
    if sort == [] then Desc
    else if sort[0].property == CREATE_TIME then sort[0].direction
    else CreateTimeDirection(sort[1..])
  }

  /** A sort without an order on createTime gives the descending comparator. */
  lemma {:induction false} NoCreateTimeOrderIsDesc(sort: Sort)
    requires forall i :: 0 <= i < |sort| ==> sort[i].property != CREATE_TIME
    ensures CreateTimeDirection(sort) == Desc
  {
    if sort != [] {
      assert sort[0].property != CREATE_TIME;
      NoCreateTimeOrderIsDesc(sort[1..]);
    }
  }

  /** The first order on createTime decides the direction; later ones are ignored. */
  lemma {:induction false} FirstCreateTimeOrderDecides(sort: Sort, i: nat)
    requires i < |sort| && sort[i].property == CREATE_TIME
    requires forall j :: 0 <= j < i ==> sort[j].property != CREATE_TIME
    ensures CreateTimeDirection(sort) == sort[i].direction
  {
    if i > 0 {
      assert sort[0].property != CREATE_TIME;
      assert sort[1..][i - 1] == sort[i];
      forall j | 0 <= j < i - 1 ensures sort[1..][j].property != CREATE_TIME {
        assert sort[1..][j] == sort[j + 1];
      }
      FirstCreateTimeOrderDecides(sort[1..], i - 1);
    }
  }

  /** The comparator's sign: +1 ascending, -1 descending. */
  function Sign(d: Direction): int {
    if d == Asc then 1 else -1
  }

  /** `Date.compareTo`: -1, 0 or +1. */
  function CompareTo(a: int, b: int): int {
    if a < b then -1 else if a == b then 0 else 1
  }

  /** The comment comparator on two creation times. */
  function Compare(d: Direction, a: int, b: int): (r: int)
    ensures -1 <= r <= 1
    ensures r == 0 <==> a == b
    ensures r < 0 <==> (if d == Asc then a < b else b < a)
  {
    if d == Asc then CompareTo(a, b) else -CompareTo(a, b)
  }

  /** The comparator is the sign times the comparison of the creation times. */
  lemma CompareIsSigned(d: Direction, a: int, b: int)
    ensures Compare(d, a, b) == Sign(d) * CompareTo(a, b)
  {
    if d == Desc {
      assert Sign(d) * CompareTo(a, b) == -CompareTo(a, b);
    }
  }

  lemma CompareAntisymmetric(d: Direction, a: int, b: int)
    ensures Compare(d, a, b) == -Compare(d, b, a)
  {
  }

  lemma CompareTransitive(d: Direction, a: int, b: int, c: int)
    requires Compare(d, a, b) <= 0 && Compare(d, b, c) <= 0
    ensures Compare(d, a, c) <= 0
  {
  }

  /** `s` is ordered by the comparator on `key`. */
  predicate SortedBy<T>(s: seq<T>, key: T -> int, d: Direction) {
    forall i, j :: 0 <= i < j < |s| ==> Compare(d, key(s[i]), key(s[j])) <= 0
  }

  /** The elements of `s` whose key is `k`, in their order in `s`. */
  function WithKey<T>(s: seq<T>, key: T -> int, k: int): (r: seq<T>)
  {
    if s == [] then []
    else (if key(s[0]) == k then [s[0]] else []) + WithKey(s[1..], key, k)
  }

  /** Inserts `x` in front of the first element that does not sort strictly before it. */
  function Insert<T>(x: T, s: seq<T>, key: T -> int, d: Direction): (r: seq<T>)
    ensures multiset(r) == multiset(s) + multiset{x}
  {
    if s == [] || Compare(d, key(x), key(s[0])) <= 0 then
      [x] + s
    else
      assert s == [s[0]] + s[1..];
      [s[0]] + Insert(x, s[1..], key, d)
  }

  lemma {:induction false} InsertSorted<T>(x: T, s: seq<T>, key: T -> int, d: Direction)
    requires SortedBy(s, key, d)
    ensures SortedBy(Insert(x, s, key, d), key, d)
  {
    if s == [] || Compare(d, key(x), key(s[0])) <= 0 {
      InsertFrontSorted(x, s, key, d);
    } else {
      InsertSorted(x, s[1..], key, d);
      InsertBehindSorted(x, s, key, d);
    }
  }

  lemma InsertFrontSorted<T>(x: T, s: seq<T>, key: T -> int, d: Direction)
    requires SortedBy(s, key, d)
    requires s == [] || Compare(d, key(x), key(s[0])) <= 0
    ensures SortedBy([x] + s, key, d)
  {
    var r := [x] + s;
    forall i, j | 0 <= i < j < |r| ensures Compare(d, key(r[i]), key(r[j])) <= 0 {
      if i == 0 && j > 1 {
        CompareTransitive(d, key(x), key(s[0]), key(s[j - 1]));
      }
    }
  }

  lemma InsertBehindSorted<T>(x: T, s: seq<T>, key: T -> int, d: Direction)
    requires s != [] && Compare(d, key(x), key(s[0])) > 0
    requires SortedBy(s, key, d)
    requires SortedBy(Insert(x, s[1..], key, d), key, d)
    ensures SortedBy(Insert(x, s, key, d), key, d)
  {
    var t := Insert(x, s[1..], key, d);
    var r := [s[0]] + t;
    assert Insert(x, s, key, d) == r;
    forall j | 0 <= j < |t| ensures Compare(d, key(s[0]), key(t[j])) <= 0 {
      assert t[j] in multiset(t);
      if t[j] != x {
        assert t[j] in multiset(s[1..]);
        var m :| 0 <= m < |s[1..]| && s[1..][m] == t[j];
        assert s[m + 1] == t[j];
      }
    }
    forall i, j | 0 <= i < j < |r| ensures Compare(d, key(r[i]), key(r[j])) <= 0 {
      assert r[j] == t[j - 1];
      if i > 0 {
        assert r[i] == t[i - 1];
      }
    }
  }

  /** The stable sort `List.sort` applies (insertion sort; see SortByIsTheStableSort). */
  function SortBy<T>(s: seq<T>, key: T -> int, d: Direction): (r: seq<T>)
    ensures multiset(r) == multiset(s)
    ensures |r| == |s|
    ensures SortedBy(r, key, d)
  {
    if s == [] then []
    else
      assert s == [s[0]] + s[1..];
      InsertSorted(s[0], SortBy(s[1..], key, d), key, d);
      Insert(s[0], SortBy(s[1..], key, d), key, d)
  }

  lemma {:induction false} InsertWithKey<T>(x: T, s: seq<T>, key: T -> int, d: Direction, k: int)
    ensures WithKey(Insert(x, s, key, d), key, k) == (if key(x) == k then [x] else []) + WithKey(s, key, k)
  {
    if s == [] || Compare(d, key(x), key(s[0])) <= 0 {
      assert ([x] + s)[1..] == s;
    } else {
      var t := Insert(x, s[1..], key, d);
      InsertWithKey(x, s[1..], key, d, k);
      InsertBehind(x, s, key, d);
      assert ([s[0]] + t)[1..] == t;
      assert WithKey(s, key, k) == (if key(s[0]) == k then [s[0]] else []) + WithKey(s[1..], key, k);
      assert WithKey([s[0]] + t, key, k) == (if key(s[0]) == k then [s[0]] else []) + WithKey(t, key, k);
      assert key(x) != key(s[0]);
      var w := WithKey(s[1..], key, k);
      if key(x) == k {
        assert WithKey(t, key, k) == [x] + w;
      } else if key(s[0]) == k {
        assert WithKey(t, key, k) == w;
      }
    }
  }

  /** Sorting keeps the relative order of the elements with equal keys: it is stable. */
  lemma {:induction false} SortByStable<T>(s: seq<T>, key: T -> int, d: Direction, k: int)
    ensures WithKey(SortBy(s, key, d), key, k) == WithKey(s, key, k)
  {
    if s != [] {
      SortByStable(s[1..], key, d, k);
      InsertWithKey(s[0], SortBy(s[1..], key, d), key, d, k);
    }
  }

  lemma {:induction false} WithKeyHasWitness<T>(s: seq<T>, key: T -> int, k: int)
    requires WithKey(s, key, k) != []
    ensures exists j :: 0 <= j < |s| && key(s[j]) == k
  {
    if key(s[0]) != k {
      WithKeyHasWitness(s[1..], key, k);
      var j :| 0 <= j < |s[1..]| && key(s[1..][j]) == k;
      assert key(s[j + 1]) == k;
    }
  }

  lemma WithKeyTail<T>(s: seq<T>, key: T -> int, k: int)
    requires s != []
    ensures WithKey(s[1..], key, k) == if key(s[0]) == k then WithKey(s, key, k)[1..] else WithKey(s, key, k)
  {
  }

  lemma SortedTail<T>(s: seq<T>, key: T -> int, d: Direction)
    requires s != [] && SortedBy(s, key, d)
    ensures SortedBy(s[1..], key, d)
  {
    forall i, j | 0 <= i < j < |s[1..]| ensures Compare(d, key(s[1..][i]), key(s[1..][j])) <= 0 {
      assert s[1..][i] == s[i + 1] && s[1..][j] == s[j + 1];
    }
  }

  /** Two sorted lists with the same elements per key start with the same element. */
  lemma SortedStableHead<T>(u: seq<T>, v: seq<T>, key: T -> int, d: Direction)
    requires u != [] && v != []
    requires SortedBy(u, key, d) && SortedBy(v, key, d)
    requires forall k :: WithKey(u, key, k) == WithKey(v, key, k)
    ensures u[0] == v[0]
  {
    var ku, kv := key(u[0]), key(v[0]);
    assert WithKey(v, key, ku) == WithKey(u, key, ku) != [];
    WithKeyHasWitness(v, key, ku);
    var jv :| 0 <= jv < |v| && key(v[jv]) == ku;
    assert Compare(d, kv, ku) <= 0 by {
      if jv > 0 { assert Compare(d, key(v[0]), key(v[jv])) <= 0; }
    }
    assert WithKey(u, key, kv) == WithKey(v, key, kv) != [];
    WithKeyHasWitness(u, key, kv);
    var ju :| 0 <= ju < |u| && key(u[ju]) == kv;
    assert Compare(d, ku, kv) <= 0 by {
      if ju > 0 { assert Compare(d, key(u[0]), key(u[ju])) <= 0; }
    }
    CompareAntisymmetric(d, ku, kv);
    assert u[0] == WithKey(u, key, ku)[0] == WithKey(v, key, ku)[0] == v[0];
  }

  /** A list that is sorted and stable with respect to `s` is unique. */
  lemma {:induction false} SortedStableUnique<T>(u: seq<T>, v: seq<T>, key: T -> int, d: Direction)
    requires SortedBy(u, key, d) && SortedBy(v, key, d)
    requires forall k :: WithKey(u, key, k) == WithKey(v, key, k)
    ensures u == v
  {
    if u == [] || v == [] {
      var w := if u == [] then v else u;
      if w != [] {
        assert WithKey(u, key, key(w[0])) != WithKey(v, key, key(w[0]));
        assert false;
      }
    } else {
      SortedStableHead(u, v, key, d);
      forall k ensures WithKey(u[1..], key, k) == WithKey(v[1..], key, k) {
        WithKeyTail(u, key, k);
        WithKeyTail(v, key, k);
      }
      SortedTail(u, key, d);
      SortedTail(v, key, d);
      SortedStableUnique(u[1..], v[1..], key, d);
      assert u == [u[0]] + u[1..] && v == [v[0]] + v[1..];
    }
  }

  /** `List.sort` promises a sorted list that keeps ties in input order; SortBy is the only such list. */
  lemma SortByIsTheStableSort<T>(s: seq<T>, r: seq<T>, key: T -> int, d: Direction)
    requires SortedBy(r, key, d)
    requires forall k :: WithKey(r, key, k) == WithKey(s, key, k)
    ensures r == SortBy(s, key, d)
  {
    forall k ensures WithKey(r, key, k) == WithKey(SortBy(s, key, d), key, k) {
      SortByStable(s, key, d, k);
    }
    SortedStableUnique(r, SortBy(s, key, d), key, d);
  }

  /** `s` with `f` applied to every element. */
  function MapSeq<T, U>(f: T -> U, s: seq<T>): (r: seq<U>)
    ensures |r| == |s| && forall i :: 0 <= i < |s| ==> r[i] == f(s[i])
  {
    if s == [] then [] else [f(s[0])] + MapSeq(f, s[1..])
  }

  /** Inserting commutes with a map that keeps the key. */
  lemma MapSeqCons<T, U>(f: T -> U, a: T, s: seq<T>)
    ensures MapSeq(f, [a] + s) == [f(a)] + MapSeq(f, s)
  {
    assert ([a] + s)[1..] == s;
  }

  lemma {:induction false} InsertMap<T, U>(x: T, s: seq<T>, key: T -> int, f: T -> U, fkey: U -> int, d: Direction)
    requires forall y :: fkey(f(y)) == key(y)
    ensures MapSeq(f, Insert(x, s, key, d)) == Insert(f(x), MapSeq(f, s), fkey, d)
  {
    if s == [] || Compare(d, key(x), key(s[0])) <= 0 {
      InsertMapFront(x, s, key, f, fkey, d);
    } else {
      InsertMap(x, s[1..], key, f, fkey, d);
      InsertMapBehind(x, s, key, f, fkey, d);
    }
  }

  lemma InsertMapFront<T, U>(x: T, s: seq<T>, key: T -> int, f: T -> U, fkey: U -> int, d: Direction)
    requires forall y :: fkey(f(y)) == key(y)
    requires s == [] || Compare(d, key(x), key(s[0])) <= 0
    ensures MapSeq(f, Insert(x, s, key, d)) == Insert(f(x), MapSeq(f, s), fkey, d)
  {
    var m := MapSeq(f, s);
    assert fkey(f(x)) == key(x);
    if s != [] {
      assert fkey(m[0]) == key(s[0]);
    }
    MapSeqCons(f, x, s);
  }

  lemma InsertMapBehind<T, U>(x: T, s: seq<T>, key: T -> int, f: T -> U, fkey: U -> int, d: Direction)
    requires forall y :: fkey(f(y)) == key(y)
    requires s != [] && Compare(d, key(x), key(s[0])) > 0
    requires MapSeq(f, Insert(x, s[1..], key, d)) == Insert(f(x), MapSeq(f, s[1..]), fkey, d)
    ensures MapSeq(f, Insert(x, s, key, d)) == Insert(f(x), MapSeq(f, s), fkey, d)
  {
    var m := MapSeq(f, s);
    assert m[1..] == MapSeq(f, s[1..]);
    assert Compare(d, fkey(f(x)), fkey(m[0])) > 0 by {
      assert fkey(f(x)) == key(x) && fkey(m[0]) == key(s[0]);
    }
    InsertBehind(x, s, key, d);
    InsertBehind(f(x), m, fkey, d);
    MapSeqCons(f, s[0], Insert(x, s[1..], key, d));
  }

  /** Past an element that sorts strictly before `x`, insertion goes on in the tail. */
  lemma InsertBehind<T>(x: T, s: seq<T>, key: T -> int, d: Direction)
    requires s != [] && Compare(d, key(x), key(s[0])) > 0
    ensures Insert(x, s, key, d) == [s[0]] + Insert(x, s[1..], key, d)
  {
  }

  /** Sorting commutes with a map that keeps the key: sorting the views of the
      siblings gives the views of the sorted siblings. */
  lemma {:induction false} SortByMap<T, U>(s: seq<T>, key: T -> int, f: T -> U, fkey: U -> int, d: Direction)
    requires forall y :: fkey(f(y)) == key(y)
    ensures MapSeq(f, SortBy(s, key, d)) == SortBy(MapSeq(f, s), fkey, d)
  {
    if s != [] {
      SortByMap(s[1..], key, f, fkey, d);
      InsertMap(s[0], SortBy(s[1..], key, d), key, f, fkey, d);
      assert MapSeq(f, s)[1..] == MapSeq(f, s[1..]);
    }
  }
}
