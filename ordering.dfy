/** The order in which the store returns a collection sorted ascending on a
    string field (`.sort([[field, 'ascending']])`). */
module Ordering {

  /** Lexicographic order on strings, character by character on code points,
      a proper prefix first. This is the order of the strings' UTF-8 bytes,
      which is how the store compares strings without a collation. */
  predicate LexLe(a: string, b: string) {
    a == [] || (b != [] && (a[0] < b[0] || (a[0] == b[0] && LexLe(a[1..], b[1..]))))
  }

  lemma {:induction false} LexLeReflexive(a: string)
    ensures LexLe(a, a)
  {
    if a != [] {
      LexLeReflexive(a[1..]);
    }
  }

  lemma {:induction false} LexLeTotal(a: string, b: string)
    ensures LexLe(a, b) || LexLe(b, a)
  {
    if a != [] && b != [] && a[0] == b[0] {
      LexLeTotal(a[1..], b[1..]);
    }
  }

  lemma {:induction false} LexLeAntisymmetric(a: string, b: string)
    requires LexLe(a, b) && LexLe(b, a)
    ensures a == b
  {
    if a != [] {
      LexLeAntisymmetric(a[1..], b[1..]);
      assert a == [a[0]] + a[1..] && b == [b[0]] + b[1..];
    }
  }

  lemma {:induction false} LexLeTransitive(a: string, b: string, c: string)
    requires LexLe(a, b) && LexLe(b, c)
    ensures LexLe(a, c)
  {
    if a != [] && a[0] == b[0] && b[0] == c[0] {
      LexLeTransitive(a[1..], b[1..], c[1..]);
    }
  }

  /** A non-empty set of ids has a first id in key order (ties in any order). */
  lemma {:induction false} FirstExists<T>(m: map<nat, T>, key: T -> string, ids: set<nat>)
    requires ids != {} && ids <= m.Keys
    ensures exists k :: k in ids && forall j :: j in ids ==> LexLe(key(m[k]), key(m[j]))
    decreases ids
  {
    var x :| x in ids;
    LexLeReflexive(key(m[x]));
    if ids == {x} {
      assert forall j :: j in ids ==> j == x;
    } else {
      FirstExists(m, key, ids - {x});
      var k :| k in ids - {x} && forall j :: j in ids - {x} ==> LexLe(key(m[k]), key(m[j]));
      var kk, kx := key(m[k]), key(m[x]);
      LexLeTotal(kk, kx);
      if LexLe(kk, kx) {
        assert forall j :: j in ids ==> LexLe(kk, key(m[j]));
      } else {
        forall j | j in ids ensures LexLe(kx, key(m[j])) {
          if j != x {
            LexLeTransitive(kx, kk, key(m[j]));
          }
        }
      }
    }
  }

  /** Putting the first id in front of a listing of the others lists them all. */
  lemma PrependFirst<T>(m: map<nat, T>, key: T -> string, ids: set<nat>, k: nat, rest: seq<nat>)
    requires ids <= m.Keys && k in ids
    requires forall j :: j in ids ==> LexLe(key(m[k]), key(m[j]))
    requires |rest| == |ids - {k}|
    requires forall j :: j in rest <==> j in ids - {k}
    requires forall i, j :: 0 <= i < j < |rest| ==> rest[i] != rest[j]
    requires forall i :: 0 <= i < |rest| ==> rest[i] in m
    requires forall i, j :: 0 <= i < j < |rest| ==> LexLe(key(m[rest[i]]), key(m[rest[j]]))
    ensures |[k] + rest| == |ids|
    ensures forall j :: j in [k] + rest <==> j in ids
    ensures forall i, j :: 0 <= i < j < |[k] + rest| ==> ([k] + rest)[i] != ([k] + rest)[j]
    ensures forall i, j :: 0 <= i < j < |[k] + rest| ==> LexLe(key(m[([k] + rest)[i]]), key(m[([k] + rest)[j]]))
  {
    var r := [k] + rest;
    assert forall i :: 0 <= i < |r| ==> r[i] in ids by {
      forall i | 0 <= i < |r| ensures r[i] in ids {
        if i > 0 {
          assert r[i] == rest[i - 1] && rest[i - 1] in rest;
        }
      }
    }
    forall i, j | 0 <= i < j < |r|
      ensures r[i] != r[j] && LexLe(key(m[r[i]]), key(m[r[j]]))
    {
      assert r[j] == rest[j - 1];
      if i > 0 {
        assert r[i] == rest[i - 1];
      } else {
        assert rest[j - 1] in rest;
      }
    }
  }

  /** The ids of `ids` listed in ascending key order: each exactly once, and
      every key no greater than the keys after it. */
  ghost function SortedIds<T>(m: map<nat, T>, key: T -> string, ids: set<nat>): (r: seq<nat>)
    requires ids <= m.Keys
    ensures |r| == |ids|
    ensures forall k :: k in r <==> k in ids
    ensures forall i, j :: 0 <= i < j < |r| ==> r[i] != r[j]
    ensures forall i, j :: 0 <= i < j < |r| ==> LexLe(key(m[r[i]]), key(m[r[j]]))
    decreases ids
  {
    if ids == {} then []
    else
      FirstExists(m, key, ids);
      var k :| k in ids && forall j :: j in ids ==> LexLe(key(m[k]), key(m[j]));
      var rest := SortedIds(m, key, ids - {k});
      PrependFirst(m, key, ids, k, rest);
      [k] + rest
  }
}
