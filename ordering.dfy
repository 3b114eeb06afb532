/** `ORDER BY k1 DESC, k2 DESC, ...` over integer sort keys: the
    lexicographic order on keys and a sort that puts larger keys first. */
module Ordering {
  import opened Types

  /** Strict lexicographic order; a proper prefix comes first. */
  predicate LexLess(a: seq<int>, b: seq<int>)
    decreases |a|
  {
    |b| > 0 && (|a| == 0 || a[0] < b[0] || (a[0] == b[0] && LexLess(a[1..], b[1..])))
  }

  lemma {:induction false} LexIrreflexive(a: seq<int>)
    ensures !LexLess(a, a)
    decreases |a|
  {
    if |a| > 0 {
      LexIrreflexive(a[1..]);
    }
  }

  lemma {:induction false} LexTrans(a: seq<int>, b: seq<int>, c: seq<int>)
    requires LexLess(a, b) && LexLess(b, c)
    ensures LexLess(a, c)
    decreases |a|
  {
    if |a| > 0 && a[0] == b[0] && b[0] == c[0] {
      LexTrans(a[1..], b[1..], c[1..]);
    }
  }

  lemma {:induction false} LexTotal(a: seq<int>, b: seq<int>)
    ensures a == b || LexLess(a, b) || LexLess(b, a)
    decreases |a|
  {
    if |a| > 0 && |b| > 0 && a[0] == b[0] {
      LexTotal(a[1..], b[1..]);
      if a[1..] == b[1..] {
        assert a == [a[0]] + a[1..] && b == [b[0]] + b[1..];
      }
    }
  }

  lemma LexAsymmetric(a: seq<int>, b: seq<int>)
    requires LexLess(a, b)
    ensures !LexLess(b, a)
  {
    if LexLess(b, a) {
      LexTrans(a, b, a);
      LexIrreflexive(a);
    }
  }

  /** "Not below" is transitive: the order is total. */
  lemma NotLessTrans(a: seq<int>, b: seq<int>, c: seq<int>)
    requires !LexLess(a, b) && !LexLess(b, c)
    ensures !LexLess(a, c)
  {
    LexTotal(a, b);
    LexTotal(b, c);
    if LexLess(a, c) {
      if b == a {
      } else if c == b {
      } else {
        LexTrans(c, b, a);
        LexAsymmetric(c, a);
      }
    }
  }

  /** A row of a query result with its sort key. */
  datatype Keyed = Keyed(key: seq<int>, id: Id)

  /** No row is followed by a row with a larger key. */
  predicate SortedDesc(s: seq<Keyed>) {
    forall i, j :: 0 <= i < j < |s| ==> !LexLess(s[i].key, s[j].key)
  }

  lemma HeadAboveAll(x: Keyed, s: seq<Keyed>)
    requires SortedDesc(s)
    requires s == [] || !LexLess(x.key, s[0].key)
    ensures SortedDesc([x] + s)
  {
    var r := [x] + s;
    forall i, j | 0 <= i < j < |r| ensures !LexLess(r[i].key, r[j].key) {
      if i == 0 && j > 1 {
        assert !LexLess(s[0].key, s[j - 1].key);
        NotLessTrans(x.key, s[0].key, s[j - 1].key);
      } else if i > 0 {
        assert r[i] == s[i - 1] && r[j] == s[j - 1];
      }
    }
  }

  lemma HeadAboveInserted(y: Keyed, x: Keyed, s: seq<Keyed>, t: seq<Keyed>)
    requires SortedDesc([y] + s) && SortedDesc(t)
    requires LexLess(x.key, y.key)
    requires multiset(t) == multiset(s) + multiset{x}
    ensures SortedDesc([y] + t)
  {
    var r := [y] + t;
    forall i, j | 0 <= i < j < |r| ensures !LexLess(r[i].key, r[j].key) {
      if i == 0 {
        var z := t[j - 1];
        assert z in multiset(t);
        if z == x {
          LexAsymmetric(x.key, y.key);
        } else {
          assert z in multiset(s);
          var k :| 0 <= k < |s| && s[k] == z;
          assert ([y] + s)[0] == y && ([y] + s)[k + 1] == z;
        }
      } else {
        assert r[i] == t[i - 1] && r[j] == t[j - 1];
      }
    }
  }

  /** Insert one row into a sorted result. */
  function Insert(x: Keyed, s: seq<Keyed>): (r: seq<Keyed>)
    requires SortedDesc(s)
    ensures SortedDesc(r)
    ensures multiset(r) == multiset(s) + multiset{x}
  {
    if s == [] || !LexLess(x.key, s[0].key) then
      HeadAboveAll(x, s);
      [x] + s
    else
      var t := Insert(x, s[1..]);
      assert s == [s[0]] + s[1..];
      HeadAboveInserted(s[0], x, s[1..], t);
      [s[0]] + t
  }

  /** The rows of `s`, larger keys first. */
  function SortDesc(s: seq<Keyed>): (r: seq<Keyed>)
    ensures SortedDesc(r)
    ensures multiset(r) == multiset(s)
  {
    if s == [] then []
    else
      assert s == [s[0]] + s[1..];
      Insert(s[0], SortDesc(s[1..]))
  }

  /** The ids of the rows, in order. */
  function Ids(s: seq<Keyed>): (r: seq<Id>)
    ensures |r| == |s|
    ensures forall i :: 0 <= i < |s| ==> r[i] == s[i].id
  {
    if s == [] then [] else [s[0].id] + Ids(s[1..])
  }
}
