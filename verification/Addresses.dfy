/** Watched addresses in text order, so that a selection does not depend on how a set is enumerated. */
module Addresses {

  predicate TextLe(a: string, b: string) {
    a == "" || (b != "" && (a[0] < b[0] || (a[0] == b[0] && TextLe(a[1..], b[1..]))))
  }

  /** Lexicographic order: one is a prefix of the other, or they differ first at a smaller character. */
  predicate Precedes(a: string, b: string) {
    a <= b || exists k :: 0 <= k < |a| && k < |b| && a[..k] == b[..k] && a[k] < b[k]
  }

  lemma {:induction false} TextLeIsLexicographic(a: string, b: string)
    ensures TextLe(a, b) <==> Precedes(a, b)
  {
    if a != "" && b != "" {
      TextLeIsLexicographic(a[1..], b[1..]);
      PrecedesByHead(a, b);
    }
  }

  lemma PrecedesByHead(a: string, b: string)
    requires a != "" && b != ""
    ensures Precedes(a, b) <==> a[0] < b[0] || (a[0] == b[0] && Precedes(a[1..], b[1..]))
  {
    assert a == [a[0]] + a[1..] && b == [b[0]] + b[1..];
    if a[0] < b[0] {
      assert a[..0] == b[..0];
    } else if a[0] == b[0] {
      assert a <= b <==> a[1..] <= b[1..];
      forall k | 0 < k < |a| && k < |b|
        ensures a[..k] == b[..k] && a[k] < b[k]
           <==> a[1..][..k - 1] == b[1..][..k - 1] && a[1..][k - 1] < b[1..][k - 1]
      {
        assert a[..k] == [a[0]] + a[1..][..k - 1] && b[..k] == [b[0]] + b[1..][..k - 1];
      }
      if k :| 0 <= k < |a[1..]| && k < |b[1..]| && a[1..][..k] == b[1..][..k] && a[1..][k] < b[1..][k] {
        assert a[..k + 1] == b[..k + 1] && a[k + 1] < b[k + 1];
      }
    } else {
      assert forall k :: 0 < k < |a| && k < |b| ==> a[..k][0] == a[0] && b[..k][0] == b[0];
    }
  }

  lemma {:induction false} TextOrder(a: string, b: string, c: string)
    ensures TextLe(a, b) || TextLe(b, a)
    ensures TextLe(a, b) && TextLe(b, a) ==> a == b
    ensures TextLe(a, b) && TextLe(b, c) ==> TextLe(a, c)
  {
    if a != "" && b != "" {
      TextOrder(a[1..], b[1..], if c == "" then "" else c[1..]);
      assert a == [a[0]] + a[1..] && b == [b[0]] + b[1..];
    }
  }

  function Insert(sorted: seq<string>, a: string): seq<string> {
    if sorted == [] || !TextLe(sorted[0], a) then [a] + sorted else [sorted[0]] + Insert(sorted[1..], a)
  }

  function Sort(addresses: seq<string>): seq<string> {
    if addresses == [] then [] else Insert(Sort(addresses[..|addresses| - 1]), addresses[|addresses| - 1])
  }

  ghost predicate InOrder(s: seq<string>) {
    forall i, j :: 0 <= i < j < |s| ==> TextLe(s[i], s[j])
  }

  lemma {:induction false} InsertMembers(sorted: seq<string>, a: string)
    ensures multiset(Insert(sorted, a)) == multiset(sorted) + multiset{a}
    ensures forall x :: x in Insert(sorted, a) <==> x in sorted || x == a
  {
    if sorted != [] && TextLe(sorted[0], a) {
      assert sorted == [sorted[0]] + sorted[1..];
      InsertMembers(sorted[1..], a);
    }
  }

  lemma {:induction false} InsertKeepsOrder(sorted: seq<string>, a: string)
    requires InOrder(sorted)
    ensures InOrder(Insert(sorted, a))
  {
    if sorted != [] {
      if TextLe(sorted[0], a) {
        var rest := Insert(sorted[1..], a);
        InsertKeepsOrder(sorted[1..], a);
        InsertMembers(sorted[1..], a);
        assert forall i :: 0 <= i < |rest| ==> rest[i] in rest;
      } else {
        forall i | 0 <= i < |sorted| ensures TextLe(a, sorted[i]) {
          TextOrder(sorted[0], a, "");
          TextOrder(a, sorted[0], sorted[i]);
        }
      }
    }
  }

  lemma {:induction false} SortOrders(addresses: seq<string>)
    ensures InOrder(Sort(addresses)) && multiset(Sort(addresses)) == multiset(addresses)
  {
    if addresses != [] {
      var n := |addresses| - 1;
      SortOrders(addresses[..n]);
      InsertKeepsOrder(Sort(addresses[..n]), addresses[n]);
      InsertMembers(Sort(addresses[..n]), addresses[n]);
      assert addresses == addresses[..n] + [addresses[n]];
    }
  }

  lemma LeastFirst(s: seq<string>, x: string)
    requires InOrder(s) && x in multiset(s)
    ensures TextLe(s[0], x)
  {
    var i :| 0 <= i < |s| && s[i] == x;
    TextOrder(x, x, "");
  }

  lemma SameHead(s: seq<string>, t: seq<string>)
    requires InOrder(s) && InOrder(t) && multiset(s) == multiset(t) && s != [] && t != []
    ensures s[0] == t[0]
  {
    assert s[0] in multiset(t) && t[0] in multiset(s);
    LeastFirst(s, t[0]);
    LeastFirst(t, s[0]);
    TextOrder(s[0], t[0], "");
  }

  lemma {:induction false} OneOrder(s: seq<string>, t: seq<string>)
    requires InOrder(s) && InOrder(t) && multiset(s) == multiset(t)
    ensures s == t
  {
    assert |s| == |multiset(s)| == |multiset(t)| == |t|;
    if s != [] {
      SameHead(s, t);
      assert s == [s[0]] + s[1..] && t == [t[0]] + t[1..];
      assert multiset(s[1..]) == multiset(s) - multiset{s[0]};
      assert multiset(t[1..]) == multiset(t) - multiset{t[0]};
      OneOrder(s[1..], t[1..]);
    }
  }

  /** However the watch set is enumerated, the sorted list is the same. */
  lemma SortIgnoresEnumeration(s: seq<string>, t: seq<string>)
    requires multiset(s) == multiset(t)
    ensures Sort(s) == Sort(t)
  {
    SortOrders(s);
    SortOrders(t);
    OneOrder(Sort(s), Sort(t));
  }
}
