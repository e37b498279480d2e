/**
  `OrderBy(f => f.ExpirationDate)` on the item store. The listing is
  evaluated by the database as `ORDER BY`, which fixes no order among
  items with equal dates, so what is promised is exactly: ascending by
  date, and the same items.
*/
module Ordering {
  import opened FoodModel

  ghost predicate SortedByExpiration(s: seq<FoodItem>) {
    forall i, j :: 0 <= i < j < |s| ==> s[i].ExpirationDate <= s[j].ExpirationDate
  }

  /** Inserts `x` before the first item that expires later than it. */
  function Insert(x: FoodItem, s: seq<FoodItem>): (r: seq<FoodItem>)
    requires SortedByExpiration(s)
    ensures SortedByExpiration(r)
    ensures multiset(r) == multiset(s) + multiset{x}
    ensures |r| == |s| + 1 && (r[0] == x || (|s| > 0 && r[0] == s[0]))
    decreases |s|
  {
    if s == [] then [x]
    else if x.ExpirationDate <= s[0].ExpirationDate then [x] + s
    else
      var rest := Insert(x, s[1..]);
      InsertBehindHead(x, s, rest);
      [s[0]] + rest
  }

  /** The recursive case of `Insert`: `x` goes behind the head of `s`. */
  lemma InsertBehindHead(x: FoodItem, s: seq<FoodItem>, rest: seq<FoodItem>)
    requires SortedByExpiration(s) && |s| > 0 && s[0].ExpirationDate < x.ExpirationDate
    requires SortedByExpiration(rest) && multiset(rest) == multiset(s[1..]) + multiset{x}
    requires |rest| == |s| && (rest[0] == x || (|s| > 1 && rest[0] == s[1]))
    ensures SortedByExpiration([s[0]] + rest)
    ensures multiset([s[0]] + rest) == multiset(s) + multiset{x}
  {
    assert s == [s[0]] + s[1..];
    ConsSorted(s[0], rest);
  }

  lemma ConsSorted(y: FoodItem, r: seq<FoodItem>)
    requires SortedByExpiration(r)
    requires |r| > 0 ==> y.ExpirationDate <= r[0].ExpirationDate
    ensures SortedByExpiration([y] + r)
  {
    var t := [y] + r;
    forall i, j | 0 <= i < j < |t| ensures t[i].ExpirationDate <= t[j].ExpirationDate {
      if i == 0 {
        assert t[j] == r[j - 1];
      } else {
        assert t[i] == r[i - 1] && t[j] == r[j - 1];
      }
    }
  }

  /** The listing order: ascending by expiration date, a permutation of the store. */
  function SortByExpiration(s: seq<FoodItem>): (r: seq<FoodItem>)
    ensures SortedByExpiration(r)
    ensures multiset(r) == multiset(s)
    decreases |s|
  {
    if s == [] then []
    else
      assert s == [s[0]] + s[1..];
      Insert(s[0], SortByExpiration(s[1..]))
  }

  /** Every stored item appears in the listing, and the listing holds nothing else. */
  lemma SortKeepsItems(s: seq<FoodItem>, x: FoodItem)
    ensures x in SortByExpiration(s) <==> x in s
  {
    var r := SortByExpiration(s);
    assert x in r <==> x in multiset(r);
    assert x in s <==> x in multiset(s);
  }

  /** The first item listed expires no later than any stored item. */
  lemma SortedHeadIsEarliest(s: seq<FoodItem>, x: FoodItem)
    requires x in s
    ensures |SortByExpiration(s)| > 0 && SortByExpiration(s)[0].ExpirationDate <= x.ExpirationDate
  {
    var r := SortByExpiration(s);
    SortKeepsItems(s, x);
    var k :| 0 <= k < |r| && r[k] == x;
  }
}
