/**
 * The order `glob_match` of src/features/pattern.py lists its results in: `sorted` with the
 * key `(-frequency, word)`, i.e. higher frequency first and, among equal frequencies, the
 * words in Python's string order (character codes compared left to right, a proper prefix
 * first); then the slice `[:top_k]`.
 */
module Rankings {
  import opened Wrappers

  /** Python's `a < b` on strings. */
  predicate StrLess(a: string, b: string)
    decreases |a|
  {
    if a == [] then b != []
    else b != [] && (a[0] < b[0] || (a[0] == b[0] && StrLess(a[1..], b[1..])))
  }

  /** No string comes before itself, and two strings are never each before the other. */
  lemma {:induction false} StrLessAsymmetric(a: string, b: string)
    ensures StrLess(a, b) ==> !StrLess(b, a)
    decreases |a|
  {
    if a != [] && b != [] && a[0] == b[0] {
      StrLessAsymmetric(a[1..], b[1..]);
    }
  }

  /** String order is transitive. */
  lemma {:induction false} StrLessTransitive(a: string, b: string, c: string)
    requires StrLess(a, b) && StrLess(b, c)
    ensures StrLess(a, c)
    decreases |a|
  {
    if a != [] && a[0] == b[0] && b[0] == c[0] {
      StrLessTransitive(a[1..], b[1..], c[1..]);
    }
  }

  /** Of two different strings one comes first. */
  lemma {:induction false} StrLessTotal(a: string, b: string)
    requires a != b
    ensures StrLess(a, b) || StrLess(b, a)
    decreases |a|
  {
    if a != [] && b != [] && a[0] == b[0] {
      assert a == [a[0]] + a[1..] && b == [b[0]] + b[1..];
      StrLessTotal(a[1..], b[1..]);
    }
  }

  /** `x` sorts before `y` under the key `(-frequency, word)`. */
  predicate Before(x: (string, int), y: (string, int))
  {
    x.1 > y.1 || (x.1 == y.1 && StrLess(x.0, y.0))
  }

  /** `Before` is a strict total order on pairs. */
  lemma BeforeOrder(x: (string, int), y: (string, int), z: (string, int))
    ensures !Before(x, x)
    ensures Before(x, y) ==> !Before(y, x)
    ensures Before(x, y) && Before(y, z) ==> Before(x, z)
    ensures x != y ==> Before(x, y) || Before(y, x)
  {
    StrLessAsymmetric(x.0, x.0);
    StrLessAsymmetric(x.0, y.0);
    if Before(x, y) && Before(y, z) && x.1 == y.1 == z.1 {
      StrLessTransitive(x.0, y.0, z.0);
    }
    if x != y && x.1 == y.1 {
      StrLessTotal(x.0, y.0);
    }
  }

  /** Every element comes before every later one, so the list is also free of duplicates. */
  predicate Ranked(xs: seq<(string, int)>)
  {
    forall i, j :: 0 <= i < j < |xs| ==> Before(xs[i], xs[j])
  }

  /** `x` put into the ranked list `xs` in front of the first element it comes before. */
  function Place(x: (string, int), xs: seq<(string, int)>): seq<(string, int)>
  {
    if xs == [] || Before(x, xs[0]) then [x] + xs else [xs[0]] + Place(x, xs[1..])
  }

  /** Python's `sorted(items, key=lambda x: (-x[1], x[0]))`, as an insertion sort. */
  function SortByRank(xs: seq<(string, int)>): seq<(string, int)>
  {
    if xs == [] then [] else Place(xs[0], SortByRank(xs[1..]))
  }

  /** Placing a new element keeps the list ranked and adds exactly that element. */
  lemma {:induction false} PlaceRanked(x: (string, int), xs: seq<(string, int)>)
    requires Ranked(xs) && x !in xs
    ensures Ranked(Place(x, xs)) && Elems(Place(x, xs)) == Elems(xs) + {x}
    ensures |Place(x, xs)| == |xs| + 1
    decreases |xs|
  {
    if xs == [] {
    } else if Before(x, xs[0]) {
      forall j | 0 < j < |xs| ensures Before(x, xs[j]) {
        BeforeOrder(x, xs[0], xs[j]);
      }
      assert Elems([x] + xs) == {x} + Elems(xs);
    } else {
      BeforeOrder(x, xs[0], x);
      PlaceRanked(x, xs[1..]);
      var r := Place(x, xs[1..]);
      forall y | y in r ensures Before(xs[0], y) {
        assert y in Elems(r);
        if y != x {
          var j :| 0 <= j < |xs[1..]| && xs[1..][j] == y;
          assert xs[j + 1] == y;
        }
      }
      assert Elems([xs[0]] + r) == {xs[0]} + Elems(r);
      assert Elems(xs) == {xs[0]} + Elems(xs[1..]) by {
        assert xs == [xs[0]] + xs[1..];
      }
      forall i, j | 0 <= i < j < |[xs[0]] + r| ensures Before(([xs[0]] + r)[i], ([xs[0]] + r)[j]) {
        if i == 0 {
          assert ([xs[0]] + r)[j] == r[j - 1] && r[j - 1] in r;
        } else {
          assert ([xs[0]] + r)[i] == r[i - 1] && ([xs[0]] + r)[j] == r[j - 1];
        }
      }
    }
  }

  /** Sorting a list of different pairs ranks them and loses and gains nothing. */
  lemma {:induction false} SortByRankSpec(xs: seq<(string, int)>)
    requires Distinct(xs)
    ensures Ranked(SortByRank(xs)) && Elems(SortByRank(xs)) == Elems(xs)
    ensures |SortByRank(xs)| == |xs|
    decreases |xs|
  {
    if xs != [] {
      assert Distinct(xs[1..]) by {
        forall i, j | 0 <= i < j < |xs[1..]| ensures xs[1..][i] != xs[1..][j] {
          assert xs[1..][i] == xs[i + 1] && xs[1..][j] == xs[j + 1];
        }
      }
      SortByRankSpec(xs[1..]);
      assert xs[0] !in SortByRank(xs[1..]) by {
        forall j | 0 <= j < |xs[1..]| ensures xs[1..][j] != xs[0] {
          assert xs[1..][j] == xs[j + 1];
        }
        assert xs[0] !in Elems(xs[1..]);
        assert xs[0] !in Elems(SortByRank(xs[1..]));
      }
      PlaceRanked(xs[0], SortByRank(xs[1..]));
      assert Elems(xs) == {xs[0]} + Elems(xs[1..]) by {
        assert xs == [xs[0]] + xs[1..];
      }
    }
  }

  /** The first element of a ranked list comes before all the others. */
  lemma RankedHead(xs: seq<(string, int)>, y: (string, int))
    requires Ranked(xs) && xs != [] && y in xs && y != xs[0]
    ensures Before(xs[0], y)
  {
    var j :| 0 <= j < |xs| && xs[j] == y;
  }

  /** Two ranked lists with the same elements are the same list: the ranking is unique. */
  lemma {:induction false} RankedUnique(xs: seq<(string, int)>, ys: seq<(string, int)>)
    requires Ranked(xs) && Ranked(ys) && Elems(xs) == Elems(ys)
    ensures xs == ys
    decreases |xs|
  {
    assert ys != [] ==> ys[0] in Elems(ys);
    if xs != [] {
      assert xs[0] in Elems(ys);
      assert ys != [];
      assert ys[0] in Elems(xs);
      if xs[0] != ys[0] {
        RankedHead(xs, ys[0]);
        RankedHead(ys, xs[0]);
        BeforeOrder(xs[0], ys[0], xs[0]);
      }
      assert Elems(xs[1..]) == Elems(xs) - {xs[0]} by {
        RankedTail(xs);
      }
      assert Elems(ys[1..]) == Elems(ys) - {ys[0]} by {
        RankedTail(ys);
      }
      RankedUnique(xs[1..], ys[1..]);
      assert xs == [xs[0]] + xs[1..] && ys == [ys[0]] + ys[1..];
    }
  }

  /** Dropping the head of a ranked list leaves it ranked without that element. */
  lemma RankedTail(xs: seq<(string, int)>)
    requires Ranked(xs) && xs != []
    ensures Ranked(xs[1..]) && Elems(xs[1..]) == Elems(xs) - {xs[0]}
  {
    forall y | y in xs[1..] ensures y != xs[0] {
      var j :| 0 <= j < |xs[1..]| && xs[1..][j] == y;
      assert Before(xs[0], xs[j + 1]);
      BeforeOrder(xs[0], xs[0], xs[0]);
    }
    assert xs == [xs[0]] + xs[1..];
  }

  /** Some element of a non-empty set comes before all its others. */
  lemma {:induction false} LeastExists(s: set<(string, int)>)
    requires s != {}
    ensures exists x :: x in s && forall y :: y in s && y != x ==> Before(x, y)
    decreases s
  {
    var z :| z in s;
    var t := s - {z};
    if t == {} {
      assert s == {z};
      assert forall y :: y in s && y != z ==> Before(z, y);
      return;
    }
    LeastExists(t);
    var m :| m in t && forall y :: y in t && y != m ==> Before(m, y);
    if Before(z, m) {
      forall y | y in s && y != z ensures Before(z, y) {
        if y != m {
          assert y in t;
          BeforeOrder(z, m, y);
        }
      }
    } else {
      BeforeOrder(m, z, z);
      forall y | y in s && y != m ensures Before(m, y) {
        if y != z {
          assert y in t;
        }
      }
    }
  }

  /**
   * The ranking of a set of pairs, defined by taking the least pair first: the reference
   * meaning that `SortByRank` is proved to agree with.
   */
  ghost function Ranking(s: set<(string, int)>): (r: seq<(string, int)>)
    ensures Ranked(r) && Elems(r) == s
    decreases s
  {
    if s == {} then []
    else
      LeastExists(s);
      var x :| x in s && forall y :: y in s && y != x ==> Before(x, y);
      var rest := Ranking(s - {x});
      assert Elems([x] + rest) == {x} + Elems(rest);
      assert forall j :: 0 <= j < |rest| ==> rest[j] in Elems(rest);
      [x] + rest
  }

  /** Sorting any duplicate-free listing of a set yields the ranking of that set. */
  lemma SortIsRanking(xs: seq<(string, int)>)
    requires Distinct(xs)
    ensures SortByRank(xs) == Ranking(Elems(xs))
  {
    SortByRankSpec(xs);
    RankedUnique(SortByRank(xs), Ranking(Elems(xs)));
  }

  /** How many items `[:top_k]` keeps of `n`, for Python's slice with `top_k` possibly negative. */
  function Kept(n: nat, topK: Option<int>): (k: nat)
    ensures k <= n
  {
    match topK
    case None => n
    case Some(t) => if t >= 0 then (if t < n then t else n) else (if n + t > 0 then n + t else 0)
  }

  /** `sorted_items[:top_k] if top_k is not None else sorted_items`. */
  function Take(xs: seq<(string, int)>, topK: Option<int>): (r: seq<(string, int)>)
    ensures r <= xs && |r| == Kept(|xs|, topK)
  {
    xs[..Kept(|xs|, topK)]
  }

  /**
   * A cut ranked list is closed downwards: whatever ranks before a kept item is kept too,
   * and the cut list is itself ranked.
   */
  lemma TakeRanked(xs: seq<(string, int)>, topK: Option<int>)
    requires Ranked(xs)
    ensures Ranked(Take(xs, topK))
    ensures forall x, y :: x in Take(xs, topK) && y in xs && Before(y, x) ==> y in Take(xs, topK)
  {
    var r := Take(xs, topK);
    forall x, y | x in r && y in xs && Before(y, x) ensures y in r {
      var i :| 0 <= i < |r| && r[i] == x;
      var j :| 0 <= j < |xs| && xs[j] == y;
      if j >= i {
        if j == i {
          BeforeOrder(x, x, x);
        } else {
          assert Before(xs[i], xs[j]);
          BeforeOrder(x, y, x);
        }
      }
      assert r[j] == y;
    }
  }
}
