/** The stable sort the dock applies to its lists (`sort_by` with a comparator),
    written as an insertion sort over a "less than or equal" relation `le`.
    `le` is a total preorder: every comparator the dock passes orders by a key
    and treats equal keys as equal. */
module Sorting {

  /** `le` is total and transitive, i.e. it comes from a comparator that orders
      by some key. */
  ghost predicate TotalPreorder<T(!new)>(le: (T, T) -> bool) {
    (forall a: T, b: T :: le(a, b) || le(b, a))
    && (forall a: T, b: T, c: T :: le(a, b) && le(b, c) ==> le(a, c))
  }

  predicate Sorted<T>(le: (T, T) -> bool, s: seq<T>) {
    forall i, j :: 0 <= i < j < |s| ==> le(s[i], s[j])
  }

  /** Inserts `x` after every element of `s` that is not greater than `x`. */
  function Insert<T>(le: (T, T) -> bool, x: T, s: seq<T>): (r: seq<T>)
    ensures multiset(r) == multiset(s) + multiset{x} && |r| == |s| + 1
  {
    if s == [] then [x]
    else if le(s[0], x) then
      assert s == [s[0]] + s[1..];
      [s[0]] + Insert(le, x, s[1..])
    else [x] + s
  }

  /** Inserting into a sorted sequence keeps it sorted. */
  lemma {:induction false} InsertSorted<T(!new)>(le: (T, T) -> bool, x: T, s: seq<T>)
    requires TotalPreorder(le) && Sorted(le, s)
    ensures Sorted(le, Insert(le, x, s))
  {
    var r := Insert(le, x, s);
    if s == [] {
    } else if le(s[0], x) {
      var t := Insert(le, x, s[1..]);
      InsertSorted(le, x, s[1..]);
      forall j | 0 <= j < |t| ensures le(s[0], t[j]) {
        assert t[j] in multiset(t);
        assert t[j] in multiset(s[1..]) || t[j] == x;
        if t[j] != x {
          var k :| 0 <= k < |s[1..]| && s[1..][k] == t[j];
          assert s[k + 1] == t[j];
        }
      }
      assert r == [s[0]] + t;
    } else {
      assert le(x, s[0]);
      forall j | 0 <= j < |s| ensures le(x, s[j]) {
        if j > 0 { assert le(s[0], s[j]); }
      }
    }
  }

  /** `sort_by`: a stable sort, by insertion of each element in turn. */
  function Sort<T(!new)>(le: (T, T) -> bool, s: seq<T>): (r: seq<T>)
    requires TotalPreorder(le)
    ensures Sorted(le, r)
    ensures multiset(r) == multiset(s) && |r| == |s|
  {
    if s == [] then []
    else
      var init := Sort(le, s[..|s| - 1]);
      InsertSorted(le, s[|s| - 1], init);
      assert s == s[..|s| - 1] + [s[|s| - 1]];
      Insert(le, s[|s| - 1], init)
  }

  /** Sorting keeps exactly the elements it was given. */
  lemma SortMembers<T(!new)>(le: (T, T) -> bool, s: seq<T>, x: T)
    requires TotalPreorder(le)
    ensures x in Sort(le, s) <==> x in s
  {
    var r := Sort(le, s);
    assert x in r <==> x in multiset(r);
    assert x in s <==> x in multiset(s);
  }

  /** The elements of `s` that `le` ranks equal to `y`, in their order in `s`. */
  function Tied<T>(le: (T, T) -> bool, s: seq<T>, y: T): (r: seq<T>)
    ensures |r| <= |s|
  {
    if s == [] then []
    else (if le(s[0], y) && le(y, s[0]) then [s[0]] else []) + Tied(le, s[1..], y)
  }

  lemma {:induction false} TiedAppend<T>(le: (T, T) -> bool, a: seq<T>, b: seq<T>, y: T)
    ensures Tied(le, a + b, y) == Tied(le, a, y) + Tied(le, b, y)
  {
    if a == [] {
      assert a + b == b;
    } else {
      assert (a + b)[1..] == a[1..] + b;
      TiedAppend(le, a[1..], b, y);
    }
  }

  lemma {:induction false} NoneTied<T>(le: (T, T) -> bool, s: seq<T>, y: T)
    requires forall i :: 0 <= i < |s| ==> !le(s[i], y)
    ensures Tied(le, s, y) == []
  {
    if s != [] {
      NoneTied(le, s[1..], y);
    }
  }

  lemma SortedTail<T>(le: (T, T) -> bool, s: seq<T>)
    requires s != [] && Sorted(le, s)
    ensures Sorted(le, s[1..])
  {
    forall i, j | 0 <= i < j < |s[1..]| ensures le(s[1..][i], s[1..][j]) {
      assert s[1..][i] == s[i + 1] && s[1..][j] == s[j + 1];
    }
  }

  /** An element strictly below the head of a sorted sequence is ranked
      equal to none of its elements. */
  lemma BelowHeadNoneTied<T(!new)>(le: (T, T) -> bool, x: T, s: seq<T>, y: T)
    requires TotalPreorder(le) && Sorted(le, s) && s != [] && !le(s[0], x)
    requires le(x, y) && le(y, x)
    ensures Tied(le, s, y) == []
  {
    assert le(s[0], s[0]);
    NoneTied(le, s, y);
  }

  /** Inserting past the head: the head's tie is followed by those of the
      insertion into the tail. */
  lemma InsertTiedPastHead<T>(le: (T, T) -> bool, x: T, s: seq<T>, y: T)
    requires s != [] && le(s[0], x)
    requires Tied(le, Insert(le, x, s[1..]), y) == Tied(le, s[1..], y) + Tied(le, [x], y)
    ensures Tied(le, Insert(le, x, s), y) == Tied(le, s, y) + Tied(le, [x], y)
  {
    var t := Insert(le, x, s[1..]);
    var h, rest, tx := Tied(le, [s[0]], y), Tied(le, s[1..], y), Tied(le, [x], y);
    assert Insert(le, x, s) == [s[0]] + t;
    assert [s[0]] + s[1..] == s;
    calc {
      Tied(le, Insert(le, x, s), y);
      Tied(le, [s[0]] + t, y);
      { TiedAppend(le, [s[0]], t, y); }
      h + (rest + tx);
      (h + rest) + tx;
      { TiedAppend(le, [s[0]], s[1..], y); }
      Tied(le, s, y) + tx;
    }
  }

  /** Inserting in front of a greater head. */
  lemma InsertTiedAtFront<T(!new)>(le: (T, T) -> bool, x: T, s: seq<T>, y: T)
    requires TotalPreorder(le) && Sorted(le, s) && s != [] && !le(s[0], x)
    ensures Tied(le, Insert(le, x, s), y) == Tied(le, s, y) + Tied(le, [x], y)
  {
    assert Insert(le, x, s) == [x] + s;
    TiedAppend(le, [x], s, y);
    if le(x, y) && le(y, x) {
      BelowHeadNoneTied(le, x, s, y);
    } else {
      assert Tied(le, [x], y) == [];
    }
  }

  /** An inserted element lands after every element ranked equal to it. */
  lemma {:induction false} InsertTied<T(!new)>(le: (T, T) -> bool, x: T, s: seq<T>, y: T)
    requires TotalPreorder(le) && Sorted(le, s)
    ensures Tied(le, Insert(le, x, s), y) == Tied(le, s, y) + Tied(le, [x], y)
  {
    if s == [] {
    } else if le(s[0], x) {
      SortedTail(le, s);
      InsertTied(le, x, s[1..], y);
      InsertTiedPastHead(le, x, s, y);
    } else {
      InsertTiedAtFront(le, x, s, y);
    }
  }

  /** `sort_by` is stable: the elements ranked equal to any `y` keep their
      relative order. */
  lemma {:induction false} SortStable<T(!new)>(le: (T, T) -> bool, s: seq<T>, y: T)
    requires TotalPreorder(le)
    ensures Tied(le, Sort(le, s), y) == Tied(le, s, y)
  {
    if s != [] {
      var init, last := s[..|s| - 1], s[|s| - 1];
      assert init + [last] == s;
      calc {
        Tied(le, Sort(le, s), y);
        { SortSnoc(le, s); }
        Tied(le, Insert(le, last, Sort(le, init)), y);
        { InsertTied(le, last, Sort(le, init), y); }
        Tied(le, Sort(le, init), y) + Tied(le, [last], y);
        { SortStable(le, init, y); }
        Tied(le, init, y) + Tied(le, [last], y);
        { TiedAppend(le, init, [last], y); }
        Tied(le, s, y);
      }
    }
  }

  lemma SortSnoc<T(!new)>(le: (T, T) -> bool, s: seq<T>)
    requires TotalPreorder(le) && s != []
    ensures Sort(le, s) == Insert(le, s[|s| - 1], Sort(le, s[..|s| - 1]))
  {
  }

  /** In a sorted sequence cut after `m` elements, a kept element is not
      greater than one that was cut. */
  lemma SortedCutOlder<T>(le: (T, T) -> bool, sorted: seq<T>, m: nat, e: T, i: nat)
    requires Sorted(le, sorted) && i < m <= |sorted|
    requires e in sorted && e !in sorted[..m]
    ensures le(sorted[i], e)
  {
    forall j | 0 <= j < m ensures sorted[j] != e {
      assert sorted[..m][j] == sorted[j];
    }
    var k :| 0 <= k < |sorted| && sorted[k] == e;
  }

  /** `r` is `s` with some elements left out, the rest kept in order. */
  predicate IsSubsequence<T(==)>(r: seq<T>, s: seq<T>) {
    r == [] || (s != [] && (if r[|r| - 1] == s[|s| - 1] then IsSubsequence(r[..|r| - 1], s[..|s| - 1])
                            else IsSubsequence(r, s[..|s| - 1])))
  }

  /** No element occurs twice. */
  predicate Distinct<T(==)>(s: seq<T>) {
    forall i, j :: 0 <= i < j < |s| ==> s[i] != s[j]
  }

  lemma {:induction false} DistinctCount<T>(s: seq<T>, x: T)
    requires Distinct(s)
    ensures multiset(s)[x] <= 1
  {
    if s != [] {
      assert s == [s[0]] + s[1..];
      assert Distinct(s[1..]) by {
        forall i, j | 0 <= i < j < |s[1..]| ensures s[1..][i] != s[1..][j] {
          assert s[1..][i] == s[i + 1] && s[1..][j] == s[j + 1];
        }
      }
      DistinctCount(s[1..], x);
      if x == s[0] {
        assert x !in s[1..];
      }
    }
  }

  /** A rearrangement of a sequence without repetitions has none either;
      in particular sorting keeps a sequence free of repetitions. */
  lemma SameMultisetDistinct<T>(a: seq<T>, b: seq<T>)
    requires multiset(a) == multiset(b) && Distinct(a)
    ensures Distinct(b)
  {
    forall i, j | 0 <= i < j < |b| ensures b[i] != b[j] {
      if b[i] == b[j] {
        assert b == b[..j] + b[j..];
        assert b[i] in b[..j] && b[j] in b[j..];
        assert multiset(b)[b[i]] == multiset(b[..j])[b[i]] + multiset(b[j..])[b[i]];
        DistinctCount(a, b[i]);
        assert false;
      }
    }
  }
}
