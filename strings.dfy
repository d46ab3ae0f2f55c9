/** The string handling the reconciler relies on: finding a separator,
    ordering repository names as the sort package does, and joining them
    with commas. */
module Strings {

  /** The position of the first `c` in `s`, or -1 when there is none. */
  function IndexOf(s: string, c: char): (i: int)
    ensures -1 <= i < |s|
    ensures i == -1 <==> c !in s
    ensures 0 <= i ==> i < |s| && s[i] == c && c !in s[..i]
  {
    if s == [] then -1
    else if s[0] == c then 0
    else
      var j := IndexOf(s[1..], c);
      if j == -1 then -1
      else
        assert s[..j + 1] == [s[0]] + s[1..][..j];
        j + 1
  }

  // ---------------------------------------------------------------------
  // Lexicographic order

  /** `a` sorts strictly before `b`: character by character, a proper prefix
      first. Character order is code-point order, which is also the byte
      order of the UTF-8 encodings that Go compares. */
  predicate Below(a: string, b: string)
  {
    |b| > 0 && (|a| == 0 || a[0] < b[0] || (a[0] == b[0] && Below(a[1..], b[1..])))
  }

  predicate AtMost(a: string, b: string)
  {
    a == b || Below(a, b)
  }

  lemma {:induction false} BelowIrreflexive(a: string)
    ensures !Below(a, a)
  {
    if |a| > 0 {
      BelowIrreflexive(a[1..]);
    }
  }

  lemma {:induction false} BelowTransitive(a: string, b: string, c: string)
    requires Below(a, b) && Below(b, c)
    ensures Below(a, c)
  {
    if |a| > 0 && a[0] == b[0] && b[0] == c[0] {
      BelowTransitive(a[1..], b[1..], c[1..]);
    }
  }

  lemma {:induction false} BelowTotal(a: string, b: string)
    ensures a == b || Below(a, b) || Below(b, a)
  {
    if |a| > 0 && |b| > 0 && a[0] == b[0] {
      BelowTotal(a[1..], b[1..]);
      if a[1..] == b[1..] {
        assert a == [a[0]] + a[1..] && b == [b[0]] + b[1..];
      }
    }
  }

  lemma AtMostTransitive(a: string, b: string, c: string)
    requires AtMost(a, b) && AtMost(b, c)
    ensures AtMost(a, c)
  {
    if a != b && b != c {
      BelowTransitive(a, b, c);
    }
  }

  // ---------------------------------------------------------------------
  // Sorting

  predicate Sorted(xs: seq<string>)
  {
    forall i, j :: 0 <= i < j < |xs| ==> AtMost(xs[i], xs[j])
  }

  predicate StrictlySorted(xs: seq<string>)
  {
    forall i, j :: 0 <= i < j < |xs| ==> Below(xs[i], xs[j])
  }

  predicate Distinct(xs: seq<string>)
  {
    forall i, j :: 0 <= i < j < |xs| ==> xs[i] != xs[j]
  }

  /** Inserts `x` into the sorted sequence `xs`. */
  function Insert(x: string, xs: seq<string>): (r: seq<string>)
    requires Sorted(xs)
    ensures Sorted(r)
    ensures multiset(r) == multiset(xs) + multiset{x}
  {
    if xs == [] then [x]
    else if Below(xs[0], x) then
      var rest := Insert(x, xs[1..]);
      InsertAfterHead(x, xs, rest);
      [xs[0]] + rest
    else
      InsertBeforeHead(x, xs);
      [x] + xs
  }

  lemma InsertAfterHead(x: string, xs: seq<string>, rest: seq<string>)
    requires Sorted(xs) && xs != [] && Below(xs[0], x)
    requires Sorted(rest) && multiset(rest) == multiset(xs[1..]) + multiset{x}
    ensures Sorted([xs[0]] + rest)
    ensures multiset([xs[0]] + rest) == multiset(xs) + multiset{x}
  {
    assert xs == [xs[0]] + xs[1..];
    forall k | 0 <= k < |rest| ensures AtMost(xs[0], rest[k]) {
      assert rest[k] in multiset(rest);
      if rest[k] != x {
        assert rest[k] in multiset(xs[1..]);
        var j :| 0 <= j < |xs[1..]| && xs[1..][j] == rest[k];
        assert xs[j + 1] == rest[k];
      }
    }
    var r := [xs[0]] + rest;
    forall i, j | 0 <= i < j < |r| ensures AtMost(r[i], r[j]) {
      assert r[j] == rest[j - 1];
      if i > 0 {
        assert r[i] == rest[i - 1];
      }
    }
  }

  lemma InsertBeforeHead(x: string, xs: seq<string>)
    requires Sorted(xs) && xs != [] && !Below(xs[0], x)
    ensures Sorted([x] + xs)
  {
    BelowTotal(x, xs[0]);
    var r := [x] + xs;
    forall i, j | 0 <= i < j < |r| ensures AtMost(r[i], r[j]) {
      assert r[j] == xs[j - 1];
      if i > 0 {
        assert r[i] == xs[i - 1];
      } else {
        AtMostTransitive(x, xs[0], xs[j - 1]);
      }
    }
  }

  /** Insertion sort: what `sort.Strings` leaves in a slice of strings. */
  function Sort(xs: seq<string>): (r: seq<string>)
    ensures Sorted(r)
    ensures multiset(r) == multiset(xs)
  {
    if xs == [] then []
    else
      assert xs == [xs[0]] + xs[1..];
      Insert(xs[0], Sort(xs[1..]))
  }

  /** Sorting a sequence without repetitions leaves every element strictly
      before the next. */
  lemma SortDistinct(xs: seq<string>)
    requires Distinct(xs)
    ensures StrictlySorted(Sort(xs))
  {
    var r := Sort(xs);
    forall i, j | 0 <= i < j < |r| ensures Below(r[i], r[j]) {
      if r[i] == r[j] {
        RepeatCount(r, i, j);
        DistinctCountAtMostOne(xs, r[i]);
      }
    }
  }

  lemma RepeatCount(r: seq<string>, i: nat, j: nat)
    requires i < j < |r| && r[i] == r[j]
    ensures multiset(r)[r[i]] >= 2
  {
    assert r == r[..j] + r[j..];
    assert r[i] in r[..j];
    assert r[j] == r[j..][0];
  }

  lemma {:induction false} DistinctCountAtMostOne(xs: seq<string>, x: string)
    requires Distinct(xs)
    ensures multiset(xs)[x] <= 1
  {
    if xs != [] {
      assert xs == [xs[0]] + xs[1..];
      DistinctCountAtMostOne(xs[1..], x);
      if xs[0] == x {
        assert x !in xs[1..];
      }
    }
  }

  /** Two strictly sorted sequences with the same elements are equal, so a
      set has exactly one sorted listing, whatever order it was collected in. */
  lemma {:induction false} StrictlySortedUnique(a: seq<string>, b: seq<string>)
    requires StrictlySorted(a) && StrictlySorted(b)
    requires forall x :: x in a <==> x in b
    ensures a == b
  {
    if a != [] {
      assert a[0] in b;
    }
    if b != [] {
      assert b[0] in a;
    }
    if a != [] && b != [] {
      if a[0] != b[0] {
        assert a[0] in b;
        assert b[0] in a;
        var i :| 0 <= i < |a| && a[i] == b[0];
        var j :| 0 <= j < |b| && b[j] == a[0];
        BelowTransitive(a[0], b[0], a[0]);
        BelowIrreflexive(a[0]);
        assert false;
      }
      forall x | x in a[1..] ensures x in b[1..] {
        TailMember(a, b, x);
      }
      forall x | x in b[1..] ensures x in a[1..] {
        TailMember(b, a, x);
      }
      StrictlySortedUnique(a[1..], b[1..]);
      assert a == [a[0]] + a[1..] && b == [b[0]] + b[1..];
    }
  }

  lemma TailMember(a: seq<string>, b: seq<string>, x: string)
    requires StrictlySorted(a) && StrictlySorted(b)
    requires forall y :: y in a <==> y in b
    requires a != [] && b != [] && a[0] == b[0] && x in a[1..]
    ensures x in b[1..]
  {
    var i :| 0 <= i < |a[1..]| && a[1..][i] == x;
    assert Below(a[0], x);
    assert x in b;
    var j :| 0 <= j < |b| && b[j] == x;
    if j == 0 {
      BelowIrreflexive(x);
    } else {
      assert b[1..][j - 1] == x;
    }
  }

  // ---------------------------------------------------------------------
  // Joining with commas

  /** The elements of `xs` separated by single commas. */
  function Join(xs: seq<string>): string
  {
    if |xs| == 0 then ""
    else if |xs| == 1 then xs[0]
    else xs[0] + "," + Join(xs[1..])
  }

  lemma {:induction false} JoinSnoc(xs: seq<string>, x: string)
    ensures Join(xs + [x]) == if xs == [] then x else Join(xs) + "," + x
  {
    if |xs| >= 2 {
      assert (xs + [x])[1..] == xs[1..] + [x];
      JoinSnoc(xs[1..], x);
    } else if |xs| == 1 {
      assert (xs + [x])[1..] == [x];
    }
  }

  /** Cuts `s` at every comma. */
  function Split(s: string): seq<string>
    decreases |s|
  {
    var i := IndexOf(s, ',');
    if i == -1 then [s] else [s[..i]] + Split(s[i + 1..])
  }

  predicate NoCommas(xs: seq<string>)
  {
    forall k :: 0 <= k < |xs| ==> ',' !in xs[k]
  }

  /** Joining non-empty, comma-free names leaves no leading, trailing or
      doubled separator. */
  lemma {:induction false} JoinSeparators(xs: seq<string>)
    requires NoCommas(xs) && forall k :: 0 <= k < |xs| ==> xs[k] != ""
    ensures var s := Join(xs);
      && (|xs| > 0 ==> s != "" && s[0] != ',' && s[|s| - 1] != ',')
      && forall i :: 0 <= i < |s| - 1 ==> !(s[i] == ',' && s[i + 1] == ',')
  {
    if |xs| == 1 {
      assert ',' !in xs[0];
    } else if |xs| > 1 {
      var rest := xs[1..];
      assert forall k :: 0 <= k < |rest| ==> rest[k] == xs[k + 1];
      JoinSeparators(rest);
      var h, t := xs[0], Join(rest);
      var s := Join(xs);
      assert s == h + "," + t;
      assert ',' !in h;
      assert s[0] == h[0];
      assert s[|s| - 1] == t[|t| - 1];
      forall i | 0 <= i < |s| - 1
        ensures !(s[i] == ',' && s[i + 1] == ',')
      {
        if i < |h| {
          assert s[i] == h[i];
        } else if i == |h| {
          assert s[i + 1] == t[0];
        } else {
          assert s[i] == t[i - |h| - 1] && s[i + 1] == t[i - |h|];
        }
      }
    }
  }

  /** Cutting a joined list of comma-free names at its commas gives the
      names back. */
  lemma {:induction false} SplitJoin(xs: seq<string>)
    requires |xs| > 0 && NoCommas(xs)
    ensures Split(Join(xs)) == xs
  {
    if |xs| == 1 {
      assert ',' !in xs[0];
    } else {
      var s := Join(xs);
      var h := xs[0];
      assert s == h + "," + Join(xs[1..]);
      var i := IndexOf(s, ',');
      assert s[|h|] == ',';
      assert forall k :: 0 <= k < |h| ==> s[k] == h[k];
      assert forall k :: 0 <= k < i ==> s[..i][k] == s[k];
      assert i == |h|;
      assert s[..i] == h;
      assert s[i + 1..] == Join(xs[1..]);
      SplitJoin(xs[1..]);
      assert xs == [h] + xs[1..];
    }
  }

  /** A joined list of `n` comma-free names holds exactly `n - 1` commas. */
  lemma {:induction false} JoinCommaCount(xs: seq<string>)
    requires |xs| > 0 && NoCommas(xs)
    ensures multiset(Join(xs))[','] == |xs| - 1
  {
    assert ',' !in multiset(xs[0]);
    if |xs| > 1 {
      JoinCommaCount(xs[1..]);
      assert multiset(Join(xs)) == multiset(xs[0]) + multiset(",") + multiset(Join(xs[1..]));
    }
  }
}
