// Keeping the most promising routes: rankings at several trade sizes, interleaved up to a limit.
module Prerank {
  import opened Arith
  import opened Sequences

  // A Set in insertion order.
  function Add<T(==)>(kept: seq<T>, x: T): seq<T> {
    if x in kept then kept else kept + [x]
  }

  // The distinct elements, by first occurrence.
  function Dedupe<T(==)>(s: seq<T>): (r: seq<T>)
    ensures |r| <= |s|
  {
    if s == [] then [] else Add(Dedupe(s[..|s| - 1]), s[|s| - 1])
  }

  function Take<T>(s: seq<T>, limit: nat): seq<T> {
    if |s| <= limit then s else s[..limit]
  }

  // The entries at one position of the first k rankings that are long enough.
  function Row<T>(rankings: seq<seq<T>>, position: nat, k: nat): (r: seq<T>)
    requires k <= |rankings|
    ensures |r| <= k
  {
    if k == 0 then []
    else
      var before := Row(rankings, position, k - 1);
      if position < |rankings[k - 1]| then before + [rankings[k - 1][position]] else before
  }

  // The first n positions of every ranking, position by position.
  function Rows<T>(rankings: seq<seq<T>>, n: nat): seq<T> {
    if n == 0 then [] else Rows(rankings, n - 1) + Row(rankings, n - 1, |rankings|)
  }

  function Longest<T>(rankings: seq<seq<T>>): (n: nat)
    ensures forall r :: r in rankings ==> |r| <= n
  {
    if rankings == [] then 0
    else
      var rest := Longest(rankings[..|rankings| - 1]);
      var last := rankings[|rankings| - 1];
      assert forall r :: r in rankings ==> r in rankings[..|rankings| - 1] || r == last;
      if |last| > rest then |last| else rest
  }

  // What prerankRoutes keeps: the first distinct routes of the interleaved rankings, then of the rest.
  function Kept<T(==)>(routes: seq<T>, rankings: seq<seq<T>>, limit: nat): seq<T> {
    if |routes| <= limit then routes
    else Take(Dedupe(Rows(rankings, Longest(rankings)) + routes), limit)
  }

  lemma DedupeLast<T>(s: seq<T>, x: T)
    ensures Dedupe(s + [x]) == Add(Dedupe(s), x)
  {
    assert (s + [x])[..|s|] == s;
  }

  lemma {:induction false} DedupeMembers<T(!new)>(s: seq<T>)
    ensures Distinct(Dedupe(s)) && forall x :: x in Dedupe(s) <==> x in s
  {
    if s != [] {
      var before, last := s[..|s| - 1], s[|s| - 1];
      DedupeMembers(before);
      assert s == before + [last];
    }
  }

  lemma {:induction false} DedupePrefix<T>(a: seq<T>, b: seq<T>)
    ensures Dedupe(a) <= Dedupe(a + b)
  {
    if b == [] {
      assert a + b == a;
    } else {
      var before, last := b[..|b| - 1], b[|b| - 1];
      DedupePrefix(a, before);
      assert a + b == a + before + [last];
      DedupeLast(a + before, last);
    }
  }

  lemma TakeSettled<T>(a: seq<T>, b: seq<T>, limit: nat)
    requires |Dedupe(a)| == limit
    ensures Take(Dedupe(a + b), limit) == Dedupe(a)
  {
    DedupePrefix(a, b);
  }

  lemma {:induction false} RowsSplit<T>(rankings: seq<seq<T>>, m: nat, n: nat) returns (rest: seq<T>)
    requires m <= n
    ensures Rows(rankings, n) == Rows(rankings, m) + rest
  {
    if m == n {
      rest := [];
    } else {
      var rest' := RowsSplit(rankings, m, n - 1);
      rest := rest' + Row(rankings, n - 1, |rankings|);
    }
  }

  lemma {:induction false} RowSplit<T>(rankings: seq<seq<T>>, position: nat, j: nat, k: nat) returns (rest: seq<T>)
    requires j <= k <= |rankings|
    ensures Row(rankings, position, k) == Row(rankings, position, j) + rest
  {
    if j == k {
      rest := [];
    } else {
      var rest' := RowSplit(rankings, position, j, k - 1);
      rest := if position < |rankings[k - 1]| then rest' + [rankings[k - 1][position]] else rest';
    }
  }

  lemma {:induction false} EmptyRow<T>(rankings: seq<seq<T>>, position: nat, k: nat)
    requires k <= |rankings| && forall j :: 0 <= j < k ==> position >= |rankings[j]|
    ensures Row(rankings, position, k) == []
  {
    if k > 0 { EmptyRow(rankings, position, k - 1); }
  }

  lemma {:induction false} NoMoreRows<T>(rankings: seq<seq<T>>, position: nat, n: nat)
    requires position <= n && forall j :: 0 <= j < |rankings| ==> position >= |rankings[j]|
    ensures Rows(rankings, n) == Rows(rankings, position)
  {
    if position < n {
      NoMoreRows(rankings, position, n - 1);
      EmptyRow(rankings, n - 1, |rankings|);
    }
  }

  lemma Beginnings<T>(rankings: seq<seq<T>>, position: nat)
    ensures Dedupe<T>([]) == [] && Rows(rankings, 0) == []
    ensures Rows(rankings, position) + Row(rankings, position, 0) == Rows(rankings, position)
    ensures Rows(rankings, position) + [] == Rows(rankings, position)
  {
  }

  lemma RowNext<T>(rankings: seq<seq<T>>, position: nat, j: nat)
    requires j < |rankings|
    ensures Rows(rankings, position) + Row(rankings, position, j + 1) ==
            if position < |rankings[j]| then Rows(rankings, position) + Row(rankings, position, j) + [rankings[j][position]]
            else Rows(rankings, position) + Row(rankings, position, j)
  {
    hide Rows;
  }

  lemma RowsNext<T>(rankings: seq<seq<T>>, position: nat)
    ensures Rows(rankings, position + 1) == Rows(rankings, position) + Row(rankings, position, |rankings|)
  {
  }

  lemma Assoc<T>(a: seq<T>, b: seq<T>, c: seq<T>)
    ensures a + (b + c) == (a + b) + c
  {
  }

  // The interleaving, from a point inside a row on.
  lemma RowsBeyond<T>(rankings: seq<seq<T>>, position: nat, j: nat, n: nat) returns (rest: seq<T>)
    requires j <= |rankings| && position < n
    ensures Rows(rankings, n) == Rows(rankings, position) + Row(rankings, position, j) + rest
  {
    hide Rows, Row;
    var before, row := Rows(rankings, position), Row(rankings, position, j);
    var inRow := RowSplit(rankings, position, j, |rankings|);
    RowsNext(rankings, position);
    Assoc(before, row, inRow);
    var later := RowsSplit(rankings, position + 1, n);
    Assoc(before + row, inRow, later);
    rest := inRow + later;
  }

  // Full at some point of the interleaving: the rest changes nothing.
  lemma FullWithinRow<T>(routes: seq<T>, rankings: seq<seq<T>>, position: nat, j: nat, limit: nat)
    requires j <= |rankings| && position < Longest(rankings) && limit < |routes|
    requires |Dedupe(Rows(rankings, position) + Row(rankings, position, j))| == limit
    ensures Kept(routes, rankings, limit) == Dedupe(Rows(rankings, position) + Row(rankings, position, j))
  {
    hide Dedupe, Row, Rows, Longest;
    var rest := RowsBeyond(rankings, position, j, Longest(rankings));
    var begun := Rows(rankings, position) + Row(rankings, position, j);
    Assoc(begun, rest, routes);
    TakeSettled(begun, rest + routes, limit);
  }

  lemma FullWithinRest<T>(routes: seq<T>, rankings: seq<seq<T>>, i: nat, limit: nat)
    requires i <= |routes| && limit < |routes|
    requires |Dedupe(Rows(rankings, Longest(rankings)) + routes[..i])| == limit
    ensures Kept(routes, rankings, limit) == Dedupe(Rows(rankings, Longest(rankings)) + routes[..i])
  {
    hide Dedupe, Rows, Longest;
    var all := Rows(rankings, Longest(rankings));
    assert routes == routes[..i] + routes[i..];
    assert all + routes == (all + routes[..i]) + routes[i..];
    TakeSettled(all + routes[..i], routes[i..], limit);
  }

  lemma NeverFull<T>(routes: seq<T>, rankings: seq<seq<T>>, limit: nat)
    requires limit < |routes| && |Dedupe(Rows(rankings, Longest(rankings)) + routes)| <= limit
    ensures Kept(routes, rankings, limit) == Dedupe(Rows(rankings, Longest(rankings)) + routes)
  {
  }

  lemma FullAtOnce<T>(routes: seq<T>, rankings: seq<seq<T>>)
    ensures |routes| > 0 ==> Kept(routes, rankings, 0) == []
  {
  }

  lemma RestNext<T>(all: seq<T>, routes: seq<T>, i: nat)
    requires i < |routes|
    ensures Dedupe(all + routes[..i + 1]) == Add(Dedupe(all + routes[..i]), routes[i])
  {
    hide Dedupe, Add;
    DedupeLast(all + routes[..i], routes[i]);
    assert all + routes[..i] + [routes[i]] == all + routes[..i + 1];
  }

  lemma RestEnds<T>(all: seq<T>, routes: seq<T>)
    ensures all + routes[..0] == all && all + routes[..|routes|] == all + routes
  {
  }

  lemma AddGrows<T>(kept: seq<T>, x: T)
    ensures |kept| <= |Add(kept, x)| <= |kept| + 1
  {
  }

  // Kept so far: full and final, or the distinct routes of the interleaving and the first i of the rest.
  ghost predicate ToppedUp<T>(kept: seq<T>, routes: seq<T>, rankings: seq<seq<T>>, limit: nat, i: nat)
    requires i <= |routes|
  {
    if |kept| < limit then kept == Dedupe(Rows(rankings, Longest(rankings)) + routes[..i])
    else |kept| == limit && kept == Kept(routes, rankings, limit)
  }

  lemma TopUpOne<T>(kept: seq<T>, routes: seq<T>, rankings: seq<seq<T>>, limit: nat, i: nat)
    requires limit < |routes| && i < |routes| && |kept| < limit && ToppedUp(kept, routes, rankings, limit, i)
    ensures ToppedUp(Add(kept, routes[i]), routes, rankings, limit, i + 1)
  {
    hide Dedupe, Rows, Longest, Kept, Add;
    RestNext(Rows(rankings, Longest(rankings)), routes, i);
    AddGrows(kept, routes[i]);
    if |Add(kept, routes[i])| == limit {
      FullWithinRest(routes, rankings, i + 1, limit);
    }
  }

  lemma ToppedUpIsKept<T>(kept: seq<T>, routes: seq<T>, rankings: seq<seq<T>>, limit: nat, i: nat)
    requires limit < |routes| && i <= |routes| && ToppedUp(kept, routes, rankings, limit, i)
    requires |kept| >= limit || i == |routes|
    ensures kept == Kept(routes, rankings, limit)
  {
    hide Dedupe, Rows, Longest, Kept;
    if |kept| < limit {
      RestEnds(Rows(rankings, Longest(rankings)), routes);
      NeverFull(routes, rankings, limit);
    }
  }

  lemma StartTopUp<T>(kept: seq<T>, routes: seq<T>, rankings: seq<seq<T>>, limit: nat)
    requires |kept| <= limit && (|kept| == limit ==> kept == Kept(routes, rankings, limit))
    requires |kept| < limit ==> kept == Dedupe(Rows(rankings, Longest(rankings)))
    ensures ToppedUp(kept, routes, rankings, limit, 0)
  {
    hide Dedupe, Rows, Longest, Kept;
    RestEnds(Rows(rankings, Longest(rankings)), routes);
  }

  // prerankRoutes, given the rankings.
  method PrerankRoutes<T(==)>(routes: seq<T>, rankings: seq<seq<T>>, limit: nat) returns (r: seq<T>)
    ensures r == Kept(routes, rankings, limit)
  {
    if |routes| <= limit { return routes; }
    var kept: seq<T> := Interleave(routes, rankings, limit);
    StartTopUp(kept, routes, rankings, limit);
    hide ToppedUp, Kept, Dedupe, Rows, Longest, Add;
    var i := 0;
    while i < |routes| && |kept| < limit
      invariant 0 <= i <= |routes| && ToppedUp(kept, routes, rankings, limit, i)
    {
      TopUpOne(kept, routes, rankings, limit, i);
      kept := Add(kept, routes[i]);
      i := i + 1;
    }
    ToppedUpIsKept(kept, routes, rankings, limit, i);
    return kept;
  }

  // The best from each ranking in turn, until full or out of ranked routes.
  method Interleave<T(==)>(routes: seq<T>, rankings: seq<seq<T>>, limit: nat) returns (kept: seq<T>)
    requires |routes| > limit
    ensures |kept| <= limit && (|kept| == limit ==> kept == Kept(routes, rankings, limit))
    ensures |kept| < limit ==> kept == Dedupe(Rows(rankings, Longest(rankings)))
  {
    hide Dedupe, Rows, Row, Kept, Longest;
    kept := [];
    var position := 0;
    ghost var longest := Longest(rankings);
    Beginnings(rankings, 0);
    if limit == 0 { FullAtOnce(routes, rankings); }
    while |kept| < limit
      invariant 0 <= position <= longest
      invariant |kept| <= limit && (|kept| == limit ==> kept == Kept(routes, rankings, limit))
      invariant |kept| < limit ==> kept == Dedupe(Rows(rankings, position))
      decreases longest - position
    {
      var exhausted := true;
      var j := 0;
      Beginnings(rankings, position);
      while j < |rankings| && |kept| < limit
        invariant 0 <= j <= |rankings|
        invariant |kept| <= limit && (|kept| == limit ==> kept == Kept(routes, rankings, limit) && !exhausted)
        invariant |kept| < limit ==> kept == Dedupe(Rows(rankings, position) + Row(rankings, position, j))
        invariant exhausted <==> forall i :: 0 <= i < j ==> position >= |rankings[i]|
        invariant !exhausted ==> position < longest
      {
        RowNext(rankings, position, j);
        if position < |rankings[j]| {
          exhausted := false;
          assert rankings[j] in rankings;
          DedupeLast(Rows(rankings, position) + Row(rankings, position, j), rankings[j][position]);
          kept := Add(kept, rankings[j][position]);
          if |kept| == limit { FullWithinRow(routes, rankings, position, j + 1, limit); }
        }
        j := j + 1;
      }
      if exhausted {
        NoMoreRows(rankings, position, longest);
        EmptyRow(rankings, position, |rankings|);
        Beginnings(rankings, position);
        break;
      }
      RowsNext(rankings, position);
      position := position + 1;
    }
  }

  // ----- what is kept -----

  lemma {:induction false} RowsBound<T>(rankings: seq<seq<T>>, n: nat)
    ensures |Rows(rankings, n)| <= n * |rankings|
  {
    if n > 0 {
      RowsBound(rankings, n - 1);
      assert n * |rankings| == (n - 1) * |rankings| + |rankings|;
    }
  }

  lemma {:induction false} InRow<T>(rankings: seq<seq<T>>, position: nat, k: nat, j: nat)
    requires j < k <= |rankings| && position < |rankings[j]|
    ensures rankings[j][position] in Row(rankings, position, k)
  {
    if j < k - 1 { InRow(rankings, position, k - 1, j); }
  }

  // The rankings take turns: a route that fewer than limit turns precede, going through the positions in
  // order and through the rankings in order at each, is kept.
  lemma TurnsAreKept<T(!new)>(routes: seq<T>, rankings: seq<seq<T>>, limit: nat, j: nat, position: nat)
    requires |routes| > limit && j < |rankings| && position < |rankings[j]| && position * |rankings| + j < limit
    ensures rankings[j][position] in Kept(routes, rankings, limit)
  {
    hide Row, Rows, Dedupe;
    var k := |rankings|;
    InRow(rankings, position, j + 1, j);
    var head := Rows(rankings, position) + Row(rankings, position, j + 1);
    RowsBound(rankings, position);
    assert |head| <= limit;
    assert rankings[j] in rankings;
    var later := RowsBeyond(rankings, position, j + 1, Longest(rankings));
    Assoc(head, later, routes);
    DedupePrefix(head, later + routes);
    DedupeMembers(head);
    DedupeBound(head);
    PrefixKept(Dedupe(head), Dedupe(head + (later + routes)), limit, rankings[j][position]);
  }

  // Each of k rankings has its top floor(limit / k) routes kept.
  lemma TopsAreKept<T(!new)>(routes: seq<T>, rankings: seq<seq<T>>, limit: nat, j: nat, position: nat)
    requires |routes| > limit && j < |rankings| && position < |rankings[j]| && position < limit / |rankings|
    ensures rankings[j][position] in Kept(routes, rankings, limit)
  {
    var k := |rankings|;
    FloorGalois(limit, k, position + 1);
    assert (position + 1) * k == position * k + k;
    hide Kept;
    TurnsAreKept(routes, rankings, limit, j, position);
  }

  lemma DedupeBound<T>(s: seq<T>)
    ensures |Dedupe(s)| <= |s|
  {
  }

  lemma PrefixKept<T>(a: seq<T>, b: seq<T>, limit: nat, x: T)
    requires a <= b && |a| <= limit && x in a
    ensures x in Take(b, limit)
  {
    var i :| 0 <= i < |a| && a[i] == x;
    assert Take(b, limit)[i] == x;
  }

  lemma {:induction false} InRows<T(!new)>(rankings: seq<seq<T>>, n: nat, j: nat, position: nat)
    requires j < |rankings| && position < |rankings[j]| && position < n
    ensures rankings[j][position] in Rows(rankings, n)
  {
    hide Row;
    if position == n - 1 {
      InRow(rankings, position, |rankings|, j);
    } else {
      InRows(rankings, n - 1, j, position);
    }
  }

  lemma {:induction false} NotInRow<T>(rankings: seq<seq<T>>, position: nat, k: nat, x: T)
    requires k <= |rankings| && forall j :: 0 <= j < |rankings| ==> x !in rankings[j]
    ensures x !in Row(rankings, position, k)
  {
    if k > 0 { NotInRow(rankings, position, k - 1, x); }
  }

  lemma {:induction false} NotInRows<T>(rankings: seq<seq<T>>, n: nat, x: T)
    requires forall j :: 0 <= j < |rankings| ==> x !in rankings[j]
    ensures x !in Rows(rankings, n)
  {
    hide Row;
    if n > 0 {
      NotInRows(rankings, n - 1, x);
      NotInRow(rankings, n - 1, |rankings|, x);
    }
  }

  // A route no ranking mentions is kept only once every ranked route is.
  lemma UnscoredComeLast<T(!new)>(routes: seq<T>, rankings: seq<seq<T>>, limit: nat, x: T)
    requires |routes| > limit && x in Kept(routes, rankings, limit)
    requires forall j :: 0 <= j < |rankings| ==> x !in rankings[j]
    ensures forall j, position :: 0 <= j < |rankings| && 0 <= position < |rankings[j]| ==>
      rankings[j][position] in Kept(routes, rankings, limit)
  {
    hide Row, Rows, Dedupe;
    var ranked := Rows(rankings, Longest(rankings));
    NotInRows(rankings, Longest(rankings), x);
    DedupePrefix(ranked, routes);
    DedupeMembers(ranked);
    RankedFirst(Dedupe(ranked), Dedupe(ranked + routes), limit, x);
    forall j, position | 0 <= j < |rankings| && 0 <= position < |rankings[j]|
      ensures rankings[j][position] in Kept(routes, rankings, limit)
    {
      assert rankings[j] in rankings;
      InRows(rankings, Longest(rankings), j, position);
    }
  }

  // Routes that no ranking mentions are kept in the order they came in.
  lemma UnscoredInOrder<T(!new)>(routes: seq<T>, rankings: seq<seq<T>>, limit: nat, i: nat, h: nat)
    requires |routes| > limit && h <= i < |routes| && Distinct(routes) && routes[i] in Kept(routes, rankings, limit)
    requires forall j :: 0 <= j < |rankings| ==> routes[i] !in rankings[j]
    ensures routes[h] in Kept(routes, rankings, limit)
  {
    hide Rows, Dedupe;
    var ranked := Rows(rankings, Longest(rankings));
    var a, b := ranked + routes[..i], routes[i..];
    NotInRows(rankings, Longest(rankings), routes[i]);
    if h < i {
      assert ranked + routes == a + b by { assert routes == routes[..i] + b; }
      DedupePrefix(a, b);
      DedupeMembers(a);
      assert routes[i] !in a && routes[h] in a by { assert a[|ranked| + h] == routes[h]; }
      RankedFirst(Dedupe(a), Dedupe(a + b), limit, routes[i]);
    }
  }

  lemma RankedFirst<T>(a: seq<T>, b: seq<T>, limit: nat, x: T)
    requires a <= b && x in Take(b, limit) && x !in a
    ensures forall y :: y in a ==> y in Take(b, limit)
  {
    var i :| 0 <= i < |Take(b, limit)| && Take(b, limit)[i] == x;
    assert b[i] == x && i >= |a|;
    assert a <= Take(b, limit);
  }

  ghost function Elements<T(!new)>(s: seq<T>): set<T> {
    set x | x in s
  }

  lemma {:induction false} DistinctSize<T(!new)>(s: seq<T>)
    requires Distinct(s)
    ensures |Elements(s)| == |s|
  {
    if s != [] {
      var before, last := s[..|s| - 1], s[|s| - 1];
      DistinctSize(before);
      assert s == before + [last];
      assert Elements(s) == Elements(before) + {last};
    } else {
      assert Elements(s) == {};
    }
  }

  lemma CountDistinct<T(!new)>(all: seq<T>, part: seq<T>)
    requires Distinct(part) && Distinct(all) && forall x :: x in part ==> x in all
    ensures |part| <= |all|
  {
    DistinctSize(all);
    DistinctSize(part);
    SubsetSize(Elements(part), Elements(all));
  }

  lemma {:induction false} SubsetSize<T>(a: set<T>, b: set<T>)
    requires a <= b
    ensures |a| <= |b|
  {
    if a != {} {
      var x :| x in a;
      SubsetSize(a - {x}, b - {x});
    }
  }

  lemma {:induction false} RowMembers<T(!new)>(rankings: seq<seq<T>>, position: nat, k: nat, routes: seq<T>)
    requires k <= |rankings| && forall j, x :: 0 <= j < |rankings| && x in rankings[j] ==> x in routes
    ensures forall x :: x in Row(rankings, position, k) ==> x in routes
  {
    if k > 0 { RowMembers(rankings, position, k - 1, routes); }
  }

  lemma {:induction false} RowsMembers<T(!new)>(rankings: seq<seq<T>>, n: nat, routes: seq<T>)
    requires forall j, x :: 0 <= j < |rankings| && x in rankings[j] ==> x in routes
    ensures forall x :: x in Rows(rankings, n) ==> x in routes
  {
    if n > 0 {
      RowsMembers(rankings, n - 1, routes);
      RowMembers(rankings, n - 1, |rankings|, routes);
    }
  }

  // Over the limit, exactly limit distinct routes of the input are kept.
  lemma ExactlyLimit<T(!new)>(routes: seq<T>, rankings: seq<seq<T>>, limit: nat)
    requires |routes| > limit && Distinct(routes)
    requires forall j, x :: 0 <= j < |rankings| && x in rankings[j] ==> x in routes
    ensures |Kept(routes, rankings, limit)| == limit && Distinct(Kept(routes, rankings, limit))
    ensures forall x :: x in Kept(routes, rankings, limit) ==> x in routes
  {
    hide Rows, Row, Dedupe, Longest;
    var ranked := Rows(rankings, Longest(rankings));
    RowsMembers(rankings, Longest(rankings), routes);
    DedupeMembers(ranked + routes);
    CountDistinct(Dedupe(ranked + routes), routes);
    assert forall x :: x in Kept(routes, rankings, limit) ==> x in Dedupe(ranked + routes);
    assert forall x :: x in ranked + routes ==> x in ranked || x in routes;
  }
}
