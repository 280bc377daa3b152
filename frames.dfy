/** The DataFrame operations the batch job is built from, over tables
    modelled as finite sequences of rows: `filter`, `select`,
    `dropDuplicates` and a `left_outer` join. The row order of a sequence
    is one of the orders the engine may deliver; every property about
    table contents below is stated so that it does not depend on it. */
module Frames {
  import opened Options

  // ---------------------------------------------------------------------
  // filter
  // ---------------------------------------------------------------------

  /** `DataFrame.filter(p)`: the rows satisfying `p`, in their original
      order. */
  function Filter<T(!new)>(p: T -> bool, rows: seq<T>): (r: seq<T>)
    ensures |r| <= |rows|
    ensures forall x :: x in r <==> x in rows && p(x)
  {
    if rows == [] then []
    else if p(rows[0]) then [rows[0]] + Filter(p, rows[1..])
    else Filter(p, rows[1..])
  }

  /** Filtering keeps every selected row with its multiplicity and drops
      every other row entirely. */
  lemma {:induction false} FilterMultiplicity<T(!new)>(p: T -> bool, rows: seq<T>, x: T)
    ensures multiset(Filter(p, rows))[x] == if p(x) then multiset(rows)[x] else 0
  {
    if rows != [] {
      assert rows == [rows[0]] + rows[1..];
      FilterMultiplicity(p, rows[1..], x);
    }
  }

  /** Filtering commutes with splitting a table into partitions. */
  lemma {:induction false} FilterAppend<T(!new)>(p: T -> bool, a: seq<T>, b: seq<T>)
    ensures Filter(p, a + b) == Filter(p, a) + Filter(p, b)
  {
    if a != [] {
      assert (a + b)[1..] == a[1..] + b;
      FilterAppend(p, a[1..], b);
    } else {
      assert a + b == b;
    }
  }

  // ---------------------------------------------------------------------
  // select
  // ---------------------------------------------------------------------

  /** `DataFrame.select(...)`: one output row per input row, computed by
      the column expressions `f` from that row alone. */
  function Select<T, U>(f: T -> U, rows: seq<T>): (r: seq<U>)
    ensures |r| == |rows|
  {
    seq(|rows|, i requires 0 <= i < |rows| => f(rows[i]))
  }

  /** Every input row's projection is an output row, and every output row
      is the projection of an input row. */
  lemma SelectMembership<T, U>(f: T -> U, rows: seq<T>)
    ensures forall x :: x in rows ==> f(x) in Select(f, rows)
    ensures forall y :: y in Select(f, rows) ==> exists x :: x in rows && y == f(x)
  {
    var r := Select(f, rows);
    forall x | x in rows ensures f(x) in r {
      var i :| 0 <= i < |rows| && rows[i] == x;
      assert r[i] == f(x);
    }
    forall y | y in r ensures exists x :: x in rows && y == f(x) {
      var i :| 0 <= i < |r| && r[i] == y;
      assert rows[i] in rows;
    }
  }

  /** A projection that loses nothing about row `x` (no other row projects
      to the same output) keeps `x`'s multiplicity. */
  lemma {:induction false} ProjectionMultiplicity<T, U>(f: T -> U, rows: seq<T>, r: seq<U>, x: T)
    requires |r| == |rows| && forall i :: 0 <= i < |rows| ==> r[i] == f(rows[i])
    requires forall y :: f(y) == f(x) ==> y == x
    ensures multiset(r)[f(x)] == multiset(rows)[x]
  {
    if rows != [] {
      ProjectionMultiplicity(f, rows[1..], r[1..], x);
      assert rows == [rows[0]] + rows[1..];
      assert r == [r[0]] + r[1..];
    }
  }

  // ---------------------------------------------------------------------
  // dropDuplicates
  // ---------------------------------------------------------------------

  /** The distinct values of column `key` in a table. */
  ghost function KeySet<T, K>(key: T -> K, rows: seq<T>): set<K>
  {
    set x | x in rows :: key(x)
  }

  /** Column `key` holds no value twice. */
  ghost predicate KeysUnique<T, K>(key: T -> K, rows: seq<T>)
  {
    forall i, j :: 0 <= i < j < |rows| ==> key(rows[i]) != key(rows[j])
  }

  /** `r` is an acceptable outcome of `rows.dropDuplicates([key])`: one
      row per distinct key, each of them a row of the input. The engine
      does not say WHICH row of a group it keeps; every outcome meeting
      this predicate is one it may produce. */
  ghost predicate DeduplicatedBy<T, K>(key: T -> K, rows: seq<T>, r: seq<T>)
  {
    && (forall x :: x in r ==> x in rows)
    && KeysUnique(key, r)
    && KeySet(key, r) == KeySet(key, rows)
  }

  /** Whether some row of `rows` has key `k`. */
  predicate HasKey<T, K(==)>(key: T -> K, rows: seq<T>, k: K)
  {
    exists i :: 0 <= i < |rows| && key(rows[i]) == k
  }

  /** `rows.dropDuplicates([key])` with a fixed tie-break: of each group of
      rows sharing a key, the first in table order is kept. */
  function DropDuplicatesBy<T, K(==)>(key: T -> K, rows: seq<T>): (r: seq<T>)
    ensures DeduplicatedBy(key, rows, r)
    decreases |rows|
  {
    if rows == [] then []
    else
      var init := rows[..|rows| - 1];
      var last := rows[|rows| - 1];
      var kept := DropDuplicatesBy(key, init);
      DropDuplicatesStep(key, init, last, kept);
      assert rows == init + [last];
      if HasKey(key, kept, key(last)) then kept else kept + [last]
  }

  /** One step of DropDuplicatesBy: appending a row keeps a correct
      deduplication correct, whether the row's key was already present
      (the row is dropped) or not (the row is kept). */
  lemma DropDuplicatesStep<T, K>(key: T -> K, init: seq<T>, last: T, kept: seq<T>)
    requires DeduplicatedBy(key, init, kept)
    ensures HasKey(key, kept, key(last)) ==> DeduplicatedBy(key, init + [last], kept)
    ensures !HasKey(key, kept, key(last)) ==> DeduplicatedBy(key, init + [last], kept + [last])
  {
    var rows := init + [last];
    assert KeySet(key, rows) == KeySet(key, init) + {key(last)};
    if HasKey(key, kept, key(last)) {
      var i :| 0 <= i < |kept| && key(kept[i]) == key(last);
      assert key(last) in KeySet(key, kept);
    } else {
      var r := kept + [last];
      assert KeySet(key, r) == KeySet(key, kept) + {key(last)};
    }
  }

  /** The tie-break of DropDuplicatesBy: the first row of the input with
      a given key is the one kept (with KeysUnique, the only row of the
      output with that key). */
  lemma {:induction false} DropDuplicatesKeepsFirst<T, K>(key: T -> K, rows: seq<T>, i: nat)
    requires i < |rows|
    requires forall k :: 0 <= k < i ==> key(rows[k]) != key(rows[i])
    ensures rows[i] in DropDuplicatesBy(key, rows)
    decreases |rows|
  {
    var init := rows[..|rows| - 1];
    var last := rows[|rows| - 1];
    var kept := DropDuplicatesBy(key, init);
    assert rows == init + [last];
    assert DropDuplicatesBy(key, rows) == if HasKey(key, kept, key(last)) then kept else kept + [last];
    if i < |rows| - 1 {
      DropDuplicatesKeepsFirst(key, init, i);
    } else {
      forall k | 0 <= k < |kept| ensures key(kept[k]) != key(last) {
        assert kept[k] in init;
      }
    }
  }

  /** A table with unique keys has as many rows as distinct keys. */
  lemma {:induction false} UniqueKeysCount<T, K>(key: T -> K, rows: seq<T>)
    requires KeysUnique(key, rows)
    ensures |KeySet(key, rows)| == |rows|
  {
    if rows != [] {
      var init := rows[..|rows| - 1];
      var last := rows[|rows| - 1];
      assert rows == init + [last];
      UniqueKeysCount(key, init);
      assert KeySet(key, rows) == KeySet(key, init) + {key(last)};
      assert key(last) !in KeySet(key, init) by {
        forall y | y in init ensures key(y) != key(last) {
          var i :| 0 <= i < |init| && init[i] == y;
          assert key(rows[i]) != key(rows[|rows| - 1]);
        }
      }
    }
  }

  /** A table has at least as many rows as distinct keys. */
  lemma {:induction false} KeySetBound<T, K>(key: T -> K, rows: seq<T>)
    ensures |KeySet(key, rows)| <= |rows|
  {
    if rows != [] {
      var init := rows[..|rows| - 1];
      assert rows == init + [rows[|rows| - 1]];
      KeySetBound(key, init);
      assert KeySet(key, rows) == KeySet(key, init) + {key(rows[|rows| - 1])};
    }
  }

  /** Whatever row of each group the engine keeps, the deduplicated table
      has exactly one row per distinct key: at most as many rows as the
      input, and exactly as many when the input had no duplicate key. */
  lemma DeduplicatedCount<T, K>(key: T -> K, rows: seq<T>, r: seq<T>)
    requires DeduplicatedBy(key, rows, r)
    ensures |r| == |KeySet(key, rows)| <= |rows|
    ensures KeysUnique(key, rows) ==> |r| == |rows|
  {
    UniqueKeysCount(key, r);
    KeySetBound(key, rows);
    if KeysUnique(key, rows) {
      UniqueKeysCount(key, rows);
    }
  }

  /** Two outcomes of the same `dropDuplicates` agree on everything except
      which representative of a group was kept: they have the same key
      set and the same row count. */
  lemma DeduplicationChoiceIndependent<T, K>(key: T -> K, rows: seq<T>, r1: seq<T>, r2: seq<T>)
    requires DeduplicatedBy(key, rows, r1) && DeduplicatedBy(key, rows, r2)
    ensures |r1| == |r2|
    ensures KeySet(key, r1) == KeySet(key, r2)
  {
    DeduplicatedCount(key, rows, r1);
    DeduplicatedCount(key, rows, r2);
  }

  /** `rows.dropDuplicates([key]).select(f)` where the projection `f`
      keeps the key column (`g` reads it back): the result has one row
      per distinct key, each the projection of an input row. */
  lemma SelectDeduplicated<T, K, U>(key: T -> K, f: T -> U, g: U -> K, rows: seq<T>, kept: seq<T>)
    requires DeduplicatedBy(key, rows, kept)
    requires forall x :: g(f(x)) == key(x)
    ensures KeysUnique(g, Select(f, kept))
    ensures forall y :: y in Select(f, kept) ==> exists x :: x in rows && y == f(x)
    ensures forall x :: x in rows ==> exists y :: y in Select(f, kept) && g(y) == key(x)
    ensures |Select(f, kept)| == |KeySet(key, rows)| <= |rows|
  {
    var t := Select(f, kept);
    DeduplicatedCount(key, rows, kept);
    assert KeysUnique(g, t) by {
      forall i, j | 0 <= i < j < |t| ensures g(t[i]) != g(t[j]) {
        assert g(t[i]) == key(kept[i]) && g(t[j]) == key(kept[j]);
      }
    }
    SelectFromRows(f, rows, kept);
    SelectCoversKeys(key, f, g, rows, kept);
  }

  lemma SelectFromRows<T, U>(f: T -> U, rows: seq<T>, kept: seq<T>)
    requires forall x :: x in kept ==> x in rows
    ensures forall y :: y in Select(f, kept) ==> exists x :: x in rows && y == f(x)
  {
    var t := Select(f, kept);
    forall y | y in t ensures exists x :: x in rows && y == f(x) {
      var i :| 0 <= i < |t| && t[i] == y;
      assert kept[i] in kept;
    }
  }

  lemma SelectCoversKeys<T, K, U>(key: T -> K, f: T -> U, g: U -> K, rows: seq<T>, kept: seq<T>)
    requires KeySet(key, kept) == KeySet(key, rows)
    requires forall x :: g(f(x)) == key(x)
    ensures forall x :: x in rows ==> exists y :: y in Select(f, kept) && g(y) == key(x)
  {
    var t := Select(f, kept);
    forall x | x in rows ensures exists y :: y in t && g(y) == key(x) {
      assert key(x) in KeySet(key, rows);
      var z :| z in kept && key(z) == key(x);
      var i :| 0 <= i < |kept| && kept[i] == z;
      assert t[i] in t;
    }
  }

  /** The image of a set under a function. */
  ghost function Image<A, B>(f: A -> B, s: set<A>): set<B>
  {
    set x | x in s :: f(x)
  }

  /** An injective function preserves the size of a set. */
  lemma {:induction false} InjectiveImageSize<A, B>(f: A -> B, s: set<A>)
    requires forall x, y :: x in s && y in s && f(x) == f(y) ==> x == y
    ensures |Image(f, s)| == |s|
    decreases |s|
  {
    if s != {} {
      var x :| x in s;
      var rest := s - {x};
      InjectiveImageSize(f, rest);
      assert Image(f, s) == Image(f, rest) + {f(x)};
    }
  }

  // ---------------------------------------------------------------------
  // left outer join
  // ---------------------------------------------------------------------

  /** The right rows that the join condition `on` pairs with left row `l`,
      in their order. */
  function Matches<L(!new), R(!new)>(on: (L, R) -> bool, l: L, right: seq<R>): (ms: seq<R>)
    ensures |ms| <= |right|
    ensures forall x :: x in ms <==> x in right && on(l, x)
  {
    if right == [] then []
    else (if on(l, right[0]) then [right[0]] else []) + Matches(on, l, right[1..])
  }

  /** Two join conditions that agree on a left row select the same right
      rows for it. */
  lemma {:induction false} MatchesAgree<L1(!new), L2(!new), R(!new)>(on1: (L1, R) -> bool, l1: L1, on2: (L2, R) -> bool, l2: L2, right: seq<R>)
    requires forall x :: x in right ==> on1(l1, x) == on2(l2, x)
    ensures Matches(on1, l1, right) == Matches(on2, l2, right)
  {
    if right != [] {
      MatchesAgree(on1, l1, on2, l2, right[1..]);
    }
  }

  /** No right row satisfies the join condition with `l`. */
  ghost predicate NoMatch<L, R>(on: (L, R) -> bool, l: L, right: seq<R>)
  {
    forall x :: x in right ==> !on(l, x)
  }

  /** A left row without a match has no matching right rows. */
  lemma {:induction false} NoMatchNoMatches<L(!new), R(!new)>(on: (L, R) -> bool, l: L, right: seq<R>)
    requires NoMatch(on, l, right)
    ensures Matches(on, l, right) == []
  {
    if right != [] {
      assert right[0] in right;
      NoMatchNoMatches(on, l, right[1..]);
    }
  }

  /** The output of the join for one left row: one pair per matching right
      row, or the row alone, padded with null, when nothing matches. */
  function JoinRow<L(!new), R(!new)>(on: (L, R) -> bool, l: L, right: seq<R>): (r: seq<(L, Option<R>)>)
    ensures |r| == if Matches(on, l, right) == [] then 1 else |Matches(on, l, right)|
    ensures forall p :: p in r ==> p.0 == l
    ensures forall x :: (l, Some(x)) in r <==> x in right && on(l, x)
    ensures (l, None) in r <==> NoMatch(on, l, right)
  {
    var ms := Matches(on, l, right);
    if ms == [] then [(l, None)]
    else
      var r := Select((x: R) => (l, Some(x)), ms);
      assert forall p :: p in r ==> p.0 == l && p.1.Some? && p.1.value in ms;
      assert forall x :: x in ms ==> (l, Some(x)) in r by {
        forall x | x in ms ensures (l, Some(x)) in r {
          var i :| 0 <= i < |ms| && ms[i] == x;
          assert r[i] == (l, Some(x));
        }
      }
      assert ms[0] in ms;
      r
  }

  /** `left.join(right, on, 'left_outer')`: each left row in turn, paired
      with every right row satisfying the condition, or alone with null
      right-hand columns when no right row does. */
  function LeftOuterJoin<L(!new), R(!new)>(on: (L, R) -> bool, left: seq<L>, right: seq<R>): (r: seq<(L, Option<R>)>)
    ensures |r| >= |left|
  {
    if left == [] then []
    else JoinRow(on, left[0], right) + LeftOuterJoin(on, left[1..], right)
  }

  /** Every output row of the join carries a left row. */
  lemma {:induction false} LeftOuterJoinOrigin<L(!new), R(!new)>(on: (L, R) -> bool, left: seq<L>, right: seq<R>)
    ensures forall p :: p in LeftOuterJoin(on, left, right) ==> p.0 in left
  {
    if left != [] {
      var head := JoinRow(on, left[0], right);
      var tail := LeftOuterJoin(on, left[1..], right);
      LeftOuterJoinOrigin(on, left[1..], right);
      assert LeftOuterJoin(on, left, right) == head + tail;
      forall p: (L, Option<R>) | p in head + tail ensures p.0 in left {
        if p in tail {
          assert p.0 in left[1..];
        }
      }
    }
  }

  /** A left row is paired with a right row exactly when the join
      condition holds between them. */
  lemma {:induction false} LeftOuterJoinMatched<L(!new), R(!new)>(on: (L, R) -> bool, left: seq<L>, right: seq<R>, l: L, x: R)
    ensures (l, Some(x)) in LeftOuterJoin(on, left, right) <==> l in left && x in right && on(l, x)
  {
    if left != [] {
      var head := JoinRow(on, left[0], right);
      var tail := LeftOuterJoin(on, left[1..], right);
      LeftOuterJoinMatched(on, left[1..], right, l, x);
      assert LeftOuterJoin(on, left, right) == head + tail;
      assert l in left <==> l == left[0] || l in left[1..];
      assert (l, Some(x)) in head + tail <==> (l, Some(x)) in head || (l, Some(x)) in tail;
    }
  }

  /** A left row comes out alone, padded with null, exactly when it
      matches no right row. */
  lemma {:induction false} LeftOuterJoinUnmatched<L(!new), R(!new)>(on: (L, R) -> bool, left: seq<L>, right: seq<R>, l: L)
    ensures (l, None) in LeftOuterJoin(on, left, right) <==> l in left && NoMatch(on, l, right)
  {
    if left != [] {
      var head := JoinRow(on, left[0], right);
      var tail := LeftOuterJoin(on, left[1..], right);
      LeftOuterJoinUnmatched(on, left[1..], right, l);
      assert LeftOuterJoin(on, left, right) == head + tail;
      assert l in left <==> l == left[0] || l in left[1..];
      assert (l, None) in head + tail <==> (l, None) in head || (l, None) in tail;
    }
  }

  /** No left row is lost: each occurs in some output row. */
  lemma LeftOuterJoinKeepsLeft<L(!new), R(!new)>(on: (L, R) -> bool, left: seq<L>, right: seq<R>)
    ensures forall l :: l in left ==> exists p :: p in LeftOuterJoin(on, left, right) && p.0 == l
  {
    var r := LeftOuterJoin(on, left, right);
    forall l | l in left ensures exists p :: p in r && p.0 == l {
      if !NoMatch(on, l, right) {
        var x :| x in right && on(l, x);
        LeftOuterJoinMatched(on, left, right, l, x);
        assert (l, Some(x)) in r;
      } else {
        LeftOuterJoinUnmatched(on, left, right, l);
        assert (l, None) in r;
      }
    }
  }

  /** The join handles each left row on its own: joining a table split in
      two is joining each part and concatenating. */
  lemma {:induction false} LeftOuterJoinAppend<L(!new), R(!new)>(on: (L, R) -> bool, a: seq<L>, b: seq<L>, right: seq<R>)
    ensures LeftOuterJoin(on, a + b, right) == LeftOuterJoin(on, a, right) + LeftOuterJoin(on, b, right)
  {
    if a == [] {
      assert a + b == b;
    } else {
      var rest := a[1..];
      var head := JoinRow(on, a[0], right);
      assert (a + b)[1..] == rest + b;
      LeftOuterJoinAppend(on, rest, b, right);
      assert LeftOuterJoin(on, a + b, right) == head + LeftOuterJoin(on, rest + b, right);
      assert head + (LeftOuterJoin(on, rest, right) + LeftOuterJoin(on, b, right))
          == (head + LeftOuterJoin(on, rest, right)) + LeftOuterJoin(on, b, right);
    }
  }

  /** The number of output rows: each left row contributes its number of
      matches, and 1 when it has none. */
  function JoinSize<L(!new), R(!new)>(on: (L, R) -> bool, left: seq<L>, right: seq<R>): nat
  {
    if left == [] then 0
    else
      var m := |Matches(on, left[0], right)|;
      (if m == 0 then 1 else m) + JoinSize(on, left[1..], right)
  }

  lemma {:induction false} LeftOuterJoinSize<L(!new), R(!new)>(on: (L, R) -> bool, left: seq<L>, right: seq<R>)
    ensures |LeftOuterJoin(on, left, right)| == JoinSize(on, left, right)
    ensures (forall l :: l in left ==> |Matches(on, l, right)| <= 1) ==>
              |LeftOuterJoin(on, left, right)| == |left|
    ensures (exists l :: l in left && |Matches(on, l, right)| >= 2) ==>
              |LeftOuterJoin(on, left, right)| > |left|
  {
    if left != [] {
      LeftOuterJoinSize(on, left[1..], right);
      assert forall l :: l in left[1..] ==> l in left;
      assert forall l :: l in left ==> l == left[0] || l in left[1..];
    }
  }

  /** A left row without any match comes out exactly as often as it went
      in, each time with null right-hand columns. */
  lemma {:induction false} LeftOuterJoinMissMultiplicity<L(!new), R(!new)>(on: (L, R) -> bool, left: seq<L>, right: seq<R>, l: L)
    requires NoMatch(on, l, right)
    ensures multiset(LeftOuterJoin(on, left, right))[(l, None)] == multiset(left)[l]
  {
    if left != [] {
      LeftOuterJoinMissMultiplicity(on, left[1..], right, l);
      JoinCountStep(on, left, right, (l, None));
      LeftCountStep(left, l);
      JoinRowMissCount(on, left[0], right, l);
    }
  }

  /** The count of an output row is its count in the first left row's
      output plus its count in the rest of the join. */
  lemma JoinCountStep<L(!new), R(!new)>(on: (L, R) -> bool, left: seq<L>, right: seq<R>, p: (L, Option<R>))
    requires left != []
    ensures multiset(LeftOuterJoin(on, left, right))[p]
         == multiset(JoinRow(on, left[0], right))[p] + multiset(LeftOuterJoin(on, left[1..], right))[p]
  {
    var head := JoinRow(on, left[0], right);
    var tail := LeftOuterJoin(on, left[1..], right);
    assert LeftOuterJoin(on, left, right) == head + tail;
    assert multiset(head + tail) == multiset(head) + multiset(tail);
  }

  /** The count of `l` in a non-empty table, split at its first row. */
  lemma LeftCountStep<L>(left: seq<L>, l: L)
    requires left != []
    ensures multiset(left)[l] == (if left[0] == l then 1 else 0) + multiset(left[1..])[l]
  {
    assert left == [left[0]] + left[1..];
    assert multiset(left) == multiset([left[0]]) + multiset(left[1..]);
  }

  /** The join output of one left row holds the null-padded row of an
      unmatched `l` once if that left row is `l`, and otherwise not. */
  lemma JoinRowMissCount<L(!new), R(!new)>(on: (L, R) -> bool, l0: L, right: seq<R>, l: L)
    requires NoMatch(on, l, right)
    ensures multiset(JoinRow(on, l0, right))[(l, None)] == if l0 == l then 1 else 0
  {
    var head := JoinRow(on, l0, right);
    if l0 == l {
      assert head == [(l, None)];
    } else {
      assert (l, None) !in head;
    }
  }

  /** A right row satisfying the condition with `l` is matched as often
      as it occurs on the right. */
  lemma {:induction false} MatchesMultiplicity<L(!new), R(!new)>(on: (L, R) -> bool, l: L, right: seq<R>, x: R)
    requires on(l, x)
    ensures multiset(Matches(on, l, right))[x] == multiset(right)[x]
  {
    if right != [] {
      MatchesMultiplicity(on, l, right[1..], x);
      assert right == [right[0]] + right[1..];
    }
  }

  /** The join output of one left row holds the pair `(l, Some(x))`, for
      a matching `x`, as often as `x` occurs on the right if that left row
      is `l`, and otherwise not. */
  lemma JoinRowMatchCount<L(!new), R(!new)>(on: (L, R) -> bool, l0: L, right: seq<R>, l: L, x: R)
    requires on(l, x)
    ensures multiset(JoinRow(on, l0, right))[(l, Some(x))] == if l0 == l then multiset(right)[x] else 0
  {
    var head := JoinRow(on, l0, right);
    if l0 != l {
      assert (l, Some(x)) !in head;
    } else if x !in right {
      assert (l, Some(x)) !in head;
    } else {
      var ms := Matches(on, l, right);
      assert x in ms;
      var pair := (y: R) => (l, Some(y));
      assert forall i :: 0 <= i < |ms| ==> head[i] == pair(ms[i]);
      ProjectionMultiplicity(pair, ms, head, x);
      MatchesMultiplicity(on, l, right, x);
    }
  }

  /** The multiplicity of a pair after adding one left row: a count
      step in integers alone, kept apart from the sequences. */
  lemma ProductStep(total: int, n: int, a: int, b: int, c: int, h: int, t: int)
    requires a == 0 || a == 1
    requires h == if a == 1 then c else 0
    requires t == b * c
    requires total == h + t && n == a + b
    ensures total == n * c
  {
  }

  /** A matching pair `(l, Some(x))` comes out once for every occurrence
      of `l` on the left times every occurrence of `x` on the right: the
      join neither merges nor drops duplicate rows on either side. */
  lemma {:induction false} LeftOuterJoinMatchMultiplicity<L(!new), R(!new)>(on: (L, R) -> bool, left: seq<L>, right: seq<R>, l: L, x: R)
    requires on(l, x)
    ensures multiset(LeftOuterJoin(on, left, right))[(l, Some(x))] == multiset(left)[l] * multiset(right)[x]
  {
    if left != [] {
      LeftOuterJoinMatchMultiplicity(on, left[1..], right, l, x);
      JoinCountStep(on, left, right, (l, Some(x)));
      LeftCountStep(left, l);
      JoinRowMatchCount(on, left[0], right, l, x);
      var a := if left[0] == l then 1 else 0;
      ProductStep(multiset(LeftOuterJoin(on, left, right))[(l, Some(x))], multiset(left)[l],
        a, multiset(left[1..])[l], multiset(right)[x],
        if a == 1 then multiset(right)[x] else 0,
        multiset(LeftOuterJoin(on, left[1..], right))[(l, Some(x))]);
    }
  }
}
