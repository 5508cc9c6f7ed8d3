/**
 * `BlibArray::changes`: a one-directional structural diff between two nested
 * PHP arrays. It walks the old array (`before`) and keeps only the entries whose
 * value differs in the new one (`after`), recursing into sub-arrays; keys that
 * exist only in the new array are never reported.
 */
module BlibArray {
  import opened Wrappers
  import opened PhpArrays

  /**
   * A PHP value as the diff sees it: null, `false`, any other scalar, or a
   * nested array. `false` is kept apart from the other scalars because PHP
   * turns it into an array when the loop writes into it.
   */
  datatype Value<S> = Null | False | Scalar(s: S) | Node(children: seq<(string, Value<S>)>)

  /** A nested array: its entries in iteration order. */
  type Tree<S> = Entries<Value<S>>

  /** PHP's `==` between two values, supplied by the caller (`!=` is its negation). */
  type LooseEq<!S> = (Value<S>, Value<S>) -> bool

  /** What the loop reads as `$new[$k]`: the stored value, or null when `isset` fails. */
  function NewAt<S>(after: Tree<S>, k: string): Value<S> {
    match Lookup(after, k)
    case Some(v) => v
    case None => Null
  }

  /** `isset($new[$k])`: the key is present and its value is not null. */
  predicate IsSet<S>(after: Tree<S>, k: string) {
    Lookup(after, k).Some? && !Lookup(after, k).value.Null?
  }

  /**
   * The new side of a recursive call: a nested array; null or `false`, which
   * the loop's first write turns into an array holding only what it wrote.
   */
  function AsTree<S>(v: Value<S>): Tree<S> {
    if v.Node? then v.children else []
  }

  /** Every level of the tree holds each key once, as PHP arrays do. */
  predicate WellFormed<S>(t: Tree<S>)
    decreases Node(t)
  {
    && Distinct(Keys(t))
    && forall i | 0 <= i < |t| :: t[i].1.Node? ==> WellFormed(t[i].1.children)
  }

  /**
   * The inputs on which the source does not fail: wherever the old side holds a
   * non-empty sub-array, the new side holds a sub-array, null, `false` or
   * nothing, never another scalar (writing `$new[$k] = null` into `true`, a
   * number or a string is an error in PHP).
   */
  predicate Compatible<S>(before: Tree<S>, after: Tree<S>)
    decreases Node(before)
  {
    forall i | 0 <= i < |before| ::
      before[i].1.Node? && before[i].1.children != [] ==>
        && !NewAt(after, before[i].0).Scalar?
        && Compatible(before[i].1.children, AsTree(NewAt(after, before[i].0)))
  }

  /** What the loop body records for entry `i` of `before`, if anything. */
  function Change<S>(before: Tree<S>, i: nat, after: Tree<S>, looseEq: LooseEq<S>): Option<Value<S>>
    requires i < |before|
    decreases Node(before), i
  {
    var k := before[i].0;
    var nv := NewAt(after, k);
    match before[i].1
    case Node(c) =>
      assert before[i] in before;
      var child := DiffLevel(c, |c|, AsTree(nv), looseEq);
      if child != [] then Some(Node(child)) else None
    case _ =>
      if !looseEq(before[i].1, nv) then Some(nv) else None
  }

  /** The closure `$loop` after its `foreach` has visited the first `n` entries of `before`. */
  function DiffLevel<S>(before: Tree<S>, n: nat, after: Tree<S>, looseEq: LooseEq<S>): Tree<S>
    requires n <= |before|
    decreases Node(before), n
  {
    if n == 0 then []
    else
      var prev := DiffLevel(before, n - 1, after, looseEq);
      match Change(before, n - 1, after, looseEq)
      case Some(v) => prev + [(before[n - 1].0, v)]
      case None => prev
  }

  /** `changes($old, $new)`: nothing at all when either side is empty, otherwise the full diff. */
  function Diff<S>(before: Tree<S>, after: Tree<S>, looseEq: LooseEq<S>): (r: Tree<S>)
    requires Compatible(before, after)
    ensures before == [] || after == [] ==> r == []
    ensures before != [] && after != [] ==> r == DiffLevel(before, |before|, after, looseEq)
  {
    if |before| > 0 && |after| > 0 then DiffLevel(before, |before|, after, looseEq) else []
  }

  // ---------------------------------------------------------------------
  // The source's loop, as a method
  // ---------------------------------------------------------------------

  /** `cur` and `after` agree on every read of `$new[$k]`. */
  ghost predicate SameReads<S>(cur: Tree<S>, after: Tree<S>) {
    forall j :: NewAt(cur, j) == NewAt(after, j)
  }

  /** The `isset` guard: writing null under a key that is not set changes no read. */
  lemma IssetGuard<S>(cur: Tree<S>, after: Tree<S>, k: string)
    requires SameReads(cur, after) && !IsSet(cur, k)
    ensures SameReads(Assign(cur, k, Null), after)
  {
    forall j ensures NewAt(Assign(cur, k, Null), j) == NewAt(cur, j) {
      AssignLookup(cur, k, Null, j);
    }
  }

  /**
   * The closure `$loop`: one `foreach` over `before` that fills `final` in place
   * and calls itself on sub-arrays. It writes null under missing keys of its
   * own copy of `$new`, which changes nothing it later reads.
   */
  method Loop<S>(before: Tree<S>, after: Tree<S>, looseEq: LooseEq<S>) returns (final: Tree<S>)
    requires WellFormed(before)
    requires Compatible(before, after)
    ensures final == DiffLevel(before, |before|, after, looseEq)
    decreases Node(before), 1
  {
    var cur := after;
    final := [];
    assert DiffLevel(before, 0, after, looseEq) == [];
    var i := 0;
    while i < |before|
      invariant i <= |before|
      invariant final == DiffLevel(before, i, after, looseEq)
      invariant SameReads(cur, after)
    {
      cur, final := Visit(before, i, after, looseEq, cur, final);
      i := i + 1;
    }
  }

  /**
   * One pass of the `foreach` body, on entry `i` of `before`: the `isset`
   * guard on `$new[$k]` (`cur`), then the record of a changed scalar or of a
   * non-empty sub-array diff in `final`.
   */
  method Visit<S>(before: Tree<S>, i: nat, after: Tree<S>, looseEq: LooseEq<S>, cur0: Tree<S>, final0: Tree<S>)
    returns (cur: Tree<S>, final: Tree<S>)
    requires WellFormed(before)
    requires Compatible(before, after)
    requires i < |before|
    requires final0 == DiffLevel(before, i, after, looseEq)
    requires SameReads(cur0, after)
    ensures final == DiffLevel(before, i + 1, after, looseEq)
    ensures SameReads(cur, after)
    decreases Node(before), 0
  {
    cur, final := cur0, final0;
    var k := before[i].0;
    var v := before[i].1;
    if !IsSet(cur, k) {
      IssetGuard(cur, after, k);
      cur := Assign(cur, k, Null);
    }
    var nv := NewAt(cur, k);  // `$new[$k]`: after the guard the key is present
    assert nv == NewAt(after, k);
    if !v.Node? {
      StepScalar(before, i, after, looseEq);
    }
    if !v.Node? && !looseEq(v, nv) {
      final := Assign(final, k, nv);
    }
    if v.Node? {
      assert before[i] in before;
      var child := Loop(v.children, AsTree(nv), looseEq);
      StepNode(before, i, after, looseEq);
      if |child| > 0 {
        final := Assign(final, k, Node(child));
      }
    }
  }

  /** `changes` itself: the guard on both sides, then the closure. */
  method Changes<S>(before: Tree<S>, after: Tree<S>, looseEq: LooseEq<S>) returns (out: Tree<S>)
    requires WellFormed(before)
    requires Compatible(before, after)
    ensures out == Diff(before, after, looseEq)
  {
    out := [];
    if |before| > 0 {
      if |after| > 0 {
        out := Loop(before, after, looseEq);
        return;
      }
    }
  }

  // ---------------------------------------------------------------------
  // Keys of the result: from the old array, in its order, each at most once
  // ---------------------------------------------------------------------

  /** `a` is `b` with some elements left out, order kept. */
  predicate Subsequence(a: seq<string>, b: seq<string>)
    decreases |b|
  {
    || a == []
    || (b != [] && a[|a| - 1] == b[|b| - 1] && Subsequence(a[..|a| - 1], b[..|b| - 1]))
    || (b != [] && Subsequence(a, b[..|b| - 1]))
  }

  lemma {:induction false} SubsequenceMembers(a: seq<string>, b: seq<string>)
    requires Subsequence(a, b)
    ensures forall x :: x in a ==> x in b
    decreases |b|
  {
    if a != [] {
      if a[|a| - 1] == b[|b| - 1] && Subsequence(a[..|a| - 1], b[..|b| - 1]) {
        SubsequenceMembers(a[..|a| - 1], b[..|b| - 1]);
        assert a == a[..|a| - 1] + [a[|a| - 1]];
        assert b == b[..|b| - 1] + [b[|b| - 1]];
      } else {
        SubsequenceMembers(a, b[..|b| - 1]);
      }
    }
  }

  lemma {:induction false} SubsequenceDistinct(a: seq<string>, b: seq<string>)
    requires Subsequence(a, b) && Distinct(b)
    ensures Distinct(a)
    decreases |b|
  {
    if a != [] {
      var b' := b[..|b| - 1];
      if a[|a| - 1] == b[|b| - 1] && Subsequence(a[..|a| - 1], b') {
        var a' := a[..|a| - 1];
        SubsequenceDistinct(a', b');
        SubsequenceMembers(a', b');
        forall i | 0 <= i < |a'| ensures a'[i] != a[|a| - 1] {
          assert a'[i] in b';
        }
      } else {
        SubsequenceDistinct(a, b');
      }
    }
  }

  lemma {:induction false} DiffLevelKeys<S>(before: Tree<S>, n: nat, after: Tree<S>, looseEq: LooseEq<S>)
    requires n <= |before|
    ensures Subsequence(Keys(DiffLevel(before, n, after, looseEq)), Keys(before)[..n])
  {
    if n > 0 {
      DiffLevelKeys(before, n - 1, after, looseEq);
      var prev := DiffLevel(before, n - 1, after, looseEq);
      var a := Keys(DiffLevel(before, n, after, looseEq));
      var b := Keys(before)[..n];
      assert b[..n - 1] == Keys(before)[..n - 1];
      var ch := Change(before, n - 1, after, looseEq);
      if ch.Some? {
        KeysAppend(prev, (before[n - 1].0, ch.value));
        assert a == Keys(prev) + [before[n - 1].0];
        assert a[..|a| - 1] == Keys(prev);
        assert a[|a| - 1] == b[|b| - 1];
      } else {
        assert a == Keys(prev);
      }
    }
  }

  /** Before entry `i` is visited, its key is not yet in the result. */
  lemma NotYetRecorded<S>(before: Tree<S>, i: nat, after: Tree<S>, looseEq: LooseEq<S>)
    requires Distinct(Keys(before)) && i < |before|
    ensures before[i].0 !in Keys(DiffLevel(before, i, after, looseEq))
  {
    DiffLevelKeys(before, i, after, looseEq);
    SubsequenceMembers(Keys(DiffLevel(before, i, after, looseEq)), Keys(before)[..i]);
    assert forall j :: 0 <= j < i ==> Keys(before)[..i][j] != Keys(before)[i];
  }

  /** One iteration of the loop on a scalar or null entry. */
  lemma StepScalar<S>(before: Tree<S>, i: nat, after: Tree<S>, looseEq: LooseEq<S>)
    requires Distinct(Keys(before)) && i < |before| && !before[i].1.Node?
    ensures var prev := DiffLevel(before, i, after, looseEq);
      var nv := NewAt(after, before[i].0);
      DiffLevel(before, i + 1, after, looseEq)
        == if !looseEq(before[i].1, nv) then Assign(prev, before[i].0, nv) else prev
  {
    NotYetRecorded(before, i, after, looseEq);
  }

  /** One iteration of the loop on a sub-array entry. */
  lemma StepNode<S>(before: Tree<S>, i: nat, after: Tree<S>, looseEq: LooseEq<S>)
    requires Distinct(Keys(before)) && i < |before| && before[i].1.Node?
    ensures var prev := DiffLevel(before, i, after, looseEq);
      var c := before[i].1.children;
      var child := DiffLevel(c, |c|, AsTree(NewAt(after, before[i].0)), looseEq);
      DiffLevel(before, i + 1, after, looseEq)
        == if child != [] then Assign(prev, before[i].0, Node(child)) else prev
  {
    NotYetRecorded(before, i, after, looseEq);
  }

  /**
   * Every key of the result is a key of `before`; the result's keys are `before`'s
   * keys with some left out, in `before`'s order; and, as `before` holds each key
   * once, so does the result.
   */
  lemma DiffKeysFollowOld<S>(before: Tree<S>, after: Tree<S>, looseEq: LooseEq<S>)
    requires Compatible(before, after)
    ensures Subsequence(Keys(Diff(before, after, looseEq)), Keys(before))
    ensures forall k :: k in Keys(Diff(before, after, looseEq)) ==> k in Keys(before)
    ensures Distinct(Keys(before)) ==> Distinct(Keys(Diff(before, after, looseEq)))
  {
    var r := Diff(before, after, looseEq);
    if before != [] && after != [] {
      DiffLevelKeys(before, |before|, after, looseEq);
      assert Keys(before)[..|before|] == Keys(before);
    }
    SubsequenceMembers(Keys(r), Keys(before));
    if Distinct(Keys(before)) {
      SubsequenceDistinct(Keys(r), Keys(before));
    }
  }

  // ---------------------------------------------------------------------
  // Which keys are reported, and with what value
  // ---------------------------------------------------------------------

  /** Visiting entry `i` takes the diff from `i` to `n` entries: its change, if any, is appended. */
  lemma DiffLevelStep<S>(before: Tree<S>, i: nat, n: nat, after: Tree<S>, looseEq: LooseEq<S>)
    requires n == i + 1 <= |before|
    ensures var ch := Change(before, i, after, looseEq);
      DiffLevel(before, n, after, looseEq)
        == if ch.Some? then DiffLevel(before, i, after, looseEq) + [(before[i].0, ch.value)]
           else DiffLevel(before, i, after, looseEq)
  {
  }

  /** Visiting entry `i` records under its key exactly its change. */
  lemma LookupNewest<S>(before: Tree<S>, i: nat, n: nat, after: Tree<S>, looseEq: LooseEq<S>)
    requires Distinct(Keys(before)) && n == i + 1 <= |before|
    ensures Lookup(DiffLevel(before, n, after, looseEq), before[i].0) == Change(before, i, after, looseEq)
  {
    var key := before[i].0;
    NotYetRecorded(before, i, after, looseEq);
    DiffLevelStep(before, i, n, after, looseEq);
    LookupAppendOption(DiffLevel(before, i, after, looseEq), key, Change(before, i, after, looseEq), key);
  }

  /** Visiting entry `i` leaves the lookup of an earlier entry's key unchanged. */
  lemma LookupEarlier<S>(before: Tree<S>, i: nat, n: nat, after: Tree<S>, looseEq: LooseEq<S>, j: nat)
    requires Distinct(Keys(before)) && j < i && n == i + 1 <= |before|
    ensures Lookup(DiffLevel(before, n, after, looseEq), before[j].0)
      == Lookup(DiffLevel(before, i, after, looseEq), before[j].0)
  {
    var k := before[j].0;
    var key := before[i].0;
    assert k != key by {
      assert Keys(before)[j] != Keys(before)[i];
    }
    DiffLevelStep(before, i, n, after, looseEq);
    LookupAppendOption(DiffLevel(before, i, after, looseEq), key, Change(before, i, after, looseEq), k);
  }

  /** Once entry `j` has been visited, later visits leave the lookup of its key alone. */
  lemma {:induction false} LookupStable<S>(before: Tree<S>, n: nat, after: Tree<S>, looseEq: LooseEq<S>, j: nat)
    requires Distinct(Keys(before)) && j < n <= |before|
    ensures Lookup(DiffLevel(before, n, after, looseEq), before[j].0)
      == Lookup(DiffLevel(before, j + 1, after, looseEq), before[j].0)
    decreases n
  {
    var i := n - 1;
    if j < i {
      LookupEarlier(before, i, n, after, looseEq, j);
      LookupStable(before, i, after, looseEq, j);
    }
  }

  /** After `n` visits, the key of each visited entry holds that entry's change. */
  lemma DiffLevelLookup<S>(before: Tree<S>, n: nat, after: Tree<S>, looseEq: LooseEq<S>, j: nat)
    requires Distinct(Keys(before)) && j < n <= |before|
    ensures Lookup(DiffLevel(before, n, after, looseEq), before[j].0) == Change(before, j, after, looseEq)
  {
    LookupStable(before, n, after, looseEq, j);
    LookupNewest(before, j, j + 1, after, looseEq);
  }

  /** The full diff holds, under the key of entry `j`, what the loop records for it. */
  lemma DiffAt<S>(before: Tree<S>, after: Tree<S>, looseEq: LooseEq<S>, j: nat)
    requires Distinct(Keys(before)) && Compatible(before, after) && before != [] && after != []
    requires j < |before|
    ensures Lookup(Diff(before, after, looseEq), before[j].0) == Change(before, j, after, looseEq)
  {
    DiffLevelLookup(before, |before|, after, looseEq, j);
  }

  lemma ChangeScalar<S>(before: Tree<S>, j: nat, after: Tree<S>, looseEq: LooseEq<S>)
    requires j < |before| && !before[j].1.Node?
    ensures Change(before, j, after, looseEq)
      == if !looseEq(before[j].1, NewAt(after, before[j].0)) then Some(NewAt(after, before[j].0)) else None
  {
  }

  lemma ChangeNode<S>(before: Tree<S>, j: nat, after: Tree<S>, looseEq: LooseEq<S>)
    requires j < |before| && before[j].1.Node?
    ensures var child := DiffLevel(before[j].1.children, |before[j].1.children|, AsTree(NewAt(after, before[j].0)), looseEq);
      Change(before, j, after, looseEq) == if child != [] then Some(Node(child)) else None
  {
  }

  /**
   * The lines the loop records: for a scalar or null `$old[k]`, `k` is reported
   * exactly when `$old[k] != $new[k]` (a missing or null `$new[k]` read as null),
   * with `$new[k]` as its value; for a sub-array `$old[k]`, `k` is reported
   * exactly when the diff against `$new[k]` (null read as empty) is not empty,
   * with that diff as its value. No other key is reported.
   */
  lemma DiffEntries<S>(before: Tree<S>, after: Tree<S>, looseEq: LooseEq<S>)
    requires Distinct(Keys(before)) && Compatible(before, after) && before != [] && after != []
    ensures forall j | 0 <= j < |before| && !before[j].1.Node? ::
      Lookup(Diff(before, after, looseEq), before[j].0)
        == if !looseEq(before[j].1, NewAt(after, before[j].0)) then Some(NewAt(after, before[j].0)) else None
    ensures forall j | 0 <= j < |before| && before[j].1.Node? ::
      var child := DiffLevel(before[j].1.children, |before[j].1.children|, AsTree(NewAt(after, before[j].0)), looseEq);
      Lookup(Diff(before, after, looseEq), before[j].0) == if child != [] then Some(Node(child)) else None
    ensures forall k :: k !in Keys(before) ==> Lookup(Diff(before, after, looseEq), k) == None
  {
    forall j | 0 <= j < |before| && !before[j].1.Node?
      ensures Lookup(Diff(before, after, looseEq), before[j].0)
        == if !looseEq(before[j].1, NewAt(after, before[j].0)) then Some(NewAt(after, before[j].0)) else None
    {
      DiffAt(before, after, looseEq, j);
      ChangeScalar(before, j, after, looseEq);
    }
    forall j | 0 <= j < |before| && before[j].1.Node?
      ensures var child := DiffLevel(before[j].1.children, |before[j].1.children|, AsTree(NewAt(after, before[j].0)), looseEq);
        Lookup(Diff(before, after, looseEq), before[j].0) == if child != [] then Some(Node(child)) else None
    {
      DiffAt(before, after, looseEq, j);
      ChangeNode(before, j, after, looseEq);
    }
    DiffKeysFollowOld(before, after, looseEq);
  }


  // ---------------------------------------------------------------------
  // A missing sub-tree is diffed as empty
  // ---------------------------------------------------------------------

  /** Every leaf of `t` is null. */
  predicate AllLeavesNull<S>(t: Tree<S>)
    decreases Node(t)
  {
    forall i | 0 <= i < |t| :: t[i].1.Null? || (t[i].1.Node? && AllLeavesNull(t[i].1.children))
  }

  /**
   * Below the top level, a sub-tree missing from the new side (or null there)
   * is diffed as an empty array: every old leaf beneath it that is not loosely
   * equal to null is reported, and reported as null.
   */
  lemma {:induction false} MissingSubtreeReadsNull<S>(before: Tree<S>, n: nat, looseEq: LooseEq<S>)
    requires n <= |before|
    ensures AllLeavesNull(DiffLevel(before, n, [], looseEq))
    ensures forall j | 0 <= j < n && !before[j].1.Node? :: Change(before, j, [], looseEq) == if looseEq(before[j].1, Null) then None else Some(Null)
    decreases Node(before), n
  {
    if n > 0 {
      MissingSubtreeReadsNull(before, n - 1, looseEq);
      var prev := DiffLevel(before, n - 1, [], looseEq);
      match before[n - 1].1
      case Node(c) =>
        assert before[n - 1] in before;
        MissingSubtreeReadsNull(c, |c|, looseEq);
        var r := DiffLevel(before, n, [], looseEq);
        assert forall i | 0 <= i < |prev| :: r[i] == prev[i];
      case _ =>
        var r := DiffLevel(before, n, [], looseEq);
        assert forall i | 0 <= i < |prev| :: r[i] == prev[i];
    }
  }

  // ---------------------------------------------------------------------
  // A tree has no changes against itself
  // ---------------------------------------------------------------------

  lemma {:induction false} SelfCompatible<S>(a: Tree<S>)
    requires WellFormed(a)
    ensures Compatible(a, a)
    decreases Node(a)
  {
    forall i | 0 <= i < |a| && a[i].1.Node? && a[i].1.children != []
      ensures !NewAt(a, a[i].0).Scalar? && Compatible(a[i].1.children, AsTree(NewAt(a, a[i].0)))
    {
      LookupAt(a, i);
      assert a[i] in a;
      SelfCompatible(a[i].1.children);
    }
  }

  lemma {:induction false} SelfDiffLevel<S>(a: Tree<S>, n: nat, looseEq: LooseEq<S>)
    requires WellFormed(a) && n <= |a|
    requires forall v :: looseEq(v, v)
    ensures DiffLevel(a, n, a, looseEq) == []
    decreases Node(a), n
  {
    if n > 0 {
      SelfDiffLevel(a, n - 1, looseEq);
      LookupAt(a, n - 1);
      match a[n - 1].1
      case Node(c) =>
        assert a[n - 1] in a;
        SelfDiffLevel(c, |c|, looseEq);
      case _ =>
    }
  }

  /** `changes($a, $a)` is empty for every array, when `==` is reflexive. */
  lemma SelfDiff<S>(a: Tree<S>, looseEq: LooseEq<S>)
    requires WellFormed(a)
    requires forall v :: looseEq(v, v)
    ensures Compatible(a, a)
    ensures Diff(a, a, looseEq) == []
  {
    SelfCompatible(a);
    SelfDiffLevel(a, |a|, looseEq);
  }

  // ---------------------------------------------------------------------
  // A worked example
  // ---------------------------------------------------------------------

  /** The inner level: only `d` changed, from 3 to 4. */
  lemma NestedInner(eq: LooseEq<int>)
    requires forall x, y :: eq(x, y) <==> x == y
    ensures DiffLevel([("c", Scalar(2)), ("d", Scalar(3))], 2, [("c", Scalar(2)), ("d", Scalar(4))], eq) == [("d", Scalar(4))]
  {
    var innerAfter: Tree<int> := [("c", Scalar(2)), ("d", Scalar(4))];
    assert NewAt(innerAfter, "c") == Scalar(2);
    assert NewAt(innerAfter, "d") == Scalar(4);
  }

  /** The outer level: `a` is unchanged, and `b` reports the inner diff. */
  lemma NestedOuter(eq: LooseEq<int>)
    requires forall x, y :: eq(x, y) <==> x == y
    ensures
      var before: Tree<int> := [("a", Scalar(1)), ("b", Node([("c", Scalar(2)), ("d", Scalar(3))]))];
      var after: Tree<int> := [("a", Scalar(1)), ("b", Node([("c", Scalar(2)), ("d", Scalar(4))]))];
      DiffLevel(before, 2, after, eq) == [("b", Node([("d", Scalar(4))]))]
  {
    var after: Tree<int> := [("a", Scalar(1)), ("b", Node([("c", Scalar(2)), ("d", Scalar(4))]))];
    assert NewAt(after, "a") == Scalar(1);
    assert NewAt(after, "b") == Node([("c", Scalar(2)), ("d", Scalar(4))]);
    NestedInner(eq);
  }

  /** The example's new array holds a sub-array wherever the old one does. */
  lemma NestedCompatible()
    ensures
      var before: Tree<int> := [("a", Scalar(1)), ("b", Node([("c", Scalar(2)), ("d", Scalar(3))]))];
      var after: Tree<int> := [("a", Scalar(1)), ("b", Node([("c", Scalar(2)), ("d", Scalar(4))]))];
      Compatible(before, after)
  {
    var after: Tree<int> := [("a", Scalar(1)), ("b", Node([("c", Scalar(2)), ("d", Scalar(4))]))];
    assert NewAt(after, "b") == Node([("c", Scalar(2)), ("d", Scalar(4))]);
  }

  /**
   * `changes(['a' => 1, 'b' => ['c' => 2, 'd' => 3]], ['a' => 1, 'b' => ['c' => 2, 'd' => 4]])`
   * under strict equality reports only the changed leaf, under its path.
   */
  lemma NestedExample()
    ensures
      var before: Tree<int> := [("a", Scalar(1)), ("b", Node([("c", Scalar(2)), ("d", Scalar(3))]))];
      var after: Tree<int> := [("a", Scalar(1)), ("b", Node([("c", Scalar(2)), ("d", Scalar(4))]))];
      Compatible(before, after)
      && Diff(before, after, (x, y) => x == y) == [("b", Node([("d", Scalar(4))]))]
  {
    NestedCompatible();
    NestedOuter((x, y) => x == y);
  }
}
