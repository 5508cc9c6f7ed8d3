/**
 * PHP's ordered arrays with string keys, as association lists.
 *
 * A PHP array remembers the order in which its keys were first written and
 * holds each key once. Reading `$a[$k]` finds the entry for `k`; writing
 * `$a[$k] = $v` replaces that entry's value where it stands, or appends a new
 * entry when `k` is not yet a key.
 */
module PhpArrays {
  import opened Wrappers

  type Entries<V> = seq<(string, V)>

  /** `array_keys`: the keys in iteration order. */
  function Keys<V>(t: Entries<V>): (ks: seq<string>)
    ensures |ks| == |t|
    ensures forall i :: 0 <= i < |t| ==> ks[i] == t[i].0
  {
    if t == [] then [] else [t[0].0] + Keys(t[1..])
  }

  /** No key occurs twice: the shape every PHP array has. */
  predicate Distinct(ks: seq<string>) {
    forall i, j :: 0 <= i < j < |ks| ==> ks[i] != ks[j]
  }

  /** `$t[$k]`: the value stored under `k`, if any (the first entry when keys repeat). */
  function Lookup<V>(t: Entries<V>, k: string): (r: Option<V>)
    ensures r.None? <==> k !in Keys(t)
    ensures r.Some? ==> (k, r.value) in t
  {
    if t == [] then None
    else if t[0].0 == k then Some(t[0].1)
    else Lookup(t[1..], k)
  }

  /** Every entry under `k` now holds `v`; the keys stay as they are. */
  function Overwrite<V>(t: Entries<V>, k: string, v: V): (r: Entries<V>)
    ensures |r| == |t| && Keys(r) == Keys(t)
    ensures forall i :: 0 <= i < |t| ==> r[i] == if t[i].0 == k then (k, v) else t[i]
  {
    if t == [] then []
    else [if t[0].0 == k then (k, v) else t[0]] + Overwrite(t[1..], k, v)
  }

  /** `$t[$k] = $v`: overwrite the value in place, or append a new entry. */
  function Assign<V>(t: Entries<V>, k: string, v: V): (r: Entries<V>)
    ensures Keys(r) == if k in Keys(t) then Keys(t) else Keys(t) + [k]
    ensures forall i :: 0 <= i < |t| ==> r[i] == if t[i].0 == k then (k, v) else t[i]
    ensures k !in Keys(t) ==> r == t + [(k, v)]
  {
    if k in Keys(t) then Overwrite(t, k, v)
    else
      KeysAppend(t, (k, v));
      t + [(k, v)]
  }

  /** Each key with a prefix put in front of it. */
  function Prefixed(p: string, ks: seq<string>): (r: seq<string>)
    ensures |r| == |ks|
    ensures forall i :: 0 <= i < |ks| ==> r[i] == p + ks[i]
  {
    if ks == [] then [] else [p + ks[0]] + Prefixed(p, ks[1..])
  }

  /**
   * A `foreach ($src as $key => $value) { $t[$p . $key] = $value; }` loop,
   * as a fold over `src` that adds its last entry last.
   */
  function AssignAll<V>(t: Entries<V>, p: string, src: Entries<V>): Entries<V>
  {
    if src == [] then t
    else
      var last := src[|src| - 1];
      Assign(AssignAll(t, p, src[..|src| - 1]), p + last.0, last.1)
  }

  /** The `foreach` loop itself, writing one entry of `src` per pass. */
  method AssignEach<V>(t: Entries<V>, p: string, src: Entries<V>) returns (r: Entries<V>)
    ensures r == AssignAll(t, p, src)
  {
    r := t;
    var i := 0;
    while i < |src|
      invariant i <= |src|
      invariant r == AssignAll(t, p, src[..i])
    {
      AssignAllStep(t, p, src, i);
      r := Assign(r, p + src[i].0, src[i].1);
      i := i + 1;
    }
    assert src[..|src|] == src;
  }

  /** The entries of `src` with each key prefixed by `p`, in order. */
  function PrefixEntries<V>(p: string, src: Entries<V>): (r: Entries<V>)
    ensures |r| == |src|
    ensures forall i :: 0 <= i < |src| ==> r[i] == (p + src[i].0, src[i].1)
    ensures Keys(r) == Prefixed(p, Keys(src))
  {
    if src == [] then [] else [(p + src[0].0, src[0].1)] + PrefixEntries(p, src[1..])
  }

  // ---------------------------------------------------------------------
  // Lemmas about keys, lookups and writes
  // ---------------------------------------------------------------------

  lemma {:induction false} KeysAppend<V>(t: Entries<V>, e: (string, V))
    ensures Keys(t + [e]) == Keys(t) + [e.0]
  {
    if t != [] {
      assert (t + [e])[1..] == t[1..] + [e];
      KeysAppend(t[1..], e);
    }
  }

  /** Appending an entry leaves lookups of the keys already present unchanged. */
  lemma {:induction false} LookupAppend<V>(t: Entries<V>, e: (string, V), k: string)
    ensures Lookup(t + [e], k) == if k in Keys(t) then Lookup(t, k) else if e.0 == k then Some(e.1) else None
  {
    if t != [] {
      assert (t + [e])[1..] == t[1..] + [e];
      LookupAppend(t[1..], e, k);
    }
  }

  /** Appending an entry only when there is one to append. */
  lemma LookupAppendOption<V>(t: Entries<V>, key: string, o: Option<V>, x: string)
    ensures Lookup(if o.Some? then t + [(key, o.value)] else t, x)
      == if x in Keys(t) then Lookup(t, x) else if x == key then o else None
  {
    if o.Some? {
      LookupAppend(t, (key, o.value), x);
    }
  }

  /** With distinct keys, looking up the key of entry `i` finds entry `i`. */
  lemma {:induction false} LookupAt<V>(t: Entries<V>, i: nat)
    requires Distinct(Keys(t))
    requires i < |t|
    ensures Lookup(t, t[i].0) == Some(t[i].1)
  {
    if i > 0 {
      assert Keys(t)[0] != Keys(t)[i];
      assert Keys(t[1..]) == Keys(t)[1..];
      assert t[1..][i - 1] == t[i];
      LookupAt(t[1..], i - 1);
    }
  }

  lemma {:induction false} OverwriteLookup<V>(t: Entries<V>, k: string, v: V, j: string)
    ensures Lookup(Overwrite(t, k, v), j) == if j == k && k in Keys(t) then Some(v) else Lookup(t, j)
  {
    if t != [] {
      OverwriteLookup(t[1..], k, v, j);
    }
  }

  /** After `$t[$k] = $v`, `k` holds `v` and every other key is as it was. */
  lemma AssignLookup<V>(t: Entries<V>, k: string, v: V, j: string)
    ensures Lookup(Assign(t, k, v), j) == if j == k then Some(v) else Lookup(t, j)
  {
    if k in Keys(t) {
      OverwriteLookup(t, k, v, j);
    } else {
      LookupAppend(t, (k, v), j);
    }
  }

  /** One more pass of the loop writes entry `i` of `src`. */
  lemma AssignAllStep<V>(t: Entries<V>, p: string, src: Entries<V>, i: nat)
    requires i < |src|
    ensures AssignAll(t, p, src[..i + 1]) == Assign(AssignAll(t, p, src[..i]), p + src[i].0, src[i].1)
  {
    assert src[..i + 1][..i] == src[..i];
  }

  lemma {:induction false} PrefixedAppend(p: string, ks: seq<string>, k: string)
    ensures Prefixed(p, ks + [k]) == Prefixed(p, ks) + [p + k]
  {
    if ks != [] {
      assert (ks + [k])[1..] == ks[1..] + [k];
      PrefixedAppend(p, ks[1..], k);
    }
  }

  lemma {:induction false} PrefixEntriesAppend<V>(p: string, src: Entries<V>, e: (string, V))
    ensures PrefixEntries(p, src + [e]) == PrefixEntries(p, src) + [(p + e.0, e.1)]
  {
    if src != [] {
      assert (src + [e])[1..] == src[1..] + [e];
      PrefixEntriesAppend(p, src[1..], e);
    }
  }

  /** A non-empty sequence is its entries but the last, then the last one. */
  lemma SplitLast<T>(s: seq<T>)
    requires s != []
    ensures s == s[..|s| - 1] + [s[|s| - 1]]
  {
  }

  /** The keys of `src` are those of its entries but the last, then the last one's key. */
  lemma KeysSplitLast<V>(src: Entries<V>)
    requires src != []
    ensures Keys(src) == Keys(src[..|src| - 1]) + [src[|src| - 1].0]
  {
    SplitLast(src);
    KeysAppend(src[..|src| - 1], src[|src| - 1]);
  }

  /** Writing under an existing or new key keeps the keys distinct. */
  lemma AssignDistinct<V>(t: Entries<V>, k: string, v: V)
    requires Distinct(Keys(t))
    ensures Distinct(Keys(Assign(t, k, v)))
  {
  }

  lemma {:induction false} AssignAllKeys<V>(t: Entries<V>, p: string, src: Entries<V>)
    ensures |Keys(AssignAll(t, p, src))| >= |t|
    ensures Keys(AssignAll(t, p, src))[..|t|] == Keys(t)
    ensures forall x :: x in Keys(AssignAll(t, p, src)) <==> x in Keys(t) || x in Prefixed(p, Keys(src))
    ensures Distinct(Keys(t)) ==> Distinct(Keys(AssignAll(t, p, src)))
  {
    if src != [] {
      var init := src[..|src| - 1];
      var last := src[|src| - 1];
      AssignAllKeys(t, p, init);
      KeysSplitLast(src);
      PrefixedAppend(p, Keys(init), last.0);
      var m := AssignAll(t, p, init);
      if Distinct(Keys(t)) {
        AssignDistinct(m, p + last.0, last.1);
      }
    }
  }

  /** `p + a == p + b` only when `a == b`. */
  lemma PrefixInjective(p: string, a: string, b: string)
    ensures p + a == p + b <==> a == b
  {
    if p + a == p + b {
      assert a == (p + a)[|p|..];
      assert b == (p + b)[|p|..];
    }
  }

  /**
   * After the loop, each prefixed key of `src` holds its value from `src`, and
   * every other key holds what it held before the loop.
   */
  lemma {:induction false} AssignAllLookup<V>(t: Entries<V>, p: string, src: Entries<V>, x: string)
    requires Distinct(Keys(src))
    ensures forall i :: 0 <= i < |src| && x == p + src[i].0 ==> Lookup(AssignAll(t, p, src), x) == Some(src[i].1)
    ensures x !in Prefixed(p, Keys(src)) ==> Lookup(AssignAll(t, p, src), x) == Lookup(t, x)
  {
    if src != [] {
      var init := src[..|src| - 1];
      var last := src[|src| - 1];
      KeysSplitLast(src);
      PrefixedAppend(p, Keys(init), last.0);
      AssignAllLookup(t, p, init, x);
      AssignLookup(AssignAll(t, p, init), p + last.0, last.1, x);
      forall i | 0 <= i < |src| && x == p + src[i].0
        ensures Lookup(AssignAll(t, p, src), x) == Some(src[i].1)
      {
        if i < |src| - 1 {
          assert init[i] == src[i];
          if x == p + last.0 {
            PrefixInjective(p, src[i].0, last.0);
          }
        }
      }
    }
  }

  /** A key not yet in `t` and not among `init`'s keys stays fresh once `init`'s prefixed entries follow `t`. */
  lemma FreshAfterPrefixed<V>(t: Entries<V>, p: string, init: Entries<V>, k: string)
    requires p + k !in Keys(t) && k !in Keys(init)
    ensures p + k !in Keys(t + PrefixEntries(p, init))
  {
    var m := PrefixEntries(p, init);
    forall i | 0 <= i < |t + m| ensures Keys(t + m)[i] != p + k {
      if i < |t| {
        assert (t + m)[i] == t[i] && Keys(t)[i] == t[i].0;
      } else {
        var j := i - |t|;
        assert (t + m)[i] == m[j] && Keys(init)[j] == init[j].0;
        PrefixInjective(p, init[j].0, k);
      }
    }
  }

  /**
   * When no prefixed key of `src` is already a key of `t` and the keys of
   * `src` are distinct, the loop only appends, in the order of `src`.
   */
  lemma {:induction false} AssignAllAppends<V>(t: Entries<V>, p: string, src: Entries<V>)
    requires Distinct(Keys(src))
    requires forall i :: 0 <= i < |src| ==> p + src[i].0 !in Keys(t)
    ensures AssignAll(t, p, src) == t + PrefixEntries(p, src)
  {
    if src != [] {
      var init := src[..|src| - 1];
      var last := src[|src| - 1];
      var m := PrefixEntries(p, init);
      var e := (p + last.0, last.1);
      assert Distinct(Keys(init)) && last.0 !in Keys(init) by {
        KeysSplitLast(src);
        assert forall i :: 0 <= i < |init| ==> Keys(init)[i] == Keys(src)[i];
        forall i | 0 <= i < |init| ensures Keys(init)[i] != last.0 {
          assert Keys(src)[i] != Keys(src)[|src| - 1];
        }
      }
      assert AssignAll(t, p, init) == t + m by {
        AssignAllAppends(t, p, init);
      }
      assert p + last.0 !in Keys(t + m) by {
        FreshAfterPrefixed(t, p, init, last.0);
      }
      assert PrefixEntries(p, src) == m + [e] by {
        SplitLast(src);
        PrefixEntriesAppend(p, init, last);
      }
      assert AssignAll(t, p, src) == Assign(AssignAll(t, p, init), e.0, e.1);
      assert Assign(t + m, e.0, e.1) == t + m + [e];
      AppendAssoc(t, m, [e]);
    }
  }

  lemma AppendAssoc<T>(a: seq<T>, b: seq<T>, c: seq<T>)
    ensures a + b + c == a + (b + c)
  {
  }

  /** Starting from an empty array, the loop over distinct keys only appends. */
  lemma AssignAllFresh<V>(p: string, src: Entries<V>)
    requires Distinct(Keys(src))
    ensures AssignAll([], p, src) == PrefixEntries(p, src)
  {
    AssignAllAppends([], p, src);
    assert [] + PrefixEntries(p, src) == PrefixEntries(p, src);
  }

  /** After the loop from an empty array, `p + c` holds what `c` held in `src`. */
  lemma PrefixedLookup<V>(p: string, src: Entries<V>, c: string)
    requires Distinct(Keys(src))
    ensures Lookup(AssignAll([], p, src), p + c) == Lookup(src, c)
  {
    AssignAllLookup([], p, src, p + c);
    if c in Keys(src) {
      var i :| 0 <= i < |src| && Keys(src)[i] == c;
      LookupAt(src, i);
    } else {
      forall i | 0 <= i < |src| ensures Prefixed(p, Keys(src))[i] != p + c {
        PrefixInjective(p, src[i].0, c);
      }
    }
  }
}
