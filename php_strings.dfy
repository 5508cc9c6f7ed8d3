/**
 * The PHP string functions the SQL helpers rely on, on strings of characters:
 * `implode`, `explode` with a one-character delimiter, `substr` with a
 * non-negative start, `str_replace` of one character, `strpos` of one
 * character and `trim` with its default character list.
 */
module PhpStrings {
  import opened Wrappers

  /** `implode(sep, xs)`: the pieces with `sep` between neighbours. */
  function Join(sep: string, xs: seq<string>): string
    decreases |xs|
  {
    if |xs| == 0 then ""
    else if |xs| == 1 then xs[0]
    else xs[0] + sep + Join(sep, xs[1..])
  }

  /** `explode(c, s)`: the pieces of `s` between occurrences of `c`; never empty. */
  function Explode(c: char, s: string): (r: seq<string>)
    ensures |r| >= 1
    ensures forall i :: 0 <= i < |r| ==> c !in r[i]
  {
    if s == [] then [""]
    else
      var rest := Explode(c, s[1..]);
      if s[0] == c then [""] + rest
      else [[s[0]] + rest[0]] + rest[1..]
  }

  /** `substr(s, start)` with `start >= 0`: empty once `start` reaches the end. */
  function SubstrFrom(s: string, start: nat): (r: string)
    ensures start <= |s| ==> r == s[start..]
    ensures start >= |s| ==> r == ""
  {
    if start <= |s| then s[start..] else ""
  }

  /** `substr(s, 0, n)` with `n >= 0`: at most the first `n` characters. */
  function SubstrPrefix(s: string, n: nat): (r: string)
    ensures |r| == if n <= |s| then n else |s|
    ensures r == s[..|r|]
  {
    if n <= |s| then s[..n] else s
  }

  /** `str_replace(a, b, s)` for single characters `a` and `b`. */
  function ReplaceChar(s: string, a: char, b: char): (r: string)
    ensures |r| == |s|
    ensures forall i :: 0 <= i < |s| ==> r[i] == if s[i] == a then b else s[i]
  {
    if s == [] then []
    else [if s[0] == a then b else s[0]] + ReplaceChar(s[1..], a, b)
  }

  /** `strpos(s, c)`: the first position of `c` in `s`, or none (PHP's `false`). */
  function StrPos(s: string, c: char): (r: Option<nat>)
    ensures r.None? <==> c !in s
    ensures r.Some? ==> r.value < |s| && s[r.value] == c && c !in s[..r.value]
  {
    if s == [] then None
    else if s[0] == c then Some(0)
    else
      var r := StrPos(s[1..], c);
      if r.Some? then
        assert s[1..][..r.value] == s[1..r.value + 1];
        Some(r.value + 1)
      else None
  }

  /** The characters `trim` strips by default: " \t\n\r\0\x0B". */
  predicate IsTrimmed(ch: char) {
    ch == ' ' || ch == '\t' || ch == '\n' || ch == '\r' || ch == '\0' || ch as int == 0x0B
  }

  /** The number of trimmed characters at the start of `s`. */
  function TrimStart(s: string): (n: nat)
    ensures n <= |s|
    ensures forall k :: 0 <= k < n ==> IsTrimmed(s[k])
    ensures n < |s| ==> !IsTrimmed(s[n])
  {
    if s != [] && IsTrimmed(s[0]) then 1 + TrimStart(s[1..]) else 0
  }

  /**
   * Scanning back from `hi`, not below `lo`: the end of `s` once the trimmed
   * characters before `hi` are dropped.
   */
  function TrimEnd(s: string, lo: nat, hi: nat): (e: nat)
    requires lo <= hi <= |s|
    ensures lo <= e <= hi
    ensures forall k :: e <= k < hi ==> IsTrimmed(s[k])
    ensures e == lo || !IsTrimmed(s[e - 1])
    decreases hi
  {
    if hi > lo && IsTrimmed(s[hi - 1]) then TrimEnd(s, lo, hi - 1) else hi
  }

  /** `r` is the slice of `s` from `i`, with only trimmed characters around it. */
  predicate StripsTo(s: string, i: nat, r: string) {
    && i + |r| <= |s|
    && r == s[i..i + |r|]
    && (forall k :: 0 <= k < i ==> IsTrimmed(s[k]))
    && (forall k :: i + |r| <= k < |s| ==> IsTrimmed(s[k]))
  }

  /**
   * `trim(s)`: `s` without the trimmed characters at either end. The result is
   * a slice of `s`, only trimmed characters lie outside it, and it neither
   * starts nor ends with one.
   */
  function Trim(s: string): (r: string)
    ensures r == [] || (!IsTrimmed(r[0]) && !IsTrimmed(r[|r| - 1]))
    ensures exists i :: StripsTo(s, i, r)
  {
    var i := TrimStart(s);
    var e := TrimEnd(s, i, |s|);
    assert StripsTo(s, i, s[i..e]);
    s[i..e]
  }

  // ---------------------------------------------------------------------
  // implode and explode undo each other
  // ---------------------------------------------------------------------

  /** Joining the pieces of `explode` with the delimiter gives back the string. */
  lemma {:induction false} JoinExplode(c: char, s: string)
    ensures Join([c], Explode(c, s)) == s
  {
    if s != [] {
      var rest := Explode(c, s[1..]);
      JoinExplode(c, s[1..]);
      if s[0] != c && |rest| >= 2 {
        assert Join([c], rest) == rest[0] + [c] + Join([c], rest[1..]);
      }
    }
  }

  lemma {:induction false} ExplodeNoDelimiter(c: char, x: string)
    requires c !in x
    ensures Explode(c, x) == [x]
  {
    if x != [] {
      ExplodeNoDelimiter(c, x[1..]);
      assert [x[0]] + x[1..] == x;
    }
  }

  lemma {:induction false} ExplodeFirstPiece(c: char, x: string, y: string)
    requires c !in x
    ensures Explode(c, x + [c] + y) == [x] + Explode(c, y)
  {
    if x == [] {
      assert (x + [c] + y)[1..] == y;
    } else {
      assert (x + [c] + y)[1..] == x[1..] + [c] + y;
      assert (x + [c] + y)[0] == x[0];
      assert [x[0]] + x[1..] == x;
      ExplodeFirstPiece(c, x[1..], y);
    }
  }

  /** Exploding a join of delimiter-free pieces gives back the pieces. */
  lemma {:induction false} ExplodeJoin(c: char, xs: seq<string>)
    requires |xs| >= 1
    requires forall i :: 0 <= i < |xs| ==> c !in xs[i]
    ensures Explode(c, Join([c], xs)) == xs
  {
    if |xs| == 1 {
      ExplodeNoDelimiter(c, xs[0]);
    } else {
      ExplodeFirstPiece(c, xs[0], Join([c], xs[1..]));
      ExplodeJoin(c, xs[1..]);
    }
  }

  // ---------------------------------------------------------------------
  // Facts about trim
  // ---------------------------------------------------------------------

  /** A string that neither starts nor ends with a trimmed character is its own trim. */
  lemma TrimUntrimmed(s: string)
    requires s == [] || (!IsTrimmed(s[0]) && !IsTrimmed(s[|s| - 1]))
    ensures Trim(s) == s
  {
  }

  /** `trim` keeps only characters of its argument. */
  lemma TrimChars(s: string)
    ensures forall ch :: ch in Trim(s) ==> ch in s
  {
    var r := Trim(s);
    var i: nat :| StripsTo(s, i, r);
    assert r == s[i..i + |r|];
    forall ch | ch in r ensures ch in s {
      var k :| 0 <= k < |r| && r[k] == ch;
      assert s[i..i + |r|][k] == s[i + k];
    }
  }
}
