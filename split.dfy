/** The string splitter of main2.cpp, `split(s, delimiter)`, and the search it is built on. */
module Split {
  import opened Base

  /** `d` occurs in `s` starting at position `k`. */
  predicate OccursAt(s: Bytes, d: Bytes, k: nat)
  {
    k + |d| <= |s| && s[k..k + |d|] == d
  }

  /** `d` occurs somewhere in `s`. */
  predicate Occurs(s: Bytes, d: Bytes)
  {
    exists k: nat :: k <= |s| && OccursAt(s, d, k)
  }

  /**
   * `s.find(d, from)`: the first position at or after `from` where `d` occurs, or None
   * (`npos`) when there is none. What the position means is stated by `FindFirst`.
   */
  function Find(s: Bytes, d: Bytes, from: nat): (r: Option<nat>)
    ensures r.Some? ==> from <= r.value && r.value + |d| <= |s|
    decreases |s| - from
  {
    if from + |d| > |s| then None
    else if s[from..from + |d|] == d then Some(from)
    else Find(s, d, from + 1)
  }

  /**
   * `find` reports an occurrence at or after `from` with none before it, and reports none only
   * when there is none at or after `from`.
   */
  lemma {:induction false} FindFirst(s: Bytes, d: Bytes, from: nat)
    ensures Find(s, d, from).Some? ==> OccursAt(s, d, Find(s, d, from).value)
    ensures Find(s, d, from).Some? ==> forall k: nat :: from <= k < Find(s, d, from).value ==> !OccursAt(s, d, k)
    ensures Find(s, d, from).None? ==> forall k: nat :: from <= k ==> !OccursAt(s, d, k)
    decreases |s| - from
  {
    if from + |d| <= |s| && s[from..from + |d|] != d {
      FindFirst(s, d, from + 1);
    }
  }

  /** The pieces of `pieces` with `d` between each two neighbours. */
  function Join(pieces: seq<Bytes>, d: Bytes): Bytes
    requires |pieces| > 0
  {
    if |pieces| == 1 then pieces[0] else Join(pieces[..|pieces| - 1], d) + d + pieces[|pieces| - 1]
  }

  /** Joining a piece in front of nonempty pieces puts the delimiter between it and their join. */
  lemma {:induction false} JoinCons(x: Bytes, rest: seq<Bytes>, d: Bytes)
    requires |rest| > 0
    ensures Join([x] + rest, d) == x + d + Join(rest, d)
    decreases |rest|
  {
    var n := |rest| - 1;
    assert ([x] + rest)[..|rest|] == [x] + rest[..n];
    if n == 0 {
      assert [x] + rest[..n] == [x];
    } else {
      JoinCons(x, rest[..n], d);
      var j := Join(rest[..n], d);
      assert (x + d + j) + d + rest[n] == x + d + (j + d + rest[n]);
    }
  }

  /** The rest of `s` from `start` is the text before an occurrence of `d`, `d`, and what follows. */
  lemma CutSlices(s: Bytes, d: Bytes, start: nat, at: nat)
    requires start <= at && OccursAt(s, d, at)
    ensures s[start..] == s[start..at] + d + s[at + |d|..]
  {
    assert s[start..] == s[start..at] + s[at..at + |d|] + s[at + |d|..];
  }

  /** A slice of `s` holding no occurrence of `d` that starts inside it does not contain `d`. */
  lemma SliceFree(s: Bytes, d: Bytes, lo: nat, hi: nat)
    requires |d| > 0 && lo <= hi <= |s|
    requires forall k: nat :: lo <= k < hi ==> !OccursAt(s, d, k)
    ensures !Occurs(s[lo..hi], d)
  {
    forall k: nat | k <= hi - lo
      ensures OccursAt(s[lo..hi], d, k) ==> OccursAt(s, d, lo + k) && lo + k < hi
    {
      if k + |d| <= hi - lo {
        var t := s[lo..hi];
        assert forall j :: k <= j < k + |d| ==> t[j] == s[lo + j];
        assert t[k..k + |d|] == s[lo + k..lo + k + |d|];
      }
    }
  }

  /**
   * An empty delimiter is found at once wherever the search starts, so `pos_start` never
   * advances: the loop of `split` does not terminate for an empty delimiter.
   */
  lemma EmptyDelimiterStalls(s: Bytes, from: nat)
    requires from <= |s|
    ensures Find(s, [], from) == Some(from)
  {
  }

  /**
   * The pieces `split` produces from position `start` on: the text up to the next occurrence of
   * `d` that `find` reports, then the pieces after that occurrence; or the rest of `s` when `find`
   * reports none.
   */
  function SplitFrom(s: Bytes, d: Bytes, start: nat): seq<Bytes>
    requires |d| > 0 && start <= |s|
    decreases |s| - start
  {
    var found := Find(s, d, start);
    if found.Some? then [s[start..found.value]] + SplitFrom(s, d, found.value + |d|) else [s[start..]]
  }

  /** Joining the pieces from `start` on with `d` gives back the rest of `s` from `start`. */
  lemma {:induction false} SplitFromJoin(s: Bytes, d: Bytes, start: nat)
    requires |d| > 0 && start <= |s|
    ensures Join(SplitFrom(s, d, start), d) == s[start..]
    decreases |s| - start
  {
    match Find(s, d, start)
    case Some(at) =>
      FindFirst(s, d, start);
      SplitFromJoin(s, d, at + |d|);
      JoinCons(s[start..at], SplitFrom(s, d, at + |d|), d);
      CutSlices(s, d, start, at);
    case None =>
  }

  /** No piece from `start` on contains `d`. */
  lemma {:induction false} SplitFromFree(s: Bytes, d: Bytes, start: nat)
    requires |d| > 0 && start <= |s|
    ensures forall i :: 0 <= i < |SplitFrom(s, d, start)| ==> !Occurs(SplitFrom(s, d, start)[i], d)
    decreases |s| - start
  {
    FindFirst(s, d, start);
    match Find(s, d, start)
    case Some(at) =>
      SplitFromFree(s, d, at + |d|);
      SliceFree(s, d, start, at);
    case None =>
      SliceFree(s, d, start, |s|);
      assert s[start..|s|] == s[start..];
  }

  /** Where `find` reports an occurrence, the first piece ends there and the rest follow it. */
  lemma SplitFromCut(s: Bytes, d: Bytes, done: seq<Bytes>, start: nat, at: nat)
    requires |d| > 0 && start <= |s| && Find(s, d, start) == Some(at)
    requires done + SplitFrom(s, d, start) == SplitFrom(s, d, 0)
    ensures (done + [s[start..at]]) + SplitFrom(s, d, at + |d|) == SplitFrom(s, d, 0)
  {
    assert SplitFrom(s, d, start) == [s[start..at]] + SplitFrom(s, d, at + |d|);
  }

  /** Where `find` reports none, the rest of `s` is the last piece. */
  lemma SplitFromLast(s: Bytes, d: Bytes, done: seq<Bytes>, start: nat)
    requires |d| > 0 && start <= |s| && Find(s, d, start) == None
    requires done + SplitFrom(s, d, start) == SplitFrom(s, d, 0)
    ensures done + [s[start..]] == SplitFrom(s, d, 0)
  {
  }

  /**
   * split: the pieces between successive leftmost occurrences of the delimiter, and the rest.
   * The result is exactly `SplitFrom(s, delimiter, 0)`: at least one piece, joining the pieces
   * with the delimiter gives `s` back, and no piece contains the delimiter.
   */
  method Split(s: Bytes, delimiter: Bytes) returns (res: seq<Bytes>)
    requires |delimiter| > 0
    ensures res == SplitFrom(s, delimiter, 0)
    ensures |res| >= 1
    ensures Join(res, delimiter) == s
    ensures forall i :: 0 <= i < |res| ==> !Occurs(res[i], delimiter)
  {
    var posStart: nat := 0;
    res := [];
    assert res + SplitFrom(s, delimiter, 0) == SplitFrom(s, delimiter, 0);
    var posEnd := Find(s, delimiter, posStart);
    while posEnd.Some?
      invariant posStart <= |s|
      invariant posEnd == Find(s, delimiter, posStart)
      invariant res + SplitFrom(s, delimiter, posStart) == SplitFrom(s, delimiter, 0)
      decreases |s| - posStart
    {
      var token := s[posStart..posEnd.value];
      SplitFromCut(s, delimiter, res, posStart, posEnd.value);
      posStart := posEnd.value + |delimiter|;
      res := res + [token];
      posEnd := Find(s, delimiter, posStart);
    }
    SplitFromLast(s, delimiter, res, posStart);
    res := res + [s[posStart..]];
    assert res == SplitFrom(s, delimiter, 0);
    SplitFromJoin(s, delimiter, 0);
    SplitFromFree(s, delimiter, 0);
    assert s[0..] == s;
  }
}
