/**
 * The fitness leaderboard of the evolution: a fixed-length array of network
 * references, best first, into which each new contender is inserted in place.
 * A missing reference (`null` in the source) is `None`; the networks
 * themselves are only read, through their fitness score.
 */
module Ranking {
  import opened Wrappers

  /**
   * The leaderboard invariant: the present entries form a prefix, and their
   * scores never increase from one slot to the next.
   */
  ghost predicate Ranked<T>(s: seq<Option<T>>, score: T -> real) {
    && (forall i, j :: 0 <= i < j < |s| && s[j].Some? ==> s[i].Some?)
    && (forall i, j :: 0 <= i < j < |s| && s[i].Some? && s[j].Some? ==> score(s[i].value) >= score(s[j].value))
  }

  /** Entry `e` is present and scores at least `bar`. */
  ghost predicate AtLeast<T>(e: Option<T>, score: T -> real, bar: real) {
    e.Some? && score(e.value) >= bar
  }

  /**
   * The slot the contender `c` takes: the number of leading entries that are
   * present and score at least as much as `c`.
   */
  ghost function Rank<T>(s: seq<Option<T>>, c: T, score: T -> real): (p: nat)
    ensures p <= |s|
    ensures forall k :: 0 <= k < p ==> AtLeast(s[k], score, score(c))
    ensures p < |s| ==> !AtLeast(s[p], score, score(c))
  {
    if s == [] || !AtLeast(s[0], score, score(c)) then 0
    else 1 + Rank(s[1..], c, score)
  }

  /** `c` inserted at slot `p` of the fixed-length `s`; whatever is pushed past the end is lost. */
  ghost function Inserted<T>(s: seq<Option<T>>, c: T, p: nat): (r: seq<Option<T>>)
    requires p <= |s|
    ensures |r| == |s|
    ensures forall k :: 0 <= k < p ==> r[k] == s[k]
    ensures p < |s| ==> r[p] == Some(c)
    ensures forall k :: p < k < |s| ==> r[k] == s[k - 1]
  {
    (s[..p] + [Some(c)] + s[p..])[..|s|]
  }

  /** Slot p is the first one that is empty or scores below `c`. */
  ghost predicate FirstBelow<T>(s: seq<Option<T>>, c: T, score: T -> real, p: nat) {
    p < |s| && !AtLeast(s[p], score, score(c)) && forall k :: 0 <= k < p ==> AtLeast(s[k], score, score(c))
  }

  /**
   * The leaderboard after contender `c` has competed: `c` inserted at its
   * rank. A leaderboard whose every slot scores at least `c` is unchanged.
   */
  ghost function Contend<T>(s: seq<Option<T>>, c: T, score: T -> real): (r: seq<Option<T>>)
    ensures |r| == |s|
    ensures (forall k :: 0 <= k < |s| ==> AtLeast(s[k], score, score(c))) ==> r == s
  {
    Inserted(s, c, Rank(s, c, score))
  }

  /**
   * Otherwise the contender takes the first slot that is empty or scores
   * below it, the entries before stay and the entries from there on move one
   * slot down, the last one dropping off.
   */
  lemma ContendFirstBelow<T>(s: seq<Option<T>>, c: T, score: T -> real, p: nat)
    requires FirstBelow(s, c, score, p)
    ensures forall k :: 0 <= k < |s| ==>
              Contend(s, c, score)[k] == if k < p then s[k] else if k == p then Some(c) else s[k - 1]
  {
    RankFirstBelow(s, c, score);
    assert Contend(s, c, score) == Inserted(s, c, p);
  }

  /** The rank is the first slot that is empty or scores below `c`, when there is one. */
  lemma RankFirstBelow<T>(s: seq<Option<T>>, c: T, score: T -> real)
    ensures forall p: nat :: FirstBelow(s, c, score, p) ==> Rank(s, c, score) == p
  {
  }

  /** In a ranked leaderboard the rank is the one slot whose predecessors all score at least `c` and whose successors all score less. */
  lemma RankIs<T>(s: seq<Option<T>>, c: T, score: T -> real, p: nat)
    requires Ranked(s, score) && p <= |s|
    requires p > 0 ==> AtLeast(s[p - 1], score, score(c))
    requires forall k :: p <= k < |s| ==> !AtLeast(s[k], score, score(c))
    ensures Rank(s, c, score) == p
  {
    forall k | 0 <= k < p ensures AtLeast(s[k], score, score(c)) {
      assert s[p - 1].Some?;
    }
  }

  /** Inserting keeps the leaderboard invariant. */
  lemma ContendRanked<T>(s: seq<Option<T>>, c: T, score: T -> real)
    requires Ranked(s, score)
    ensures Ranked(Contend(s, c, score), score)
  {
    var p := Rank(s, c, score);
    var r := Contend(s, c, score);
    forall i, j | 0 <= i < j < |r| && r[j].Some? ensures r[i].Some? {
      if j > p && i != p {
        assert r[j] == s[j - 1];
        assert r[i] == s[if i < p then i else i - 1];
      }
    }
    forall i, j | 0 <= i < j < |r| && r[i].Some? && r[j].Some?
      ensures score(r[i].value) >= score(r[j].value)
    {
      if j > p && i != p {
        assert r[j] == s[j - 1];
        assert r[i] == s[if i < p then i else i - 1];
      } else if j > p {
        assert r[j] == s[j - 1];
        assert !AtLeast(s[j - 1], score, score(c));
      }
    }
  }

  /** A full leaderboard whose last entry scores at least the contender is left unchanged. */
  lemma ContendUnchanged<T>(s: seq<Option<T>>, c: T, score: T -> real)
    requires Ranked(s, score) && |s| > 0 && AtLeast(s[|s| - 1], score, score(c))
    ensures Contend(s, c, score) == s
  {
    forall k | 0 <= k < |s| ensures AtLeast(s[k], score, score(c)) {
      if k < |s| - 1 {
        assert s[k].Some?;
      }
    }
    RankIs(s, c, score, |s|);
  }

  /**
   * Otherwise the contender takes its rank and every entry but the old last
   * one is kept: the new leaderboard is the old one without its last slot,
   * plus the contender.
   */
  lemma ContendEnters<T>(s: seq<Option<T>>, c: T, score: T -> real)
    requires Ranked(s, score) && |s| > 0 && !AtLeast(s[|s| - 1], score, score(c))
    ensures Rank(s, c, score) < |s|
    ensures Contend(s, c, score)[Rank(s, c, score)] == Some(c)
    ensures multiset(Contend(s, c, score)) == multiset(s[..|s| - 1]) + multiset{Some(c)}
  {
    var p := Rank(s, c, score);
    assert p < |s|;
    InsertedBefore(s, c, p);
    var head, tail := s[..p], s[p..|s| - 1];
    assert s[..|s| - 1] == head + tail;
    calc {
      multiset(Contend(s, c, score));
      multiset(head + [Some(c)] + tail);
      multiset(head) + multiset{Some(c)} + multiset(tail);
      multiset(head + tail) + multiset{Some(c)};
    }
  }

  /**
   * Ties never displace: every entry ahead of the contender scores at least
   * as much as it does, and every entry behind it scores less.
   */
  lemma ContendTies<T>(s: seq<Option<T>>, c: T, score: T -> real)
    requires Ranked(s, score)
    ensures forall k :: 0 <= k < Rank(s, c, score) ==> AtLeast(Contend(s, c, score)[k], score, score(c))
    ensures forall k :: Rank(s, c, score) < k < |s| && Contend(s, c, score)[k].Some? ==>
              score(Contend(s, c, score)[k].value) < score(c)
  {
    var p := Rank(s, c, score);
    forall k | p < k < |s| && Contend(s, c, score)[k].Some? ensures score(Contend(s, c, score)[k].value) < score(c) {
      assert Contend(s, c, score)[k] == s[k - 1];
      assert !AtLeast(s[k - 1], score, score(c)) by {
        if p < k - 1 {
          assert s[p].Some? && score(s[p].value) >= score(s[k - 1].value);
        }
      }
    }
  }

  /** One step down the leaderboard: the contender at slot i + 1 trades places with the entry at slot i. */
  lemma SwapDown<T>(s: seq<Option<T>>, x: Option<T>, i: nat, m: nat)
    requires i < m <= |s|
    ensures (s[..i + 1] + [x] + s[i + 1..m])[i := x][i + 1 := s[i]] == s[..i] + [x] + s[i..m]
  {
    var a := (s[..i + 1] + [x] + s[i + 1..m])[i := x][i + 1 := s[i]];
    var b := s[..i] + [x] + s[i..m];
    assert |a| == |b|;
    forall k | 0 <= k < |a| ensures a[k] == b[k] {
      if k > i + 1 {
        assert a[k] == s[k - 1];
      }
    }
  }

  /** Inserting before the last slot drops the last entry. */
  lemma InsertedBefore<T>(s: seq<Option<T>>, c: T, p: nat)
    requires p < |s|
    ensures Inserted(s, c, p) == s[..p] + [Some(c)] + s[p..|s| - 1]
  {
  }

  /**
   * Compares `fitnessContender` with the leaderboard and, when it does
   * better than an entry (or finds an empty slot), stores it at its rank,
   * moving the entries it passes one slot down. The last slot is settled
   * first; the scan then goes from the second-to-last slot towards the first
   * and stops at the first entry that scores at least the contender. The
   * array is changed in place and returned.
   */
  method RankFitnessContender<T>(fitnessRankings: array<Option<T>>, fitnessContender: T, score: T -> real)
    returns (rankings: array<Option<T>>)
    requires fitnessRankings.Length >= 1
    modifies fitnessRankings
    ensures rankings == fitnessRankings
    ensures Ranked(old(fitnessRankings[..]), score) ==>
              fitnessRankings[..] == Contend(old(fitnessRankings[..]), fitnessContender, score)
  {
    ghost var s := fitnessRankings[..];
    ghost var ranked := Ranked(s, score);
    var c := fitnessContender;
    var n := fitnessRankings.Length;
    var last := n - 1;
    ghost var placed := !AtLeast(s[last], score, score(c));

    if fitnessRankings[last].None? {
      fitnessRankings[last] := Some(c);
    } else if fitnessRankings[last].Some? && score(fitnessRankings[last].value) < score(c) {
      fitnessRankings[last] := Some(c);
    }
    assert placed ==> fitnessRankings[..] == s[..last] + [Some(c)] + s[last..last];

    ghost var pos := last;
    if n > 1 {
      var i := n - 2;
      while i >= 0
        invariant -1 <= i <= n - 2
        invariant ranked && !placed ==> fitnessRankings[..] == s && (i == n - 2 || i == -1)
        invariant ranked && placed ==> 0 <= pos <= last && fitnessRankings[..] == s[..pos] + [Some(c)] + s[pos..last]
        invariant ranked && placed ==> forall k :: pos <= k < n ==> !AtLeast(s[k], score, score(c))
        invariant ranked && placed ==> pos == i + 1 || (i == -1 && pos > 0 && AtLeast(s[pos - 1], score, score(c)))
        decreases i + 1
      {
        if fitnessRankings[i].None? {
          fitnessRankings[i] := Some(c);
          fitnessRankings[i + 1] := None;
          if ranked && placed {
            SwapDown(s, Some(c), i, last);
            pos := i;
          }
        } else if score(fitnessRankings[i].value) < score(c) {
          var stepDown := fitnessRankings[i];
          fitnessRankings[i] := Some(c);
          fitnessRankings[i + 1] := stepDown;
          if ranked && placed {
            SwapDown(s, Some(c), i, last);
            pos := i;
          }
        } else {
          i := 0;
        }
        i := i - 1;
      }
    }

    if ranked {
      if placed {
        RankIs(s, c, score, pos);
        InsertedBefore(s, c, pos);
      } else {
        ContendUnchanged(s, c, score);
      }
    }
    rankings := fitnessRankings;
  }
}
