/**
 * find_best_match: difflib.get_close_matches(query, questions, n=1, cutoff=0.6),
 * with the similarity measure left abstract. difflib's ratio is 2*M/T, where M
 * counts the characters in matching blocks and T = |a| + |b|, and is 1 when
 * T is 0; a similarity here returns the pair (M, T) so that every comparison
 * of ratios is a comparison of integer cross-products. `sim(query, c)` stands
 * for SequenceMatcher(None, c, query): get_close_matches sets the query as
 * the second sequence and each candidate as the first.
 */
module Matcher {
  import opened Wrappers

  /** The data SequenceMatcher.ratio() is computed from: M matched characters of T in all. */
  datatype Score = Score(matched: nat, total: nat)

  /** The ratio as a fraction Num/Den; two empty strings have ratio 1. */
  function Num(s: Score): nat {
    if s.total == 0 then 1 else 2 * s.matched
  }

  function Den(s: Score): (d: nat)
    ensures d > 0
  {
    if s.total == 0 then 1 else s.total
  }

  /** ratio(a) > ratio(b). */
  predicate Greater(a: Score, b: Score) {
    Num(a) * Den(b) > Num(b) * Den(a)
  }

  /** ratio(s) >= 0.6, the cutoff find_best_match passes to get_close_matches. */
  predicate ReachesCutoff(s: Score) {
    10 * Num(s) >= 6 * Den(s)
  }

  /**
   * What the model relies on of difflib's measure: T is the sum of the two
   * lengths, M fits in the shorter string, identical strings match fully,
   * and strings of equal length that match fully are identical.
   */
  ghost predicate WellFormed(sim: (string, string) -> Score) {
    forall a: string, b: string ::
      sim(a, b).total == |a| + |b| &&
      sim(a, b).matched <= |a| && sim(a, b).matched <= |b| &&
      (a == b ==> sim(a, b).matched == |a|) &&
      (sim(a, b).matched == |a| == |b| ==> a == b)
  }

  /** No candidate of `cs` scores strictly above `s` against `query`. */
  ghost predicate Dominates(sim: (string, string) -> Score, query: string, cs: seq<string>, s: Score) {
    forall c :: c in cs ==> !Greater(sim(query, c), s)
  }

  lemma MulMono(x: int, y: int, k: int)
    requires x <= y && k > 0
    ensures x * k <= y * k
  {
  }

  lemma MulCancel(x: int, y: int, k: int)
    requires x * k <= y * k && k > 0
    ensures x <= y
  {
    if x > y {
      MulMono(y + 1, x, k);
    }
  }

  lemma CrossTransitive(na: int, da: int, nb: int, db: int, nc: int, dc: int)
    requires da > 0 && db > 0 && dc > 0
    requires na * db <= nb * da && nb * dc <= nc * db
    ensures na * dc <= nc * da
  {
    MulMono(na * db, nb * da, dc);
    MulMono(nb * dc, nc * db, da);
    calc {
      (na * dc) * db;
    == { MulAssocSwap(na, db, dc); }
      na * db * dc;
    <= nb * da * dc;
    == { MulAssocSwap(nb, da, dc); }
      nb * dc * da;
    <= nc * db * da;
    == { MulAssocSwap(nc, db, da); }
      (nc * da) * db;
    }
    MulCancel(na * dc, nc * da, db);
  }

  lemma MulAssocSwap(x: int, y: int, z: int)
    ensures x * y * z == (x * z) * y
  {
  }

  /** Comparing ratios is transitive: ratio(a) <= ratio(b) <= ratio(c) gives ratio(a) <= ratio(c). */
  lemma AtMostTransitive(a: Score, b: Score, c: Score)
    requires !Greater(a, b) && !Greater(b, c)
    ensures !Greater(a, c)
  {
    CrossTransitive(Num(a), Den(a), Num(b), Den(b), Num(c), Den(c));
  }

  /** A score below the cutoff never beats one that reaches it. */
  lemma BelowCutoffLoses(a: Score, b: Score)
    requires !ReachesCutoff(a) && ReachesCutoff(b)
    ensures !Greater(a, b)
  {
    var na, da, nb, db := Num(a), Den(a), Num(b), Den(b);
    MulMono(10 * na, 6 * da, db);
    MulMono(6 * db, 10 * nb, da);
    assert 10 * na * db == (na * db) * 10;
    assert 10 * nb * da == (nb * da) * 10;
    MulCancel(na * db, nb * da, 10);
  }

  lemma DominatesRaise(sim: (string, string) -> Score, query: string, cs: seq<string>, s: Score, t: Score)
    requires Dominates(sim, query, cs, s) && !Greater(s, t)
    ensures Dominates(sim, query, cs, t)
  {
    forall c | c in cs ensures !Greater(sim(query, c), t) {
      AtMostTransitive(sim(query, c), s, t);
    }
  }

  lemma DominatesFromCutoff(sim: (string, string) -> Score, query: string, cs: seq<string>, t: Score)
    requires forall c :: c in cs ==> !ReachesCutoff(sim(query, c))
    requires ReachesCutoff(t)
    ensures Dominates(sim, query, cs, t)
  {
    forall c | c in cs ensures !Greater(sim(query, c), t) {
      BelowCutoffLoses(sim(query, c), t);
    }
  }

  /**
   * find_best_match: no match when no candidate reaches the cutoff (in
   * particular when there are no candidates); otherwise a candidate that
   * reaches it and that no other candidate beats. The body keeps the first
   * of equally good candidates; the contract leaves that choice open, as
   * difflib decides it internally.
   */
  function FindBestMatch(sim: (string, string) -> Score, query: string, candidates: seq<string>): (r: Option<string>)
    ensures r.None? <==> forall c :: c in candidates ==> !ReachesCutoff(sim(query, c))
    ensures r.Some? ==> r.value in candidates && ReachesCutoff(sim(query, r.value))
    ensures r.Some? ==> forall c :: c in candidates ==> !Greater(sim(query, c), sim(query, r.value))
    decreases |candidates|
  {
    if candidates == [] then None
    else
      var front := candidates[..|candidates| - 1];
      var last := candidates[|candidates| - 1];
      assert candidates == front + [last];
      var best := FindBestMatch(sim, query, front);
      if !ReachesCutoff(sim(query, last)) then
        if best.None? then best
        else BelowCutoffLoses(sim(query, last), sim(query, best.value)); best
      else if best.None? then
        DominatesFromCutoff(sim, query, front, sim(query, last));
        Some(last)
      else if Greater(sim(query, last), sim(query, best.value)) then
        DominatesRaise(sim, query, front, sim(query, best.value), sim(query, last));
        Some(last)
      else
        best
  }

  /** A query equal to one of the candidates is matched to itself: identical strings have ratio 1. */
  lemma ExactQueryMatches(sim: (string, string) -> Score, query: string, candidates: seq<string>)
    requires WellFormed(sim)
    requires query in candidates
    ensures FindBestMatch(sim, query, candidates) == Some(query)
  {
    var self := sim(query, query);
    assert Num(self) == Den(self);
    assert ReachesCutoff(self);
    var r := FindBestMatch(sim, query, candidates);
    var s := sim(query, r.value);
    assert !Greater(self, s);
    assert Den(self) * Den(s) <= Num(s) * Den(self);
    MulCancel(Den(s), Num(s), Den(self));
    assert Num(s) <= Den(s);
  }

  /** The empty question can only be the best match of the empty query. */
  lemma EmptyMatchNeedsEmptyQuery(sim: (string, string) -> Score, query: string, candidates: seq<string>)
    requires WellFormed(sim)
    requires FindBestMatch(sim, query, candidates) == Some("")
    ensures query == ""
  {
    var s := sim(query, "");
    assert s.matched == 0 && s.total == |query|;
    assert ReachesCutoff(s);
  }
}
