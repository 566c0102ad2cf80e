/** Selection of the pair to merge in a training round: the comparator
    `Candidate::operator<` and the running maximum over the count table. */
module CandidateOrder {
  import opened PairCounts

  /** A pair with its count; the count -1 marks "no candidate yet". */
  datatype Candidate = Candidate(x: nat, y: nat, cnt: int)

  function Min(a: nat, b: nat): nat
  {
    if a <= b then a else b
  }

  function Max(a: nat, b: nat): nat
  {
    if a <= b then b else a
  }

  /** `a < b` in the trainer's comparator: a lower count ranks lower; on equal
      counts a larger max(x, y), then a larger min(x, y), then a smaller x. */
  predicate Less(a: Candidate, b: Candidate)
  {
    if a.cnt != b.cnt then a.cnt < b.cnt
    else if Max(a.x, a.y) != Max(b.x, b.y) then Max(a.x, a.y) > Max(b.x, b.y)
    else if Min(a.x, a.y) != Min(b.x, b.y) then Min(a.x, a.y) > Min(b.x, b.y)
    else a.x < b.x
  }

  /** The candidate built from a key of the count table. */
  function CandOf(cnt: map<Pair, nat>, p: Pair): Candidate
    requires p in cnt
  {
    Candidate(p.x, p.y, cnt[p])
  }

  /** `p` beats every other pair of the table. */
  ghost predicate IsBest(cnt: map<Pair, nat>, p: Pair)
  {
    p in cnt && forall q :: q in cnt && q != p ==> Less(CandOf(cnt, q), CandOf(cnt, p))
  }

  /** The comparator is a strict total order on candidates with distinct
      pairs: irreflexive, asymmetric, transitive, and any two candidates whose
      pairs differ are ordered one way or the other. */
  lemma StrictTotalOrder(a: Candidate, b: Candidate, c: Candidate)
    ensures !Less(a, a)
    ensures Less(a, b) ==> !Less(b, a)
    ensures Less(a, b) && Less(b, c) ==> Less(a, c)
    ensures Pair(a.x, a.y) != Pair(b.x, b.y) ==> Less(a, b) || Less(b, a)
  {
  }

  /** The maximum of the table restricted to `keys`, found by removing one key
      at a time. */
  ghost function MaxPair(cnt: map<Pair, nat>, keys: set<Pair>): (p: Pair)
    requires keys != {} && keys <= cnt.Keys
    ensures p in keys
    ensures forall q :: q in keys && q != p ==> Less(CandOf(cnt, q), CandOf(cnt, p))
    decreases keys
  {
    var k :| k in keys;
    if keys == {k} then k
    else
      var m := MaxPair(cnt, keys - {k});
      StrictTotalOrder(CandOf(cnt, k), CandOf(cnt, m), CandOf(cnt, k));
      if Less(CandOf(cnt, k), CandOf(cnt, m)) then m else k
  }

  /** The best pair is unique, so any order of visiting the table selects it. */
  lemma BestUnique(cnt: map<Pair, nat>, p: Pair, q: Pair)
    requires IsBest(cnt, p) && IsBest(cnt, q)
    ensures p == q
  {
    if p != q {
      StrictTotalOrder(CandOf(cnt, p), CandOf(cnt, q), CandOf(cnt, p));
    }
  }

  /** A non-empty table has a best pair, and it is MaxPair. */
  lemma BestIsMaxPair(cnt: map<Pair, nat>, p: Pair)
    requires cnt != map[]
    ensures IsBest(cnt, MaxPair(cnt, cnt.Keys))
    ensures IsBest(cnt, p) ==> p == MaxPair(cnt, cnt.Keys)
  {
    assert cnt.Keys != {} by {
      var k :| k in cnt;
    }
    if IsBest(cnt, p) {
      BestUnique(cnt, p, MaxPair(cnt, cnt.Keys));
    }
  }

  /** The selection loop: a running `best`, initially {0, 0, -1}, replaced by
      every candidate that beats it. The table is visited in any order. */
  method SelectBest(cnt: map<Pair, nat>) returns (best: Candidate)
    ensures best.cnt == -1 <==> cnt == map[]
    ensures best.cnt != -1 ==> IsBest(cnt, Pair(best.x, best.y)) && best.cnt == cnt[Pair(best.x, best.y)]
  {
    best := Candidate(0, 0, -1);
    var todo := cnt.Keys;
    while todo != {}
      invariant todo <= cnt.Keys
      invariant best.cnt == -1 <==> todo == cnt.Keys
      invariant best.cnt != -1 ==> Pair(best.x, best.y) in cnt && Pair(best.x, best.y) !in todo
      invariant best.cnt != -1 ==> best == CandOf(cnt, Pair(best.x, best.y))
      invariant best.cnt != -1 ==> forall q :: q in cnt && q !in todo && q != Pair(best.x, best.y) ==> Less(CandOf(cnt, q), best)
      decreases todo
    {
      var p :| p in todo;
      var cur := Candidate(p.x, p.y, cnt[p]);
      if Less(best, cur) {
        forall q | q in cnt && q !in todo && q != p
          ensures Less(CandOf(cnt, q), cur)
        {
          StrictTotalOrder(CandOf(cnt, q), best, cur);
        }
        best := cur;
      } else {
        StrictTotalOrder(cur, best, cur);
      }
      todo := todo - {p};
    }
    if cnt != map[] {
      var k :| k in cnt;
    }
  }
}
