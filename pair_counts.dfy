/** Pair counting of the reference trainer: one scan per word that counts the
    adjacent pair at each position, and steps over one position inside a run of
    three equal ids so that overlapping pairs of a run are not counted twice. */
module PairCounts {

  /** An ordered pair of adjacent symbol ids. */
  datatype Pair = Pair(x: nat, y: nat)

  /** Count of `p`, zero when absent (what `local_cnt[p]` reads). */
  function Get(cnt: map<Pair, nat>, p: Pair): nat
  {
    if p in cnt then cnt[p] else 0
  }

  /** `local_cnt[p]++`. */
  function Bump(cnt: map<Pair, nat>, p: Pair): map<Pair, nat>
  {
    cnt[p := Get(cnt, p) + 1]
  }

  /** Every key present in the table has a positive count. */
  predicate Positive(cnt: map<Pair, nat>)
  {
    forall p :: p in cnt ==> cnt[p] >= 1
  }

  /** The scan steps over the next position: three equal ids start the suffix. */
  predicate Skips(v: seq<nat>)
  {
    |v| >= 3 && v[0] == v[1] && v[0] == v[2]
  }

  /** The counting loop over one word, as a fold over its suffixes. */
  function ScanWord(v: seq<nat>, cnt: map<Pair, nat>): (r: map<Pair, nat>)
    ensures cnt.Keys <= r.Keys
    ensures Positive(cnt) ==> Positive(r)
    decreases |v|
  {
    if |v| < 2 then cnt
    else if Skips(v) then ScanWord(v[2..], Bump(cnt, Pair(v[0], v[1])))
    else ScanWord(v[1..], Bump(cnt, Pair(v[0], v[1])))
  }

  /** The counting loop over the remaining words of the corpus. */
  function CountFrom(words: seq<seq<nat>>, cnt: map<Pair, nat>): map<Pair, nat>
    decreases |words|
  {
    if words == [] then cnt else CountFrom(words[1..], ScanWord(words[0], cnt))
  }

  /** The table `local_cnt` of one training round. */
  function Counts(words: seq<seq<nat>>): map<Pair, nat>
  {
    CountFrom(words, map[])
  }

  /** How many times the scan of `v` counts the pair `p`. */
  function Occ(v: seq<nat>, p: Pair): nat
    decreases |v|
  {
    if |v| < 2 then 0
    else (if Pair(v[0], v[1]) == p then 1 else 0) + (if Skips(v) then Occ(v[2..], p) else Occ(v[1..], p))
  }

  /** How many times the scans of all words count `p`. */
  function OccAll(words: seq<seq<nat>>, p: Pair): nat
    decreases |words|
  {
    if words == [] then 0 else Occ(words[0], p) + OccAll(words[1..], p)
  }

  /** How many positions of `v` the scan counts at, whatever the pair. */
  function Visits(v: seq<nat>): nat
    decreases |v|
  {
    if |v| < 2 then 0 else 1 + (if Skips(v) then Visits(v[2..]) else Visits(v[1..]))
  }

  /** Sum of all counts in a table. */
  ghost function MapSum(m: map<Pair, nat>): nat
    decreases m.Keys
  {
    if m == map[] then 0
    else
      var p :| p in m;
      m[p] + MapSum(m - {p})
  }

  /** `k` copies of `a`. */
  function Rep(a: nat, k: nat): seq<nat>
  {
    seq(k, _ => a)
  }

  // ---------------------------------------------------------------------------
  // The counting method

  /** The counting loops of one round: every word, every position, with the
      manual `i++` that skips one position inside a run of three equal ids. */
  method CountPairs(coded: seq<seq<nat>>) returns (cnt: map<Pair, nat>)
    ensures cnt == Counts(coded)
    ensures forall p :: p in cnt ==> cnt[p] >= 1 && cnt[p] == OccAll(coded, p)
    ensures forall p :: p !in cnt ==> OccAll(coded, p) == 0
  {
    cnt := map[];
    for k := 0 to |coded|
      invariant CountFrom(coded[k..], cnt) == Counts(coded)
    {
      var v := coded[k];
      var i := 0;
      while i < |v| - 1
        invariant i <= |v|
        invariant CountFrom(coded[k + 1..], ScanWord(v[i..], cnt)) == Counts(coded)
      {
        ghost var rest := v[i..];
        cnt := Bump(cnt, Pair(v[i], v[i + 1]));
        if v[i] == v[i + 1] && i + 2 < |v| && v[i] == v[i + 2] {
          assert Skips(rest);
          assert rest[2..] == v[i + 2..];
          i := i + 1;
        } else {
          assert !Skips(rest);
          assert rest[1..] == v[i + 1..];
        }
        i := i + 1;
      }
      assert coded[k..][1..] == coded[k + 1..];
    }
    CountsMeaning(coded);
  }

  // ---------------------------------------------------------------------------
  // What a count means

  /** The table after scanning `v` adds to every pair exactly its `Occ`. */
  lemma {:induction false} ScanAdds(v: seq<nat>, cnt: map<Pair, nat>, p: Pair)
    ensures Get(ScanWord(v, cnt), p) == Get(cnt, p) + Occ(v, p)
    decreases |v|
  {
    if |v| >= 2 {
      if Skips(v) {
        ScanAdds(v[2..], Bump(cnt, Pair(v[0], v[1])), p);
      } else {
        ScanAdds(v[1..], Bump(cnt, Pair(v[0], v[1])), p);
      }
    }
  }

  lemma {:induction false} CountFromAdds(words: seq<seq<nat>>, cnt: map<Pair, nat>, p: Pair)
    ensures Get(CountFrom(words, cnt), p) == Get(cnt, p) + OccAll(words, p)
    decreases |words|
  {
    if words != [] {
      ScanAdds(words[0], cnt, p);
      CountFromAdds(words[1..], ScanWord(words[0], cnt), p);
    }
  }

  lemma {:induction false} CountFromPositive(words: seq<seq<nat>>, cnt: map<Pair, nat>)
    requires Positive(cnt)
    ensures Positive(CountFrom(words, cnt))
    decreases |words|
  {
    if words != [] {
      CountFromPositive(words[1..], ScanWord(words[0], cnt));
    }
  }

  /** The table holds exactly the pairs the scans count, each with its number
      of occurrences; no pair is present with count zero. */
  lemma CountsMeaning(words: seq<seq<nat>>)
    ensures Positive(Counts(words))
    ensures forall p :: Get(Counts(words), p) == OccAll(words, p)
    ensures forall p :: p in Counts(words) <==> OccAll(words, p) > 0
  {
    CountFromPositive(words, map[]);
    forall p ensures Get(Counts(words), p) == OccAll(words, p) {
      CountFromAdds(words, map[], p);
    }
  }

  /** A counted pair really occurs adjacently in the word. */
  lemma {:induction false} OccAdjacent(v: seq<nat>, p: Pair)
    requires Occ(v, p) > 0
    ensures exists i :: 0 <= i < |v| - 1 && v[i] == p.x && v[i + 1] == p.y
    decreases |v|
  {
    if Pair(v[0], v[1]) != p {
      var t := if Skips(v) then 2 else 1;
      OccAdjacent(v[t..], p);
      var i :| 0 <= i < |v[t..]| - 1 && v[t..][i] == p.x && v[t..][i + 1] == p.y;
      assert v[i + t] == p.x && v[i + t + 1] == p.y;
    }
  }

  /** No pair is counted in a corpus of words of at most one id, and some pair
      is counted as soon as one word has two ids. */
  lemma CountsEmpty(words: seq<seq<nat>>)
    ensures Counts(words) == map[] <==> forall k :: 0 <= k < |words| ==> |words[k]| <= 1
  {
    CountsMeaning(words);
    if exists k :: 0 <= k < |words| && |words[k]| > 1 {
      var k :| 0 <= k < |words| && |words[k]| > 1;
      var p := Pair(words[k][0], words[k][1]);
      OccAllAtLeast(words, k, p);
      assert p in Counts(words);
    } else {
      forall p ensures OccAll(words, p) == 0 {
        OccAllShort(words, p);
      }
      assert forall p :: p !in Counts(words);
    }
  }

  lemma {:induction false} OccAllAtLeast(words: seq<seq<nat>>, k: nat, p: Pair)
    requires k < |words|
    ensures OccAll(words, p) >= Occ(words[k], p)
    decreases k
  {
    if k > 0 {
      OccAllAtLeast(words[1..], k - 1, p);
    }
  }

  lemma {:induction false} OccAllWitness(words: seq<seq<nat>>, p: Pair) returns (k: nat)
    requires OccAll(words, p) > 0
    ensures k < |words| && Occ(words[k], p) > 0
    decreases |words|
  {
    if Occ(words[0], p) > 0 {
      k := 0;
    } else {
      var j := OccAllWitness(words[1..], p);
      k := j + 1;
    }
  }

  /** Every pair of the table stands next to each other in some word. */
  lemma CountedPairOccurs(words: seq<seq<nat>>, p: Pair)
    requires p in Counts(words)
    ensures exists k, i :: 0 <= k < |words| && 0 <= i < |words[k]| - 1 && words[k][i] == p.x && words[k][i + 1] == p.y
  {
    CountsMeaning(words);
    var k := OccAllWitness(words, p);
    OccAdjacent(words[k], p);
  }

  lemma {:induction false} OccAllShort(words: seq<seq<nat>>, p: Pair)
    requires forall k :: 0 <= k < |words| ==> |words[k]| <= 1
    ensures OccAll(words, p) == 0
    decreases |words|
  {
    if words != [] {
      OccAllShort(words[1..], p);
    }
  }

  // ---------------------------------------------------------------------------
  // How much one word contributes

  lemma {:induction false} MapSumRemove(m: map<Pair, nat>, q: Pair)
    requires q in m
    ensures MapSum(m) == m[q] + MapSum(m - {q})
    decreases m.Keys
  {
    var p :| p in m && MapSum(m) == m[p] + MapSum(m - {p});
    if p != q {
      MapSumRemove(m - {p}, q);
      MapSumRemove(m - {q}, p);
      assert m - {p} - {q} == m - {q} - {p};
    }
  }

  lemma MapSumBump(m: map<Pair, nat>, p: Pair)
    ensures MapSum(Bump(m, p)) == MapSum(m) + 1
  {
    var b := Bump(m, p);
    MapSumRemove(b, p);
    if p in m {
      MapSumRemove(m, p);
      assert b - {p} == m - {p};
    } else {
      assert b - {p} == m;
    }
  }

  /** Scanning a word adds exactly `Visits(v)` to the sum of the counts. */
  lemma {:induction false} ScanSum(v: seq<nat>, cnt: map<Pair, nat>)
    ensures MapSum(ScanWord(v, cnt)) == MapSum(cnt) + Visits(v)
    decreases |v|
  {
    if |v| >= 2 {
      MapSumBump(cnt, Pair(v[0], v[1]));
      if Skips(v) {
        ScanSum(v[2..], Bump(cnt, Pair(v[0], v[1])));
      } else {
        ScanSum(v[1..], Bump(cnt, Pair(v[0], v[1])));
      }
    }
  }

  lemma {:induction false} VisitsBound(v: seq<nat>)
    ensures |v| >= 1 ==> Visits(v) <= |v| - 1
    ensures |v| <= 1 ==> Visits(v) == 0
    decreases |v|
  {
    if |v| >= 2 {
      if Skips(v) { VisitsBound(v[2..]); } else { VisitsBound(v[1..]); }
    }
  }

  /** A word of n ids adds at most n - 1 to the counts of a round. */
  lemma WordContribution(v: seq<nat>, cnt: map<Pair, nat>)
    requires v != []
    ensures MapSum(ScanWord(v, cnt)) <= MapSum(cnt) + |v| - 1
  {
    ScanSum(v, cnt);
    VisitsBound(v);
  }

  // ---------------------------------------------------------------------------
  // Runs of equal ids

  /** Inside a run, a pair other than (a, a) is counted the same from the
      run's first and second position. */
  lemma {:induction false} RunShift(v: seq<nat>, p: Pair)
    requires |v| >= 2 && v[0] == v[1] && p != Pair(v[0], v[0])
    ensures Occ(v, p) == Occ(v[1..], p)
    decreases |v|
  {
    if Skips(v) {
      assert v[1..][1..] == v[2..];
      RunShift(v[1..], p);
    }
  }

  /** Appending a character different from the last one adds only the new
      boundary pair. */
  lemma {:induction false} OccSnoc(u: seq<nat>, c: nat, p: Pair)
    requires u != [] && u[|u| - 1] != c
    ensures Occ(u + [c], p) == Occ(u, p) + (if p == Pair(u[|u| - 1], c) then 1 else 0)
    decreases |u|
  {
    var s := u + [c];
    if |u| >= 2 {
      assert Skips(s) == Skips(u);
      if Skips(u) {
        assert s[2..] == u[2..] + [c];
        OccSnoc(u[2..], c, p);
      } else {
        assert s[1..] == u[1..] + [c];
        OccSnoc(u[1..], c, p);
      }
    }
  }

  /** The scan of `u + s` never steps over the boundary when the ids on both
      sides differ: it counts `u`'s pairs, the boundary pair, then `s`'s. */
  lemma {:induction false} OccBoundary(u: seq<nat>, s: seq<nat>, p: Pair)
    requires u != [] && s != [] && u[|u| - 1] != s[0]
    ensures Occ(u + s, p) == Occ(u + [s[0]], p) + Occ(s, p)
    decreases |u|
  {
    var us := u + s;
    var uc := u + [s[0]];
    if |u| == 1 {
      assert us[1..] == s;
      assert !Skips(us);
    } else {
      assert Skips(us) == Skips(uc);
      if Skips(us) {
        assert us[2..] == u[2..] + s && uc[2..] == u[2..] + [s[0]];
        OccBoundary(u[2..], s, p);
      } else {
        assert us[1..] == u[1..] + s && uc[1..] == u[1..] + [s[0]];
        OccBoundary(u[1..], s, p);
      }
    }
  }

  lemma {:induction false} RunOcc(a: nat, k: nat, w: seq<nat>)
    requires w == [] || w[0] != a
    ensures Occ(Rep(a, k) + w, Pair(a, a)) == k / 2 + Occ(w, Pair(a, a))
    decreases k
  {
    var s := Rep(a, k) + w;
    if k == 1 {
      assert s == [a] + w;
      assert !Skips(s);
      assert s[1..] == w;
    } else if k >= 2 {
      assert s[0] == a && s[1] == a;
      if k == 2 {
        assert !Skips(s);
        assert s[1..] == Rep(a, 1) + w;
        RunOcc(a, 1, w);
      } else {
        assert Skips(s);
        assert s[2..] == Rep(a, k - 2) + w;
        RunOcc(a, k - 2, w);
      }
    } else {
      assert s == w;
    }
  }

  /** A maximal run of k equal ids a contributes exactly k / 2 (rounded down)
      to the count of (a, a); in particular a run "aaa" counts (a, a) once. */
  lemma {:induction false} RunContribution(u: seq<nat>, a: nat, k: nat, w: seq<nat>)
    requires k >= 1
    requires u == [] || u[|u| - 1] != a
    requires w == [] || w[0] != a
    ensures Occ(u + Rep(a, k) + w, Pair(a, a)) == Occ(u, Pair(a, a)) + k / 2 + Occ(w, Pair(a, a))
  {
    var s := Rep(a, k) + w;
    var p := Pair(a, a);
    RunOcc(a, k, w);
    if u == [] {
      assert u + Rep(a, k) + w == s;
    } else {
      assert s[0] == a;
      assert u + Rep(a, k) + w == u + s;
      OccBoundary(u, s, p);
      OccSnoc(u, a, p);
      assert Occ(u + [a], p) == Occ(u, p);
    }
  }
}
