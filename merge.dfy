/** The rewrite of a rule (x, y -> z) over a word: one left-to-right pass that
    replaces an adjacent x, y by z and moves past the replacement. The trainer
    runs it on id words, the encoder on node words (see Encoder). */
module Merging {
  import opened PairCounts

  /** The word after one rewrite pass of (x, y -> z). */
  function Merge(v: seq<nat>, x: nat, y: nat, z: nat): seq<nat>
    decreases |v|
  {
    if |v| < 2 then v
    else if v[0] == x && v[1] == y then [z] + Merge(v[2..], x, y, z)
    else [v[0]] + Merge(v[1..], x, y, z)
  }

  /** `x` is immediately followed by `y` somewhere in `v`. */
  predicate HasPair(v: seq<nat>, x: nat, y: nat)
  {
    exists i :: 0 <= i < |v| - 1 && v[i] == x && v[i + 1] == y
  }

  /** Every z expanded back into x, y. */
  function Unmerge(v: seq<nat>, x: nat, y: nat, z: nat): seq<nat>
    decreases |v|
  {
    if v == [] then [] else (if v[0] == z then [x, y] else [v[0]]) + Unmerge(v[1..], x, y, z)
  }

  /** The recipe of an id: the alphabet ids it stands for (empty if unknown). */
  function RecipeOf(recipe: map<nat, seq<nat>>, id: nat): seq<nat>
  {
    if id in recipe then recipe[id] else []
  }

  /** Concatenation of the recipes of the ids of a word. */
  function Flatten(v: seq<nat>, recipe: map<nat, seq<nat>>): seq<nat>
    decreases |v|
  {
    if v == [] then [] else RecipeOf(recipe, v[0]) + Flatten(v[1..], recipe)
  }

  /** Every word of the corpus rewritten by (x, y -> z). */
  function MergeCorpus(ws: seq<seq<nat>>, x: nat, y: nat, z: nat): seq<seq<nat>>
  {
    seq(|ws|, k requires 0 <= k < |ws| => Merge(ws[k], x, y, z))
  }

  /** Number of ids in the corpus. */
  function TotalLength(ws: seq<seq<nat>>): nat
    decreases |ws|
  {
    if ws == [] then 0 else |ws[0]| + TotalLength(ws[1..])
  }

  // ---------------------------------------------------------------------------
  // The rewrite loops

  /** `for i: if v[i] == x && v[i+1] == y { v[i] = z; v.erase(i+1) }`. */
  method MergeWord(v0: seq<nat>, x: nat, y: nat, z: nat) returns (v: seq<nat>)
    ensures v == Merge(v0, x, y, z)
    ensures |v| == |v0| - Occ(v0, Pair(x, y))
    ensures z != x && z != y ==> !HasPair(v, x, y)
  {
    v := v0;
    var i := 0;
    while i < |v| - 1
      invariant i <= |v|
      invariant v[..i] + Merge(v[i..], x, y, z) == Merge(v0, x, y, z)
    {
      if v[i] == x && v[i + 1] == y {
        ghost var before := v;
        v := v[i := z];
        v := v[..i + 1] + v[i + 2..];
        MergeSplice(before, i, x, y, z);
      } else {
        MergePass(v, i, x, y, z);
      }
      i := i + 1;
    }
    assert v[..i] + v[i..] == v;
    MergeLength(v0, x, y, z);
    if z != x && z != y {
      MergeRemovesPair(v0, x, y, z);
    }
  }

  /** Replacing the pair at i by z, in place, leaves the pass unchanged. */
  lemma MergeSplice(v: seq<nat>, i: nat, x: nat, y: nat, z: nat)
    requires i + 1 < |v| && v[i] == x && v[i + 1] == y
    ensures var w := v[i := z][..i + 1] + v[i := z][i + 2..];
            w[..i + 1] + Merge(w[i + 1..], x, y, z) == v[..i] + Merge(v[i..], x, y, z)
  {
    var w := v[i := z][..i + 1] + v[i := z][i + 2..];
    assert v[i..][2..] == v[i + 2..];
    assert Merge(v[i..], x, y, z) == [z] + Merge(v[i + 2..], x, y, z);
    assert w[..i + 1] == v[..i] + [z];
    assert w[i + 1..] == v[i + 2..];
  }

  /** An id that does not start the pair is kept by the pass. */
  lemma MergePass(v: seq<nat>, i: nat, x: nat, y: nat, z: nat)
    requires i + 1 < |v| && !(v[i] == x && v[i + 1] == y)
    ensures v[..i + 1] + Merge(v[i + 1..], x, y, z) == v[..i] + Merge(v[i..], x, y, z)
  {
    assert v[i..][1..] == v[i + 1..];
    assert Merge(v[i..], x, y, z) == [v[i]] + Merge(v[i + 1..], x, y, z);
    assert v[..i + 1] == v[..i] + [v[i]];
  }

  /** `for (auto &v: coded)`: every word rewritten in turn. */
  method RewriteCorpus(coded: seq<seq<nat>>, x: nat, y: nat, z: nat) returns (out: seq<seq<nat>>)
    ensures out == MergeCorpus(coded, x, y, z)
    ensures TotalLength(out) == TotalLength(coded) - Get(Counts(coded), Pair(x, y))
  {
    out := coded;
    for k := 0 to |out|
      invariant |out| == |coded|
      invariant forall j :: 0 <= j < k ==> out[j] == Merge(coded[j], x, y, z)
      invariant forall j :: k <= j < |out| ==> out[j] == coded[j]
    {
      var w := MergeWord(out[k], x, y, z);
      out := out[k := w];
    }
    CorpusShrinksByCount(coded, x, y, z);
  }

  // ---------------------------------------------------------------------------
  // Properties of one rewrite

  /** A word shrinks by exactly the number of times the counting scan counts
      (x, y) in it: the count of a pair is the number of replacements. */
  lemma {:induction false} MergeLength(v: seq<nat>, x: nat, y: nat, z: nat)
    ensures |Merge(v, x, y, z)| == |v| - Occ(v, Pair(x, y))
    ensures Occ(v, Pair(x, y)) <= |v|
    decreases |v|
  {
    var p := Pair(x, y);
    if |v| >= 2 {
      if v[0] == x && v[1] == y {
        MergeLength(v[2..], x, y, z);
        if !Skips(v) && |v| >= 3 {
          var w := v[1..];
          assert w[0] == y && w[1] == v[2];
          assert Pair(w[0], w[1]) != p;
          if Skips(w) {
            assert w[2..] == v[3..];
            assert v[2..][1..] == v[3..];
            RunShift(v[2..], p);
          } else {
            assert w[1..] == v[2..];
          }
        }
      } else {
        MergeLength(v[1..], x, y, z);
        if Skips(v) {
          assert v[1..][1..] == v[2..];
          RunShift(v[1..], p);
        }
      }
    }
  }

  lemma MergeHead(v: seq<nat>, x: nat, y: nat, z: nat)
    requires |v| >= 1
    ensures |Merge(v, x, y, z)| >= 1
    ensures Merge(v, x, y, z)[0] == if |v| >= 2 && v[0] == x && v[1] == y then z else v[0]
  {
  }

  /** After the pass no x is immediately followed by y, provided z is
      neither x nor y (the trainer's z is a fresh id). */
  lemma {:induction false} MergeRemovesPair(v: seq<nat>, x: nat, y: nat, z: nat)
    requires z != x && z != y
    ensures !HasPair(Merge(v, x, y, z), x, y)
    decreases |v|
  {
    var m := Merge(v, x, y, z);
    if |v| >= 2 {
      var t := if v[0] == x && v[1] == y then 2 else 1;
      var rest := Merge(v[t..], x, y, z);
      MergeRemovesPair(v[t..], x, y, z);
      assert m == [m[0]] + rest;
      if |v[t..]| >= 1 {
        MergeHead(v[t..], x, y, z);
        assert !(m[0] == x && rest[0] == y);
      }
      forall i | 0 <= i < |m| - 1 ensures !(m[i] == x && m[i + 1] == y) {
        if i > 0 {
          assert m[i] == rest[i - 1] && m[i + 1] == rest[i];
        }
      }
    }
  }

  /** A word without x followed by y is left as it is. */
  lemma {:induction false} MergeNoPair(v: seq<nat>, x: nat, y: nat, z: nat)
    requires !HasPair(v, x, y)
    ensures Merge(v, x, y, z) == v
    decreases |v|
  {
    if |v| >= 2 {
      assert !(v[0] == x && v[1] == y);
      assert !HasPair(v[1..], x, y) by {
        forall i | 0 <= i < |v[1..]| - 1 ensures !(v[1..][i] == x && v[1..][i + 1] == y) {
          assert v[1..][i] == v[i + 1] && v[1..][i + 1] == v[i + 2];
        }
      }
      MergeNoPair(v[1..], x, y, z);
      assert v == [v[0]] + v[1..];
    }
  }

  /** The pass never creates a pair a, b that does not involve z. */
  lemma {:induction false} MergeKeepsNoPair(v: seq<nat>, x: nat, y: nat, z: nat, a: nat, b: nat)
    requires !HasPair(v, a, b)
    requires z != a && z != b
    ensures !HasPair(Merge(v, x, y, z), a, b)
    decreases |v|
  {
    var m := Merge(v, x, y, z);
    if |v| >= 2 {
      var t := if v[0] == x && v[1] == y then 2 else 1;
      var rest := Merge(v[t..], x, y, z);
      assert !HasPair(v[t..], a, b) by {
        forall i | 0 <= i < |v[t..]| - 1 ensures !(v[t..][i] == a && v[t..][i + 1] == b) {
          assert v[t..][i] == v[i + t] && v[t..][i + 1] == v[i + t + 1];
        }
      }
      MergeKeepsNoPair(v[t..], x, y, z, a, b);
      assert m == [m[0]] + rest;
      if |v[t..]| >= 1 {
        MergeHead(v[t..], x, y, z);
        if t == 1 {
          assert !(v[0] == a && v[1] == b);
        }
        assert !(m[0] == a && rest[0] == b);
      }
      forall i | 0 <= i < |m| - 1 ensures !(m[i] == a && m[i + 1] == b) {
        if i > 0 {
          assert m[i] == rest[i - 1] && m[i + 1] == rest[i];
        }
      }
    }
  }

  /** The rewritten word holds only z and ids of the original word. */
  lemma {:induction false} MergeIds(v: seq<nat>, x: nat, y: nat, z: nat)
    ensures forall j :: 0 <= j < |Merge(v, x, y, z)| ==> Merge(v, x, y, z)[j] == z || Merge(v, x, y, z)[j] in v
    decreases |v|
  {
    var m := Merge(v, x, y, z);
    if |v| >= 2 {
      var t := if v[0] == x && v[1] == y then 2 else 1;
      MergeIds(v[t..], x, y, z);
      assert m[1..] == Merge(v[t..], x, y, z);
      forall j | 1 <= j < |m| ensures m[j] == z || m[j] in v {
        assert m[j] == m[1..][j - 1];
        if m[j] != z {
          assert m[j] in v[t..];
        }
      }
    }
  }

  /** Ids outside the replaced pairs keep their relative order: expanding every
      z back into x, y restores the word, when z did not occur in it. */
  lemma {:induction false} MergeInverse(v: seq<nat>, x: nat, y: nat, z: nat)
    requires forall i :: 0 <= i < |v| ==> v[i] != z
    ensures Unmerge(Merge(v, x, y, z), x, y, z) == v
    decreases |v|
  {
    var m := Merge(v, x, y, z);
    if |v| >= 2 {
      var t := if v[0] == x && v[1] == y then 2 else 1;
      MergeInverse(v[t..], x, y, z);
      assert m[1..] == Merge(v[t..], x, y, z);
      assert v == v[..t] + v[t..];
    }
  }

  /** The recipe invariant makes the flattening of a word invariant under the
      rewrite: recipe[z] == recipe[x] + recipe[y]. */
  lemma {:induction false} MergeKeepsFlatten(v: seq<nat>, x: nat, y: nat, z: nat, recipe: map<nat, seq<nat>>)
    requires RecipeOf(recipe, z) == RecipeOf(recipe, x) + RecipeOf(recipe, y)
    ensures Flatten(Merge(v, x, y, z), recipe) == Flatten(v, recipe)
    decreases |v|
  {
    var m := Merge(v, x, y, z);
    if |v| >= 2 {
      if v[0] == x && v[1] == y {
        MergeKeepsFlatten(v[2..], x, y, z, recipe);
        assert m[1..] == Merge(v[2..], x, y, z);
        assert v[1..][1..] == v[2..];
      } else {
        MergeKeepsFlatten(v[1..], x, y, z, recipe);
        assert m[1..] == Merge(v[1..], x, y, z);
      }
    }
  }

  // ---------------------------------------------------------------------------
  // Properties of a whole round

  lemma {:induction false} TotalLengthAppend(a: seq<seq<nat>>, w: seq<nat>)
    ensures TotalLength(a + [w]) == TotalLength(a) + |w|
    decreases |a|
  {
    if a == [] {
      assert a + [w] == [w];
    } else {
      assert (a + [w])[1..] == a[1..] + [w];
      TotalLengthAppend(a[1..], w);
    }
  }

  lemma {:induction false} OccAllAppend(a: seq<seq<nat>>, w: seq<nat>, p: Pair)
    ensures OccAll(a + [w], p) == OccAll(a, p) + Occ(w, p)
    decreases |a|
  {
    if a == [] {
      assert a + [w] == [w];
    } else {
      assert (a + [w])[1..] == a[1..] + [w];
      OccAllAppend(a[1..], w, p);
    }
  }

  /** The corpus shrinks by exactly the count of the merged pair. */
  lemma {:induction false} CorpusShrinksByCount(ws: seq<seq<nat>>, x: nat, y: nat, z: nat)
    ensures TotalLength(MergeCorpus(ws, x, y, z)) == TotalLength(ws) - Get(Counts(ws), Pair(x, y))
    ensures Get(Counts(ws), Pair(x, y)) <= TotalLength(ws)
    decreases |ws|
  {
    CountsMeaning(ws);
    MergeCorpusLength(ws, x, y, z);
  }

  lemma {:induction false} MergeCorpusLength(ws: seq<seq<nat>>, x: nat, y: nat, z: nat)
    ensures TotalLength(MergeCorpus(ws, x, y, z)) == TotalLength(ws) - OccAll(ws, Pair(x, y))
    ensures OccAll(ws, Pair(x, y)) <= TotalLength(ws)
    decreases |ws|
  {
    if ws != [] {
      var n := |ws| - 1;
      var front := ws[..n];
      MergeCorpusLength(front, x, y, z);
      MergeLength(ws[n], x, y, z);
      assert ws == front + [ws[n]];
      assert MergeCorpus(ws, x, y, z) == MergeCorpus(front, x, y, z) + [Merge(ws[n], x, y, z)];
      TotalLengthAppend(front, ws[n]);
      TotalLengthAppend(MergeCorpus(front, x, y, z), Merge(ws[n], x, y, z));
      OccAllAppend(front, ws[n], Pair(x, y));
    }
  }

  /** After a round no word holds the merged pair. */
  lemma CorpusLosesPair(ws: seq<seq<nat>>, x: nat, y: nat, z: nat)
    requires z != x && z != y
    ensures forall k :: 0 <= k < |ws| ==> !HasPair(MergeCorpus(ws, x, y, z)[k], x, y)
  {
    forall k | 0 <= k < |ws| ensures !HasPair(MergeCorpus(ws, x, y, z)[k], x, y) {
      MergeRemovesPair(ws[k], x, y, z);
    }
  }
}
