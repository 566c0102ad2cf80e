/** The reference trainer `learn_bpe_slow`: the text is normalised and split
    into words, every word is coded as alphabet ids behind a space symbol, and
    each training round counts adjacent pairs, selects the best one, records a
    rule with a freshly minted id and rewrites the corpus with it.

    `compute_alphabet` and `remove_rare_chars` are inputs of the model: the
    alphabet `char2id` (ids from `nSpecial` on, one per character) and the set
    of removed characters. */
module Trainer {
  import opened Text
  import opened PairCounts
  import opened CandidateOrder
  import opened Merging

  /** A merge rule: the adjacent ids x, y become the id z. */
  datatype Rule = Rule(x: nat, y: nat, z: nat)

  /** The special-token ids of the configuration (-1 when a token is absent). */
  datatype SpecialTokens = SpecialTokens(padId: int, unkId: int, bosId: int, eosId: int)

  /** The trained model: the alphabet, the rules in the order learned, the
      special tokens. */
  datatype BpeState = BpeState(char2id: map<nat, nat>, rules: seq<Rule>, specialTokens: SpecialTokens)

  /** The characters `is_space` accepts and the symbol every one of them
      becomes (the space token is itself a space). */
  datatype Whitespace = Whitespace(spaces: set<nat>, token: nat)

  /** The alphabet's ids lie in [nSpecial, nSpecial + |char2id|). */
  predicate AlphabetIds(char2id: map<nat, nat>, nSpecial: nat)
  {
    forall c :: c in char2id ==> nSpecial <= char2id[c] < nSpecial + |char2id|
  }

  /** Every id of every word lies in [lo, hi). */
  predicate IdsWithin(ws: seq<seq<nat>>, lo: nat, hi: nat)
  {
    forall k, i :: 0 <= k < |ws| && 0 <= i < |ws[k]| ==> lo <= ws[k][i] < hi
  }

  /** The rules mint the ids used0, used0 + 1, ... in order, and each rule's
      operands are at least lo and older than the id it mints. */
  predicate WellMinted(rules: seq<Rule>, lo: nat, used0: nat)
  {
    forall i :: 0 <= i < |rules| ==>
      rules[i].z == used0 + i && lo <= rules[i].x < rules[i].z && lo <= rules[i].y < rules[i].z
  }

  /** Every rule's ids have a recipe, and the recipe of z is the recipe of x
      followed by the recipe of y. */
  predicate RecipeValid(recipe: map<nat, seq<nat>>, rules: seq<Rule>)
  {
    forall i :: 0 <= i < |rules| ==>
      rules[i].x in recipe && rules[i].y in recipe && rules[i].z in recipe &&
      recipe[rules[i].z] == recipe[rules[i].x] + recipe[rules[i].y]
  }

  // ---------------------------------------------------------------------------
  // Specification of the training corpus

  /** The text after spaces are mapped to the space token, trailing spaces are
      cut and the removed characters are dropped. */
  function CleanText(text: seq<nat>, sp: Whitespace, removed: set<nat>): seq<nat>
  {
    Drop(TrimEnd(Normalize(text, sp.spaces, sp.token), sp.spaces), removed)
  }

  /** One word per maximal run of non-spaces: the space token followed by the
      run's characters that are in the alphabet. */
  function SplitText(s: seq<nat>, sp: Whitespace, alphabet: set<nat>): seq<seq<nat>>
  {
    WordsOf(Runs(s, sp.spaces), sp.token, alphabet)
  }

  function WordsOf(runs: seq<seq<nat>>, token: nat, alphabet: set<nat>): seq<seq<nat>>
  {
    seq(|runs|, k requires 0 <= k < |runs| => [token] + KeepOnly(runs[k], alphabet))
  }

  /** The id of a character (0 for a character outside the alphabet, which
      the trainer never looks up). */
  function IdOf(char2id: map<nat, nat>, c: nat): nat
  {
    if c in char2id then char2id[c] else 0
  }

  function Code(w: seq<nat>, char2id: map<nat, nat>): seq<nat>
  {
    seq(|w|, i requires 0 <= i < |w| => IdOf(char2id, w[i]))
  }

  function CodeAll(ws: seq<seq<nat>>, char2id: map<nat, nat>): seq<seq<nat>>
  {
    seq(|ws|, k requires 0 <= k < |ws| => Code(ws[k], char2id))
  }

  /** The coded corpus the training rounds start from. */
  function TrainingWords(text: seq<nat>, sp: Whitespace, char2id: map<nat, nat>, removed: set<nat>): seq<seq<nat>>
  {
    CodeAll(SplitText(CleanText(text, sp, removed), sp, char2id.Keys), char2id)
  }

  // ---------------------------------------------------------------------------
  // Specification of the training rounds

  /** The rules learned from corpus `ws` when the next free id is `used`: while
      ids remain below nToken and some pair is counted, the best pair of the
      round is merged into the id `used`. */
  ghost function Train(ws: seq<seq<nat>>, used: nat, nToken: int): seq<Rule>
    decreases nToken - used
  {
    if used >= nToken then []
    else
      var cnt := Counts(ws);
      if cnt.Keys == {} then []
      else
        var p := MaxPair(cnt, cnt.Keys);
        [Rule(p.x, p.y, used)] + Train(MergeCorpus(ws, p.x, p.y, used), used + 1, nToken)
  }

  /** The corpus after the rules are applied in order. */
  function ApplyRules(ws: seq<seq<nat>>, rules: seq<Rule>): seq<seq<nat>>
    decreases |rules|
  {
    if rules == [] then ws
    else
      var r := rules[|rules| - 1];
      MergeCorpus(ApplyRules(ws, rules[..|rules| - 1]), r.x, r.y, r.z)
  }

  /** The recipe table seeded with [i] for 2 <= i < used. */
  function Seed(used: nat): map<nat, seq<nat>>
  {
    map i: nat | 2 <= i < used :: [i]
  }

  /** The recipe table after every rule x, y -> z has set recipe[z] to the
      recipe of x followed by the recipe of y. */
  function BuildRecipe(seed: map<nat, seq<nat>>, rules: seq<Rule>): map<nat, seq<nat>>
    decreases |rules|
  {
    if rules == [] then seed
    else
      var r := rules[|rules| - 1];
      var recipe := BuildRecipe(seed, rules[..|rules| - 1]);
      recipe[r.z := RecipeOf(recipe, r.x) + RecipeOf(recipe, r.y)]
  }

  // ---------------------------------------------------------------------------
  // The trainer

  /** Splitting the prepared text: skip spaces, open a word with the space
      token, append the run's alphabet characters. */
  method SplitWords(rowData: seq<nat>, sp: Whitespace, alphabet: set<nat>) returns (splited: seq<seq<nat>>)
    ensures splited == SplitText(rowData, sp, alphabet)
    ensures |splited| == |Runs(rowData, sp.spaces)|
  {
    splited := [];
    var i := 0;
    while i < |rowData|
      invariant i <= |rowData|
      invariant splited + SplitText(rowData[i..], sp, alphabet) == SplitText(rowData, sp, alphabet)
      decreases |rowData| - i
    {
      var i0 := i;
      while i < |rowData| && rowData[i] in sp.spaces
        invariant i0 <= i <= |rowData|
        invariant forall m :: i0 <= m < i ==> rowData[m] in sp.spaces
      {
        i := i + 1;
      }
      SplitTextSkip(rowData, i0, i, sp, alphabet);
      if i == |rowData| {
        break;
      }
      var start := i;
      var word;
      word, i := TakeWord(rowData, start, sp, alphabet);
      SplitTextTake(rowData, start, i, sp, alphabet);
      splited := splited + [word];
    }
  }

  /** The word of the run starting at `start`: the space token followed by
      the run's alphabet characters, up to the next space. */
  method TakeWord(rowData: seq<nat>, start: nat, sp: Whitespace, alphabet: set<nat>) returns (word: seq<nat>, i: nat)
    requires start <= |rowData|
    ensures start <= i <= |rowData| && (i < |rowData| ==> rowData[i] in sp.spaces)
    ensures forall m :: start <= m < i ==> rowData[m] !in sp.spaces
    ensures word == [sp.token] + KeepOnly(rowData[start..i], alphabet)
  {
    word := [sp.token];
    i := start;
    while i < |rowData| && rowData[i] !in sp.spaces
      invariant start <= i <= |rowData|
      invariant forall m :: start <= m < i ==> rowData[m] !in sp.spaces
      invariant word == [sp.token] + KeepOnly(rowData[start..i], alphabet)
    {
      assert KeepOnly(rowData[start..i + 1], alphabet)
          == KeepOnly(rowData[start..i], alphabet) + (if rowData[i] in alphabet then [rowData[i]] else []) by {
        assert rowData[start..i + 1] == rowData[start..i] + [rowData[i]];
        KeepOnlyAppend(rowData[start..i], [rowData[i]], alphabet);
        assert KeepOnly([rowData[i]], alphabet) == if rowData[i] in alphabet then [rowData[i]] else [];
      }
      if rowData[i] in alphabet {
        word := word + [rowData[i]];
      }
      i := i + 1;
    }
  }

  /** Every character of every word replaced by its id. */
  method CodeWords(splited: seq<seq<nat>>, char2id: map<nat, nat>) returns (coded: seq<seq<nat>>)
    requires forall k, i :: 0 <= k < |splited| && 0 <= i < |splited[k]| ==> splited[k][i] in char2id
    ensures coded == CodeAll(splited, char2id)
    ensures forall k, i :: 0 <= k < |coded| && 0 <= i < |coded[k]| ==> coded[k][i] == char2id[splited[k][i]]
  {
    coded := [];
    for k := 0 to |splited|
      invariant coded == CodeAll(splited[..k], char2id)
    {
      var v: seq<nat> := [];
      for i := 0 to |splited[k]|
        invariant v == Code(splited[k][..i], char2id)
      {
        v := v + [char2id[splited[k][i]]];
      }
      assert splited[k][..|splited[k]|] == splited[k];
      coded := coded + [v];
      assert splited[..k + 1] == splited[..k] + [splited[k]];
    }
    assert splited[..|splited|] == splited;
  }

  /** `recipe[i] = {i}` for 2 <= i < used. */
  method SeedRecipe(used: nat) returns (recipe: map<nat, seq<nat>>)
    ensures recipe == Seed(used)
    ensures forall id :: id in recipe <==> 2 <= id < used
  {
    recipe := map[];
    var i := 2;
    while i < used
      invariant 2 <= i && (i <= used || i == 2)
      invariant forall id :: id in recipe <==> 2 <= id < i
      invariant forall id :: id in recipe ==> recipe[id] == [id]
    {
      recipe := recipe[i := [i]];
      i := i + 1;
    }
    forall id | id in Seed(used) ensures id in recipe && recipe[id] == Seed(used)[id] {
      assert 2 <= id < used;
    }
    forall id | id in recipe ensures id in Seed(used) {
      assert 2 <= id < used;
    }
  }

  // ---------------------------------------------------------------------------
  // Splitting, one run at a time

  lemma SplitTextSkip(s: seq<nat>, i: nat, j: nat, sp: Whitespace, alphabet: set<nat>)
    requires i <= j <= |s|
    requires forall k :: i <= k < j ==> s[k] in sp.spaces
    ensures SplitText(s[i..], sp, alphabet) == SplitText(s[j..], sp, alphabet)
  {
    RunsSkipSpaces(s, i, j, sp.spaces);
  }

  lemma SplitTextTake(s: seq<nat>, j: nat, k: nat, sp: Whitespace, alphabet: set<nat>)
    requires j < k <= |s|
    requires forall m :: j <= m < k ==> s[m] !in sp.spaces
    requires k < |s| ==> s[k] in sp.spaces
    ensures SplitText(s[j..], sp, alphabet) == [[sp.token] + KeepOnly(s[j..k], alphabet)] + SplitText(s[k..], sp, alphabet)
  {
    RunsTakeWord(s, j, k, sp.spaces);
    var rest := Runs(s[k..], sp.spaces);
    assert [s[j..k]] + rest == Runs(s[j..], sp.spaces);
    assert WordsOf([s[j..k]] + rest, sp.token, alphabet)
        == [[sp.token] + KeepOnly(s[j..k], alphabet)] + WordsOf(rest, sp.token, alphabet);
  }

  // ---------------------------------------------------------------------------
  // Ids stay in range

  /** The pair counted in a round consists of ids of the corpus. */
  lemma CountedWithin(ws: seq<seq<nat>>, lo: nat, hi: nat, p: Pair)
    requires IdsWithin(ws, lo, hi)
    requires p in Counts(ws)
    ensures lo <= p.x < hi && lo <= p.y < hi
  {
    CountedPairOccurs(ws, p);
  }

  /** Rewriting with the fresh id `hi` keeps the corpus within [lo, hi + 1). */
  lemma MergeCorpusWithin(ws: seq<seq<nat>>, x: nat, y: nat, lo: nat, hi: nat)
    requires IdsWithin(ws, lo, hi) && lo <= hi
    ensures IdsWithin(MergeCorpus(ws, x, y, hi), lo, hi + 1)
  {
    forall k | 0 <= k < |ws| {
      MergeIds(ws[k], x, y, hi);
    }
  }

  lemma {:induction false} ApplyRulesWithin(ws: seq<seq<nat>>, rules: seq<Rule>, lo: nat, used0: nat)
    requires IdsWithin(ws, lo, used0) && lo <= used0
    requires WellMinted(rules, lo, used0)
    ensures |ApplyRules(ws, rules)| == |ws|
    ensures IdsWithin(ApplyRules(ws, rules), lo, used0 + |rules|)
    decreases |rules|
  {
    if rules != [] {
      var n := |rules| - 1;
      var r := rules[n];
      ApplyRulesWithin(ws, rules[..n], lo, used0);
      MergeCorpusWithin(ApplyRules(ws, rules[..n]), r.x, r.y, lo, used0 + n);
    }
  }

  // ---------------------------------------------------------------------------
  // The recipe table

  lemma {:induction false} FlattenSeed(v: seq<nat>, used: nat)
    requires forall i :: 0 <= i < |v| ==> 2 <= v[i] < used
    ensures Flatten(v, Seed(used)) == v
    decreases |v|
  {
    if v != [] {
      FlattenSeed(v[1..], used);
      assert v == [v[0]] + v[1..];
    }
  }

  /** Setting the recipe of an id that does not occur leaves the flattening
      unchanged. */
  lemma {:induction false} FlattenIgnoresFresh(v: seq<nat>, recipe: map<nat, seq<nat>>, z: nat, r: seq<nat>)
    requires forall i :: 0 <= i < |v| ==> v[i] != z
    ensures Flatten(v, recipe[z := r]) == Flatten(v, recipe)
    decreases |v|
  {
    if v != [] {
      FlattenIgnoresFresh(v[1..], recipe, z, r);
    }
  }

  /** A non-empty word of ids in [lo, hi). */
  predicate IdWord(w: seq<nat>, lo: nat, hi: nat)
  {
    w != [] && forall j :: 0 <= j < |w| ==> lo <= w[j] < hi
  }

  /** The keys of the recipe table of well-minted rules are 2 .. the last
      minted id, and the seeded ids stand for themselves. */
  lemma {:induction false} BuildRecipeKeys(rules: seq<Rule>, lo: nat, used0: nat)
    requires 2 <= lo <= used0
    requires WellMinted(rules, lo, used0)
    ensures forall id :: id in BuildRecipe(Seed(used0), rules) <==> 2 <= id < used0 + |rules|
    ensures forall id :: 2 <= id < used0 ==> BuildRecipe(Seed(used0), rules)[id] == [id]
    decreases |rules|
  {
    if rules != [] {
      var n := |rules| - 1;
      assert WellMinted(rules[..n], lo, used0) by {
        forall i | 0 <= i < n ensures rules[..n][i] == rules[i] {
        }
      }
      BuildRecipeKeys(rules[..n], lo, used0);
    }
  }

  /** Every recipe from lo on is a non-empty word of alphabet ids. */
  lemma {:induction false} BuildRecipeWords(rules: seq<Rule>, lo: nat, used0: nat)
    requires 2 <= lo <= used0
    requires WellMinted(rules, lo, used0)
    ensures forall id :: lo <= id < used0 + |rules| ==>
              id in BuildRecipe(Seed(used0), rules) && IdWord(BuildRecipe(Seed(used0), rules)[id], lo, used0)
    decreases |rules|
  {
    BuildRecipeKeys(rules, lo, used0);
    if rules != [] {
      var n := |rules| - 1;
      var r := rules[n];
      var pre := BuildRecipe(Seed(used0), rules[..n]);
      assert WellMinted(rules[..n], lo, used0) by {
        forall i | 0 <= i < n ensures rules[..n][i] == rules[i] {
        }
      }
      BuildRecipeKeys(rules[..n], lo, used0);
      BuildRecipeWords(rules[..n], lo, used0);
      var R := BuildRecipe(Seed(used0), rules);
      assert IdWord(pre[r.x], lo, used0) && IdWord(pre[r.y], lo, used0);
      assert R == pre[r.z := pre[r.x] + pre[r.y]];
      assert IdWord(pre[r.x] + pre[r.y], lo, used0) by {
        IdWordAppend(pre[r.x], pre[r.y], lo, used0);
      }
    }
  }

  lemma IdWordAppend(a: seq<nat>, b: seq<nat>, lo: nat, hi: nat)
    requires IdWord(a, lo, hi) && IdWord(b, lo, hi)
    ensures IdWord(a + b, lo, hi)
  {
    forall j | 0 <= j < |a + b| ensures lo <= (a + b)[j] < hi {
      if j >= |a| {
        assert (a + b)[j] == b[j - |a|];
      }
    }
  }

  /** Both operands of every rule have a recipe, and the recipe of z is the
      recipe of x followed by the recipe of y. */
  lemma {:induction false} BuildRecipeRules(rules: seq<Rule>, lo: nat, used0: nat)
    requires 2 <= lo <= used0
    requires WellMinted(rules, lo, used0)
    ensures RecipeValid(BuildRecipe(Seed(used0), rules), rules)
    decreases |rules|
  {
    if rules != [] {
      var n := |rules| - 1;
      var r := rules[n];
      var pre := BuildRecipe(Seed(used0), rules[..n]);
      assert WellMinted(rules[..n], lo, used0) by {
        forall i | 0 <= i < n ensures rules[..n][i] == rules[i] {
        }
      }
      BuildRecipeKeys(rules[..n], lo, used0);
      BuildRecipeRules(rules[..n], lo, used0);
      var R := BuildRecipe(Seed(used0), rules);
      assert R == pre[r.z := pre[r.x] + pre[r.y]];
      forall i | 0 <= i < |rules|
        ensures rules[i].x in R && rules[i].y in R && rules[i].z in R
        ensures R[rules[i].z] == R[rules[i].x] + R[rules[i].y]
      {
        if i < n {
          assert rules[..n][i] == rules[i];
        }
      }
    }
  }

  /** The recipe table of well-minted rules: its keys are 2 .. the last minted
      id, the seeded ids stand for themselves, every recipe is a non-empty
      word of alphabet ids, and every rule's recipe is the concatenation of
      its operands' recipes. */
  lemma BuildRecipeValid(rules: seq<Rule>, lo: nat, used0: nat)
    requires 2 <= lo <= used0
    requires WellMinted(rules, lo, used0)
    ensures forall id :: id in BuildRecipe(Seed(used0), rules) <==> 2 <= id < used0 + |rules|
    ensures forall id :: 2 <= id < used0 ==> BuildRecipe(Seed(used0), rules)[id] == [id]
    ensures forall id :: lo <= id < used0 + |rules| ==>
              id in BuildRecipe(Seed(used0), rules) && IdWord(BuildRecipe(Seed(used0), rules)[id], lo, used0)
    ensures RecipeValid(BuildRecipe(Seed(used0), rules), rules)
  {
    BuildRecipeKeys(rules, lo, used0);
    BuildRecipeWords(rules, lo, used0);
    BuildRecipeRules(rules, lo, used0);
  }

  /** Under the recipes of the rules, every word of the rewritten corpus still
      spells the word it came from. */
  lemma {:induction false} RulesKeepFlatten(ws: seq<seq<nat>>, rules: seq<Rule>, lo: nat, used0: nat)
    requires 2 <= lo <= used0
    requires IdsWithin(ws, lo, used0)
    requires WellMinted(rules, lo, used0)
    ensures |ApplyRules(ws, rules)| == |ws|
    ensures forall k :: 0 <= k < |ws| ==> Flatten(ApplyRules(ws, rules)[k], BuildRecipe(Seed(used0), rules)) == ws[k]
    decreases |rules|
  {
    ApplyRulesWithin(ws, rules, lo, used0);
    if rules == [] {
      forall k | 0 <= k < |ws| ensures Flatten(ws[k], Seed(used0)) == ws[k] {
        FlattenSeed(ws[k], used0);
      }
    } else {
      var n := |rules| - 1;
      var r := rules[n];
      RulesKeepFlatten(ws, rules[..n], lo, used0);
      ApplyRulesWithin(ws, rules[..n], lo, used0);
      assert WellMinted(rules[..n], lo, used0) by {
        forall i | 0 <= i < n ensures rules[..n][i] == rules[i] {
        }
      }
      BuildRecipeKeys(rules[..n], lo, used0);
      var W := ApplyRules(ws, rules[..n]);
      var pre := BuildRecipe(Seed(used0), rules[..n]);
      var R := BuildRecipe(Seed(used0), rules);
      assert R == pre[r.z := RecipeOf(pre, r.x) + RecipeOf(pre, r.y)];
      forall k | 0 <= k < |ws| ensures Flatten(ApplyRules(ws, rules)[k], R) == ws[k] {
        MergeKeepsFlatten(W[k], r.x, r.y, r.z, R);
        FlattenIgnoresFresh(W[k], pre, r.z, RecipeOf(pre, r.x) + RecipeOf(pre, r.y));
      }
    }
  }

  // ---------------------------------------------------------------------------
  // Applying the rules twice

  /** No word holds the pair of any of the rules. */
  predicate NoRulePair(ws: seq<seq<nat>>, rules: seq<Rule>)
  {
    forall i, k :: 0 <= i < |rules| && 0 <= k < |ws| ==> !HasPair(ws[k], rules[i].x, rules[i].y)
  }

  /** After the rules as minted, no word holds the pair of any rule: each
      round removes its own pair, and a later round's fresh id is never an
      operand of an earlier rule, so it cannot bring one back. */
  lemma {:induction false} AppliedHasNoRulePair(ws: seq<seq<nat>>, rules: seq<Rule>, lo: nat, used0: nat)
    requires WellMinted(rules, lo, used0)
    ensures NoRulePair(ApplyRules(ws, rules), rules)
    decreases |rules|
  {
    if rules != [] {
      var n := |rules| - 1;
      var r := rules[n];
      assert WellMinted(rules[..n], lo, used0) by {
        forall i | 0 <= i < n ensures rules[..n][i] == rules[i] {
        }
      }
      AppliedHasNoRulePair(ws, rules[..n], lo, used0);
      var W := ApplyRules(ws, rules[..n]);
      var M := ApplyRules(ws, rules);
      forall i, k | 0 <= i < |rules| && 0 <= k < |M| ensures !HasPair(M[k], rules[i].x, rules[i].y) {
        assert M[k] == Merge(W[k], r.x, r.y, r.z);
        if i == n {
          MergeRemovesPair(W[k], r.x, r.y, r.z);
        } else {
          assert rules[..n][i] == rules[i];
          MergeKeepsNoPair(W[k], r.x, r.y, r.z, rules[i].x, rules[i].y);
        }
      }
    }
  }

  /** Rules whose pairs occur in no word change nothing. */
  lemma {:induction false} ApplyRulesNoPair(ws: seq<seq<nat>>, rules: seq<Rule>)
    requires NoRulePair(ws, rules)
    ensures ApplyRules(ws, rules) == ws
    decreases |rules|
  {
    if rules != [] {
      var n := |rules| - 1;
      var r := rules[n];
      assert NoRulePair(ws, rules[..n]) by {
        forall i, k | 0 <= i < n && 0 <= k < |ws| ensures !HasPair(ws[k], rules[..n][i].x, rules[..n][i].y) {
          assert rules[..n][i] == rules[i];
        }
      }
      ApplyRulesNoPair(ws, rules[..n]);
      forall k | 0 <= k < |ws| ensures Merge(ws[k], r.x, r.y, r.z) == ws[k] {
        MergeNoPair(ws[k], r.x, r.y, r.z);
      }
      assert MergeCorpus(ws, r.x, r.y, r.z) == ws;
    }
  }

  /** Applying the rules as minted to a corpus they have already rewritten
      changes nothing. */
  lemma ApplyRulesIdempotent(ws: seq<seq<nat>>, rules: seq<Rule>, lo: nat, used0: nat)
    requires WellMinted(rules, lo, used0)
    ensures ApplyRules(ApplyRules(ws, rules), rules) == ApplyRules(ws, rules)
  {
    AppliedHasNoRulePair(ws, rules, lo, used0);
    ApplyRulesNoPair(ApplyRules(ws, rules), rules);
  }

  // ---------------------------------------------------------------------------
  // One training round

  /** A round that finds the best pair p records the rule p -> used and goes
      on with the rewritten corpus. */
  lemma TrainStep(ws: seq<seq<nat>>, used: nat, nToken: int, p: Pair)
    requires used < nToken
    requires IsBest(Counts(ws), p)
    ensures Train(ws, used, nToken) == [Rule(p.x, p.y, used)] + Train(MergeCorpus(ws, p.x, p.y, used), used + 1, nToken)
  {
    BestIsMaxPair(Counts(ws), p);
  }

  /** Setting the recipe of the next id extends the key range by one. */
  lemma ExtendRecipeKeys(recipe: map<nat, seq<nat>>, z: nat, v: seq<nat>, next: map<nat, seq<nat>>)
    requires 2 <= z
    requires KeysUpTo(recipe, z)
    requires next == recipe[z := v]
    ensures KeysUpTo(next, z + 1)
  {
  }

  /** Applying a first rule and then the rest is applying all of them. */
  lemma {:induction false} ApplyRulesCons(ws: seq<seq<nat>>, r: Rule, rest: seq<Rule>)
    ensures ApplyRules(ws, [r] + rest) == ApplyRules(MergeCorpus(ws, r.x, r.y, r.z), rest)
    decreases |rest|
  {
    if rest == [] {
      assert ([r] + rest)[..0] == [];
    } else {
      var n := |rest| - 1;
      assert ([r] + rest)[..n + 1] == [r] + rest[..n];
      ApplyRulesCons(ws, r, rest[..n]);
    }
  }

  lemma ShiftPrefix(ws: seq<seq<nat>>, rules: seq<Rule>, i: nat)
    requires i < |rules|
    ensures ApplyRules(ws, rules[..i + 1]) == ApplyRules(MergeCorpus(ws, rules[0].x, rules[0].y, rules[0].z), rules[1..][..i])
  {
    assert rules[..i + 1] == [rules[0]] + rules[1..][..i];
    ApplyRulesCons(ws, rules[0], rules[1..][..i]);
  }

  /** The rounds after the first one are the rounds of the corpus the first
      rule produced. */
  lemma ShiftRounds(ws: seq<seq<nat>>, rules: seq<Rule>)
    requires rules != []
    requires BestRounds(ws, rules)
    ensures var ws' := MergeCorpus(ws, rules[0].x, rules[0].y, rules[0].z);
            ApplyRules(ws, rules) == ApplyRules(ws', rules[1..]) && BestRounds(ws', rules[1..])
  {
    var r := rules[0];
    var rest := rules[1..];
    var ws' := MergeCorpus(ws, r.x, r.y, r.z);
    assert ApplyRules(ws, rules) == ApplyRules(ws', rest) by {
      ShiftPrefix(ws, rules, |rest|);
      assert rules[..|rest| + 1] == rules && rest[..|rest|] == rest;
    }
    forall i | 0 <= i < |rest|
      ensures IsBest(Counts(ApplyRules(ws', rest[..i])), Pair(rest[i].x, rest[i].y))
    {
      ShiftPrefix(ws, rules, i);
      assert rest[i] == rules[i + 1];
    }
  }

  /** The rules mint used, used + 1, ... in order. */
  predicate MintsFrom(rules: seq<Rule>, used: nat)
  {
    forall i :: 0 <= i < |rules| ==> rules[i].z == used + i
  }

  /** The rules after the first one mint from the next id. */
  lemma MintsShift(rules: seq<Rule>, used: nat)
    requires rules != []
    requires MintsFrom(rules, used)
    ensures rules[0].z == used && MintsFrom(rules[1..], used + 1)
  {
    forall i | 0 <= i < |rules| - 1 ensures rules[1..][i].z == used + 1 + i {
      assert rules[1..][i] == rules[i + 1];
    }
  }

  /** Training stops once nToken is reached or no pair is left. */
  lemma TrainStops(ws: seq<seq<nat>>, used: nat, nToken: int)
    requires used >= nToken || Counts(ws) == map[]
    ensures Train(ws, used, nToken) == []
  {
    if used < nToken {
      assert Counts(ws).Keys == {};
    }
  }

  /** The first rule is the best pair of the corpus itself. */
  lemma FirstRound(ws: seq<seq<nat>>, rules: seq<Rule>)
    requires rules != []
    requires BestRounds(ws, rules)
    ensures IsBest(Counts(ws), Pair(rules[0].x, rules[0].y))
  {
    assert rules[..0] == [];
  }

  /** Train is the only rule sequence that mints used, used + 1, ..., takes in
      every round the best pair of the corpus rewritten so far, and stops
      exactly when nToken is reached or no pair is left. */
  lemma {:induction false} TrainUnique(ws: seq<seq<nat>>, rules: seq<Rule>, used: nat, nToken: int)
    requires MintsFrom(rules, used)
    requires BestRounds(ws, rules)
    requires rules == [] || used + |rules| <= nToken
    requires used + |rules| >= nToken || Counts(ApplyRules(ws, rules)) == map[]
    ensures rules == Train(ws, used, nToken)
    decreases |rules|
  {
    if rules == [] {
      TrainStops(ws, used, nToken);
    } else {
      var r := rules[0];
      var rest := rules[1..];
      var ws' := MergeCorpus(ws, r.x, r.y, r.z);
      MintsShift(rules, used);
      assert Train(ws, used, nToken) == [r] + Train(ws', used + 1, nToken) by {
        FirstRound(ws, rules);
        TrainStep(ws, used, nToken, Pair(r.x, r.y));
        assert r == Rule(r.x, r.y, used);
      }
      assert rest == Train(ws', used + 1, nToken) by {
        ShiftRounds(ws, rules);
        TrainUnique(ws', rest, used + 1, nToken);
      }
      assert rules == [r] + rest;
    }
  }

  /** The next rule mints the next id from older operands. */
  lemma MintNext(rules: seq<Rule>, r: Rule, lo: nat, used0: nat)
    requires WellMinted(rules, lo, used0)
    requires r.z == used0 + |rules| && lo <= r.x < r.z && lo <= r.y < r.z
    ensures WellMinted(rules + [r], lo, used0)
  {
  }

  /** Each rule is the best pair of the corpus rewritten by the rules before
      it, once more when the next rule is the best pair of the current one. */
  lemma BestSoFar(ws: seq<seq<nat>>, rules: seq<Rule>, r: Rule)
    requires BestRounds(ws, rules)
    requires IsBest(Counts(ApplyRules(ws, rules)), Pair(r.x, r.y))
    ensures BestRounds(ws, rules + [r])
  {
    forall i | 0 <= i < |rules + [r]|
      ensures IsBest(Counts(ApplyRules(ws, (rules + [r])[..i])), Pair((rules + [r])[i].x, (rules + [r])[i].y))
    {
      assert (rules + [r])[..i] == if i < |rules| then rules[..i] else rules;
    }
  }

  // ---------------------------------------------------------------------------
  // The corpus before training

  /** Every character of every split word is in the alphabet, when the space
      token is. */
  lemma WordsOfAlphabet(runs: seq<seq<nat>>, token: nat, alphabet: set<nat>)
    requires token in alphabet
    ensures |WordsOf(runs, token, alphabet)| == |runs|
    ensures forall k :: 0 <= k < |runs| ==>
              |WordsOf(runs, token, alphabet)[k]| >= 1 && WordsOf(runs, token, alphabet)[k][0] == token
    ensures forall k, i :: 0 <= k < |runs| && 0 <= i < |WordsOf(runs, token, alphabet)[k]| ==>
              WordsOf(runs, token, alphabet)[k][i] in alphabet
  {
    forall k | 0 <= k < |runs| {
      KeepOnlyIsFilter(runs[k], alphabet);
    }
  }

  /** The coded corpus holds alphabet ids only. */
  lemma TrainingWordsWithin(text: seq<nat>, sp: Whitespace, char2id: map<nat, nat>, removed: set<nat>, nSpecial: nat)
    requires sp.token in char2id
    requires AlphabetIds(char2id, nSpecial)
    ensures IdsWithin(TrainingWords(text, sp, char2id, removed), nSpecial, nSpecial + |char2id|)
  {
    var runs := Runs(CleanText(text, sp, removed), sp.spaces);
    WordsOfAlphabet(runs, sp.token, char2id.Keys);
  }

  // ---------------------------------------------------------------------------
  // Training

  /** The text preparation of `learn_bpe_slow`: spaces mapped to the space
      token, trailing spaces cut, removed characters dropped, the text split
      into words and every word coded. */
  method PrepareCorpus(text: seq<nat>, sp: Whitespace, char2id: map<nat, nat>, removed: set<nat>, nSpecial: nat)
    returns (coded: seq<seq<nat>>)
    requires sp.token in char2id
    requires AlphabetIds(char2id, nSpecial)
    ensures coded == TrainingWords(text, sp, char2id, removed)
    ensures IdsWithin(coded, nSpecial, nSpecial + |char2id|)
  {
    var rowData := MapSpaces(text, sp.spaces, sp.token);
    rowData := TrimTrailing(rowData, sp.spaces);
    rowData := Drop(rowData, removed);
    var splitedText := SplitWords(rowData, sp, char2id.Keys);
    WordsOfAlphabet(Runs(rowData, sp.spaces), sp.token, char2id.Keys);
    coded := CodeWords(splitedText, char2id);
    TrainingWordsWithin(text, sp, char2id, removed, nSpecial);
  }


  /** `learn_bpe_slow`. The learned rules are the specified ones; they mint
      the ids used0, used0 + 1, ... from operands of lower id; each is the
      best pair of the corpus rewritten by the rules before it; no more than
      nToken - used0 are learned, and fewer only when no word of the final
      corpus has two ids left. */
  method LearnBpeSlow(text: seq<nat>, nToken: int, sp: Whitespace, char2id: map<nat, nat>, removed: set<nat>,
                      nSpecial: nat, specialTokens: SpecialTokens) returns (state: BpeState)
    requires sp.token in char2id
    requires nSpecial >= 2
    requires AlphabetIds(char2id, nSpecial)
    ensures state.char2id == char2id && state.specialTokens == specialTokens
    ensures state.rules == Train(TrainingWords(text, sp, char2id, removed), nSpecial + |char2id|, nToken)
    ensures WellMinted(state.rules, nSpecial, nSpecial + |char2id|)
    ensures state.rules == [] || nSpecial + |char2id| + |state.rules| <= nToken
    ensures BestRounds(TrainingWords(text, sp, char2id, removed), state.rules)
    ensures nSpecial + |char2id| + |state.rules| < nToken ==>
              Exhausted(ApplyRules(TrainingWords(text, sp, char2id, removed), state.rules))
  {
    var coded := PrepareCorpus(text, sp, char2id, removed, nSpecial);
    var rules := LearnRules(coded, nSpecial + |char2id|, nToken, nSpecial);
    state := BpeState(char2id, rules, specialTokens);
  }

  /** No word has two ids left. */
  predicate Exhausted(ws: seq<seq<nat>>)
  {
    forall k :: 0 <= k < |ws| ==> |ws[k]| <= 1
  }

  /** Every rule is the best pair of the corpus rewritten by the rules
      before it. */
  ghost predicate BestRounds(ws: seq<seq<nat>>, rules: seq<Rule>)
  {
    forall i :: 0 <= i < |rules| ==> IsBest(Counts(ApplyRules(ws, rules[..i])), Pair(rules[i].x, rules[i].y))
  }

  /** The recipe table has exactly the keys 2 .. hi - 1. */
  ghost predicate KeysUpTo(recipe: map<nat, seq<nat>>, hi: nat)
  {
    forall id :: id in recipe <==> 2 <= id < hi
  }

  /** The training rounds of `learn_bpe_slow` on the coded corpus, whose ids
      lie in [nSpecial, used0). */
  method LearnRules(coded0: seq<seq<nat>>, used0: nat, nToken: int, nSpecial: nat) returns (rules: seq<Rule>)
    requires 2 <= nSpecial <= used0
    requires IdsWithin(coded0, nSpecial, used0)
    ensures rules == Train(coded0, used0, nToken)
    ensures WellMinted(rules, nSpecial, used0)
    ensures rules == [] || used0 + |rules| <= nToken
    ensures BestRounds(coded0, rules)
    ensures used0 + |rules| < nToken ==> Exhausted(ApplyRules(coded0, rules))
  {
    var coded := coded0;
    var usedIds := used0;
    var recipe: map<nat, seq<nat>> := SeedRecipe(usedIds);
    rules := [];
    ghost var exhausted := false;
    while usedIds < nToken
      invariant usedIds == used0 + |rules|
      invariant rules == [] || usedIds <= nToken
      invariant WellMinted(rules, nSpecial, used0)
      invariant coded == ApplyRules(coded0, rules)
      invariant IdsWithin(coded, nSpecial, usedIds)
      invariant KeysUpTo(recipe, usedIds)
      invariant recipe == BuildRecipe(Seed(used0), rules)
      invariant BestRounds(coded0, rules)
      invariant !exhausted
      decreases nToken - usedIds
    {
      var cnt := CountPairs(coded);
      var best := SelectBest(cnt);
      if best.cnt == -1 {
        exhausted := true;
        break;
      }
      var z := usedIds;
      ghost var r := Rule(best.x, best.y, z);
      assert nSpecial <= best.x < z && nSpecial <= best.y < z by {
        CountedWithin(coded, nSpecial, z, Pair(best.x, best.y));
      }
      assert best.x in recipe && best.y in recipe;
      assert IdsWithin(MergeCorpus(coded, r.x, r.y, z), nSpecial, z + 1) by {
        MergeCorpusWithin(coded, best.x, best.y, nSpecial, z);
      }
      assert WellMinted(rules + [r], nSpecial, used0) by {
        MintNext(rules, r, nSpecial, used0);
      }
      assert BestRounds(coded0, rules + [r]) by {
        BestSoFar(coded0, rules, r);
      }
      assert ApplyRules(coded0, rules + [r]) == MergeCorpus(coded, r.x, r.y, z) by {
        assert (rules + [r])[..|rules|] == rules;
      }
      ghost var next: map<nat, seq<nat>> := recipe[z := recipe[best.x] + recipe[best.y]];
      assert KeysUpTo(next, z + 1) by {
        ExtendRecipeKeys(recipe, z, recipe[best.x] + recipe[best.y], next);
      }
      assert next == BuildRecipe(Seed(used0), rules + [r]) by {
        assert (rules + [r])[..|rules|] == rules;
      }
      usedIds := usedIds + 1;
      rules := rules + [Rule(best.x, best.y, z)];
      recipe := recipe[z := recipe[best.x] + recipe[best.y]];
      coded := RewriteCorpus(coded, best.x, best.y, z);
    }
    if exhausted {
      CountsEmpty(coded);
    }
    TrainUnique(coded0, rules, used0, nToken);
  }
}
