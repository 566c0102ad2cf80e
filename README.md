# Reference BPE trainer and encoder, modelled in Dafny

This project models the two reference ("slow") algorithms of the YouTokenToMe
byte-pair-encoding tokenizer, plus the helper its round-trip test uses:

- `learn_bpe_slow`, the reference trainer. It maps every space character to
  the space symbol and trims trailing spaces. It splits the text into words,
  each headed by the space symbol and keeping only alphabet characters, and
  codes the characters as ids. Then it runs rounds until the next free id
  reaches `n_token` or no adjacent pair is left. Each round:
  - counts adjacent pairs, stepping over one position inside a run of three
    equal ids;
  - selects the best pair with the `Candidate` comparator;
  - mints the next id `z` and records the rule `x, y -> z` and its recipe;
  - rewrites every word left to right.
- `decode_slow`, the reference encoder. It splits a text into words of nodes.
  Each word is headed by the space symbol's node. An alphabet character gets
  its own node, and a maximal stretch of unknown characters becomes one node
  that carries the unknown id and the stretch itself. Every rule is applied
  in order with the trainer's rewrite. One id and one piece of text come out
  per node.
- `to_no_space_tokens`, which compacts a code-point sequence in place so that
  only its non-space characters remain.

Text is modelled as sequences of code points (`nat`). `is_space` is
membership in a set `spaces`. `SPACE_TOKEN` is a code point `token` that is
itself a space. The alphabet `char2id` and the set of removed rare characters
are inputs of the trainer.

Modules, leaves first:

- `Text`: spaces, trimming, maximal runs and `to_no_space_tokens`.
- `PairCounts`: the counting scan.
- `CandidateOrder`: the comparator and the selection of the best pair.
- `Merging`: the rewrite of one rule over a word and over the corpus.
- `Trainer`: `learn_bpe_slow`.
- `Encoder`: `decode_slow`, plus the lemmas tying the encoder to the trainer.

Each loop of the modelled core is a method, except the two copying loops of `get_recipe` (tests/unit_tests/stress_test.cpp:75-76), which are sequence concatenation in `BuildRecipe`. Each method is proved equal to
a specification function, and the properties are proved about those functions.

## Model

| member | source | states |
|---|---|---|
| `Text.MapSpaces` | tests/unit_tests/stress_test.cpp:27-31 | Every space character becomes the space symbol; every other character is left as it is; the length is unchanged. |
| `Text.TrimTrailing` | tests/unit_tests/stress_test.cpp:32 | The `pop_back` loop leaves the longest prefix that does not end in a blank; everything it removed was blank. |
| `Text.TrimEndIsMaximalPrefix` | tests/unit_tests/stress_test.cpp:165 | Trimming yields a prefix; every cut character is blank; the result does not end in a blank. |
| `Text.NormalizeKeepsNoSpace` | tests/unit_tests/stress_test.cpp:159-163 | When the space symbol is a space, mapping spaces to it keeps the sequence of non-space characters. |
| `Text.NoSpaceOfTrimmed` | tests/unit_tests/stress_test.cpp:165 | Cutting trailing spaces keeps the sequence of non-space characters. |
| `Text.ToNoSpaceTokens` | tests/unit_tests/stress_test.cpp:289-299 | The in-place compaction returns exactly the input's non-space characters, in order. The result is no longer than the input and holds no space. |
| `Text.DropIsFilter` | tests/unit_tests/stress_test.cpp:289-299 | Dropping characters is a filter: no longer than the input, none of the dropped characters left, each kept character taken from the input, the identity when nothing is dropped. |
| `Text.KeepOnlyIsFilter` | tests/unit_tests/stress_test.cpp:49-53 | Keeping only alphabet characters yields only alphabet characters, is no longer than the input, and is the identity when every character is in the alphabet. |
| `Text.RunsShape` | tests/unit_tests/stress_test.cpp:42-54 | Every word found by the splitting loop is non-empty and free of spaces. The words concatenated are the text's non-space characters, in order. |
| `Text.RunsOfSpaces` | tests/unit_tests/stress_test.cpp:43-46 | A text made only of spaces yields no word. |
| `Text.RunsSplitAtSpace` | tests/unit_tests/stress_test.cpp:42-54 | A space separates words: the words of `u + [space] + w` are those of `u` followed by those of `w`. Leading and repeated spaces therefore yield no words. |
| `Text.RunsOfTrimmed` | tests/unit_tests/stress_test.cpp:32 | Trimming trailing spaces does not change the words. |
| `Text.RunsOfJoin` | tests/unit_tests/stress_test.cpp:42-54 | Splitting space-free words joined by a space symbol gives back those words: split inverts join. |
| `Text.RunsWithin` | tests/unit_tests/stress_test.cpp:49-51 | When every non-space character of the text is in a set, so is every character of every word. |
| `Text.RejoinedText` | tests/unit_tests/stress_test.cpp:402-422 | The words joined by the space symbol hold the same non-space characters as the text. |
| `PairCounts.CountPairs` | tests/unit_tests/stress_test.cpp:106-115 | The counting loops compute the count table. Every counted pair has a count of at least 1, equal to the number of times the scan visits it. An absent pair is never visited. |
| `PairCounts.CountsMeaning` | tests/unit_tests/stress_test.cpp:108-115 | The table holds no zero count. It reads each pair's occurrence count under the scan's skip rule, and a pair is present exactly when it occurs. |
| `PairCounts.CountsEmpty` | tests/unit_tests/stress_test.cpp:108-115 | The table is empty exactly when every word has at most one id; this is when the round loop stops early. |
| `PairCounts.CountedPairOccurs` | tests/unit_tests/stress_test.cpp:108-115 | A counted pair occurs as two adjacent ids of some word. |
| `PairCounts.WordContribution` | tests/unit_tests/stress_test.cpp:109-114 | A word of n ids adds at most n-1 to the total of the counts. |
| `PairCounts.RunContribution` | tests/unit_tests/stress_test.cpp:111-113 | A maximal run of k equal ids `a` adds exactly k/2 (rounded down) to the count of (a, a); so "aaa" counts it once. |
| `CandidateOrder.StrictTotalOrder` | tests/unit_tests/stress_test.cpp:83-100 | The comparator is irreflexive, asymmetric and transitive, and it orders any two candidates whose pairs differ. |
| `CandidateOrder.MaxPair` | tests/unit_tests/stress_test.cpp:117-126 | A non-empty table has a pair that beats every other pair in it. |
| `CandidateOrder.BestUnique` | tests/unit_tests/stress_test.cpp:117-126 | At most one pair beats all others, so the order in which the table is visited does not matter. |
| `CandidateOrder.BestIsMaxPair` | tests/unit_tests/stress_test.cpp:117-126 | The best pair of a non-empty table exists and is the maximum. |
| `CandidateOrder.SelectBest` | tests/unit_tests/stress_test.cpp:117-126 | The running `best`, visiting the table in any order, stays at count -1 exactly when the table is empty. Otherwise it ends as the pair that beats every other, with its count. |
| `Merging.MergeWord` | tests/unit_tests/stress_test.cpp:138-143 | The in-place rewrite of one word is the left-to-right pass `Merge`. The word shrinks by the pair's count. When z is fresh, no x followed by y is left. |
| `Merging.RewriteCorpus` | tests/unit_tests/stress_test.cpp:137-144 | Every word is rewritten. The corpus shrinks by exactly the selected pair's count. |
| `Merging.MergeLength` | tests/unit_tests/stress_test.cpp:138-143 | A word shrinks by exactly the number of times the counting scan counts the pair in it. |
| `Merging.MergeRemovesPair` | tests/unit_tests/stress_test.cpp:138-143 | When z differs from x and y, the rewritten word holds no x immediately followed by y. |
| `Merging.MergeNoPair` | tests/unit_tests/stress_test.cpp:138-143 | A word that holds no x followed by y is left unchanged by the pass. |
| `Merging.MergeKeepsNoPair` | tests/unit_tests/stress_test.cpp:138-143 | The pass never creates an adjacent pair a, b when z is neither a nor b. |
| `Merging.MergeInverse` | tests/unit_tests/stress_test.cpp:138-143 | Expanding every z back into x, y restores the word when z did not occur in it: ids outside replaced pairs keep their order. |
| `Merging.MergeIds` | tests/unit_tests/stress_test.cpp:138-143 | The rewritten word holds only z and ids of the original word. |
| `Merging.MergeKeepsFlatten` | tests/unit_tests/stress_test.cpp:134-144 | When recipe[z] is recipe[x] followed by recipe[y], the rewrite keeps the concatenation of the recipes of a word. |
| `Merging.CorpusShrinksByCount` | tests/unit_tests/stress_test.cpp:137-144 | The total length of the corpus drops by exactly the selected pair's count. |
| `Merging.CorpusLosesPair` | tests/unit_tests/stress_test.cpp:137-144 | After a round no word holds the merged pair. |
| `Trainer.SplitWords` | tests/unit_tests/stress_test.cpp:42-54 | The splitting loops give one word per maximal run of non-spaces: the space symbol followed by the run's alphabet characters. |
| `Trainer.TakeWord` | tests/unit_tests/stress_test.cpp:47-53 | The inner loop stops at the first space or the end of the text. The word is the space symbol followed by the run's alphabet characters, in order. |
| `Trainer.CodeWords` | tests/unit_tests/stress_test.cpp:55-62 | Every character is replaced by its id, word for word. |
| `Trainer.SeedRecipe` | tests/unit_tests/stress_test.cpp:64-69 | The recipe table holds exactly the ids 2 to used_ids-1, each standing for itself. |
| `Trainer.WordsOfAlphabet` | tests/unit_tests/stress_test.cpp:47-53 | Every training word starts with the space symbol and holds only alphabet characters. |
| `Trainer.TrainingWordsWithin` | tests/unit_tests/stress_test.cpp:47-62 | Every coded id is an alphabet id, in [n_special, n_special + \|char2id\|). |
| `Trainer.PrepareCorpus` | tests/unit_tests/stress_test.cpp:25-62 | The coded corpus is the coded words of the cleaned text, and all its ids are alphabet ids. |
| `Trainer.BuildRecipeValid` | tests/unit_tests/stress_test.cpp:64-78 | With the rules as minted, the recipe table has the keys 2 to the last minted id. A seeded id stands for itself. Every recipe from n_special on is a non-empty word of alphabet ids. Both operands of every rule are present, and recipe[z] is recipe[x] followed by recipe[y]. |
| `Trainer.RulesKeepFlatten` | tests/unit_tests/stress_test.cpp:134-144 | After any number of rounds, every rewritten word's recipes concatenate to the word it came from. |
| `Trainer.ApplyRulesWithin` | tests/unit_tests/stress_test.cpp:131-144 | The rounds keep the number of words. They keep every id below the next free id. |
| `Trainer.AppliedHasNoRulePair` | tests/unit_tests/stress_test.cpp:131-144 | After the rules as minted, no word holds the pair of any rule: a later fresh id is never an operand of an earlier rule. |
| `Trainer.ApplyRulesNoPair` | tests/unit_tests/stress_test.cpp:131-144 | Rules whose pairs occur in no word leave the corpus unchanged. |
| `Trainer.ApplyRulesIdempotent` | tests/unit_tests/stress_test.cpp:131-144 | Applying the minted rules a second time to the rewritten corpus changes nothing. |
| `Trainer.TrainStep` | tests/unit_tests/stress_test.cpp:117-132 | A round that selects the best pair records it with the next free id and continues on the rewritten corpus. |
| `Trainer.TrainStops` | tests/unit_tests/stress_test.cpp:105-129 | Training records no rule once the next free id reaches `n_token` or the count table is empty. |
| `Trainer.TrainUnique` | tests/unit_tests/stress_test.cpp:105-145 | A rule list whose i-th rule is the best pair of the corpus after the first i rules, minted with consecutive ids, is the trainer's rule list. The list must either reach `n_token` or end on a corpus with no pair left. |
| `Trainer.LearnRules` | tests/unit_tests/stress_test.cpp:103-145 | The round loop. It returns the trainer's rule list. A loop invariant keeps its local recipe table equal to the table `BuildRecipe` builds from the rules so far. The i-th rule is the best pair of the corpus after i rounds, and z is the (used0 + i)-th id. Both operands are below z. There are at most n_token - used0 rules, and fewer only when no pair is left. |
| `Trainer.LearnBpeSlow` | tests/unit_tests/stress_test.cpp:24-149 | `learn_bpe_slow` keeps `char2id` and the special tokens. Its rules are the trained rule list of the coded training words, with the minting, count-bound, per-round-best and early-stop facts of `LearnRules`. |
| `Encoder.PrepareInput` | tests/unit_tests/stress_test.cpp:159-165 | Spaces become the space symbol, then trailing space symbols are popped. |
| `Encoder.SkipUnknown` | tests/unit_tests/stress_test.cpp:184-185 | The inner loop stops at the end of the maximal stretch of unknown characters. |
| `Encoder.NextNode` | tests/unit_tests/stress_test.cpp:183-191 | One pass of the run loop takes exactly the first node of the rest of the run's segmentation and moves past its characters. |
| `Encoder.TakeRun` | tests/unit_tests/stress_test.cpp:180-192 | A word is the space node followed by the segmentation of the run, and the loop ends at the first space. |
| `Encoder.SplitToNodes` | tests/unit_tests/stress_test.cpp:172-193 | The splitting loops give one node word per maximal run of non-spaces. |
| `Encoder.SegmentMeaning` | tests/unit_tests/stress_test.cpp:183-191 | Every node is either an unknown node or spellable. An unknown node carries a non-empty stretch of non-alphabet, non-space characters. No two unknown nodes are adjacent. The nodes' pieces spell the run. Every node without the unknown id stands for exactly one alphabet character, so each unknown stretch is maximal. |
| `Encoder.SegmentCharNodes` | tests/unit_tests/stress_test.cpp:188-191 | A node that does not carry the unknown id has no characters of its own, carries an alphabet character's id, and its piece is that one character. |
| `Encoder.SplitNodesMeaning` | tests/unit_tests/stress_test.cpp:172-193 | One node word per run, all nodes well formed. Word k spells the space symbol followed by run k. |
| `Encoder.MergeNodeWord` | tests/unit_tests/stress_test.cpp:197-202 | The in-place rewrite of a node word is the pass `MergeNodes`. |
| `Encoder.MergeNodesVals` | tests/unit_tests/stress_test.cpp:197-202 | On ids, the encoder's rewrite is the trainer's rewrite. |
| `Encoder.MergeNodesOk` | tests/unit_tests/stress_test.cpp:197-202 | A valid rule keeps every node well formed. |
| `Encoder.MergeNodesText` | tests/unit_tests/stress_test.cpp:197-202 | A valid rule keeps the text a node word spells. |
| `Encoder.ApplyRulesToNodes` | tests/unit_tests/stress_test.cpp:195-204 | The rule loops apply every rule in order to every word. |
| `Encoder.ApplyToNodesMeaning` | tests/unit_tests/stress_test.cpp:195-204 | The rules of a valid encoder keep the number of words, the well-formedness of nodes and the text of every word. |
| `Encoder.MergeNodesNoPair` | tests/unit_tests/stress_test.cpp:197-202 | A node word whose ids hold no x followed by y is left unchanged. |
| `Encoder.ApplyToNodesNoPair` | tests/unit_tests/stress_test.cpp:195-204 | Rules whose pairs occur in no node word leave the words unchanged. |
| `Encoder.ApplyToNodesIdempotent` | tests/unit_tests/stress_test.cpp:195-204 | Running the encoder's rule loops again on words they have already rewritten changes nothing. |
| `Encoder.NodePiece` | tests/unit_tests/stress_test.cpp:211-219 | A node's piece is its own stretch for the unknown id; otherwise it is its recipe spelled through `id2char`, one character per recipe id. |
| `Encoder.CollectWord` | tests/unit_tests/stress_test.cpp:208-220 | One word adds its ids and its pieces, node by node, after those collected so far. |
| `Encoder.CollectOutput` | tests/unit_tests/stress_test.cpp:206-223 | The output loops emit the ids and pieces of all nodes in order. The recipe and character lookups never fail on well-formed nodes. |
| `Encoder.OutputMeaning` | tests/unit_tests/stress_test.cpp:206-223 | There are as many ids as pieces. An unknown id's piece is its non-empty stretch of characters. Any other id has a recipe, and its piece spells it. |
| `Encoder.PiecesSpellText` | tests/unit_tests/stress_test.cpp:206-223 | The pieces concatenated are the words' texts joined by the space symbol. |
| `Encoder.DecodeMeaning` | tests/unit_tests/stress_test.cpp:402-422 | With valid tables, the pieces spell the words of the text joined by the space symbol. They hold the text's non-space characters, in order: the test's round trip. |
| `Encoder.DecodeSlow` | tests/unit_tests/stress_test.cpp:151-226 | `decode_slow` returns the specified ids and pieces, which meet `OutputOk` and the round trip. |
| `Encoder.TrainedModelIsValid` | tests/unit_tests/stress_test.cpp:64-78 | Tables built as the trainer builds its recipe, with `id2char` inverting the alphabet and the unknown id below the alphabet, satisfy what the encoder relies on. |
| `Encoder.SeedSurvives` | tests/unit_tests/stress_test.cpp:64-78 | An alphabet id keeps its seed recipe `[id]` whatever rules are minted after it. |
| `Encoder.SegmentOfKnown` | tests/unit_tests/stress_test.cpp:188-191 | With every character known, the nodes of a run carry its coded characters. |
| `Encoder.ApplyToNodesVals` | tests/unit_tests/stress_test.cpp:195-204 | The same rules applied to node words and to their id words keep the ids equal. |
| `Encoder.KnownTextCorpus` | tests/unit_tests/stress_test.cpp:25-62 | For a text whose non-space characters are all known and none removed, training word k is the coded run k of the encoder's prepared text. |
| `Encoder.EncoderMatchesTrainer` | tests/unit_tests/stress_test.cpp:195-210 | Encoding such a text gives, word for word, the ids of the trainer's corpus after the same rules. The output ids are that corpus concatenated. |

## Left out

- `youtokentome/youtokentome.py` is left out. It only forwards to a compiled extension and handles files.
- The UTF-8 codec `decode_utf8` and `encode_utf8` is left out. Texts and pieces are code-point sequences, so a piece is modelled before `encode_utf8`.
- `is_space` is not part of this model. It is the set `spaces`, which is assumed to contain the space symbol (so `is_space(SPACE_TOKEN)` holds).
- `compute_alphabet` and `remove_rare_chars` are not part of this model. Their results, `char2id` and the removed set, are inputs. The ids are assumed to lie in [n_special, n_special + |char2id|).
- `n_special_tokens()` is an input `nSpecial`, and the trainer requires it to be at least 2. Below 2, the asserts at lines 72-73 could fail for operand ids under 2.
- `Trainer.LearnBpeSlow` requires the space symbol to be in `char2id`. Without it, `char2id[ch]` at line 60 is `operator[]` on the hash map, which inserts the space symbol with id 0 rather than failing. Every word then starts with id 0, the returned `char2id` carries that extra entry, and the asserts at lines 72-73 fire only if a pair containing 0 is ever selected (id 0 has no seeded recipe). That case is not modelled.
- `Encoder.DecodeSlow` requires the space symbol to have an id, as part of `EncoderValid`. Without one, `char2id.at(SPACE_TOKEN)` at line 180 throws as soon as the text has a non-space character. That exception path is not modelled.
- `recipe_s` and the trainer's `id2char` (lines 36-39, 65, 68, 135) are left out. They do not reach the returned state.
- `BaseEncoder` construction is not part of this model. `id2char` and `recipe` are inputs, and `EncoderValid` states what `decode_slow` relies on. `Encoder.TrainedModelIsValid` shows that tables built from a trained state meet it.
- `Encoder.DecodeSlow` requires `unk_id >= 0`, as part of `EncoderValid`. Line 186 is the only place that puts `unk_id` into a node, so the source also accepts a negative `unk_id` when every character of the text is known, and then finishes normally. That case is not covered. When some character is unknown, line 186 casts the negative id to a large unsigned value, line 211 compares unequal, and `recipe.at` at line 214 throws.
- The 32-bit widths of ids and counts are not modelled: ids and counts are unbounded. The source's values stay far below 2^31.
- The iteration order of `std::map` in the selection loop is left open: `SelectBest` visits the table in any order. This is enough because the best pair is unique (`CandidateOrder.BestUnique`).
- The optimized trainer and encoder (`learn_bpe_from_string`, `BaseEncoder::encode_*`) and their parity assertions are not part of this model.
- Multithreading is not part of this model.
- `generate_text`, `manual_test`, `parallel_test`, `base_stress` and `main` are left out. They are random test drivers, console output and argument parsing.
