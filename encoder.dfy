/** The reference encoder `decode_slow`: the text is split into words of
    nodes, every rule is applied in order to every word, and every node yields
    an id and the piece of text it stands for.

    The encoder's tables (`id2char` and the recipe table of `BaseEncoder`) are
    built outside this model; `EncoderValid` states what the encoder relies on
    them for, and `TrainedModelIsValid` shows that the trainer's output meets
    it. */
module Encoder {
  import opened Text
  import opened Merging
  import opened Trainer

  /** A node of a word: its id and, for a run of unknown characters, the
      characters it covers. */
  datatype Node = Node(val: nat, newChars: seq<nat>)

  /** The ids of an encoding and the piece of text of each id. */
  datatype DecodeResult = DecodeResult(ids: seq<nat>, pieces: seq<seq<nat>>)

  /** What `decode_slow` reads of a `BaseEncoder`: the trained state, the
      inverse alphabet and the recipe table. */
  datatype BaseEncoder = BaseEncoder(state: BpeState, id2char: map<nat, nat>, recipe: map<nat, seq<nat>>)

  /** The id spells a word of characters: it has a recipe and every id of the
      recipe has a character. */
  predicate Spellable(enc: BaseEncoder, id: nat)
  {
    id in enc.recipe && forall j :: 0 <= j < |enc.recipe[id]| ==> enc.recipe[id][j] in enc.id2char
  }

  /** The tables the encoder relies on: the unknown id is set; the space
      token is a space and has an id; every character's id differs from the
      unknown id, stands for itself in the recipe table and maps back to the
      character; every rule's ids differ from the unknown id, and the recipe
      of z is that of x followed by that of y and spells a word. */
  predicate EncoderValid(enc: BaseEncoder, sp: Whitespace)
  {
    var char2id := enc.state.char2id;
    var unk := enc.state.specialTokens.unkId;
    unk >= 0 && sp.token in sp.spaces && sp.token in char2id &&
    (forall c :: c in char2id ==>
       char2id[c] != unk && char2id[c] in enc.recipe && enc.recipe[char2id[c]] == [char2id[c]] &&
       char2id[c] in enc.id2char && enc.id2char[char2id[c]] == c) &&
    forall i :: 0 <= i < |enc.state.rules| ==> RuleOk(enc, enc.state.rules[i])
  }

  /** A rule's ids differ from the unknown id, and the recipe of z is that of
      x followed by that of y and spells a word. */
  predicate RuleOk(enc: BaseEncoder, r: Rule)
  {
    var unk := enc.state.specialTokens.unkId;
    r.x != unk && r.y != unk && r.z != unk &&
    r.x in enc.recipe && r.y in enc.recipe && Spellable(enc, r.z) &&
    enc.recipe[r.z] == enc.recipe[r.x] + enc.recipe[r.y]
  }

  // ---------------------------------------------------------------------------
  // Specification: splitting into node words

  /** The text the encoder splits: spaces mapped to the space token, trailing
      space tokens cut. */
  function PrepareText(text: seq<nat>, sp: Whitespace): seq<nat>
  {
    TrimEnd(Normalize(text, sp.spaces, sp.token), {sp.token})
  }

  /** The nodes of one run of non-spaces: a node per alphabet character, and
      one node with the unknown id per maximal stretch of characters outside
      the alphabet, carrying those characters. */
  function Segment(run: seq<nat>, char2id: map<nat, nat>, unk: nat): seq<Node>
    decreases |run|
  {
    if run == [] then []
    else if run[0] in char2id then [Node(char2id[run[0]], [])] + Segment(run[1..], char2id, unk)
    else
      var k := RunEnd(run, char2id.Keys);
      [Node(unk, run[..k])] + Segment(run[k..], char2id, unk)
  }

  /** One node word per run: the space token's node, then the run's nodes. */
  function NodeWords(runs: seq<seq<nat>>, char2id: map<nat, nat>, token: nat, unk: nat): seq<seq<Node>>
  {
    seq(|runs|, k requires 0 <= k < |runs| => [Node(IdOf(char2id, token), [])] + Segment(runs[k], char2id, unk))
  }

  function SplitNodes(s: seq<nat>, sp: Whitespace, char2id: map<nat, nat>, unk: nat): seq<seq<Node>>
  {
    NodeWords(Runs(s, sp.spaces), char2id, sp.token, unk)
  }

  // ---------------------------------------------------------------------------
  // Specification: applying the rules

  /** One rewrite pass of (x, y -> z) over a node word; the merged node keeps
      the left node's characters. */
  function MergeNodes(v: seq<Node>, x: nat, y: nat, z: nat): seq<Node>
    decreases |v|
  {
    if |v| < 2 then v
    else if v[0].val == x && v[1].val == y then [v[0].(val := z)] + MergeNodes(v[2..], x, y, z)
    else [v[0]] + MergeNodes(v[1..], x, y, z)
  }

  function MergeNodeWords(ws: seq<seq<Node>>, x: nat, y: nat, z: nat): seq<seq<Node>>
  {
    seq(|ws|, k requires 0 <= k < |ws| => MergeNodes(ws[k], x, y, z))
  }

  /** The node words after the rules are applied in order. */
  function ApplyToNodes(ws: seq<seq<Node>>, rules: seq<Rule>): seq<seq<Node>>
    decreases |rules|
  {
    if rules == [] then ws
    else
      var r := rules[|rules| - 1];
      MergeNodeWords(ApplyToNodes(ws, rules[..|rules| - 1]), r.x, r.y, r.z)
  }

  // ---------------------------------------------------------------------------
  // Specification: the output

  function Vals(v: seq<Node>): seq<nat>
  {
    seq(|v|, i requires 0 <= i < |v| => v[i].val)
  }

  /** The characters of a recipe. */
  function Spell(ids: seq<nat>, id2char: map<nat, nat>): seq<nat>
  {
    seq(|ids|, i requires 0 <= i < |ids| => IdOf(id2char, ids[i]))
  }

  /** The piece of a node: its own characters for the unknown id, the
      characters of its recipe otherwise. */
  function Piece(enc: BaseEncoder, u: Node): seq<nat>
  {
    if u.val == enc.state.specialTokens.unkId then u.newChars
    else Spell(RecipeOf(enc.recipe, u.val), enc.id2char)
  }

  function Pieces(enc: BaseEncoder, v: seq<Node>): seq<seq<nat>>
  {
    seq(|v|, i requires 0 <= i < |v| => Piece(enc, v[i]))
  }

  function AllIds(ws: seq<seq<Node>>): seq<nat>
    decreases |ws|
  {
    if ws == [] then [] else AllIds(ws[..|ws| - 1]) + Vals(ws[|ws| - 1])
  }

  function AllPieces(enc: BaseEncoder, ws: seq<seq<Node>>): seq<seq<nat>>
    decreases |ws|
  {
    if ws == [] then [] else AllPieces(enc, ws[..|ws| - 1]) + Pieces(enc, ws[|ws| - 1])
  }

  /** The node words `decode_slow` ends with. */
  function FinalNodes(text: seq<nat>, enc: BaseEncoder, sp: Whitespace): seq<seq<Node>>
    requires enc.state.specialTokens.unkId >= 0
  {
    var unk := enc.state.specialTokens.unkId as nat;
    ApplyToNodes(SplitNodes(PrepareText(text, sp), sp, enc.state.char2id, unk), enc.state.rules)
  }

  /** The result of `decode_slow`. */
  function Decode(text: seq<nat>, enc: BaseEncoder, sp: Whitespace): DecodeResult
    requires enc.state.specialTokens.unkId >= 0
  {
    var ws := FinalNodes(text, enc, sp);
    DecodeResult(AllIds(ws), AllPieces(enc, ws))
  }

  /** Ids and pieces line up; an unknown id's piece is a non-empty stretch of
      characters that are neither spaces nor in the alphabet; any other id has
      a recipe and its piece spells it. */
  predicate OutputOk(enc: BaseEncoder, sp: Whitespace, res: DecodeResult)
  {
    |res.ids| == |res.pieces| &&
    forall j :: 0 <= j < |res.ids| ==>
      if res.ids[j] == enc.state.specialTokens.unkId then
        res.pieces[j] != [] &&
        forall m :: 0 <= m < |res.pieces[j]| ==> res.pieces[j][m] !in enc.state.char2id && res.pieces[j][m] !in sp.spaces
      else
        Spellable(enc, res.ids[j]) && res.pieces[j] == Spell(enc.recipe[res.ids[j]], enc.id2char)
  }

  // ---------------------------------------------------------------------------
  // Well-formed node words

  /** A node either carries the unknown id and a non-empty stretch of
      characters that are neither spaces nor in the alphabet, or carries an id
      that spells a word. */
  predicate NodeOk(enc: BaseEncoder, sp: Whitespace, u: Node)
  {
    if u.val == enc.state.specialTokens.unkId then
      u.newChars != [] &&
      forall j :: 0 <= j < |u.newChars| ==> u.newChars[j] !in enc.state.char2id && u.newChars[j] !in sp.spaces
    else Spellable(enc, u.val)
  }

  predicate WordsOk(enc: BaseEncoder, sp: Whitespace, ws: seq<seq<Node>>)
  {
    forall k, i :: 0 <= k < |ws| && 0 <= i < |ws[k]| ==> NodeOk(enc, sp, ws[k][i])
  }

  /** The text a node word stands for. */
  function TextOf(enc: BaseEncoder, v: seq<Node>): seq<nat>
  {
    Concat(Pieces(enc, v))
  }

  // ---------------------------------------------------------------------------
  // Splitting

  /** The nodes of a run are well formed, no two unknown nodes are adjacent,
      every other node stands for one alphabet character (so each unknown
      node covers a maximal stretch), and their pieces spell the run. */
  lemma SegmentMeaning(enc: BaseEncoder, sp: Whitespace, run: seq<nat>)
    requires EncoderValid(enc, sp)
    requires SpaceFree(run, sp.spaces)
    ensures var seg := Segment(run, enc.state.char2id, enc.state.specialTokens.unkId as nat);
            (forall i :: 0 <= i < |seg| ==> NodeOk(enc, sp, seg[i])) &&
            (forall i :: 0 <= i < |seg| - 1 ==>
               !(seg[i].val == enc.state.specialTokens.unkId && seg[i + 1].val == enc.state.specialTokens.unkId)) &&
            (forall i :: 0 <= i < |seg| && seg[i].val != enc.state.specialTokens.unkId ==> CharNode(enc, seg[i])) &&
            TextOf(enc, seg) == run
  {
    SegmentNodesOk(enc, sp, run);
    SegmentText(enc, sp, run);
    SegmentCharNodes(enc, sp, run);
  }

  /** A node that stands for one alphabet character: no characters of its
      own, the character's id, and a piece that is that character. */
  predicate CharNode(enc: BaseEncoder, u: Node)
  {
    var piece := Piece(enc, u);
    u.newChars == [] && |piece| == 1 && piece[0] in enc.state.char2id && u.val == enc.state.char2id[piece[0]]
  }

  /** Every node of a run that does not carry the unknown id stands for one
      alphabet character; so an unknown stretch is never followed by a
      character the alphabet lacks. */
  lemma {:induction false} SegmentCharNodes(enc: BaseEncoder, sp: Whitespace, run: seq<nat>)
    requires EncoderValid(enc, sp)
    ensures var seg := Segment(run, enc.state.char2id, enc.state.specialTokens.unkId as nat);
            forall i :: 0 <= i < |seg| && seg[i].val != enc.state.specialTokens.unkId ==> CharNode(enc, seg[i])
    decreases |run|
  {
    var char2id := enc.state.char2id;
    var unk := enc.state.specialTokens.unkId as nat;
    if run != [] {
      var head, t := SegmentHead(run, char2id, unk);
      var rest := Segment(run[t..], char2id, unk);
      SegmentCharNodes(enc, sp, run[t..]);
      if run[0] in char2id {
        var c := run[0];
        assert RecipeOf(enc.recipe, char2id[c]) == [char2id[c]];
        assert Piece(enc, head) == [c];
      }
      var seg := [head] + rest;
      forall i | 0 <= i < |seg| && seg[i].val != unk ensures CharNode(enc, seg[i]) {
        if i > 0 {
          assert seg[i] == rest[i - 1];
        }
      }
    }
  }

  /** The first node of a non-empty run and where the rest of the run starts. */
  lemma SegmentHead(run: seq<nat>, char2id: map<nat, nat>, unk: nat) returns (head: Node, t: nat)
    requires run != []
    ensures 1 <= t <= |run|
    ensures Segment(run, char2id, unk) == [head] + Segment(run[t..], char2id, unk)
    ensures run[0] in char2id ==> t == 1 && head == Node(char2id[run[0]], [])
    ensures run[0] !in char2id ==>
              head == Node(unk, run[..t]) && (t < |run| ==> run[t] in char2id) &&
              forall m :: 0 <= m < t ==> run[m] !in char2id
  {
    if run[0] in char2id {
      head, t := Node(char2id[run[0]], []), 1;
    } else {
      t := RunEnd(run, char2id.Keys);
      head := Node(unk, run[..t]);
    }
  }

  lemma {:induction false} SegmentNodesOk(enc: BaseEncoder, sp: Whitespace, run: seq<nat>)
    requires EncoderValid(enc, sp)
    requires SpaceFree(run, sp.spaces)
    ensures var seg := Segment(run, enc.state.char2id, enc.state.specialTokens.unkId as nat);
            (forall i :: 0 <= i < |seg| ==> NodeOk(enc, sp, seg[i])) &&
            (forall i :: 0 <= i < |seg| - 1 ==>
               !(seg[i].val == enc.state.specialTokens.unkId && seg[i + 1].val == enc.state.specialTokens.unkId))
    decreases |run|
  {
    var char2id := enc.state.char2id;
    var unk := enc.state.specialTokens.unkId as nat;
    if run != [] {
      var head, t := SegmentHead(run, char2id, unk);
      var rest := Segment(run[t..], char2id, unk);
      assert SpaceFree(run[t..], sp.spaces) by {
        forall m | 0 <= m < |run[t..]| ensures run[t..][m] !in sp.spaces {
          assert run[t..][m] == run[t + m];
        }
      }
      SegmentNodesOk(enc, sp, run[t..]);
      var seg := [head] + rest;
      assert NodeOk(enc, sp, head);
      if rest != [] && run[0] !in char2id {
        var h2, t2 := SegmentHead(run[t..], char2id, unk);
        assert rest[0] == h2;
        assert h2.val != unk;
      }
      forall i | 0 <= i < |seg| ensures NodeOk(enc, sp, seg[i]) {
        if i > 0 {
          assert seg[i] == rest[i - 1];
        }
      }
      forall i | 0 <= i < |seg| - 1 ensures !(seg[i].val == unk && seg[i + 1].val == unk) {
        if i > 0 {
          assert seg[i] == rest[i - 1] && seg[i + 1] == rest[i];
        }
      }
    }
  }

  lemma {:induction false} SegmentText(enc: BaseEncoder, sp: Whitespace, run: seq<nat>)
    requires EncoderValid(enc, sp)
    ensures TextOf(enc, Segment(run, enc.state.char2id, enc.state.specialTokens.unkId as nat)) == run
    decreases |run|
  {
    var char2id := enc.state.char2id;
    var unk := enc.state.specialTokens.unkId as nat;
    if run != [] {
      var head, t := SegmentHead(run, char2id, unk);
      var rest := Segment(run[t..], char2id, unk);
      SegmentText(enc, sp, run[t..]);
      TextOfCons(enc, head, rest);
      if run[0] in char2id {
        assert Spell([char2id[run[0]]], enc.id2char) == [run[0]];
        assert run[..t] == [run[0]];
      }
      assert Piece(enc, head) == run[..t];
      assert run == run[..t] + run[t..];
    }
  }

  /** The node words of a text: well formed, and word k spells the space
      token followed by run k. */
  lemma SplitNodesMeaning(enc: BaseEncoder, sp: Whitespace, s: seq<nat>)
    requires EncoderValid(enc, sp)
    ensures var runs := Runs(s, sp.spaces);
            var ws := SplitNodes(s, sp, enc.state.char2id, enc.state.specialTokens.unkId as nat);
            |ws| == |runs| && WordsOk(enc, sp, ws) &&
            forall k :: 0 <= k < |ws| ==> TextOf(enc, ws[k]) == [sp.token] + runs[k]
  {
    var runs := Runs(s, sp.spaces);
    var unk := enc.state.specialTokens.unkId as nat;
    var ws := SplitNodes(s, sp, enc.state.char2id, unk);
    RunsShape(s, sp.spaces);
    forall k | 0 <= k < |ws|
      ensures forall i :: 0 <= i < |ws[k]| ==> NodeOk(enc, sp, ws[k][i])
      ensures TextOf(enc, ws[k]) == [sp.token] + runs[k]
    {
      NodeWordMeaning(enc, sp, runs[k]);
    }
  }

  /** The node word of one run: well formed, and it spells the space token
      followed by the run. */
  lemma NodeWordMeaning(enc: BaseEncoder, sp: Whitespace, run: seq<nat>)
    requires EncoderValid(enc, sp)
    requires SpaceFree(run, sp.spaces)
    ensures var w := [Node(IdOf(enc.state.char2id, sp.token), [])] + Segment(run, enc.state.char2id, enc.state.specialTokens.unkId as nat);
            (forall i :: 0 <= i < |w| ==> NodeOk(enc, sp, w[i])) && TextOf(enc, w) == [sp.token] + run
  {
    var unk := enc.state.specialTokens.unkId as nat;
    var spaceNode := Node(enc.state.char2id[sp.token], []);
    var seg := Segment(run, enc.state.char2id, unk);
    var w := [spaceNode] + seg;
    SegmentNodesOk(enc, sp, run);
    SegmentText(enc, sp, run);
    assert Piece(enc, spaceNode) == [sp.token] by {
      assert Spell([enc.state.char2id[sp.token]], enc.id2char) == [sp.token];
    }
    TextOfCons(enc, spaceNode, seg);
    assert NodeOk(enc, sp, spaceNode);
    forall i | 0 <= i < |w| ensures NodeOk(enc, sp, w[i]) {
      if i > 0 {
        assert w[i] == seg[i - 1];
      }
    }
  }

  // ---------------------------------------------------------------------------
  // Rewriting node words

  /** On ids, the node rewrite is the trainer's rewrite. */
  lemma {:induction false} MergeNodesVals(v: seq<Node>, x: nat, y: nat, z: nat)
    ensures Vals(MergeNodes(v, x, y, z)) == Merge(Vals(v), x, y, z)
    decreases |v|
  {
    if |v| >= 2 {
      var t := if v[0].val == x && v[1].val == y then 2 else 1;
      var u := if t == 2 then v[0].(val := z) else v[0];
      var rest := MergeNodes(v[t..], x, y, z);
      MergeNodesVals(v[t..], x, y, z);
      assert MergeNodes(v, x, y, z) == [u] + rest;
      ValsCons(u, rest);
      assert Vals(v)[t..] == Vals(v[t..]);
      assert Merge(Vals(v), x, y, z) == [u.val] + Merge(Vals(v)[t..], x, y, z);
    }
  }

  lemma ValsCons(u: Node, w: seq<Node>)
    ensures Vals([u] + w) == [u.val] + Vals(w)
  {
  }

  lemma SpellAppend(a: seq<nat>, b: seq<nat>, id2char: map<nat, nat>)
    ensures Spell(a + b, id2char) == Spell(a, id2char) + Spell(b, id2char)
  {
  }

  /** A valid rule keeps node words well formed. */
  lemma {:induction false} MergeNodesOk(enc: BaseEncoder, sp: Whitespace, v: seq<Node>, r: Rule)
    requires RuleOk(enc, r)
    requires forall i :: 0 <= i < |v| ==> NodeOk(enc, sp, v[i])
    ensures forall i :: 0 <= i < |MergeNodes(v, r.x, r.y, r.z)| ==> NodeOk(enc, sp, MergeNodes(v, r.x, r.y, r.z)[i])
    decreases |v|
  {
    var m := MergeNodes(v, r.x, r.y, r.z);
    if |v| >= 2 {
      var t := if v[0].val == r.x && v[1].val == r.y then 2 else 1;
      var rest := MergeNodes(v[t..], r.x, r.y, r.z);
      MergeNodesOk(enc, sp, v[t..], r);
      assert m == [m[0]] + rest;
      forall i | 0 <= i < |m| ensures NodeOk(enc, sp, m[i]) {
        if i > 0 {
          assert m[i] == rest[i - 1];
        }
      }
    }
  }

  lemma TextOfCons(enc: BaseEncoder, u: Node, v: seq<Node>)
    ensures TextOf(enc, [u] + v) == Piece(enc, u) + TextOf(enc, v)
  {
    assert Pieces(enc, [u] + v) == [Piece(enc, u)] + Pieces(enc, v);
    assert ([Piece(enc, u)] + Pieces(enc, v))[1..] == Pieces(enc, v);
  }

  /** A valid rule keeps the text a node word spells. */
  lemma {:induction false} MergeNodesText(enc: BaseEncoder, v: seq<Node>, r: Rule)
    requires RuleOk(enc, r)
    ensures TextOf(enc, MergeNodes(v, r.x, r.y, r.z)) == TextOf(enc, v)
    decreases |v|
  {
    if |v| >= 2 {
      var t := if v[0].val == r.x && v[1].val == r.y then 2 else 1;
      var rest := MergeNodes(v[t..], r.x, r.y, r.z);
      MergeNodesText(enc, v[t..], r);
      var u := MergeNodes(v, r.x, r.y, r.z)[0];
      assert MergeNodes(v, r.x, r.y, r.z) == [u] + rest;
      TextOfCons(enc, u, rest);
      assert v == [v[0]] + v[1..];
      TextOfCons(enc, v[0], v[1..]);
      if t == 2 {
        assert v[1..] == [v[1]] + v[2..];
        TextOfCons(enc, v[1], v[2..]);
        SpellAppend(enc.recipe[r.x], enc.recipe[r.y], enc.id2char);
        assert Piece(enc, u) == Piece(enc, v[0]) + Piece(enc, v[1]);
      }
    }
  }

  /** The rules of a valid encoder keep node words well formed and keep the
      text each word spells. */
  lemma {:induction false} ApplyToNodesMeaning(enc: BaseEncoder, sp: Whitespace, ws: seq<seq<Node>>, rules: seq<Rule>)
    requires forall i :: 0 <= i < |rules| ==> RuleOk(enc, rules[i])
    requires WordsOk(enc, sp, ws)
    ensures |ApplyToNodes(ws, rules)| == |ws|
    ensures WordsOk(enc, sp, ApplyToNodes(ws, rules))
    ensures forall k :: 0 <= k < |ws| ==> TextOf(enc, ApplyToNodes(ws, rules)[k]) == TextOf(enc, ws[k])
    decreases |rules|
  {
    if rules != [] {
      var n := |rules| - 1;
      var r := rules[n];
      var pre := ApplyToNodes(ws, rules[..n]);
      ApplyToNodesMeaning(enc, sp, ws, rules[..n]);
      forall k | 0 <= k < |pre|
        ensures forall i :: 0 <= i < |MergeNodes(pre[k], r.x, r.y, r.z)| ==> NodeOk(enc, sp, MergeNodes(pre[k], r.x, r.y, r.z)[i])
        ensures TextOf(enc, MergeNodes(pre[k], r.x, r.y, r.z)) == TextOf(enc, pre[k])
      {
        MergeNodesOk(enc, sp, pre[k], r);
        MergeNodesText(enc, pre[k], r);
      }
    }
  }

  // ---------------------------------------------------------------------------
  // The output

  /** The output of well-formed node words meets OutputOk. */
  lemma {:induction false} OutputMeaning(enc: BaseEncoder, sp: Whitespace, ws: seq<seq<Node>>)
    requires WordsOk(enc, sp, ws)
    ensures OutputOk(enc, sp, DecodeResult(AllIds(ws), AllPieces(enc, ws)))
    decreases |ws|
  {
    if ws != [] {
      var n := |ws| - 1;
      var w := ws[n];
      OutputMeaning(enc, sp, ws[..n]);
      var a := AllIds(ws[..n]);
      var p := AllPieces(enc, ws[..n]);
      var ids := AllIds(ws);
      var pieces := AllPieces(enc, ws);
      assert ids == a + Vals(w) && pieces == p + Pieces(enc, w);
      forall j | |a| <= j < |ids|
        ensures ids[j] == w[j - |a|].val && pieces[j] == Piece(enc, w[j - |a|]) && NodeOk(enc, sp, w[j - |a|])
      {
      }
    }
  }

  /** The pieces together spell the words' texts joined: every word spells the
      space token followed by its run. */
  lemma {:induction false} PiecesSpellText(enc: BaseEncoder, ws: seq<seq<Node>>, runs: seq<seq<nat>>, token: nat)
    requires |ws| == |runs|
    requires forall k :: 0 <= k < |ws| ==> TextOf(enc, ws[k]) == [token] + runs[k]
    ensures Concat(AllPieces(enc, ws)) == JoinSpaced(runs, token)
    decreases |ws|
  {
    if ws != [] {
      var n := |ws| - 1;
      assert forall k :: 0 <= k < n ==> ws[..n][k] == ws[k] && runs[..n][k] == runs[k];
      PiecesSpellText(enc, ws[..n], runs[..n], token);
      var front := AllPieces(enc, ws[..n]);
      assert AllPieces(enc, ws) == front + Pieces(enc, ws[n]);
      ConcatAppend(front, Pieces(enc, ws[n]));
      assert Concat(Pieces(enc, ws[n])) == [token] + runs[n];
      assert runs == runs[..n] + [runs[n]];
      JoinSpacedSnoc(runs[..n], runs[n], token);
    }
  }

  /** `decode_slow` with valid tables: ids and pieces line up as OutputOk
      says; the pieces spell the text with every stretch of spaces before a
      word turned into one space token and trailing spaces dropped; and so
      they hold the text's non-space characters, in order. */
  lemma DecodeMeaning(text: seq<nat>, enc: BaseEncoder, sp: Whitespace)
    requires EncoderValid(enc, sp)
    ensures OutputOk(enc, sp, Decode(text, enc, sp))
    ensures Concat(Decode(text, enc, sp).pieces) == JoinSpaced(Runs(PrepareText(text, sp), sp.spaces), sp.token)
    ensures NoSpace(Concat(Decode(text, enc, sp).pieces), sp.spaces) == NoSpace(text, sp.spaces)
  {
    var s := PrepareText(text, sp);
    var unk := enc.state.specialTokens.unkId as nat;
    var ws0 := SplitNodes(s, sp, enc.state.char2id, unk);
    SplitNodesMeaning(enc, sp, s);
    ApplyToNodesMeaning(enc, sp, ws0, enc.state.rules);
    var ws := FinalNodes(text, enc, sp);
    OutputMeaning(enc, sp, ws);
    PiecesSpellText(enc, ws, Runs(s, sp.spaces), sp.token);
    RejoinedText(s, sp.token, sp.spaces);
    NoSpaceOfTrimmed(Normalize(text, sp.spaces, sp.token), {sp.token}, sp.spaces);
    NormalizeKeepsNoSpace(text, sp.spaces, sp.token);
  }

  // ---------------------------------------------------------------------------
  // The encoder, step by step

  /** Spaces mapped to the space token, then trailing space tokens popped. */
  method PrepareInput(text0: seq<nat>, sp: Whitespace) returns (text: seq<nat>)
    ensures text == PrepareText(text0, sp)
  {
    text := MapSpaces(text0, sp.spaces, sp.token);
    text := TrimTrailing(text, {sp.token});
  }

  lemma NodeSplitSkip(s: seq<nat>, i: nat, j: nat, sp: Whitespace, char2id: map<nat, nat>, unk: nat)
    requires i <= j <= |s|
    requires forall k :: i <= k < j ==> s[k] in sp.spaces
    ensures SplitNodes(s[i..], sp, char2id, unk) == SplitNodes(s[j..], sp, char2id, unk)
  {
    RunsSkipSpaces(s, i, j, sp.spaces);
  }

  lemma NodeSplitTake(s: seq<nat>, j: nat, k: nat, sp: Whitespace, char2id: map<nat, nat>, unk: nat)
    requires j < k <= |s|
    requires forall m :: j <= m < k ==> s[m] !in sp.spaces
    requires k < |s| ==> s[k] in sp.spaces
    ensures SplitNodes(s[j..], sp, char2id, unk)
         == [[Node(IdOf(char2id, sp.token), [])] + Segment(s[j..k], char2id, unk)] + SplitNodes(s[k..], sp, char2id, unk)
  {
    RunsTakeWord(s, j, k, sp.spaces);
    NodeWordsCons(s[j..k], Runs(s[k..], sp.spaces), char2id, sp.token, unk);
  }

  /** The node words of a run followed by more runs. */
  lemma NodeWordsCons(run: seq<nat>, rest: seq<seq<nat>>, char2id: map<nat, nat>, token: nat, unk: nat)
    ensures NodeWords([run] + rest, char2id, token, unk)
         == [[Node(IdOf(char2id, token), [])] + Segment(run, char2id, unk)] + NodeWords(rest, char2id, token, unk)
  {
    var lhs := NodeWords([run] + rest, char2id, token, unk);
    var rhs := [[Node(IdOf(char2id, token), [])] + Segment(run, char2id, unk)] + NodeWords(rest, char2id, token, unk);
    forall k | 0 <= k < |lhs| ensures lhs[k] == rhs[k] {
      if k > 0 {
        assert ([run] + rest)[k] == rest[k - 1];
      }
    }
  }

  /** A maximal stretch [cur, i) of unknown characters becomes one unknown node. */
  lemma SegmentUnknown(s: seq<nat>, cur: nat, i: nat, k: nat, char2id: map<nat, nat>, unk: nat)
    requires cur < i <= k <= |s|
    requires forall m :: cur <= m < i ==> s[m] !in char2id
    requires i < k ==> s[i] in char2id
    ensures Segment(s[cur..k], char2id, unk) == [Node(unk, s[cur..i])] + Segment(s[i..k], char2id, unk)
  {
    var t := s[cur..k];
    RunEndUnique(t, char2id.Keys, i - cur);
    assert t[..i - cur] == s[cur..i];
    assert t[i - cur..] == s[i..k];
  }

  /** A known character becomes its own node. */
  lemma SegmentKnown(s: seq<nat>, i: nat, k: nat, char2id: map<nat, nat>, unk: nat)
    requires i < k <= |s| && s[i] in char2id
    ensures Segment(s[i..k], char2id, unk) == [Node(char2id[s[i]], [])] + Segment(s[i + 1..k], char2id, unk)
  {
    assert s[i..k][1..] == s[i + 1..k];
  }

  /** Moving the first node of the rest onto the word keeps the whole. */
  lemma AppendStep(word: seq<Node>, piece: Node, rest: seq<Node>, tail: seq<Node>)
    requires tail == [piece] + rest
    ensures (word + [piece]) + rest == word + tail
  {
  }

  /** The run starting at `start` ends at the first space after it. */
  lemma RunEndAt(s: seq<nat>, start: nat, spaces: set<nat>)
    requires start <= |s|
    ensures var k := start + RunEnd(s[start..], spaces);
            k <= |s| && (k < |s| ==> s[k] in spaces) && forall m :: start <= m < k ==> s[m] !in spaces
  {
    var k := start + RunEnd(s[start..], spaces);
    forall m | start <= m < k ensures s[m] !in spaces {
      assert s[m] == s[start..][m - start];
    }
    if k < |s| {
      assert s[k] == s[start..][k - start];
    }
  }

  /** The end of the stretch of unknown characters starting at `cur`, inside
      the run that ends at `k`. */
  method SkipUnknown(text: seq<nat>, cur: nat, ghost k: nat, sp: Whitespace, char2id: map<nat, nat>) returns (i: nat)
    requires cur < k <= |text| && text[cur] !in char2id
    requires k < |text| ==> text[k] in sp.spaces
    requires forall m :: cur <= m < k ==> text[m] !in sp.spaces
    ensures cur < i <= k && (i < k ==> text[i] in char2id)
    ensures forall m :: cur <= m < i ==> text[m] !in char2id
  {
    i := cur;
    while i < |text| && text[i] !in sp.spaces && text[i] !in char2id
      invariant cur <= i <= k
      invariant forall m :: cur <= m < i ==> text[m] !in char2id
      decreases k - i
    {
      i := i + 1;
    }
  }

  /** The first node of the rest [i, k) of a run, and where the rest after
      it starts. */
  method NextNode(text: seq<nat>, i: nat, ghost k: nat, sp: Whitespace, char2id: map<nat, nat>, unk: nat)
    returns (piece: Node, j: nat)
    requires i < k <= |text|
    requires k < |text| ==> text[k] in sp.spaces
    requires forall m :: i <= m < k ==> text[m] !in sp.spaces
    ensures i < j <= k
    ensures Segment(text[i..k], char2id, unk) == [piece] + Segment(text[j..k], char2id, unk)
  {
    if text[i] !in char2id {
      j := SkipUnknown(text, i, k, sp, char2id);
      piece := Node(unk, text[i..j]);
      SegmentUnknown(text, i, j, k, char2id, unk);
    } else {
      piece := Node(char2id[text[i]], []);
      SegmentKnown(text, i, k, char2id, unk);
      j := i + 1;
    }
  }

  /** The nodes of the run starting at `start`, as the inner loops build
      them: a node per known character and one unknown node per maximal
      stretch of unknown characters, up to the next space. */
  method TakeRun(text: seq<nat>, start: nat, sp: Whitespace, char2id: map<nat, nat>, unk: nat, head: Node)
    returns (word: seq<Node>, i: nat)
    requires start <= |text|
    ensures i == start + RunEnd(text[start..], sp.spaces)
    ensures word == [head] + Segment(text[start..i], char2id, unk)
  {
    ghost var k := start + RunEnd(text[start..], sp.spaces);
    RunEndAt(text, start, sp.spaces);
    word := [head];
    i := start;
    while i < |text| && text[i] !in sp.spaces
      invariant start <= i <= k
      invariant word + Segment(text[i..k], char2id, unk) == [head] + Segment(text[start..k], char2id, unk)
      decreases k - i
    {
      ghost var before := word;
      var i0 := i;
      var piece;
      piece, i := NextNode(text, i0, k, sp, char2id, unk);
      AppendStep(before, piece, Segment(text[i..k], char2id, unk), Segment(text[i0..k], char2id, unk));
      word := word + [piece];
    }
    assert i == k;
    assert text[i..k] == [];
  }

  /** The splitting loops: skip spaces, then open a word with the space
      token's node and take the run's nodes. */
  method SplitToNodes(text: seq<nat>, sp: Whitespace, char2id: map<nat, nat>, unk: nat) returns (words: seq<seq<Node>>)
    requires sp.token in char2id
    ensures words == SplitNodes(text, sp, char2id, unk)
  {
    words := [];
    var i := 0;
    while i < |text|
      invariant i <= |text|
      invariant words + SplitNodes(text[i..], sp, char2id, unk) == SplitNodes(text, sp, char2id, unk)
      decreases |text| - i
    {
      var i0 := i;
      while i < |text| && text[i] in sp.spaces
        invariant i0 <= i <= |text|
        invariant forall m :: i0 <= m < i ==> text[m] in sp.spaces
      {
        i := i + 1;
      }
      NodeSplitSkip(text, i0, i, sp, char2id, unk);
      if i == |text| {
        break;
      }
      var start := i;
      var word;
      word, i := TakeRun(text, start, sp, char2id, unk, Node(char2id[sp.token], []));
      RunEndAt(text, start, sp.spaces);
      NodeSplitTake(text, start, i, sp, char2id, unk);
      words := words + [word];
    }
  }

  /** Replacing the pair at i by the merged node leaves the pass unchanged. */
  lemma MergeNodesSplice(v: seq<Node>, i: nat, x: nat, y: nat, z: nat)
    requires i + 1 < |v| && v[i].val == x && v[i + 1].val == y
    ensures var w := v[..i] + [v[i].(val := z)] + v[i + 2..];
            w[..i + 1] + MergeNodes(w[i + 1..], x, y, z) == v[..i] + MergeNodes(v[i..], x, y, z)
  {
    var u := v[i].(val := z);
    var w := v[..i] + [u] + v[i + 2..];
    assert v[i..][2..] == v[i + 2..];
    assert MergeNodes(v[i..], x, y, z) == [u] + MergeNodes(v[i + 2..], x, y, z);
    assert w[..i + 1] == v[..i] + [u];
    assert w[i + 1..] == v[i + 2..];
  }

  /** A node that does not start the pair is kept by the pass. */
  lemma MergeNodesPass(v: seq<Node>, i: nat, x: nat, y: nat, z: nat)
    requires i + 1 < |v| && !(v[i].val == x && v[i + 1].val == y)
    ensures v[..i + 1] + MergeNodes(v[i + 1..], x, y, z) == v[..i] + MergeNodes(v[i..], x, y, z)
  {
    assert v[i..][1..] == v[i + 1..];
    assert MergeNodes(v[i..], x, y, z) == [v[i]] + MergeNodes(v[i + 1..], x, y, z);
    assert v[..i + 1] == v[..i] + [v[i]];
  }

  /** One pass of a rule over a node word: the left node takes the id z and
      the right node is erased. */
  method MergeNodeWord(v0: seq<Node>, x: nat, y: nat, z: nat) returns (v: seq<Node>)
    ensures v == MergeNodes(v0, x, y, z)
  {
    v := v0;
    var i := 0;
    while i < |v| - 1
      invariant i <= |v|
      invariant v[..i] + MergeNodes(v[i..], x, y, z) == MergeNodes(v0, x, y, z)
    {
      if v[i].val == x && v[i + 1].val == y {
        ghost var before := v;
        v := v[..i] + [v[i].(val := z)] + v[i + 2..];
        MergeNodesSplice(before, i, x, y, z);
      } else {
        MergeNodesPass(v, i, x, y, z);
      }
      i := i + 1;
    }
    assert v[..i] + v[i..] == v;
  }

  /** Every rule, in order, over every word. */
  method ApplyRulesToNodes(words0: seq<seq<Node>>, rules: seq<Rule>) returns (words: seq<seq<Node>>)
    ensures words == ApplyToNodes(words0, rules)
  {
    words := words0;
    for n := 0 to |rules|
      invariant words == ApplyToNodes(words0, rules[..n])
    {
      var r := rules[n];
      ghost var pre := words;
      for k := 0 to |words|
        invariant |words| == |pre|
        invariant forall j :: 0 <= j < k ==> words[j] == MergeNodes(pre[j], r.x, r.y, r.z)
        invariant forall j :: k <= j < |words| ==> words[j] == pre[j]
      {
        var v := MergeNodeWord(words[k], r.x, r.y, r.z);
        words := words[k := v];
      }
      assert rules[..n + 1][..n] == rules[..n];
      assert words == MergeNodeWords(pre, r.x, r.y, r.z);
    }
    assert rules[..|rules|] == rules;
  }

  /** The piece of one node: its own characters for the unknown id, the
      recipe's characters looked up one by one otherwise. */
  method NodePiece(enc: BaseEncoder, sp: Whitespace, u: Node) returns (chars: seq<nat>)
    requires NodeOk(enc, sp, u)
    ensures chars == Piece(enc, u)
  {
    if u.val == enc.state.specialTokens.unkId {
      chars := u.newChars;
    } else {
      var recipeU := enc.recipe[u.val];
      chars := [];
      for j := 0 to |recipeU|
        invariant chars == Spell(recipeU[..j], enc.id2char)
      {
        chars := chars + [enc.id2char[recipeU[j]]];
      }
      assert recipeU[..|recipeU|] == recipeU;
    }
  }

  /** The ids and pieces of one word, after those collected so far. */
  method CollectWord(enc: BaseEncoder, sp: Whitespace, v: seq<Node>, ids0: seq<nat>, pieces0: seq<seq<nat>>)
    returns (ids: seq<nat>, pieces: seq<seq<nat>>)
    requires forall i :: 0 <= i < |v| ==> NodeOk(enc, sp, v[i])
    ensures ids == ids0 + Vals(v) && pieces == pieces0 + Pieces(enc, v)
  {
    ids, pieces := ids0, pieces0;
    for i := 0 to |v|
      invariant ids == ids0 + Vals(v[..i])
      invariant pieces == pieces0 + Pieces(enc, v[..i])
    {
      var chars := NodePiece(enc, sp, v[i]);
      NodesSnoc(enc, v, i);
      ids := ids + [v[i].val];
      pieces := pieces + [chars];
    }
    assert v[..|v|] == v;
  }

  /** The ids and pieces of a prefix grow by one node at a time. */
  lemma NodesSnoc(enc: BaseEncoder, v: seq<Node>, i: nat)
    requires i < |v|
    ensures Vals(v[..i + 1]) == Vals(v[..i]) + [v[i].val]
    ensures Pieces(enc, v[..i + 1]) == Pieces(enc, v[..i]) + [Piece(enc, v[i])]
  {
  }

  /** The output loops: an id per node, and its piece, either the node's own
      characters or the characters of its recipe. */
  method CollectOutput(enc: BaseEncoder, sp: Whitespace, words: seq<seq<Node>>) returns (res: DecodeResult)
    requires WordsOk(enc, sp, words)
    ensures res == DecodeResult(AllIds(words), AllPieces(enc, words))
  {
    var ids: seq<nat> := [];
    var pieces: seq<seq<nat>> := [];
    for k := 0 to |words|
      invariant ids == AllIds(words[..k]) && pieces == AllPieces(enc, words[..k])
    {
      assert words[..k + 1][..k] == words[..k] && words[..k + 1][k] == words[k];
      ids, pieces := CollectWord(enc, sp, words[k], ids, pieces);
    }
    assert words[..|words|] == words;
    res := DecodeResult(ids, pieces);
  }

  /** `decode_slow`: the ids and pieces of the text, and what they mean. */
  method DecodeSlow(text: seq<nat>, enc: BaseEncoder, sp: Whitespace) returns (res: DecodeResult)
    requires EncoderValid(enc, sp)
    ensures res == Decode(text, enc, sp)
    ensures OutputOk(enc, sp, res)
    ensures Concat(res.pieces) == JoinSpaced(Runs(PrepareText(text, sp), sp.spaces), sp.token)
    ensures NoSpace(Concat(res.pieces), sp.spaces) == NoSpace(text, sp.spaces)
  {
    var unk := enc.state.specialTokens.unkId as nat;
    var s := PrepareInput(text, sp);
    var words := SplitToNodes(s, sp, enc.state.char2id, unk);
    words := ApplyRulesToNodes(words, enc.state.rules);
    SplitNodesMeaning(enc, sp, s);
    ApplyToNodesMeaning(enc, sp, SplitNodes(s, sp, enc.state.char2id, unk), enc.state.rules);
    res := CollectOutput(enc, sp, words);
    DecodeMeaning(text, enc, sp);
  }

  // ---------------------------------------------------------------------------
  // The trainer and the encoder together

  /** The tables built from a trained state are valid: the recipe table holds
      [id] for every id below the first rule's id and the concatenated recipe
      for every rule, `id2char` inverts the alphabet, and the unknown id is a
      special id below the alphabet. */
  lemma TrainedModelIsValid(enc: BaseEncoder, sp: Whitespace, nSpecial: nat)
    requires sp.token in sp.spaces && sp.token in enc.state.char2id
    requires 2 <= nSpecial && AlphabetIds(enc.state.char2id, nSpecial)
    requires 0 <= enc.state.specialTokens.unkId < nSpecial
    requires WellMinted(enc.state.rules, nSpecial, nSpecial + |enc.state.char2id|)
    requires forall c :: c in enc.state.char2id ==> enc.state.char2id[c] in enc.id2char && enc.id2char[enc.state.char2id[c]] == c
    requires forall id :: nSpecial <= id < nSpecial + |enc.state.char2id| ==> id in enc.id2char
    requires enc.recipe == BuildRecipe(Seed(nSpecial + |enc.state.char2id|), enc.state.rules)
    ensures EncoderValid(enc, sp)
  {
    var used0 := nSpecial + |enc.state.char2id|;
    var rules := enc.state.rules;
    var char2id := enc.state.char2id;
    assert forall i :: 0 <= i < |rules| ==> RuleOk(enc, rules[i]) by {
      forall i | 0 <= i < |rules| ensures RuleOk(enc, rules[i]) {
        TrainedRuleOk(enc, nSpecial, used0, i);
      }
    }
    forall c | c in char2id ensures char2id[c] in enc.recipe && enc.recipe[char2id[c]] == [char2id[c]] {
      SeedSurvives(rules, nSpecial, used0, char2id[c]);
    }
  }

  /** An id below the first minted one keeps its seed recipe [id]. */
  lemma SeedSurvives(rules: seq<Rule>, lo: nat, used0: nat, id: nat)
    requires 2 <= lo <= id < used0
    requires WellMinted(rules, lo, used0)
    ensures id in BuildRecipe(Seed(used0), rules) && BuildRecipe(Seed(used0), rules)[id] == [id]
  {
    BuildRecipeKeys(rules, lo, used0);
  }

  /** One rule of the trained model: minted from ids past the special ones,
      its recipe spells a word of alphabet characters. */
  lemma TrainedRuleOk(enc: BaseEncoder, nSpecial: nat, used0: nat, i: nat)
    requires 0 <= enc.state.specialTokens.unkId < nSpecial && 2 <= nSpecial <= used0
    requires i < |enc.state.rules|
    requires WellMinted(enc.state.rules, nSpecial, used0)
    requires forall id :: nSpecial <= id < used0 ==> id in enc.id2char
    requires enc.recipe == BuildRecipe(Seed(used0), enc.state.rules)
    ensures RuleOk(enc, enc.state.rules[i])
  {
    var r := enc.state.rules[i];
    assert nSpecial <= r.x < r.z && nSpecial <= r.y < r.z && r.z == used0 + i;
    assert r.x in enc.recipe && r.y in enc.recipe && r.z in enc.recipe
        && enc.recipe[r.z] == enc.recipe[r.x] + enc.recipe[r.y]
        && IdWord(enc.recipe[r.z], nSpecial, used0) by {
      BuildRecipeValid(enc.state.rules, nSpecial, used0);
    }
    forall j | 0 <= j < |enc.recipe[r.z]| ensures enc.recipe[r.z][j] in enc.id2char {
      assert nSpecial <= enc.recipe[r.z][j] < used0;
    }
  }

  /** With every character known, the nodes of a run carry the run's ids. */
  lemma {:induction false} SegmentOfKnown(run: seq<nat>, char2id: map<nat, nat>, unk: nat)
    requires forall i :: 0 <= i < |run| ==> run[i] in char2id
    ensures Vals(Segment(run, char2id, unk)) == Code(run, char2id)
    decreases |run|
  {
    if run != [] {
      SegmentOfKnown(run[1..], char2id, unk);
      assert Code(run, char2id) == [char2id[run[0]]] + Code(run[1..], char2id);
    }
  }

  /** Applying the same rules to node words and to their id words keeps the
      ids equal. */
  lemma {:induction false} ApplyToNodesVals(ws: seq<seq<Node>>, corpus: seq<seq<nat>>, rules: seq<Rule>)
    requires |ws| == |corpus| && forall k :: 0 <= k < |ws| ==> Vals(ws[k]) == corpus[k]
    ensures |ApplyToNodes(ws, rules)| == |ApplyRules(corpus, rules)| == |ws|
    ensures forall k :: 0 <= k < |ws| ==> Vals(ApplyToNodes(ws, rules)[k]) == ApplyRules(corpus, rules)[k]
    decreases |rules|
  {
    if rules != [] {
      var n := |rules| - 1;
      var r := rules[n];
      ApplyToNodesVals(ws, corpus, rules[..n]);
      var pre := ApplyToNodes(ws, rules[..n]);
      forall k | 0 <= k < |ws|
        ensures Vals(MergeNodes(pre[k], r.x, r.y, r.z)) == Merge(ApplyRules(corpus, rules[..n])[k], r.x, r.y, r.z)
      {
        MergeNodesVals(pre[k], r.x, r.y, r.z);
      }
    }
  }

  /** A node word whose ids hold no x followed by y is left as it is. */
  lemma {:induction false} MergeNodesNoPair(v: seq<Node>, x: nat, y: nat, z: nat)
    requires !HasPair(Vals(v), x, y)
    ensures MergeNodes(v, x, y, z) == v
    decreases |v|
  {
    if |v| >= 2 {
      assert Vals(v)[0] == v[0].val && Vals(v)[1] == v[1].val;
      assert Vals(v[1..]) == Vals(v)[1..];
      assert !HasPair(Vals(v[1..]), x, y) by {
        var w := Vals(v);
        forall i | 0 <= i < |w[1..]| - 1 ensures !(w[1..][i] == x && w[1..][i + 1] == y) {
          assert w[1..][i] == w[i + 1] && w[1..][i + 1] == w[i + 2];
        }
      }
      MergeNodesNoPair(v[1..], x, y, z);
      assert v == [v[0]] + v[1..];
    }
  }

  /** Rules whose pairs occur in no node word change nothing. */
  lemma {:induction false} ApplyToNodesNoPair(ws: seq<seq<Node>>, rules: seq<Rule>)
    requires forall i, k :: 0 <= i < |rules| && 0 <= k < |ws| ==> !HasPair(Vals(ws[k]), rules[i].x, rules[i].y)
    ensures ApplyToNodes(ws, rules) == ws
    decreases |rules|
  {
    if rules != [] {
      var n := |rules| - 1;
      var r := rules[n];
      forall i, k | 0 <= i < n && 0 <= k < |ws| ensures !HasPair(Vals(ws[k]), rules[..n][i].x, rules[..n][i].y) {
        assert rules[..n][i] == rules[i];
      }
      ApplyToNodesNoPair(ws, rules[..n]);
      forall k | 0 <= k < |ws| ensures MergeNodes(ws[k], r.x, r.y, r.z) == ws[k] {
        MergeNodesNoPair(ws[k], r.x, r.y, r.z);
      }
      assert MergeNodeWords(ws, r.x, r.y, r.z) == ws;
    }
  }

  /** Applying the rules as minted to node words they have already rewritten
      changes nothing: the encoder's rule loops are idempotent. */
  lemma ApplyToNodesIdempotent(ws: seq<seq<Node>>, rules: seq<Rule>, lo: nat, used0: nat)
    requires WellMinted(rules, lo, used0)
    ensures ApplyToNodes(ApplyToNodes(ws, rules), rules) == ApplyToNodes(ws, rules)
  {
    var corpus := seq(|ws|, k requires 0 <= k < |ws| => Vals(ws[k]));
    var A := ApplyToNodes(ws, rules);
    ApplyToNodesVals(ws, corpus, rules);
    AppliedHasNoRulePair(corpus, rules, lo, used0);
    forall i, k | 0 <= i < |rules| && 0 <= k < |A| ensures !HasPair(Vals(A[k]), rules[i].x, rules[i].y) {
      assert Vals(A[k]) == ApplyRules(corpus, rules)[k];
    }
    ApplyToNodesNoPair(A, rules);
  }

  /** The ids of node words are the concatenation of their words' ids. */
  lemma {:induction false} AllIdsConcat(ws: seq<seq<Node>>, corpus: seq<seq<nat>>)
    requires |ws| == |corpus| && forall k :: 0 <= k < |ws| ==> Vals(ws[k]) == corpus[k]
    ensures AllIds(ws) == Concat(corpus)
    decreases |ws|
  {
    if ws != [] {
      var n := |ws| - 1;
      AllIdsConcat(ws[..n], corpus[..n]);
      assert corpus == corpus[..n] + [corpus[n]];
      ConcatAppend(corpus[..n], [corpus[n]]);
      assert Concat([corpus[n]]) == corpus[n] + Concat([]);
    }
  }

  /** The trainer's corpus for a text whose non-space characters are all in
      the alphabet and none removed: word k is the space token followed by
      run k of the encoder's prepared text, coded. */
  lemma KnownTextCorpus(text: seq<nat>, sp: Whitespace, char2id: map<nat, nat>, removed: set<nat>)
    requires sp.token in sp.spaces && sp.token !in removed
    requires forall i :: 0 <= i < |text| ==> text[i] !in removed && (text[i] in sp.spaces || text[i] in char2id)
    ensures var runs := Runs(PrepareText(text, sp), sp.spaces);
            var corpus := TrainingWords(text, sp, char2id, removed);
            |corpus| == |runs| &&
            (forall k, i :: 0 <= k < |runs| && 0 <= i < |runs[k]| ==> runs[k][i] in char2id) &&
            forall k :: 0 <= k < |runs| ==> corpus[k] == Code([sp.token] + runs[k], char2id)
  {
    var norm := Normalize(text, sp.spaces, sp.token);
    var trimmed := TrimEnd(norm, sp.spaces);
    assert CleanText(text, sp, removed) == trimmed by {
      TrimEndIsMaximalPrefix(norm, sp.spaces);
      assert forall i :: 0 <= i < |trimmed| ==> trimmed[i] == norm[i];
      DropIsFilter(trimmed, removed);
    }
    RunsOfTrimmed(norm, sp.spaces, sp.spaces);
    RunsOfTrimmed(norm, {sp.token}, sp.spaces);
    var runs := Runs(norm, sp.spaces);
    RunsWithin(norm, sp.spaces, char2id.Keys);
    var words := SplitText(trimmed, sp, char2id.Keys);
    forall k | 0 <= k < |runs| ensures words[k] == [sp.token] + runs[k] {
      KeepOnlyIsFilter(runs[k], char2id.Keys);
    }
  }

  /** The node words of a text whose words hold only known characters carry
      the coded words. */
  lemma KnownTextNodes(s: seq<nat>, sp: Whitespace, char2id: map<nat, nat>, unk: nat)
    requires sp.token in char2id
    requires forall k, i :: 0 <= k < |Runs(s, sp.spaces)| && 0 <= i < |Runs(s, sp.spaces)[k]| ==> Runs(s, sp.spaces)[k][i] in char2id
    ensures var runs := Runs(s, sp.spaces);
            var nodes := SplitNodes(s, sp, char2id, unk);
            |nodes| == |runs| && forall k :: 0 <= k < |runs| ==> Vals(nodes[k]) == Code([sp.token] + runs[k], char2id)
  {
    var runs := Runs(s, sp.spaces);
    var nodes := SplitNodes(s, sp, char2id, unk);
    forall k | 0 <= k < |runs| ensures Vals(nodes[k]) == Code([sp.token] + runs[k], char2id) {
      var seg := Segment(runs[k], char2id, unk);
      SegmentOfKnown(runs[k], char2id, unk);
      assert nodes[k] == [Node(char2id[sp.token], [])] + seg;
      assert Vals(nodes[k]) == [char2id[sp.token]] + Vals(seg);
      assert Code([sp.token] + runs[k], char2id) == [char2id[sp.token]] + Code(runs[k], char2id);
    }
  }

  /** Encoding a text whose non-space characters are all in the alphabet and
      none removed gives, word for word, the ids of the trainer's corpus after
      the same rules: `decode_slow` on the training text reproduces the
      corpus that `learn_bpe_slow` ends with. */
  lemma EncoderMatchesTrainer(text: seq<nat>, enc: BaseEncoder, sp: Whitespace, removed: set<nat>)
    requires enc.state.specialTokens.unkId >= 0
    requires sp.token in sp.spaces && sp.token in enc.state.char2id && sp.token !in removed
    requires forall i :: 0 <= i < |text| ==> text[i] !in removed && (text[i] in sp.spaces || text[i] in enc.state.char2id)
    ensures var ws := FinalNodes(text, enc, sp);
            var corpus := ApplyRules(TrainingWords(text, sp, enc.state.char2id, removed), enc.state.rules);
            |ws| == |corpus| && (forall k :: 0 <= k < |ws| ==> Vals(ws[k]) == corpus[k]) &&
            Decode(text, enc, sp).ids == Concat(corpus)
  {
    var char2id := enc.state.char2id;
    var unk := enc.state.specialTokens.unkId as nat;
    var s := PrepareText(text, sp);
    var corpus := TrainingWords(text, sp, char2id, removed);
    var nodes := SplitNodes(s, sp, char2id, unk);
    KnownTextCorpus(text, sp, char2id, removed);
    KnownTextNodes(s, sp, char2id, unk);
    ApplyToNodesVals(nodes, corpus, enc.state.rules);
    AllIdsConcat(FinalNodes(text, enc, sp), ApplyRules(corpus, enc.state.rules));
  }
}
