/** Text preprocessing shared by the reference trainer and the reference encoder:
    whitespace normalisation, trailing-space trimming, character filtering and the
    split of a code-point sequence into whitespace-delimited words.

    Code points are natural numbers. The predicate `is_space` of the source is
    the set `spaces`, and `SPACE_TOKEN` is `spaceToken`; every helper that needs
    the two rely on `spaceToken in spaces`, as `is_space(SPACE_TOKEN)` holds. */
module Text {

  /** `s` with every character of `drop` removed, order kept. */
  function Drop(s: seq<nat>, drop: set<nat>): seq<nat>
    decreases |s|
  {
    if s == [] then []
    else (if s[0] in drop then [] else [s[0]]) + Drop(s[1..], drop)
  }

  /** `s` with only the characters of `keep` retained, order kept. */
  function KeepOnly(s: seq<nat>, keep: set<nat>): seq<nat>
    decreases |s|
  {
    if s == [] then []
    else (if s[0] in keep then [s[0]] else []) + KeepOnly(s[1..], keep)
  }

  /** The characters of `s` that are not spaces, in order: the value the
      stress test compares at the end of a round trip. */
  function NoSpace(s: seq<nat>, spaces: set<nat>): seq<nat>
  {
    Drop(s, spaces)
  }

  /** Every space character replaced by the space symbol. */
  function Normalize(s: seq<nat>, spaces: set<nat>, spaceToken: nat): seq<nat>
  {
    seq(|s|, i requires 0 <= i < |s| => if s[i] in spaces then spaceToken else s[i])
  }

  /** `s` without its trailing run of characters from `blanks`. */
  function TrimEnd(s: seq<nat>, blanks: set<nat>): seq<nat>
    decreases |s|
  {
    if s != [] && s[|s| - 1] in blanks then TrimEnd(s[..|s| - 1], blanks) else s
  }

  /** Index of the first space at or after the start of `s` (|s| if none). */
  function RunEnd(s: seq<nat>, spaces: set<nat>): (k: nat)
    ensures k <= |s|
    ensures k < |s| ==> s[k] in spaces
    ensures forall i :: 0 <= i < k ==> s[i] !in spaces
    decreases |s|
  {
    if s == [] || s[0] in spaces then 0 else 1 + RunEnd(s[1..], spaces)
  }

  /** The maximal runs of non-space characters of `s`, in order. */
  function Runs(s: seq<nat>, spaces: set<nat>): seq<seq<nat>>
    decreases |s|
  {
    if s == [] then []
    else if s[0] in spaces then Runs(s[1..], spaces)
    else
      var k := RunEnd(s, spaces);
      [s[..k]] + Runs(s[k..], spaces)
  }

  /** Concatenation of a sequence of words. */
  function Concat(ws: seq<seq<nat>>): seq<nat>
    decreases |ws|
  {
    if ws == [] then [] else ws[0] + Concat(ws[1..])
  }

  /** Each word preceded by one separator `sp`. */
  function JoinSpaced(ws: seq<seq<nat>>, sp: nat): seq<nat>
    decreases |ws|
  {
    if ws == [] then [] else [sp] + ws[0] + JoinSpaced(ws[1..], sp)
  }

  predicate SpaceFree(s: seq<nat>, spaces: set<nat>)
  {
    forall i :: 0 <= i < |s| ==> s[i] !in spaces
  }

  predicate AllSpaces(s: seq<nat>, spaces: set<nat>)
  {
    forall i :: 0 <= i < |s| ==> s[i] in spaces
  }

  // ---------------------------------------------------------------------------
  // Filters

  lemma {:induction false} DropAppend(a: seq<nat>, b: seq<nat>, drop: set<nat>)
    ensures Drop(a + b, drop) == Drop(a, drop) + Drop(b, drop)
    decreases |a|
  {
    if a == [] {
      assert a + b == b;
    } else {
      var c := if a[0] in drop then [] else [a[0]];
      assert (a + b)[0] == a[0];
      assert (a + b)[1..] == a[1..] + b;
      assert Drop(a + b, drop) == c + Drop(a[1..] + b, drop);
      DropAppend(a[1..], b, drop);
      assert Drop(a, drop) == c + Drop(a[1..], drop);
    }
  }

  lemma {:induction false} KeepOnlyAppend(a: seq<nat>, b: seq<nat>, keep: set<nat>)
    ensures KeepOnly(a + b, keep) == KeepOnly(a, keep) + KeepOnly(b, keep)
    decreases |a|
  {
    if a == [] {
      assert a + b == b;
    } else {
      var c := if a[0] in keep then [a[0]] else [];
      assert (a + b)[0] == a[0];
      assert (a + b)[1..] == a[1..] + b;
      assert KeepOnly(a + b, keep) == c + KeepOnly(a[1..] + b, keep);
      KeepOnlyAppend(a[1..], b, keep);
      assert KeepOnly(a, keep) == c + KeepOnly(a[1..], keep);
      assert c + (KeepOnly(a[1..], keep) + KeepOnly(b, keep)) == (c + KeepOnly(a[1..], keep)) + KeepOnly(b, keep);
    }
  }

  /** Dropping characters is a filter: the result is no longer than the input,
      holds none of the dropped characters, and keeps every other character. */
  lemma {:induction false} DropIsFilter(s: seq<nat>, drop: set<nat>)
    ensures |Drop(s, drop)| <= |s|
    ensures forall i :: 0 <= i < |Drop(s, drop)| ==> Drop(s, drop)[i] !in drop && Drop(s, drop)[i] in s
    ensures (forall i :: 0 <= i < |s| ==> s[i] !in drop) ==> Drop(s, drop) == s
    decreases |s|
  {
    if s != [] {
      DropIsFilter(s[1..], drop);
      var r := Drop(s[1..], drop);
      forall i | 0 <= i < |Drop(s, drop)|
        ensures Drop(s, drop)[i] !in drop && Drop(s, drop)[i] in s
      {
        if s[0] !in drop && i > 0 {
          assert Drop(s, drop)[i] == r[i - 1];
        }
      }
    }
  }

  /** Only the characters of `keep` survive `KeepOnly`. */
  lemma {:induction false} KeepOnlyIsFilter(s: seq<nat>, keep: set<nat>)
    ensures |KeepOnly(s, keep)| <= |s|
    ensures forall i :: 0 <= i < |KeepOnly(s, keep)| ==> KeepOnly(s, keep)[i] in keep
    ensures (forall i :: 0 <= i < |s| ==> s[i] in keep) ==> KeepOnly(s, keep) == s
    decreases |s|
  {
    if s != [] {
      KeepOnlyIsFilter(s[1..], keep);
      var r := KeepOnly(s[1..], keep);
      forall i | 0 <= i < |KeepOnly(s, keep)| ensures KeepOnly(s, keep)[i] in keep {
        if s[0] in keep && i > 0 {
          assert KeepOnly(s, keep)[i] == r[i - 1];
        }
      }
    }
  }

  /** Replacing spaces by the space symbol leaves the non-space characters as
      they were, and the characters are otherwise unchanged. */
  lemma {:induction false} NormalizeKeepsNoSpace(s: seq<nat>, spaces: set<nat>, spaceToken: nat)
    requires spaceToken in spaces
    ensures NoSpace(Normalize(s, spaces, spaceToken), spaces) == NoSpace(s, spaces)
    decreases |s|
  {
    if s != [] {
      var n := Normalize(s, spaces, spaceToken);
      assert n[1..] == Normalize(s[1..], spaces, spaceToken);
      NormalizeKeepsNoSpace(s[1..], spaces, spaceToken);
    }
  }

  // ---------------------------------------------------------------------------
  // Trimming

  /** TrimEnd removes exactly the maximal trailing run of blanks. */
  lemma {:induction false} TrimEndIsMaximalPrefix(s: seq<nat>, blanks: set<nat>)
    ensures TrimEnd(s, blanks) <= s
    ensures forall k :: |TrimEnd(s, blanks)| <= k < |s| ==> s[k] in blanks
    ensures TrimEnd(s, blanks) == [] || TrimEnd(s, blanks)[|TrimEnd(s, blanks)| - 1] !in blanks
    decreases |s|
  {
    if s != [] && s[|s| - 1] in blanks {
      TrimEndIsMaximalPrefix(s[..|s| - 1], blanks);
    }
  }

  /** The `pop_back` loop that strips trailing blanks. */
  method TrimTrailing(s: seq<nat>, blanks: set<nat>) returns (t: seq<nat>)
    ensures t == TrimEnd(s, blanks)
    ensures t <= s && (t == [] || t[|t| - 1] !in blanks)
    ensures forall k :: |t| <= k < |s| ==> s[k] in blanks
  {
    t := s;
    while t != [] && t[|t| - 1] in blanks
      invariant t <= s
      invariant TrimEnd(t, blanks) == TrimEnd(s, blanks)
      invariant forall k :: |t| <= k < |s| ==> s[k] in blanks
      decreases |t|
    {
      t := t[..|t| - 1];
    }
    TrimEndIsMaximalPrefix(s, blanks);
  }

  /** The in-place loop mapping every space character to the space symbol. */
  method MapSpaces(s: seq<nat>, spaces: set<nat>, spaceToken: nat) returns (r: seq<nat>)
    ensures r == Normalize(s, spaces, spaceToken)
    ensures |r| == |s|
    ensures forall i :: 0 <= i < |s| ==> (s[i] in spaces ==> r[i] == spaceToken) && (s[i] !in spaces ==> r[i] == s[i])
  {
    r := s;
    for i := 0 to |r|
      invariant |r| == |s|
      invariant forall j :: 0 <= j < i ==> r[j] == (if s[j] in spaces then spaceToken else s[j])
      invariant r[i..] == s[i..]
    {
      if r[i] in spaces {
        r := r[i := spaceToken];
      }
    }
  }

  // ---------------------------------------------------------------------------
  // Compaction (to_no_space_tokens)

  /** Compacts a copy of `tokens` in place with a write index, then cuts it to
      the written prefix: exactly the non-space characters, in order. */
  method ToNoSpaceTokens(tokens: seq<nat>, spaces: set<nat>) returns (r: seq<nat>)
    ensures r == NoSpace(tokens, spaces)
    ensures |r| <= |tokens|
    ensures SpaceFree(r, spaces)
  {
    var a := new nat[|tokens|](i requires 0 <= i < |tokens| => tokens[i]);
    var cur := 0;
    for k := 0 to a.Length
      invariant cur <= k
      invariant a[..cur] == NoSpace(tokens[..k], spaces)
      invariant forall j :: k <= j < a.Length ==> a[j] == tokens[j]
    {
      var ch := a[k];
      assert tokens[..k + 1] == tokens[..k] + [ch];
      DropAppend(tokens[..k], [ch], spaces);
      if ch !in spaces {
        a[cur] := ch;
        cur := cur + 1;
        assert a[..cur] == a[..cur - 1] + [ch];
      }
    }
    assert tokens[..a.Length] == tokens;
    r := a[..cur];
    DropIsFilter(tokens, spaces);
  }

  // ---------------------------------------------------------------------------
  // Splitting into words

  /** RunEnd finds the first space: any index with no space before it and a
      space (or the end) at it is RunEnd. */
  lemma {:induction false} RunEndUnique(s: seq<nat>, spaces: set<nat>, k: nat)
    requires k <= |s| && (k < |s| ==> s[k] in spaces)
    requires forall i :: 0 <= i < k ==> s[i] !in spaces
    ensures RunEnd(s, spaces) == k
    decreases k
  {
    if k > 0 {
      RunEndUnique(s[1..], spaces, k - 1);
    }
  }

  lemma {:induction false} RunsOfSpaces(s: seq<nat>, spaces: set<nat>)
    requires AllSpaces(s, spaces)
    ensures Runs(s, spaces) == []
    decreases |s|
  {
    if s != [] {
      RunsOfSpaces(s[1..], spaces);
    }
  }

  lemma {:induction false} RunsOfWord(w: seq<nat>, spaces: set<nat>)
    requires w != [] && SpaceFree(w, spaces)
    ensures Runs(w, spaces) == [w]
  {
    RunEndUnique(w, spaces, |w|);
    assert w[|w|..] == [];
    assert w[..|w|] == w;
  }

  /** A space splits the text exactly: the words of `u + [sp] + w` are the
      words of `u` followed by the words of `w`. So leading, trailing and
      repeated spaces produce no words. */
  lemma {:induction false} RunsSplitAtSpace(u: seq<nat>, sp: nat, w: seq<nat>, spaces: set<nat>)
    requires sp in spaces
    ensures Runs(u + [sp] + w, spaces) == Runs(u, spaces) + Runs(w, spaces)
    decreases |u|
  {
    var s := u + [sp] + w;
    if u == [] {
      assert s[1..] == w;
    } else if u[0] in spaces {
      assert s[1..] == u[1..] + [sp] + w;
      RunsSplitAtSpace(u[1..], sp, w, spaces);
    } else {
      var k := RunEnd(u, spaces);
      RunEndUnique(s, spaces, k);
      assert s[..k] == u[..k];
      assert s[k..] == u[k..] + [sp] + w;
      RunsSplitAtSpace(u[k..], sp, w, spaces);
    }
  }

  /** Trailing spaces do not change the words. */
  lemma RunsIgnoreTrailing(t: seq<nat>, tail: seq<nat>, spaces: set<nat>)
    requires AllSpaces(tail, spaces)
    ensures Runs(t + tail, spaces) == Runs(t, spaces)
  {
    if tail == [] {
      assert t + tail == t;
    } else {
      assert t + tail == t + [tail[0]] + tail[1..];
      RunsSplitAtSpace(t, tail[0], tail[1..], spaces);
      RunsOfSpaces(tail[1..], spaces);
      assert Runs(t, spaces) + [] == Runs(t, spaces);
    }
  }

  /** Trimming trailing blanks (any subset of the spaces) keeps the words. */
  lemma RunsOfTrimmed(s: seq<nat>, blanks: set<nat>, spaces: set<nat>)
    requires blanks <= spaces
    ensures Runs(TrimEnd(s, blanks), spaces) == Runs(s, spaces)
  {
    TrimEndIsMaximalPrefix(s, blanks);
    var t := TrimEnd(s, blanks);
    assert s == t + s[|t|..];
    RunsIgnoreTrailing(t, s[|t|..], spaces);
  }

  /** Words are non-empty, free of spaces, and together hold exactly the
      non-space characters of the text, in order. */
  lemma {:induction false} RunsShape(s: seq<nat>, spaces: set<nat>)
    ensures forall j :: 0 <= j < |Runs(s, spaces)| ==> Runs(s, spaces)[j] != [] && SpaceFree(Runs(s, spaces)[j], spaces)
    ensures Concat(Runs(s, spaces)) == NoSpace(s, spaces)
    decreases |s|
  {
    if s != [] {
      if s[0] in spaces {
        RunsShape(s[1..], spaces);
      } else {
        var k := RunEnd(s, spaces);
        RunsShape(s[k..], spaces);
        assert s == s[..k] + s[k..];
        DropAppend(s[..k], s[k..], spaces);
        DropIsFilter(s[..k], spaces);
        var rs := Runs(s, spaces);
        assert rs[1..] == Runs(s[k..], spaces);
      }
    }
  }

  /** A word followed by nothing or by a space is one word of its own. */
  lemma RunsWordThen(w: seq<nat>, rest: seq<nat>, spaces: set<nat>)
    requires w != [] && SpaceFree(w, spaces)
    requires rest == [] || rest[0] in spaces
    ensures Runs(w + rest, spaces) == [w] + Runs(rest, spaces)
  {
    RunsOfWord(w, spaces);
    if rest == [] {
      assert w + rest == w;
    } else {
      assert w + rest == w + [rest[0]] + rest[1..];
      RunsSplitAtSpace(w, rest[0], rest[1..], spaces);
    }
  }

  /** Splitting undoes joining with single spaces: the words are recovered one
      to one and in order. */
  lemma {:induction false} RunsOfJoin(ws: seq<seq<nat>>, sp: nat, spaces: set<nat>)
    requires sp in spaces
    requires forall j :: 0 <= j < |ws| ==> ws[j] != [] && SpaceFree(ws[j], spaces)
    ensures Runs(JoinSpaced(ws, sp), spaces) == ws
    decreases |ws|
  {
    if ws != [] {
      var rest := JoinSpaced(ws[1..], sp);
      assert forall j :: 0 <= j < |ws[1..]| ==> ws[1..][j] == ws[j + 1];
      RunsOfJoin(ws[1..], sp, spaces);
      var s := JoinSpaced(ws, sp);
      assert s == [sp] + (ws[0] + rest);
      assert s[1..] == ws[0] + rest;
      assert Runs(s, spaces) == Runs(s[1..], spaces);
      assert rest == [] || rest[0] == sp;
      RunsWordThen(ws[0], rest, spaces);
    }
  }

  /** Skipping a run of spaces at position i does not change the words of the
      remaining suffix. */
  lemma {:induction false} RunsSkipSpaces(s: seq<nat>, i: nat, j: nat, spaces: set<nat>)
    requires i <= j <= |s|
    requires forall k :: i <= k < j ==> s[k] in spaces
    ensures Runs(s[i..], spaces) == Runs(s[j..], spaces)
    decreases j - i
  {
    if i < j {
      assert s[i..][1..] == s[i + 1..];
      RunsSkipSpaces(s, i + 1, j, spaces);
    }
  }

  /** A word starting at j and ending at the first space k after it. */
  lemma RunsTakeWord(s: seq<nat>, j: nat, k: nat, spaces: set<nat>)
    requires j < k <= |s|
    requires forall m :: j <= m < k ==> s[m] !in spaces
    requires k < |s| ==> s[k] in spaces
    ensures Runs(s[j..], spaces) == [s[j..k]] + Runs(s[k..], spaces)
  {
    var t := s[j..];
    RunEndUnique(t, spaces, k - j);
    assert t[..k - j] == s[j..k];
    assert t[k - j..] == s[k..];
  }

  // ---------------------------------------------------------------------------
  // Joining words back together

  lemma {:induction false} ConcatAppend(a: seq<seq<nat>>, b: seq<seq<nat>>)
    ensures Concat(a + b) == Concat(a) + Concat(b)
    decreases |a|
  {
    if a == [] {
      assert a + b == b;
    } else {
      assert (a + b)[1..] == a[1..] + b;
      ConcatAppend(a[1..], b);
    }
  }

  lemma {:induction false} JoinSpacedSnoc(ws: seq<seq<nat>>, w: seq<nat>, sp: nat)
    ensures JoinSpaced(ws + [w], sp) == JoinSpaced(ws, sp) + [sp] + w
    decreases |ws|
  {
    if ws == [] {
      assert ws + [w] == [w];
    } else {
      assert (ws + [w])[1..] == ws[1..] + [w];
      JoinSpacedSnoc(ws[1..], w, sp);
    }
  }

  lemma {:induction false} DropAll(s: seq<nat>, drop: set<nat>)
    requires AllSpaces(s, drop)
    ensures Drop(s, drop) == []
    decreases |s|
  {
    if s != [] {
      DropAll(s[1..], drop);
    }
  }

  /** Joining space-free words with a space keeps exactly their characters. */
  lemma {:induction false} NoSpaceOfJoin(ws: seq<seq<nat>>, sp: nat, spaces: set<nat>)
    requires sp in spaces
    requires forall j :: 0 <= j < |ws| ==> SpaceFree(ws[j], spaces)
    ensures NoSpace(JoinSpaced(ws, sp), spaces) == Concat(ws)
    decreases |ws|
  {
    if ws != [] {
      NoSpaceOfJoin(ws[1..], sp, spaces);
      var rest := JoinSpaced(ws[1..], sp);
      assert JoinSpaced(ws, sp) == [sp] + (ws[0] + rest);
      DropAppend([sp], ws[0] + rest, spaces);
      DropAppend(ws[0], rest, spaces);
      DropIsFilter(ws[0], spaces);
    }
  }

  /** Cutting trailing blanks (spaces all) keeps the non-space characters. */
  lemma NoSpaceOfTrimmed(s: seq<nat>, blanks: set<nat>, spaces: set<nat>)
    requires blanks <= spaces
    ensures NoSpace(TrimEnd(s, blanks), spaces) == NoSpace(s, spaces)
  {
    TrimEndIsMaximalPrefix(s, blanks);
    var t := TrimEnd(s, blanks);
    assert s == t + s[|t|..];
    DropAppend(t, s[|t|..], spaces);
    DropAll(s[|t|..], spaces);
  }

  /** Rejoining the words of a text with single spaces gives back its
      non-space characters. */
  lemma RejoinedText(s: seq<nat>, sp: nat, spaces: set<nat>)
    requires sp in spaces
    ensures NoSpace(JoinSpaced(Runs(s, spaces), sp), spaces) == NoSpace(s, spaces)
  {
    RunsShape(s, spaces);
    NoSpaceOfJoin(Runs(s, spaces), sp, spaces);
  }

  /** When every non-space character of the text is in `keep`, so is every
      character of every word. */
  lemma {:induction false} RunsWithin(s: seq<nat>, spaces: set<nat>, keep: set<nat>)
    requires forall i :: 0 <= i < |s| && s[i] !in spaces ==> s[i] in keep
    ensures forall j, i :: 0 <= j < |Runs(s, spaces)| && 0 <= i < |Runs(s, spaces)[j]| ==> Runs(s, spaces)[j][i] in keep
    decreases |s|
  {
    if s != [] {
      var t := if s[0] in spaces then 1 else RunEnd(s, spaces);
      assert forall i :: 0 <= i < |s[t..]| ==> s[t..][i] == s[t + i];
      RunsWithin(s[t..], spaces, keep);
      var rs := Runs(s, spaces);
      if s[0] !in spaces {
        assert rs[1..] == Runs(s[t..], spaces);
        assert rs[0] == s[..t];
      }
    }
  }
}
