/**
 `Utils::TokenizeString` of gframe/utils.h: split a text on exact
 occurrences of a delimiter, dropping the empty pieces.

 The source is a loop that moves two positions through the input (`pos1`,
 the next occurrence of the delimiter found by `find`, and `pos2`, where the
 current piece starts) and appends each non-empty piece to a vector.
 TokenizeString below is that loop and TokensFrom the value it builds; Gaps
 is the text the loop skips, and the lemmas say that the pieces are
 non-empty, hold no delimiter, and together with the skipped runs of whole
 delimiters rebuild the input.
 */
module Tokenizer {
  import opened CodeUnits

  /**
   Whether `token` occurs in `s` at position `i`, one code unit at a time;
   an occurrence lies inside the text.
   */
  predicate OccursAt(s: Text, token: Text, i: nat)
    ensures OccursAt(s, token, i) ==> i + |token| <= |s|
    decreases |token|
  {
    i <= |s| && (token == [] || (i < |s| && s[i] == token[0] && OccursAt(s, token[1..], i + 1)))
  }

  /**
   `basic_string::find(token, from)` for `from <= size()`: the first
   position at or after `from` where `token` occurs, or None (`npos`).
   FindFirst states that it is the first.
   */
  function Find(s: Text, token: Text, from: nat): (r: Option<nat>)
    requires from <= |s|
    ensures r.Some? ==> from <= r.value && r.value + |token| <= |s|
    decreases |s| - from
  {
    if OccursAt(s, token, from) then Some(from)
    else if from == |s| then None
    else Find(s, token, from + 1)
  }

  /** What Find returns is an occurrence. */
  lemma {:induction false} FindOccurs(s: Text, token: Text, from: nat)
    requires from <= |s|
    ensures Find(s, token, from).Some? ==> OccursAt(s, token, Find(s, token, from).value)
    decreases |s| - from
  {
    if !OccursAt(s, token, from) && from < |s| {
      FindOccurs(s, token, from + 1);
    }
  }

  /**
   Find returns an occurrence with none between `from` and it, and None
   exactly when no occurrence starts at or after `from`.
   */
  lemma {:induction false} FindFirst(s: Text, token: Text, from: nat)
    requires from <= |s|
    ensures Find(s, token, from).Some? ==> OccursAt(s, token, Find(s, token, from).value)
    ensures Find(s, token, from).Some? ==>
      forall j :: from <= j < Find(s, token, from).value ==> !OccursAt(s, token, j)
    ensures Find(s, token, from).None? ==> forall j :: from <= j <= |s| ==> !OccursAt(s, token, j)
    ensures (forall j :: from <= j <= |s| ==> !OccursAt(s, token, j)) ==> Find(s, token, from).None?
    decreases |s| - from
  {
    if !OccursAt(s, token, from) && from < |s| {
      FindFirst(s, token, from + 1);
    }
  }

  /**
   The pieces the loop emits when it starts at `from`: the text before the
   next delimiter when it is not empty, then the pieces after that
   delimiter; after the last delimiter, the remainder when it is not empty.
   Each piece takes at least one unit of the text, so there are at most as
   many pieces as units left.
   */
  function TokensFrom(s: Text, token: Text, from: nat): (pieces: seq<Text>)
    requires |token| > 0 && from <= |s|
    ensures |pieces| <= |s| - from
    decreases |s| - from
  {
    match Find(s, token, from)
    case Some(pos1) =>
      (if pos1 != from then [s[from..pos1]] else []) + TokensFrom(s, token, pos1 + |token|)
    case None =>
      if from != |s| then [s[from..]] else []
  }

  /** The pieces TokenizeString returns: at most one per unit of the input. */
  function Tokens(input: Text, token: Text): (pieces: seq<Text>)
    requires |token| > 0
    ensures |pieces| <= |input|
  {
    TokensFrom(input, token, 0)
  }

  /** TokensFrom past the next delimiter. */
  lemma TokensFromNext(s: Text, token: Text, from: nat)
    requires |token| > 0 && from <= |s| && Find(s, token, from).Some?
    ensures
      var pos1 := Find(s, token, from).value;
      TokensFrom(s, token, from) == (if pos1 != from then [s[from..pos1]] else []) + TokensFrom(s, token, pos1 + |token|)
  {
  }

  lemma AppendAssoc<T>(a: seq<T>, b: seq<T>, c: seq<T>)
    ensures a + (b + c) == (a + b) + c
  {
  }

  /** One round of the loop: the piece before the next delimiter, if any, moves to the result. */
  lemma TokensStep(input: Text, token: Text, res: seq<Text>, pos2: nat)
    requires |token| > 0 && pos2 <= |input|
    requires Find(input, token, pos2).Some?
    ensures
      var pos1 := Find(input, token, pos2).value;
      res + TokensFrom(input, token, pos2)
        == res + (if pos1 != pos2 then [input[pos2..pos1]] else []) + TokensFrom(input, token, pos1 + |token|)
  {
    var pos1 := Find(input, token, pos2).value;
    TokensFromNext(input, token, pos2);
    AppendAssoc(res, if pos1 != pos2 then [input[pos2..pos1]] else [], TokensFrom(input, token, pos1 + |token|));
  }

  /** The loop of `Utils::TokenizeString`, for a non-empty delimiter. */
  method TokenizeString(input: Text, token: Text) returns (res: seq<Text>)
    requires |token| > 0
    ensures res == Tokens(input, token)
  {
    res := [];
    var pos2 := 0;
    var pos1 := Find(input, token, pos2);
    while pos1.Some?
      invariant pos2 <= |input|
      invariant pos1 == Find(input, token, pos2)
      invariant Tokens(input, token) == res + TokensFrom(input, token, pos2)
      decreases |input| - pos2
    {
      TokensStep(input, token, res, pos2);
      res := res + (if pos1.value != pos2 then [input[pos2..pos1.value]] else []);
      pos2 := pos1.value + |token|;
      pos1 := Find(input, token, pos2);
    }
    res := res + (if pos2 != |input| then [input[pos2..]] else []);
  }

  /** OccursAt agrees with comparing the slice of `s` at `i` with `token`. */
  lemma {:induction false} OccursAtMeansSlice(s: Text, token: Text, i: nat)
    ensures OccursAt(s, token, i) <==> i + |token| <= |s| && s[i..i + |token|] == token
    decreases |token|
  {
    if token != [] {
      OccursAtMeansSlice(s, token[1..], i + 1);
      if i + |token| <= |s| {
        var w := s[i..i + |token|];
        assert w[0] == s[i];
        assert w[1..] == s[i + 1..i + 1 + |token[1..]|];
        if w[0] == token[0] && w[1..] == token[1..] {
          assert w == [w[0]] + w[1..] && token == [token[0]] + token[1..];
        }
      }
    }
  }

  lemma SliceOfSlice(s: Text, a: nat, b: nat, i: nat, j: nat)
    requires a <= b <= |s| && i <= j <= b - a
    ensures s[a..b][i..j] == s[a + i..a + j]
  {
    var l, r := s[a..b][i..j], s[a + i..a + j];
    forall k | 0 <= k < |l| ensures l[k] == r[k] {
      assert l[k] == s[a + i + k];
    }
  }

  /** No piece is empty. */
  lemma {:induction false} TokensNonEmpty(s: Text, token: Text, from: nat)
    requires |token| > 0 && from <= |s|
    ensures forall k :: 0 <= k < |TokensFrom(s, token, from)| ==> TokensFrom(s, token, from)[k] != []
    decreases |s| - from
  {
    match Find(s, token, from)
    case Some(pos1) =>
      TokensNonEmpty(s, token, pos1 + |token|);
      TokensFromNext(s, token, from);
    case None =>
  }

  /** An occurrence inside a piece of `s` is an occurrence in `s`. */
  lemma OccursInPiece(s: Text, token: Text, from: nat, end: nat, j: nat)
    requires |token| > 0 && from <= end <= |s|
    requires OccursAt(s[from..end], token, j)
    ensures from + j < end && OccursAt(s, token, from + j)
  {
    OccursAtMeansSlice(s[from..end], token, j);
    SliceOfSlice(s, from, end, j, j + |token|);
    OccursAtMeansSlice(s, token, from + j);
  }

  /** A piece of `s` that starts at `from` and holds no occurrence before `end` holds none at all. */
  lemma PieceAvoidsDelimiter(s: Text, token: Text, from: nat, end: nat)
    requires |token| > 0 && from <= end <= |s|
    requires forall j :: from <= j < end ==> !OccursAt(s, token, j)
    ensures forall j: nat :: !OccursAt(s[from..end], token, j)
  {
    forall j: nat ensures !OccursAt(s[from..end], token, j) {
      if OccursAt(s[from..end], token, j) {
        OccursInPiece(s, token, from, end, j);
      }
    }
  }

  /** No piece contains the delimiter. */
  lemma {:induction false} TokensAvoidDelimiter(s: Text, token: Text, from: nat)
    requires |token| > 0 && from <= |s|
    ensures forall k, j: nat :: 0 <= k < |TokensFrom(s, token, from)| ==> !OccursAt(TokensFrom(s, token, from)[k], token, j)
    decreases |s| - from
  {
    FindFirst(s, token, from);
    match Find(s, token, from)
    case Some(pos1) =>
      TokensAvoidDelimiter(s, token, pos1 + |token|);
      TokensFromNext(s, token, from);
      PieceAvoidsDelimiter(s, token, from, pos1);
    case None =>
      PieceAvoidsDelimiter(s, token, from, |s|);
      assert s[from..] == s[from..|s|];
  }

  /** `x` is zero or more whole copies of `token`, one after another. */
  predicate Repeats(x: Text, token: Text)
    decreases |x|
  {
    x == [] || (|token| > 0 && token <= x && Repeats(x[|token|..], token))
  }

  /**
   The text the loop skips when it starts at `from`: before the first
   piece, between consecutive pieces, and after the last one. Each entry
   is the run of delimiters found there.
   */
  function Gaps(s: Text, token: Text, from: nat): (gaps: seq<Text>)
    requires |token| > 0 && from <= |s|
    ensures |gaps| > 0
    decreases |s| - from
  {
    match Find(s, token, from)
    case Some(pos1) =>
      var next := pos1 + |token|;
      var after := Gaps(s, token, next);
      var run := s[pos1..next] + after[0];
      if pos1 != from then [[], run] + after[1..] else [run] + after[1..]
    case None =>
      if from != |s| then [[], []] else [[]]
  }

  /** Gaps and pieces, alternately, starting and ending with a gap. */
  function Join(gaps: seq<Text>, pieces: seq<Text>): Text
    requires |gaps| == |pieces| + 1
    decreases |pieces|
  {
    if pieces == [] then gaps[0] else gaps[0] + pieces[0] + Join(gaps[1..], pieces[1..])
  }

  /** Text put in front of the first gap ends up in front of the joined text. */
  lemma JoinExtendFirst(d: Text, gaps: seq<Text>, pieces: seq<Text>)
    requires |gaps| == |pieces| + 1
    ensures Join([d + gaps[0]] + gaps[1..], pieces) == d + Join(gaps, pieces)
  {
    var g := [d + gaps[0]] + gaps[1..];
    if pieces != [] {
      assert g[1..] == gaps[1..];
      AppendAssoc(d, gaps[0], pieces[0]);
      AppendAssoc(d, gaps[0] + pieces[0], Join(gaps[1..], pieces[1..]));
    }
  }

  /**
   Interleaving the skipped runs with the pieces gives back the input from
   `from` on: the tokenizer loses nothing but delimiters.
   */
  lemma {:induction false} TokensReassemble(s: Text, token: Text, from: nat)
    requires |token| > 0 && from <= |s|
    ensures |Gaps(s, token, from)| == |TokensFrom(s, token, from)| + 1
    ensures Join(Gaps(s, token, from), TokensFrom(s, token, from)) == s[from..]
    decreases |s| - from
  {
    match Find(s, token, from)
    case Some(pos1) =>
      var next := pos1 + |token|;
      TokensReassemble(s, token, next);
      TokensFromNext(s, token, from);
      ReassembleAfterDelimiter(s, token, from);
    case None =>
  }

  /** Joining with a gap and a piece in front. */
  lemma JoinCons(g: Text, p: Text, gaps: seq<Text>, pieces: seq<Text>)
    requires |gaps| == |pieces| + 1
    ensures Join([g] + gaps, [p] + pieces) == g + p + Join(gaps, pieces)
  {
    assert ([g] + gaps)[1..] == gaps && ([p] + pieces)[1..] == pieces;
  }

  lemma SplitAt(s: Text, a: nat, b: nat)
    requires a <= b <= |s|
    ensures s[a..] == s[a..b] + s[b..]
  {
  }

  /** Gaps past the next delimiter. */
  lemma GapsNext(s: Text, token: Text, from: nat)
    requires |token| > 0 && from <= |s| && Find(s, token, from).Some?
    ensures
      var pos1 := Find(s, token, from).value;
      var after := Gaps(s, token, pos1 + |token|);
      var run := s[pos1..pos1 + |token|] + after[0];
      Gaps(s, token, from) == (if pos1 != from then [[], run] else [run]) + after[1..]
  {
  }

  /**
   Joining the runs and pieces from `from` on, given that the ones after the
   delimiter at `pos1..next` join to the text after it.
   */
  lemma JoinAfterDelimiter(s: Text, from: nat, pos1: nat, next: nat, after: seq<Text>, rest: seq<Text>)
    requires from <= pos1 <= next <= |s|
    requires |after| == |rest| + 1 && Join(after, rest) == s[next..]
    ensures
      var run := s[pos1..next] + after[0];
      var gaps := (if pos1 != from then [[], run] else [run]) + after[1..];
      var pieces := (if pos1 != from then [s[from..pos1]] else []) + rest;
      |gaps| == |pieces| + 1 && Join(gaps, pieces) == s[from..]
  {
    var d := s[pos1..next];
    var runs := [d + after[0]] + after[1..];
    JoinExtendFirst(d, after, rest);
    SplitAt(s, pos1, next);
    if pos1 != from {
      assert [[], d + after[0]] + after[1..] == [[]] + runs;
      JoinCons([], s[from..pos1], runs, rest);
      SplitAt(s, from, pos1);
      AppendAssoc(s[from..pos1], d, s[next..]);
    } else {
      assert [] + rest == rest;
      assert [d + after[0]] + after[1..] == runs;
    }
  }

  /** The inductive step of TokensReassemble, past the next delimiter. */
  lemma ReassembleAfterDelimiter(s: Text, token: Text, from: nat)
    requires |token| > 0 && from <= |s| && Find(s, token, from).Some?
    requires
      var next := Find(s, token, from).value + |token|;
      |Gaps(s, token, next)| == |TokensFrom(s, token, next)| + 1
      && Join(Gaps(s, token, next), TokensFrom(s, token, next)) == s[next..]
    ensures |Gaps(s, token, from)| == |TokensFrom(s, token, from)| + 1
    ensures Join(Gaps(s, token, from), TokensFrom(s, token, from)) == s[from..]
  {
    var pos1 := Find(s, token, from).value;
    var next := pos1 + |token|;
    TokensFromNext(s, token, from);
    GapsNext(s, token, from);
    JoinAfterDelimiter(s, from, pos1, next, Gaps(s, token, next), TokensFrom(s, token, next));
  }

  /**
   Every skipped run is made of whole delimiters, and the runs between two
   pieces are not empty.
   */
  lemma {:induction false} GapsAreDelimiters(s: Text, token: Text, from: nat)
    requires |token| > 0 && from <= |s|
    ensures forall k :: 0 <= k < |Gaps(s, token, from)| ==> Repeats(Gaps(s, token, from)[k], token)
    ensures forall k :: 0 < k < |Gaps(s, token, from)| - 1 ==> Gaps(s, token, from)[k] != []
    decreases |s| - from
  {
    match Find(s, token, from)
    case Some(pos1) =>
      var next := pos1 + |token|;
      FindOccurs(s, token, from);
      GapsAreDelimiters(s, token, next);
      GapsNext(s, token, from);
      OccursAtMeansSlice(s, token, pos1);
      RunsAfterDelimiter(token, s[pos1..next], pos1 != from, Gaps(s, token, next), Gaps(s, token, from));
    case None =>
  }

  /** The inductive step of GapsAreDelimiters: a delimiter joins the first run after it. */
  lemma RunsAfterDelimiter(token: Text, d: Text, piece: bool, after: seq<Text>, gaps: seq<Text>)
    requires d == token && |token| > 0 && |after| > 0
    requires forall k :: 0 <= k < |after| ==> Repeats(after[k], token)
    requires forall k :: 0 < k < |after| - 1 ==> after[k] != []
    requires gaps == (if piece then [[], d + after[0]] else [d + after[0]]) + after[1..]
    ensures forall k :: 0 <= k < |gaps| ==> Repeats(gaps[k], token)
    ensures forall k :: 0 < k < |gaps| - 1 ==> gaps[k] != []
  {
    var run := d + after[0];
    assert run[|token|..] == after[0];
    assert Repeats(run, token);
    var shift := if piece then 1 else 0;
    forall k | shift + 1 <= k < |gaps| ensures gaps[k] == after[k - shift] {}
  }

  /**
   What TokenizeString returns: non-empty pieces without the delimiter
   which, interleaved with runs of whole delimiters, rebuild the input.
   */
  lemma TokensSpec(input: Text, token: Text)
    requires |token| > 0
    ensures forall k :: 0 <= k < |Tokens(input, token)| ==> Tokens(input, token)[k] != []
    ensures forall k, j: nat :: 0 <= k < |Tokens(input, token)| ==> !OccursAt(Tokens(input, token)[k], token, j)
    ensures |Gaps(input, token, 0)| == |Tokens(input, token)| + 1
    ensures Join(Gaps(input, token, 0), Tokens(input, token)) == input
    ensures forall k :: 0 <= k < |Gaps(input, token, 0)| ==> Repeats(Gaps(input, token, 0)[k], token)
    ensures forall k :: 0 < k < |Gaps(input, token, 0)| - 1 ==> Gaps(input, token, 0)[k] != []
  {
    TokensNonEmpty(input, token, 0);
    TokensAvoidDelimiter(input, token, 0);
    TokensReassemble(input, token, 0);
    GapsAreDelimiters(input, token, 0);
  }

  /** An empty input has no pieces. */
  lemma TokensOfEmpty(token: Text)
    requires |token| > 0
    ensures Tokens([], token) == []
  {
    assert Find([], token, 0) == None;
  }

  /** An input in which the delimiter does not occur is one piece, itself. */
  lemma TokensWithoutDelimiter(input: Text, token: Text)
    requires |token| > 0 && input != []
    requires forall j :: 0 <= j <= |input| ==> !OccursAt(input, token, j)
    ensures Tokens(input, token) == [input]
  {
    FindFirst(input, token, 0);
  }

  /** Empty pieces between adjacent delimiters and after the last one are dropped. */
  lemma TokensExample()
    ensures Tokens(Units("a,,b,"), Units(",")) == [Units("a"), Units("b")]
  {
    var s, comma := Units("a,,b,"), Units(",");
    assert s == [97, 44, 44, 98, 44] && comma == [44];
    assert Find(s, comma, 0) == Some(1);
    assert Find(s, comma, 2) == Some(2);
    assert Find(s, comma, 3) == Some(4);
    assert Find(s, comma, 5) == None;
    assert TokensFrom(s, comma, 5) == [];
    assert TokensFrom(s, comma, 3) == [s[3..4]];
    assert TokensFrom(s, comma, 0) == [s[0..1], s[3..4]];
    assert s[0..1] == Units("a") && s[3..4] == Units("b");
  }

  /**
   The search restarts after the end of the delimiter just used, so an
   occurrence overlapping it is not split on: "aaa" split at "aa" gives "a",
   although "aa" also occurs at position 1.
   */
  lemma TokensOverlapExample()
    ensures OccursAt([97, 97, 97], [97, 97], 1)
    ensures Tokens([97, 97, 97], [97, 97]) == [[97]]
  {
    var s, token := [97, 97, 97], [97, 97];
    assert Find(s, token, 0) == Some(0);
    assert Find(s, token, 2) == None;
    assert TokensFrom(s, token, 2) == [s[2..]];
  }
}
