/**
 `Utils::ToUpperNoAccents`, `Utils::EqualIgnoreCase` and
 `Utils::CompareIgnoreCase` of gframe/utils.h.

 ToUpperNoAccents maps every code unit through one fold. As written, the
 Latin-1 ranges 192-197 and 224-229 become A, 200-203 and 232-235 become
 I, 210-214 and 242-246 become O, 217-220 and 249-252 become U, and 209 and
 241 become N. Everything else goes through the C library's upper-casing
 (its ASCII part here), so 204-207, 236-239, 216, 248, 221, 253 and 255
 are not folded (216, 248, 221, 253 and 255 are not folded by the intended
 fold either). The two comparisons compare the folded texts with `==` and
 with `basic_string`'s `operator<`.

 FoldUnitAsWritten is the fold as the source writes it. Its second branch
 repeats the condition of the first, so it never fires, and the accented E
 range (200-203, 232-235) lands in the I branch. FoldUnit is the fold the
 branches evidently intend, with E for the accented E range and I for the
 accented I range (204-207, 236-239). ToUpperNoAccents, EqualIgnoreCase
 and CompareIgnoreCase are built on FoldUnit; EqualIgnoreCaseAsWritten and
 CompareIgnoreCaseAsWritten are the comparisons as the source computes
 them, and ComparisonsDiffer shows where the two part.
 */
module Folding {
  import opened CodeUnits

  /** `IN_INTERVAL(start, end)`: `c` lies between the bounds, both included, so they are in order. */
  predicate InInterval(c: CodeUnit, lo: CodeUnit, hi: CodeUnit)
    ensures InInterval(c, lo, hi) ==> lo <= hi
  {
    lo <= c <= hi
  }

  const CAPITAL_A: CodeUnit := 'A' as int
  const CAPITAL_E: CodeUnit := 'E' as int
  const CAPITAL_I: CodeUnit := 'I' as int
  const CAPITAL_N: CodeUnit := 'N' as int
  const CAPITAL_O: CodeUnit := 'O' as int
  const CAPITAL_U: CodeUnit := 'U' as int

  /** The per-unit lambda of `Utils::ToUpperNoAccents` as written, branch for branch. */
  function FoldUnitAsWritten(c: CodeUnit): (r: CodeUnit)
    ensures !IsAsciiLower(r)
  {
    if InInterval(c, 192, 197) || InInterval(c, 224, 229) then CAPITAL_A
    else if InInterval(c, 192, 197) || InInterval(c, 224, 229) then CAPITAL_E
    else if InInterval(c, 200, 203) || InInterval(c, 232, 235) then CAPITAL_I
    else if InInterval(c, 210, 214) || InInterval(c, 242, 246) then CAPITAL_O
    else if InInterval(c, 217, 220) || InInterval(c, 249, 252) then CAPITAL_U
    else if c == 209 || c == 241 then CAPITAL_N
    else ToUpper(c)
  }

  /** `Utils::ToUpperNoAccents` as written: `std::transform` of the text with FoldUnitAsWritten. */
  function ToUpperNoAccentsAsWritten(s: Text): (r: Text)
    ensures |r| == |s|
    ensures forall i :: 0 <= i < |s| ==> r[i] == FoldUnitAsWritten(s[i])
  {
    seq(|s|, i requires 0 <= i < |s| => FoldUnitAsWritten(s[i]))
  }

  /**
   The per-unit fold as its branches intend it: E for the accented E range
   and I for the accented I range, the other branches as written.
   */
  function FoldUnit(c: CodeUnit): (r: CodeUnit)
    ensures !IsAsciiLower(r)
  {
    if InInterval(c, 192, 197) || InInterval(c, 224, 229) then CAPITAL_A
    else if InInterval(c, 200, 203) || InInterval(c, 232, 235) then CAPITAL_E
    else if InInterval(c, 204, 207) || InInterval(c, 236, 239) then CAPITAL_I
    else if InInterval(c, 210, 214) || InInterval(c, 242, 246) then CAPITAL_O
    else if InInterval(c, 217, 220) || InInterval(c, 249, 252) then CAPITAL_U
    else if c == 209 || c == 241 then CAPITAL_N
    else ToUpper(c)
  }

  /** `Utils::ToUpperNoAccents` with the intended fold. */
  function ToUpperNoAccents(s: Text): (r: Text)
    ensures |r| == |s|
    ensures forall i :: 0 <= i < |s| ==> r[i] == FoldUnit(s[i])
  {
    seq(|s|, i requires 0 <= i < |s| => FoldUnit(s[i]))
  }

  /** `Utils::EqualIgnoreCase`: the folded texts are equal, so the texts are as long. */
  predicate EqualIgnoreCase(a: Text, b: Text)
    ensures EqualIgnoreCase(a, b) ==> |a| == |b|
  {
    ToUpperNoAccents(a) == ToUpperNoAccents(b)
  }

  /**
   `basic_string`'s `operator<`: the first differing code unit decides, and
   a proper prefix is less than the text it starts. No text is less than
   itself.
   */
  predicate LexLess(a: Text, b: Text)
    ensures LexLess(a, b) ==> a != b
    decreases |a|
  {
    if a == [] then b != []
    else if b == [] then false
    else if a[0] != b[0] then a[0] < b[0]
    else LexLess(a[1..], b[1..])
  }

  /**
   `Utils::CompareIgnoreCase`: the folded texts are in `operator<` order.
   Texts that are less in one direction are neither greater nor equal
   ignoring case.
   */
  predicate CompareIgnoreCase(a: Text, b: Text)
    ensures CompareIgnoreCase(a, b) ==> !EqualIgnoreCase(a, b)
  {
    LexLess(ToUpperNoAccents(a), ToUpperNoAccents(b))
  }

  // ---------------------------------------------------------------------
  // The fold as written

  /** The code units the source lists in its accent branches. */
  predicate ListedAsWritten(c: CodeUnit) {
    || 192 <= c <= 197 || 224 <= c <= 229
    || 200 <= c <= 203 || 232 <= c <= 235
    || 210 <= c <= 214 || 242 <= c <= 246
    || 217 <= c <= 220 || 249 <= c <= 252
    || c == 209 || c == 241
  }

  /**
   As written, the accented ranges fold to a plain capital: A for 192-197
   and 224-229, I for 200-203 and 232-235, O for 210-214 and 242-246, U for
   217-220 and 249-252, N for 209 and 241; every other unit is upper-cased.
   */
  lemma FoldUnitAsWrittenTable(c: CodeUnit)
    ensures (192 <= c <= 197 || 224 <= c <= 229) ==> FoldUnitAsWritten(c) == CAPITAL_A
    ensures (200 <= c <= 203 || 232 <= c <= 235) ==> FoldUnitAsWritten(c) == CAPITAL_I
    ensures (210 <= c <= 214 || 242 <= c <= 246) ==> FoldUnitAsWritten(c) == CAPITAL_O
    ensures (217 <= c <= 220 || 249 <= c <= 252) ==> FoldUnitAsWritten(c) == CAPITAL_U
    ensures (c == 209 || c == 241) ==> FoldUnitAsWritten(c) == CAPITAL_N
    ensures !ListedAsWritten(c) ==> FoldUnitAsWritten(c) == ToUpper(c)
  {
  }

  /** As written, only `e` and `E` fold to `E`: the E branch never fires. */
  lemma FoldsToCapitalE(c: CodeUnit)
    ensures FoldUnitAsWritten(c) == CAPITAL_E <==> c == 'e' as int || c == 'E' as int
  {
  }

  /** As written, folding a folded text changes nothing. */
  lemma ToUpperNoAccentsAsWrittenIdempotent(s: Text)
    ensures ToUpperNoAccentsAsWritten(ToUpperNoAccentsAsWritten(s)) == ToUpperNoAccentsAsWritten(s)
  {
    var once := ToUpperNoAccentsAsWritten(s);
    forall i | 0 <= i < |s| ensures ToUpperNoAccentsAsWritten(once)[i] == once[i] {
      assert once[i] == FoldUnitAsWritten(s[i]);
    }
  }

  /** As written, "café" folds to "CAFI", so it is not "CAFE" ignoring case. */
  lemma CafeAsWritten()
    ensures ToUpperNoAccentsAsWritten(Units("café")) == Units("CAFI")
    ensures ToUpperNoAccentsAsWritten(Units("café")) != ToUpperNoAccentsAsWritten(Units("CAFE"))
  {
    var folded := ToUpperNoAccentsAsWritten(Units("café"));
    assert folded[3] == FoldUnitAsWritten(233) == CAPITAL_I;
    assert folded == [67, 65, 70, 73];
    assert ToUpperNoAccentsAsWritten(Units("CAFE"))[3] == CAPITAL_E;
  }

  // ---------------------------------------------------------------------
  // The intended fold

  /** The code units the intended fold maps to a plain capital letter. */
  predicate Accented(c: CodeUnit) {
    || 192 <= c <= 197 || 224 <= c <= 229
    || 200 <= c <= 207 || 232 <= c <= 239
    || 210 <= c <= 214 || 242 <= c <= 246
    || 217 <= c <= 220 || 249 <= c <= 252
    || c == 209 || c == 241
  }

  /**
   Every accented vowel of Latin-1 the branches list folds to its own plain
   capital: A for 192-197 and 224-229, E for 200-203 and 232-235, I for
   204-207 and 236-239, O for 210-214 and 242-246, U for 217-220 and
   249-252, N for 209 and 241; every other unit is upper-cased.
   */
  lemma FoldUnitTable(c: CodeUnit)
    ensures (192 <= c <= 197 || 224 <= c <= 229) ==> FoldUnit(c) == CAPITAL_A
    ensures (200 <= c <= 203 || 232 <= c <= 235) ==> FoldUnit(c) == CAPITAL_E
    ensures (204 <= c <= 207 || 236 <= c <= 239) ==> FoldUnit(c) == CAPITAL_I
    ensures (210 <= c <= 214 || 242 <= c <= 246) ==> FoldUnit(c) == CAPITAL_O
    ensures (217 <= c <= 220 || 249 <= c <= 252) ==> FoldUnit(c) == CAPITAL_U
    ensures (c == 209 || c == 241) ==> FoldUnit(c) == CAPITAL_N
    ensures !Accented(c) ==> FoldUnit(c) == ToUpper(c)
  {
  }

  /** The intended fold agrees with the written one except on the accented E and I ranges. */
  lemma FoldUnitCorrection(c: CodeUnit)
    ensures FoldUnit(c) != FoldUnitAsWritten(c) <==> 200 <= c <= 207 || 232 <= c <= 239
  {
  }

  /** With the intended fold, "café" and "CAFE" are equal ignoring case. */
  lemma CafeIntended()
    ensures ToUpperNoAccents(Units("café")) == Units("CAFE")
    ensures EqualIgnoreCase(Units("café"), Units("CAFE"))
  {
    var a, b := ToUpperNoAccents(Units("café")), ToUpperNoAccents(Units("CAFE"));
    assert a == [67, 65, 70, 69];
    assert b == [67, 65, 70, 69];
  }

  /** Folding twice is folding once. */
  lemma FoldUnitIdempotent(c: CodeUnit)
    ensures FoldUnit(FoldUnit(c)) == FoldUnit(c)
  {
  }

  /** ToUpperNoAccents is idempotent. */
  lemma ToUpperNoAccentsIdempotent(s: Text)
    ensures ToUpperNoAccents(ToUpperNoAccents(s)) == ToUpperNoAccents(s)
  {
    var once := ToUpperNoAccents(s);
    forall i | 0 <= i < |s| ensures ToUpperNoAccents(once)[i] == once[i] {
      FoldUnitIdempotent(s[i]);
    }
  }

  /**
   Case does not matter: an ASCII capital and its small letter fold alike,
   and so do the upper- and lower-case forms of every accented range
   (which lie 32 apart in Latin-1).
   */
  lemma FoldIgnoresCase(c: CodeUnit)
    ensures IsAsciiUpper(c) ==> FoldUnit(c) == FoldUnit(c + 32)
    ensures (192 <= c <= 197 || 200 <= c <= 207 || 209 <= c <= 214 || 217 <= c <= 220)
      ==> FoldUnit(c) == FoldUnit(c + 32)
  {
  }

  // ---------------------------------------------------------------------
  // EqualIgnoreCase and CompareIgnoreCase

  /** EqualIgnoreCase compares unit by unit after folding. */
  lemma EqualIgnoreCaseUnitwise(a: Text, b: Text)
    ensures EqualIgnoreCase(a, b) <==> |a| == |b| && forall i :: 0 <= i < |a| ==> FoldUnit(a[i]) == FoldUnit(b[i])
  {
    if |a| == |b| && forall i :: 0 <= i < |a| ==> FoldUnit(a[i]) == FoldUnit(b[i]) {
      assert forall i :: 0 <= i < |a| ==> ToUpperNoAccents(a)[i] == ToUpperNoAccents(b)[i];
    }
    if EqualIgnoreCase(a, b) {
      assert |ToUpperNoAccents(a)| == |ToUpperNoAccents(b)|;
      forall i | 0 <= i < |a| ensures FoldUnit(a[i]) == FoldUnit(b[i]) {
        assert ToUpperNoAccents(a)[i] == ToUpperNoAccents(b)[i];
      }
    }
  }

  /** A text equals its ASCII-lower-cased form and its folded form, ignoring case. */
  lemma EqualIgnoreCaseOfCaseChanges(s: Text)
    ensures EqualIgnoreCase(s, LowerAll(s))
    ensures EqualIgnoreCase(s, ToUpperNoAccents(s))
  {
    forall i | 0 <= i < |s| ensures FoldUnit(s[i]) == FoldUnit(LowerAll(s)[i]) {
      FoldIgnoresCase(s[i]);
    }
    EqualIgnoreCaseUnitwise(s, LowerAll(s));
    ToUpperNoAccentsIdempotent(s);
  }

  /** EqualIgnoreCase is an equivalence. */
  lemma EqualIgnoreCaseEquivalence(a: Text, b: Text, c: Text)
    ensures EqualIgnoreCase(a, a)
    ensures EqualIgnoreCase(a, b) ==> EqualIgnoreCase(b, a)
    ensures EqualIgnoreCase(a, b) && EqualIgnoreCase(b, c) ==> EqualIgnoreCase(a, c)
  {
  }

  /** `operator<` is transitive. */
  lemma {:induction false} LexLessTransitive(a: Text, b: Text, c: Text)
    requires LexLess(a, b) && LexLess(b, c)
    ensures LexLess(a, c)
    decreases |a|
  {
    if a != [] && b != [] && c != [] && a[0] == b[0] && b[0] == c[0] {
      LexLessTransitive(a[1..], b[1..], c[1..]);
    }
  }

  /** Of two different texts, exactly one is less than the other. */
  lemma {:induction false} LexLessTrichotomy(a: Text, b: Text)
    ensures a == b || LexLess(a, b) || LexLess(b, a)
    ensures !(LexLess(a, b) && LexLess(b, a))
    decreases |a|
  {
    if a != [] && b != [] && a[0] == b[0] {
      LexLessTrichotomy(a[1..], b[1..]);
      if a[1..] == b[1..] {
        assert a == [a[0]] + a[1..] && b == [b[0]] + b[1..];
      }
    }
  }

  /**
   CompareIgnoreCase is a strict weak order whose equivalence is
   EqualIgnoreCase: it is irreflexive and transitive, and of two texts
   exactly one of "less", "greater" and "equal ignoring case" holds.
   */
  lemma CompareIgnoreCaseOrder(a: Text, b: Text, c: Text)
    ensures !CompareIgnoreCase(a, a)
    ensures CompareIgnoreCase(a, b) && CompareIgnoreCase(b, c) ==> CompareIgnoreCase(a, c)
    ensures EqualIgnoreCase(a, b) || CompareIgnoreCase(a, b) || CompareIgnoreCase(b, a)
    ensures !(CompareIgnoreCase(a, b) && CompareIgnoreCase(b, a))
    ensures EqualIgnoreCase(a, b) ==> !CompareIgnoreCase(a, b)
  {
    var fa, fb, fc := ToUpperNoAccents(a), ToUpperNoAccents(b), ToUpperNoAccents(c);
    if LexLess(fa, fb) && LexLess(fb, fc) {
      LexLessTransitive(fa, fb, fc);
    }
    LexLessTrichotomy(fa, fb);
  }

  /** A text that the other starts with properly is less, ignoring case. */
  lemma CompareIgnoreCasePrefix(a: Text, b: Text)
    requires |a| < |b| && forall i :: 0 <= i < |a| ==> FoldUnit(a[i]) == FoldUnit(b[i])
    ensures CompareIgnoreCase(a, b)
  {
    PrefixIsLess(ToUpperNoAccents(a), ToUpperNoAccents(b));
  }

  lemma {:induction false} PrefixIsLess(a: Text, b: Text)
    requires |a| < |b| && forall i :: 0 <= i < |a| ==> a[i] == b[i]
    ensures LexLess(a, b)
    decreases |a|
  {
    if a != [] {
      PrefixIsLess(a[1..], b[1..]);
    }
  }

  // ---------------------------------------------------------------------
  // The comparisons as written

  /** `Utils::EqualIgnoreCase` as the source computes it, on the fold as written. */
  predicate EqualIgnoreCaseAsWritten(a: Text, b: Text)
    ensures EqualIgnoreCaseAsWritten(a, b) ==> |a| == |b|
  {
    ToUpperNoAccentsAsWritten(a) == ToUpperNoAccentsAsWritten(b)
  }

  /** `Utils::CompareIgnoreCase` as the source computes it, on the fold as written. */
  predicate CompareIgnoreCaseAsWritten(a: Text, b: Text)
    ensures CompareIgnoreCaseAsWritten(a, b) ==> !EqualIgnoreCaseAsWritten(a, b)
  {
    LexLess(ToUpperNoAccentsAsWritten(a), ToUpperNoAccentsAsWritten(b))
  }

  /**
   The comparisons as written are still sound for sorting: equality
   ignoring case is an equivalence, and CompareIgnoreCaseAsWritten is a
   strict weak order whose equivalence it is.
   */
  lemma ComparisonsAsWrittenOrder(a: Text, b: Text, c: Text)
    ensures EqualIgnoreCaseAsWritten(a, a)
    ensures EqualIgnoreCaseAsWritten(a, b) ==> EqualIgnoreCaseAsWritten(b, a)
    ensures EqualIgnoreCaseAsWritten(a, b) && EqualIgnoreCaseAsWritten(b, c) ==> EqualIgnoreCaseAsWritten(a, c)
    ensures !CompareIgnoreCaseAsWritten(a, a)
    ensures CompareIgnoreCaseAsWritten(a, b) && CompareIgnoreCaseAsWritten(b, c) ==> CompareIgnoreCaseAsWritten(a, c)
    ensures EqualIgnoreCaseAsWritten(a, b) || CompareIgnoreCaseAsWritten(a, b) || CompareIgnoreCaseAsWritten(b, a)
    ensures !(CompareIgnoreCaseAsWritten(a, b) && CompareIgnoreCaseAsWritten(b, a))
  {
    var fa, fb, fc := ToUpperNoAccentsAsWritten(a), ToUpperNoAccentsAsWritten(b), ToUpperNoAccentsAsWritten(c);
    if LexLess(fa, fb) && LexLess(fb, fc) {
      LexLessTransitive(fa, fb, fc);
    }
    LexLessTrichotomy(fa, fb);
  }

  /**
   Where the comparisons as written and as intended part: "é" and "E" are
   equal ignoring case only with the intended fold; as written "E" sorts
   before "é", which folds to "I".
   */
  lemma ComparisonsDiffer()
    ensures EqualIgnoreCase([233], [69])
    ensures !EqualIgnoreCaseAsWritten([233], [69])
    ensures CompareIgnoreCaseAsWritten([69], [233])
  {
    assert ToUpperNoAccents([233]) == [69];
    assert ToUpperNoAccentsAsWritten([233]) == [73];
    assert ToUpperNoAccentsAsWritten([69]) == [69];
  }
}
