/**
 `Utils::KeepOnlyDigits` of gframe/utils.h: erase from a wide string every
 code unit that is not a decimal digit, except a leading minus sign when
 negative numbers are allowed, and report whether anything was erased.

 The source walks an iterator through the string and erases in place. A
 unit survives when it is `-`, negatives are allowed and the iterator is at
 the current beginning of the string (so everything before it has been
 erased), or when `(unsigned)(c - L'0') <= 9`. KeepOnlyDigits below is that
 loop on a local copy of the text, returned as the new content;
 OnlyDigits is what it computes.
 */
module Digits {
  import opened CodeUnits

  /** `unsigned int` arithmetic wraps modulo 2^32. */
  const UNSIGNED_MODULUS: int := 0x1_0000_0000

  /**
   `(unsigned)(c - L'0') > 9`: the test that erases a unit. It never erases
   a digit, and it always erases the minus sign.
   */
  predicate IsErased(c: CodeUnit)
    ensures IsDigit(c) ==> !IsErased(c)
    ensures c == MINUS ==> IsErased(c)
  {
    (c - ZERO) % UNSIGNED_MODULUS > 9
  }

  /** A `wchar_t` has at most 32 bits, so every unit of a wide string is below 2^32. */
  predicate IsWide(s: Text) {
    forall i :: 0 <= i < |s| ==> s[i] < UNSIGNED_MODULUS
  }

  /** For a `wchar_t`, the wrap-around test erases exactly the units that are not digits. */
  lemma ErasedIffNotDigit(c: CodeUnit)
    requires c < UNSIGNED_MODULUS
    ensures IsErased(c) <==> !IsDigit(c)
  {
    if c < ZERO {
      assert (c - ZERO) % UNSIGNED_MODULUS == c - ZERO + UNSIGNED_MODULUS;
    }
  }

  /**
   What the loop keeps of `s` when it reaches `s` with `atBegin` telling
   whether nothing has been kept so far (the iterator is at `begin()`).
   */
  function KeepFrom(s: Text, negative: bool, atBegin: bool): (r: Text)
    ensures |r| <= |s|
    ensures |r| == |s| ==> r == s
    decreases |s|
  {
    if s == [] then []
    else if s[0] == MINUS && negative && atBegin then [s[0]] + KeepFrom(s[1..], negative, false)
    else if IsErased(s[0]) then KeepFrom(s[1..], negative, atBegin)
    else [s[0]] + KeepFrom(s[1..], negative, false)
  }

  /**
   The content `Utils::KeepOnlyDigits` leaves in its argument: the input
   with some units erased, so as long as the input only when nothing was.
   */
  function OnlyDigits(input: Text, negative: bool): (r: Text)
    ensures |r| <= |input|
    ensures |r| == |input| ==> r == input
  {
    KeepFrom(input, negative, true)
  }

  /** KeepFrom one unit further on. */
  lemma KeepFromStep(s: Text, k: nat, negative: bool, atBegin: bool)
    requires k < |s|
    ensures KeepFrom(s[k..], negative, atBegin)
      == if s[k] == MINUS && negative && atBegin then [s[k]] + KeepFrom(s[k + 1..], negative, false)
         else if IsErased(s[k]) then KeepFrom(s[k + 1..], negative, atBegin)
         else [s[k]] + KeepFrom(s[k + 1..], negative, false)
  {
    assert s[k..][1..] == s[k + 1..];
  }

  /** Whether the loop keeps unit `c`, reached with `atBegin` telling whether nothing has been kept so far. */
  predicate Kept(c: CodeUnit, negative: bool, atBegin: bool)
    ensures IsDigit(c) ==> Kept(c, negative, atBegin)
    ensures c == MINUS ==> (Kept(c, negative, atBegin) <==> negative && atBegin)
  {
    (c == MINUS && negative && atBegin) || !IsErased(c)
  }

  /**
   The loop's invariant: the first `i` units of the work copy are what has
   been kept of the first `k` units of the input, the rest of the copy is the
   rest of the input, and keeping from there completes OnlyDigits.
   */
  predicate Scanned(input: Text, negative: bool, output: Text, i: nat, k: nat) {
    i <= |output| && i <= k <= |input| && output[i..] == input[k..]
    && OnlyDigits(input, negative) == output[..i] + KeepFrom(input[k..], negative, i == 0)
  }

  /** One turn of the loop keeps the invariant, with one input unit fewer to go. */
  lemma ScannedStep(input: Text, negative: bool, output: Text, i: nat, k: nat)
    requires Scanned(input, negative, output, i, k) && i < |output|
    ensures Kept(output[i], negative, i == 0) ==> Scanned(input, negative, output, i + 1, k + 1)
    ensures !Kept(output[i], negative, i == 0) ==> Scanned(input, negative, output[..i] + output[i + 1..], i, k + 1)
    ensures |output[..i] + output[i + 1..]| == |output| - 1
  {
    var rest := input[k + 1..];
    assert output[i] == input[k];
    assert output[i + 1..] == output[i..][1..];
    assert input[k..][1..] == rest;
    if Kept(output[i], negative, i == 0) {
      assert KeepFrom(input[k..], negative, i == 0) == [input[k]] + KeepFrom(rest, negative, false);
      assert output[..i + 1] == output[..i] + [output[i]];
    } else {
      assert KeepFrom(input[k..], negative, i == 0) == KeepFrom(rest, negative, i == 0);
      var erased := output[..i] + output[i + 1..];
      assert erased[..i] == output[..i];
      assert erased[i..] == output[i + 1..];
    }
  }

  /** When the work copy has been scanned to its end, it is the whole result and the input is used up. */
  lemma ScannedDone(input: Text, negative: bool, output: Text, i: nat, k: nat)
    requires Scanned(input, negative, output, i, k) && i == |output|
    ensures output == OnlyDigits(input, negative)
    ensures k == |input|
  {
    assert input[k..] == output[i..] == [];
    assert output[..i] == output;
  }

  /**
   The loop of `Utils::KeepOnlyDigits`, erasing from a local copy of the
   text. A unit is kept by the first test (a minus at the beginning when
   negatives are allowed) or because the wrap-around test does not erase it.
   */
  method KeepOnlyDigits(input: Text, negative: bool) returns (output: Text, changed: bool)
    ensures output == OnlyDigits(input, negative)
    ensures changed <==> |output| < |input|
  {
    output := input;
    changed := false;
    var i := 0;
    ghost var k := 0;
    while i < |output|
      invariant Scanned(input, negative, output, i, k)
      invariant changed <==> i < k
      decreases |output| - i
    {
      ScannedStep(input, negative, output, i, k);
      if Kept(output[i], negative, i == 0) {
        i := i + 1;
      } else {
        output := output[..i] + output[i + 1..];
        changed := true;
      }
      k := k + 1;
    }
    ScannedDone(input, negative, output, i, k);
  }

  // ---------------------------------------------------------------------
  // What is left

  /** The units of `s` that the wrap-around test keeps, in order. */
  function DigitsOf(s: Text): (r: Text)
    ensures |r| <= |s|
    ensures forall i :: 0 <= i < |r| ==> !IsErased(r[i])
    decreases |s|
  {
    if s == [] then []
    else if IsErased(s[0]) then DigitsOf(s[1..])
    else [s[0]] + DigitsOf(s[1..])
  }

  /** The test would erase nothing in `r`, except a minus in front when `minusAllowed`. */
  predicate OnlyLeadingMinus(r: Text, minusAllowed: bool) {
    forall i :: 0 <= i < |r| ==> !IsErased(r[i]) || (i == 0 && r[0] == MINUS && minusAllowed)
  }

  /**
   Nothing but a leading minus is left that the test would erase; the
   minus is only ever kept when negatives are allowed, and then only first.
   */
  lemma {:induction false} KeepFromShape(s: Text, negative: bool, atBegin: bool)
    ensures OnlyLeadingMinus(KeepFrom(s, negative, atBegin), negative && atBegin)
    decreases |s|
  {
    if s != [] {
      var r := KeepFrom(s, negative, atBegin);
      if (s[0] == MINUS && negative && atBegin) || !IsErased(s[0]) {
        KeepFromShape(s[1..], negative, false);
        var rest := KeepFrom(s[1..], negative, false);
        assert r == [s[0]] + rest;
        forall i | 0 < i < |r| ensures !IsErased(r[i]) {
          assert r[i] == rest[i - 1];
        }
      } else {
        KeepFromShape(s[1..], negative, atBegin);
        assert r == KeepFrom(s[1..], negative, atBegin);
      }
    }
  }

  /** Every digit of the input is kept, in order, and nothing else but the minus. */
  lemma {:induction false} KeepFromDigits(s: Text, negative: bool, atBegin: bool)
    ensures DigitsOf(KeepFrom(s, negative, atBegin)) == DigitsOf(s)
    decreases |s|
  {
    if s != [] {
      var atBegin' := if (s[0] == MINUS && negative && atBegin) || !IsErased(s[0]) then false else atBegin;
      KeepFromDigits(s[1..], negative, atBegin');
      var r := KeepFrom(s[1..], negative, atBegin');
      if (s[0] == MINUS && negative && atBegin) || !IsErased(s[0]) {
        assert ([s[0]] + r)[1..] == r;
      }
    }
  }

  /**
   The result of `Utils::KeepOnlyDigits` on a wide string: every unit is a
   digit except a leading minus, which is only kept when negatives are
   allowed, and the digits are those of the input, in order.
   */
  lemma OnlyDigitsSpec(input: Text, negative: bool)
    requires IsWide(input)
    ensures var r := OnlyDigits(input, negative);
      forall i :: 0 <= i < |r| ==> IsDigit(r[i]) || (i == 0 && r[0] == MINUS && negative)
    ensures DigitsOf(OnlyDigits(input, negative)) == DigitsOf(input)
  {
    var r := OnlyDigits(input, negative);
    KeepFromShape(input, negative, true);
    KeepFromDigits(input, negative, true);
    KeepFromWide(input, negative, true);
    forall i | 0 <= i < |r| ensures IsDigit(r[i]) || (i == 0 && r[0] == MINUS && negative) {
      ErasedIffNotDigit(r[i]);
    }
  }

  /** The kept units come from the input, so they are wide too. */
  lemma {:induction false} KeepFromWide(s: Text, negative: bool, atBegin: bool)
    requires IsWide(s)
    ensures IsWide(KeepFrom(s, negative, atBegin))
    decreases |s|
  {
    if s != [] {
      KeepFromWide(s[1..], negative, false);
      KeepFromWide(s[1..], negative, atBegin);
    }
  }

  /**
   A minus is left in front exactly when negatives are allowed and the input
   has a minus before which the test erases everything.
   */
  lemma {:induction false} LeadingMinus(s: Text, negative: bool)
    ensures var r := OnlyDigits(s, negative);
      (|r| > 0 && r[0] == MINUS) <==> negative && exists j :: 0 <= j < |s| && s[j] == MINUS && ErasedBefore(s, j)
    decreases |s|
  {
    if s != [] {
      if s[0] == MINUS && negative {
        assert ErasedBefore(s, 0);
      } else if IsErased(s[0]) {
        LeadingMinus(s[1..], negative);
        if exists j :: 0 <= j < |s[1..]| && s[1..][j] == MINUS && ErasedBefore(s[1..], j) {
          var j :| 0 <= j < |s[1..]| && s[1..][j] == MINUS && ErasedBefore(s[1..], j);
          assert s[j + 1] == MINUS && ErasedBefore(s, j + 1);
        }
        if exists j :: 0 <= j < |s| && s[j] == MINUS && ErasedBefore(s, j) {
          var j :| 0 <= j < |s| && s[j] == MINUS && ErasedBefore(s, j);
          if j > 0 {
            assert s[1..][j - 1] == MINUS && ErasedBefore(s[1..], j - 1);
          }
        }
      } else {
        assert IsErased(MINUS);
      }
    }
  }

  /** The test erases every unit before position `j`. */
  predicate ErasedBefore(s: Text, j: nat)
    requires j <= |s|
  {
    forall i :: 0 <= i < j ==> IsErased(s[i])
  }

  /**
   A second call keeps everything: OnlyDigits is idempotent, so calling
   `Utils::KeepOnlyDigits` again reports no change.
   */
  lemma OnlyDigitsIdempotent(input: Text, negative: bool)
    ensures OnlyDigits(OnlyDigits(input, negative), negative) == OnlyDigits(input, negative)
  {
    var r := OnlyDigits(input, negative);
    KeepFromShape(input, negative, true);
    assert IsErased(MINUS);
    if |r| > 0 && r[0] == MINUS {
      KeepsAll(r[1..], negative);
      assert r == [r[0]] + r[1..];
    } else {
      KeepsAll(r, negative);
    }
  }

  /** A text the test would not erase anywhere is kept whole. */
  lemma {:induction false} KeepsAll(s: Text, negative: bool)
    requires forall i :: 0 <= i < |s| ==> !IsErased(s[i])
    ensures KeepFrom(s, negative, false) == s
    ensures s != [] && s[0] != MINUS ==> KeepFrom(s, negative, true) == s
    decreases |s|
  {
    if s != [] {
      KeepsAll(s[1..], negative);
      assert s == [s[0]] + s[1..];
    }
  }

  /** Examples with negatives allowed: stray units go and a minus stays only in front. */
  lemma KeepOnlyDigitsSignedExamples()
    ensures OnlyDigits(Units("-12a3"), true) == Units("-123")
    ensures OnlyDigits(Units("a-12"), true) == Units("-12")
    ensures OnlyDigits(Units("1-2"), true) == Units("12")
  {
    assert Units("-12a3") == [45, 49, 50, 97, 51];
    assert Units("-123") == [45, 49, 50, 51];
    assert Units("a-12") == [97, 45, 49, 50];
    assert Units("-12") == [45, 49, 50];
    assert Units("1-2") == [49, 45, 50];
    assert Units("12") == [49, 50];
  }

  /** Examples without negatives: a minus goes like any other stray unit, and digits alone are untouched. */
  lemma KeepOnlyDigitsUnsignedExamples()
    ensures OnlyDigits(Units("-12a3"), false) == Units("123")
    ensures OnlyDigits(Units("123"), false) == Units("123")
  {
    assert Units("-12a3") == [45, 49, 50, 97, 51];
    assert Units("123") == [49, 50, 51];
  }
}
