/**
 Code units and the small character helpers shared by the string and path
 utilities of gframe/utils.h.

 All helpers except `KeepOnlyDigits` are templates over `std::string` and
 `std::wstring`; `KeepOnlyDigits` takes only a `std::wstring&`. Here a
 text is a sequence of non-negative code units, so one model covers both
 widths. The locale-dependent case mappings (`::towlower`, `std::toupper`,
 `std::towupper`) are modelled by their ASCII part only.
 */
module CodeUnits {

  type CodeUnit = nat
  type Text = seq<CodeUnit>

  datatype Option<T> = None | Some(value: T)

  const MINUS: CodeUnit := 45      // '-'
  const DOT: CodeUnit := 46        // '.'
  const SLASH: CodeUnit := 47      // '/'
  const ZERO: CodeUnit := 48       // '0'
  const NINE: CodeUnit := 57       // '9'
  const BACKSLASH: CodeUnit := 92  // '\\'

  /** The code units of a Dafny string literal, for stating examples. */
  function Units(s: string): (t: Text)
    ensures |t| == |s|
    ensures forall i :: 0 <= i < |s| ==> t[i] == s[i] as int
  {
    seq(|s|, i requires 0 <= i < |s| => s[i] as int)
  }

  predicate IsDigit(c: CodeUnit) {
    ZERO <= c <= NINE
  }

  predicate IsAsciiUpper(c: CodeUnit) {
    'A' as int <= c <= 'Z' as int
  }

  predicate IsAsciiLower(c: CodeUnit) {
    'a' as int <= c <= 'z' as int
  }

  /** The ASCII part of `::towlower`. */
  function ToLower(c: CodeUnit): (r: CodeUnit)
    ensures !IsAsciiUpper(r)
    ensures IsAsciiUpper(c) ==> r == c + 32
    ensures !IsAsciiUpper(c) ==> r == c
  {
    if IsAsciiUpper(c) then c + 32 else c
  }

  /** The ASCII part of `std::toupper` / `std::towupper`. */
  function ToUpper(c: CodeUnit): (r: CodeUnit)
    ensures !IsAsciiLower(r)
    ensures IsAsciiLower(c) ==> r == c - 32
    ensures !IsAsciiLower(c) ==> r == c
  {
    if IsAsciiLower(c) then c - 32 else c
  }

  /** Lower-cases every code unit (`std::transform` with `::towlower`). */
  function LowerAll(s: Text): (r: Text)
    ensures |r| == |s|
    ensures forall i :: 0 <= i < |s| ==> r[i] == ToLower(s[i])
  {
    seq(|s|, i requires 0 <= i < |s| => ToLower(s[i]))
  }

  /**
   `find_last_of` with a single code unit: the index of the last occurrence
   of `c` in `s`, or None (`npos`) when `c` does not occur.
   */
  function LastIndexOf(s: Text, c: CodeUnit): (r: Option<nat>)
    ensures r.None? <==> c !in s
    ensures r.Some? ==> r.value < |s| && s[r.value] == c
    ensures r.Some? ==> forall j :: r.value < j < |s| ==> s[j] != c
  {
    if s == [] then None
    else if s[|s| - 1] == c then Some(|s| - 1)
    else LastIndexOf(s[..|s| - 1], c)
  }

  /** An occurrence of `c` with none after it is what LastIndexOf finds. */
  lemma LastIndexOfUnique(s: Text, c: CodeUnit, k: nat)
    requires k < |s| && s[k] == c
    requires forall j :: k < j < |s| ==> s[j] != c
    ensures LastIndexOf(s, c) == Some(k)
  {
  }
}
