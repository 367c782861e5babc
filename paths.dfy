/**
 Path slicing: `Utils::GetFileExtension`, `GetFilePath` and
 `Utils::GetFileName` of gframe/utils.h.

 Each of them takes its argument by value, rewrites the local copy with
 `std::replace` (except GetFileExtension) and returns a `substr` of it, so
 each is a function from a text to a text.
 */
module Paths {
  import opened CodeUnits

  /** `std::size_t` is 64 bits wide: its arithmetic wraps modulo 2^64. */
  const SIZE_T_MODULUS: int := 0x1_0000_0000_0000_0000

  /** `std::replace(file.begin(), file.end(), '\\', '/')`. */
  function ForwardSlashes(s: Text): (r: Text)
    ensures |r| == |s|
    ensures BACKSLASH !in r
    ensures forall i :: 0 <= i < |s| ==> r[i] == (if s[i] == BACKSLASH then SLASH else s[i])
  {
    seq(|s|, i requires 0 <= i < |s| => if s[i] == BACKSLASH then SLASH else s[i])
  }

  /** `a - b` computed in `size_t`, for `a` and `b` that fit in a `size_t`. */
  function SizeSub(a: nat, b: nat): (d: nat)
    requires a < SIZE_T_MODULUS && b < SIZE_T_MODULUS
    ensures a >= b ==> d == a - b
    ensures a < b ==> d == SIZE_T_MODULUS + a - b
  {
    (a - b) % SIZE_T_MODULUS
  }

  /**
   `basic_string::substr(pos, count)` for `pos <= size()`: the count is
   clamped to what is left after `pos`.
   */
  function Substr(s: Text, pos: nat, count: nat): (r: Text)
    requires pos <= |s|
    ensures |r| == if count < |s| - pos then count else |s| - pos
    ensures r == s[pos..pos + |r|]
  {
    if count < |s| - pos then s[pos..pos + count] else s[pos..]
  }

  /**
   The lower-cased text after the last '.', or the empty text when there is
   no '.'. The separators are not normalised, so the extension may contain
   a '/' or '\\' (see ComposedExtension).
   */
  function GetFileExtension(file: Text): (r: Text)
    ensures DOT !in file ==> r == []
    ensures DOT in file ==>
      && |r| < |file|
      && file[|file| - |r| - 1] == DOT
      && DOT !in r
      && r == LowerAll(file[|file| - |r|..])
  {
    match LastIndexOf(file, DOT)
    case None => []
    case Some(dotpos) =>
      var extension := LowerAll(file[dotpos + 1..]);
      assert forall i :: 0 <= i < |extension| ==> extension[i] == DOT ==> file[dotpos + 1 + i] == DOT;
      extension
  }

  /**
   The directory part: everything up to and including the last separator
   (after turning '\\' into '/'), or "./" when there is no separator.
   */
  function GetFilePath(file: Text): (r: Text)
    ensures |r| > 0 && r[|r| - 1] == SLASH
    ensures BACKSLASH !in r
    ensures SLASH !in ForwardSlashes(file) ==> r == [DOT, SLASH]
    ensures SLASH in ForwardSlashes(file) ==>
      && r <= ForwardSlashes(file)
      && SLASH !in ForwardSlashes(file)[|r|..]
  {
    var normalized := ForwardSlashes(file);
    match LastIndexOf(normalized, SLASH)
    case None => [DOT, SLASH]
    case Some(slashpos) => normalized[..slashpos + 1]
  }

  /**
   Where the file name starts in a normalised path: just after the last '/',
   or at 0 when there is none (`dashpos` in GetFileName).
   */
  function NameStart(normalized: Text): (b: nat)
    ensures b <= |normalized|
    ensures SLASH !in normalized[b..]
    ensures b == 0 || normalized[b - 1] == SLASH
  {
    match LastIndexOf(normalized, SLASH)
    case None => 0
    case Some(slashpos) => slashpos + 1
  }

  /** The text after the last '/' of a normalised path. */
  function BaseName(normalized: Text): (name: Text)
    ensures SLASH !in name
    ensures |name| <= |normalized| && name == normalized[|normalized| - |name|..]
    ensures |name| == |normalized| || normalized[|normalized| - |name| - 1] == SLASH
  {
    normalized[NameStart(normalized)..]
  }

  /**
   A file name without its extension: the text before its last '.', or the
   whole name when it has no '.'. This is what GetFileName promises, stated
   on the name alone.
   */
  function Stem(name: Text): (r: Text)
    ensures DOT !in name ==> r == name
    ensures DOT in name ==>
      && |r| < |name| && name[|r|] == DOT && r == name[..|r|]
      && forall j :: |r| < j < |name| ==> name[j] != DOT
  {
    match LastIndexOf(name, DOT)
    case None => name
    case Some(dotpos) => name[..dotpos]
  }

  /**
   Where GetFileName cuts the name (`dotpos`): the end of the path when the
   extension is kept or there is no '.', otherwise the last '.' of the path.
   */
  function NameEnd(normalized: Text, keepExtension: bool): (e: nat)
    ensures e <= |normalized|
    ensures keepExtension || DOT !in normalized ==> e == |normalized|
    ensures !keepExtension && DOT in normalized ==>
      && e < |normalized| && normalized[e] == DOT
      && forall j :: e < j < |normalized| ==> normalized[j] != DOT
  {
    if keepExtension then |normalized|
    else match LastIndexOf(normalized, DOT)
      case None => |normalized|
      case Some(dotpos) => dotpos
  }

  /**
   The file name: the text after the last separator (after turning '\\'
   into '/'); without `keepExtension` it is cut at the last '.' of the
   whole path. `dotpos - dashpos` is a `size_t` subtraction: when that '.'
   lies before the last separator it wraps to a huge count and `substr`
   takes the whole remainder, so the result is always the stem of the name.
   */
  function GetFileName(file: Text, keepExtension: bool): (r: Text)
    requires |file| < SIZE_T_MODULUS
    ensures SLASH !in r && BACKSLASH !in r
    ensures keepExtension ==> r == BaseName(ForwardSlashes(file))
    ensures !keepExtension ==> r == Stem(BaseName(ForwardSlashes(file)))
  {
    var normalized := ForwardSlashes(file);
    var dashpos := NameStart(normalized);
    var dotpos := NameEnd(normalized, keepExtension);
    var r := Substr(normalized, dashpos, SizeSub(dotpos, dashpos));
    NameSlice(normalized, keepExtension);
    r
  }

  /** The proof of GetFileName's contract, on the normalised path. */
  lemma NameSlice(normalized: Text, keepExtension: bool)
    requires |normalized| < SIZE_T_MODULUS
    ensures
      var dashpos, dotpos := NameStart(normalized), NameEnd(normalized, keepExtension);
      var r := Substr(normalized, dashpos, SizeSub(dotpos, dashpos));
      r == if keepExtension then BaseName(normalized) else Stem(BaseName(normalized))
  {
    if keepExtension {
      NameSliceWhole(normalized);
    } else {
      NameSliceStem(normalized);
    }
  }

  /** With the extension kept, the slice runs to the end of the path. */
  lemma NameSliceWhole(normalized: Text)
    requires |normalized| < SIZE_T_MODULUS
    ensures
      var dashpos := NameStart(normalized);
      Substr(normalized, dashpos, SizeSub(NameEnd(normalized, true), dashpos)) == BaseName(normalized)
  {
  }

  /** Without the extension, the slice stops at the last dot of the name, if any. */
  lemma NameSliceStem(normalized: Text)
    requires |normalized| < SIZE_T_MODULUS
    ensures
      var dashpos, dotpos := NameStart(normalized), NameEnd(normalized, false);
      Substr(normalized, dashpos, SizeSub(dotpos, dashpos)) == Stem(BaseName(normalized))
  {
    var dashpos, dotpos := NameStart(normalized), NameEnd(normalized, false);
    var name := BaseName(normalized);
    var count := SizeSub(dotpos, dashpos);
    assert name == normalized[dashpos..];
    if dotpos < dashpos || dotpos == |normalized| {
      assert count >= |normalized| - dashpos;
      NoDotAfter(normalized, dashpos, dotpos);
    } else {
      assert count == dotpos - dashpos;
      assert name[dotpos - dashpos] == DOT;
      LastIndexOfUnique(name, DOT, dotpos - dashpos);
    }
  }

  /** When the last '.' of a normalised path lies before the name, or there is none, the name has no '.'. */
  lemma NoDotAfter(normalized: Text, dashpos: nat, dotpos: nat)
    requires dashpos <= |normalized| && dotpos == NameEnd(normalized, false)
    requires dotpos < dashpos || dotpos == |normalized|
    ensures DOT !in normalized[dashpos..]
  {
  }

  /**
   The directory part and the file name with its extension put back
   together give the normalised path whenever it has a separator; without
   one the directory part is "./" and the name is the whole path.
   */
  lemma PathAndNameReassemble(file: Text)
    requires |file| < SIZE_T_MODULUS
    ensures SLASH in ForwardSlashes(file) ==>
      GetFilePath(file) + GetFileName(file, true) == ForwardSlashes(file)
    ensures SLASH !in ForwardSlashes(file) ==>
      GetFilePath(file) == [DOT, SLASH] && GetFileName(file, true) == file
  {
    var normalized := ForwardSlashes(file);
    if SLASH !in normalized {
      assert forall i :: 0 <= i < |file| ==> normalized[i] != SLASH;
      assert normalized == file;
    } else {
      var dir := GetFilePath(file);
      assert NameStart(normalized) == |dir|;
    }
  }

  /** A position with a '/' just before it and none after it is the name start. */
  lemma NameStartUnique(s: Text, k: nat)
    requires k <= |s| && SLASH !in s[k..] && (k == 0 || s[k - 1] == SLASH)
    ensures NameStart(s) == k
  {
    var b := NameStart(s);
    assert forall j :: b <= j < |s| ==> s[j] != SLASH by {
      forall j | b <= j < |s| ensures s[j] != SLASH { assert s[b..][j - b] == s[j]; }
    }
    assert forall j :: k <= j < |s| ==> s[j] != SLASH by {
      forall j | k <= j < |s| ensures s[j] != SLASH { assert s[k..][j - k] == s[j]; }
    }
  }

  /** Turning '\\' into '/' distributes over concatenation. */
  lemma ForwardSlashesAppend(a: Text, b: Text)
    ensures ForwardSlashes(a + b) == ForwardSlashes(a) + ForwardSlashes(b)
  {
  }

  /**
   A directory (empty or ending in a separator) followed by a tail with no
   separator: the tail is the base name of the normalised path.
   */
  lemma BaseNameAfterDirectory(dir: Text, tail: Text)
    requires dir == [] || dir[|dir| - 1] == SLASH || dir[|dir| - 1] == BACKSLASH
    requires SLASH !in tail && BACKSLASH !in tail
    ensures BaseName(ForwardSlashes(dir + tail)) == tail
  {
    assert ForwardSlashes(tail) == tail;
    ForwardSlashesAppend(dir, tail);
    var normalized := ForwardSlashes(dir) + tail;
    assert normalized[|dir|..] == tail;
    NameStartUnique(normalized, |dir|);
  }

  /**
   Whether `dir + name + "." + ext` is a path made of its parts: the
   directory is empty or ends in a separator, the name has no separator,
   and the extension has neither a separator nor a '.'.
   */
  predicate WellComposed(dir: Text, name: Text, ext: Text) {
    && (dir == [] || dir[|dir| - 1] == SLASH || dir[|dir| - 1] == BACKSLASH)
    && SLASH !in name && BACKSLASH !in name
    && DOT !in ext && SLASH !in ext && BACKSLASH !in ext
  }

  /** The extension of a composed path is its lower-cased extension part. */
  lemma ComposedExtension(dir: Text, name: Text, ext: Text)
    requires DOT !in ext
    ensures GetFileExtension(dir + name + [DOT] + ext) == LowerAll(ext)
  {
    var file := dir + name + [DOT] + ext;
    var e := GetFileExtension(file);
    assert file[|dir| + |name|] == DOT;
    assert |e| == |ext|;
    assert file[|file| - |e|..] == ext;
  }

  /** The stem of a name part, '.' and an extension without '.' is the name part. */
  lemma StemOfComposedName(name: Text, ext: Text)
    requires DOT !in ext
    ensures Stem(name + [DOT] + ext) == name
  {
    var tail := name + [DOT] + ext;
    assert forall j :: |name| < j < |tail| ==> tail[j] == ext[j - |name| - 1];
    LastIndexOfUnique(tail, DOT, |name|);
    assert tail[..|name|] == name;
  }

  /** The name of a composed path without its extension is its name part. */
  lemma ComposedStem(dir: Text, name: Text, ext: Text)
    requires WellComposed(dir, name, ext)
    requires |dir + name + [DOT] + ext| < SIZE_T_MODULUS
    ensures GetFileName(dir + name + [DOT] + ext, false) == name
  {
    var tail := name + [DOT] + ext;
    assert dir + name + [DOT] + ext == dir + tail;
    BaseNameAfterDirectory(dir, tail);
    StemOfComposedName(name, ext);
  }

  /** The name of a composed path with its extension is the name part, '.' and the extension. */
  lemma ComposedName(dir: Text, name: Text, ext: Text)
    requires WellComposed(dir, name, ext)
    requires |dir + name + [DOT] + ext| < SIZE_T_MODULUS
    ensures GetFileName(dir + name + [DOT] + ext, true) == name + [DOT] + ext
  {
    var tail := name + [DOT] + ext;
    assert dir + name + [DOT] + ext == dir + tail;
    BaseNameAfterDirectory(dir, tail);
  }

  /**
   A directory (empty or ending in a separator) followed by a tail with no
   separator: the directory part of the path is the normalised directory,
   or "./" when it is empty.
   */
  lemma PathAfterDirectory(dir: Text, tail: Text)
    requires dir == [] || dir[|dir| - 1] == SLASH || dir[|dir| - 1] == BACKSLASH
    requires SLASH !in tail && BACKSLASH !in tail
    ensures GetFilePath(dir + tail) == if dir == [] then [DOT, SLASH] else ForwardSlashes(dir)
  {
    assert ForwardSlashes(tail) == tail;
    ForwardSlashesAppend(dir, tail);
    var normalized := ForwardSlashes(dir + tail);
    if dir != [] {
      assert forall j :: |dir| <= j < |normalized| ==> normalized[j] == tail[j - |dir|];
      LastIndexOfUnique(normalized, SLASH, |dir| - 1);
      assert normalized[..|dir|] == ForwardSlashes(dir);
    } else {
      assert normalized == tail;
    }
  }

  /** The directory part of a composed path is its normalised directory part, or "./". */
  lemma ComposedPath(dir: Text, name: Text, ext: Text)
    requires WellComposed(dir, name, ext)
    ensures GetFilePath(dir + name + [DOT] + ext) ==
      if dir == [] then [DOT, SLASH] else ForwardSlashes(dir)
  {
    var tail := name + [DOT] + ext;
    assert dir + name + [DOT] + ext == dir + tail;
    PathAfterDirectory(dir, tail);
  }

  /**
   A '.' in a directory name never cuts the file name: when the last '.' of
   the path lies before the last separator, the wrapped `size_t` count makes
   GetFileName keep the whole remainder. (GetFileExtension, which does not
   look at separators, returns the text after that '.': ComposedExtension
   allows separators in the extension part.)
   */
  lemma DotInDirectoryIgnored(dir: Text, name: Text)
    requires dir == [] || dir[|dir| - 1] == SLASH || dir[|dir| - 1] == BACKSLASH
    requires SLASH !in name && BACKSLASH !in name && DOT !in name
    requires |dir + name| < SIZE_T_MODULUS
    ensures GetFileName(dir + name, false) == name
  {
    BaseNameAfterDirectory(dir, name);
  }
}
