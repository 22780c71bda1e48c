/**
  The string operations the font resolver relies on: case folding (ToLower and the
  ordinal case-insensitive comparison), substring search (string.Contains) and
  Path.GetFileName.
 */
module Text {

  /** Case fold of one character; only the ASCII upper-case letters change. */
  function LowerChar(c: char): char {
    if 'A' <= c <= 'Z' then (c as int + 32) as char else c
  }

  /**
    Case fold of a whole string, character by character: no upper-case ASCII letter
    is left, each one becomes its lower-case partner, and everything else is kept.
   */
  function Lower(s: string): (r: string)
    ensures |r| == |s|
    ensures forall i :: 0 <= i < |r| ==> !('A' <= r[i] <= 'Z')
    ensures forall i :: 0 <= i < |s| ==> r[i] == s[i] || ('A' <= s[i] <= 'Z' && r[i] as int == s[i] as int + 32)
  {
    seq(|s|, i requires 0 <= i < |s| => LowerChar(s[i]))
  }

  /** Folding twice is folding once. */
  lemma LowerIdempotent(s: string)
    ensures Lower(Lower(s)) == Lower(s)
  {
    forall i | 0 <= i < |s|
      ensures Lower(Lower(s))[i] == Lower(s)[i]
    {
      assert Lower(s)[i] == LowerChar(s[i]);
    }
  }

  /** Folding commutes with taking a slice. */
  lemma LowerSlice(s: string, i: int, j: int)
    requires 0 <= i <= j <= |s|
    ensures Lower(s[i..j]) == Lower(s)[i..j]
  {
  }

  /** A string without upper-case ASCII letters is its own fold. */
  lemma LowerOfFolded(s: string)
    requires forall i :: 0 <= i < |s| ==> !('A' <= s[i] <= 'Z')
    ensures Lower(s) == s
  {
  }

  /** `part` occurs in `s` starting at index `i`. */
  predicate OccursAt(s: string, part: string, i: int) {
    0 <= i <= |s| - |part| && s[i..i + |part|] == part
  }

  /**
    Ordinal string.Contains: `part` occurs somewhere in `s`. The empty string occurs
    everywhere, a string contains its prefixes, and nothing longer than `s` occurs in it.
   */
  function Contains(s: string, part: string): (b: bool)
    ensures |part| == 0 ==> b
    ensures part <= s ==> b
    ensures b ==> |part| <= |s|
  {
    assert part <= s ==> OccursAt(s, part, 0);
    exists i | 0 <= i <= |s| - |part| :: OccursAt(s, part, i)
  }

  /** Wherever `part` is placed inside a string, the string contains it. */
  lemma ContainsInContext(pre: string, part: string, post: string)
    ensures Contains(pre + part + post, part)
  {
    var s := pre + part + post;
    assert s[|pre|..|pre| + |part|] == part;
    assert OccursAt(s, part, |pre|);
  }

  /** A string that contains `part` is some text, then `part`, then more text. */
  lemma ContainsSplits(s: string, part: string)
    requires Contains(s, part)
    ensures exists i :: 0 <= i <= |s| - |part| && s == s[..i] + part + s[i + |part|..]
  {
    var i :| 0 <= i <= |s| - |part| && OccursAt(s, part, i);
    assert s == s[..i] + s[i..i + |part|] + s[i + |part|..];
  }

  /**
    string.Contains with StringComparison.OrdinalIgnoreCase: an ordinal match is
    also a match ignoring case, and nothing longer than `s` occurs in it.
   */
  function ContainsIgnoreCase(s: string, part: string): (b: bool)
    ensures Contains(s, part) ==> b
    ensures b ==> |part| <= |s|
  {
    assert Contains(s, part) ==> Contains(Lower(s), Lower(part)) by {
      if Contains(s, part) {
        var i :| 0 <= i <= |s| - |part| && OccursAt(s, part, i);
        LowerSlice(s, i, i + |part|);
        assert OccursAt(Lower(s), Lower(part), i);
      }
    }
    Contains(Lower(s), Lower(part))
  }

  /** The window of `s` at `i`, as long as `part`, folds to the folded part. */
  predicate FoldedWindowAt(s: string, part: string, i: int) {
    0 <= i <= |s| - |part| && Lower(s[i..i + |part|]) == Lower(part)
  }

  /** A match ignoring case is a window of `s` that folds to the folded part. */
  lemma ContainsIgnoreCaseSplits(s: string, part: string)
    requires ContainsIgnoreCase(s, part)
    ensures exists i :: FoldedWindowAt(s, part, i)
  {
    var i :| 0 <= i <= |s| - |part| && OccursAt(Lower(s), Lower(part), i);
    LowerSlice(s, i, i + |part|);
    assert FoldedWindowAt(s, part, i);
  }

  /** Conversely, a window of `s` that folds to the folded part is a match ignoring case. */
  lemma ContainsIgnoreCaseInWindow(s: string, part: string, i: int)
    requires FoldedWindowAt(s, part, i)
    ensures ContainsIgnoreCase(s, part)
  {
    LowerSlice(s, i, i + |part|);
    assert OccursAt(Lower(s), Lower(part), i);
  }

  /** Case does not matter to the ignore-case search, on either side. */
  lemma ContainsIgnoreCaseOfFolded(s: string, part: string)
    ensures ContainsIgnoreCase(Lower(s), part) == ContainsIgnoreCase(s, part)
    ensures ContainsIgnoreCase(s, Lower(part)) == ContainsIgnoreCase(s, part)
  {
    LowerIdempotent(s);
    LowerIdempotent(part);
  }

  /** A string whose fold is the fold of an ending of `s` is contained in `s`, ignoring case. */
  lemma FoldedEndingContained(s: string, k: int, t: string)
    requires 0 <= k <= |s| && Lower(s[k..]) == Lower(t)
    ensures ContainsIgnoreCase(s, t)
  {
    LowerSlice(s, k, |s|);
    assert s[k..|s|] == s[k..];
    assert OccursAt(Lower(s), Lower(t), k);
  }

  /** string.EndsWith with ordinal comparison. */
  predicate EndsWith(s: string, suffix: string) {
    |suffix| <= |s| && s[|s| - |suffix|..] == suffix
  }

  /** A string contains each of its endings. */
  lemma EndsWithContains(s: string, suffix: string)
    requires EndsWith(s, suffix)
    ensures Contains(s, suffix)
  {
    assert OccursAt(s, suffix, |s| - |suffix|);
  }

  /**
    The platform the resolver runs on. The static constructor scans a Linux or a
    Windows font directory, and Path.GetFileName splits paths differently on each.
   */
  datatype Platform = Linux | Windows

  /** The directory separators Path.GetFileName splits on: '/' only on Linux, '/' and '\\' on Windows. */
  predicate IsSeparator(os: Platform, c: char) {
    c == '/' || (os == Windows && c == '\\')
  }

  /** A string with no directory separator in it: a bare file name. */
  predicate IsPlainName(os: Platform, s: string) {
    forall i :: 0 <= i < |s| ==> !IsSeparator(os, s[i])
  }

  /** Where the file name of `path[..n]` starts: just after its last separator, or 0. */
  function NameStart(os: Platform, path: string, n: nat): (k: nat)
    requires n <= |path|
    ensures k <= n
    ensures forall i :: k <= i < n ==> !IsSeparator(os, path[i])
    ensures k > 0 ==> IsSeparator(os, path[k - 1])
    decreases n
  {
    if n == 0 || IsSeparator(os, path[n - 1]) then n
    else NameStart(os, path, n - 1)
  }

  /**
    Path.GetFileName: the longest ending of `path` that holds no separator, so
    the characters after the last separator, or the whole path when it has none.
   */
  function FileName(os: Platform, path: string): (name: string)
    ensures |name| <= |path| && name == path[|path| - |name|..]
    ensures IsPlainName(os, name)
    ensures |name| < |path| ==> IsSeparator(os, path[|path| - |name| - 1])
  {
    path[NameStart(os, path, |path|)..]
  }

  /** A bare file name is its own file name; in particular FileName is idempotent. */
  lemma FileNameOfPlainName(os: Platform, s: string)
    requires IsPlainName(os, s)
    ensures FileName(os, s) == s
  {
  }

  /** The file name is what follows a separator when no separator comes after it. */
  lemma FileNameAfterSeparator(os: Platform, path: string, k: int)
    requires 0 <= k < |path| && IsSeparator(os, path[k]) && IsPlainName(os, path[k + 1..])
    ensures FileName(os, path) == path[k + 1..]
  {
  }

  /** A backslash separates on Windows only: Linux keeps it inside the file name. */
  lemma BackslashSeparatesOnWindowsOnly()
    ensures FileName(Linux, "/p/a\\b.ttf") == "a\\b.ttf"
    ensures FileName(Windows, "/p/a\\b.ttf") == "b.ttf"
  {
    FileNameAfterSeparator(Linux, "/p/a\\b.ttf", 2);
    FileNameAfterSeparator(Windows, "/p/a\\b.ttf", 4);
  }
}
