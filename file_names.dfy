/**
 * Splitting a file name into its base name and extension, as the upload handler does with
 * `name.split('.').slice(0, -1).join('.')` and `name.split('.').pop()`.
 * `Split` and `Join` model JavaScript's `String.prototype.split` and `Array.prototype.join`
 * with the separator "."; `LastDot` is the independent reference the lemmas compare against.
 */
module FileNames {

  /** Position of the last '.' among the first n characters of s, or -1 when they hold none. */
  function LastDotBefore(s: string, n: nat): (k: int)
    requires n <= |s|
    ensures -1 <= k < n
  {
    if n == 0 then -1
    else if s[n - 1] == '.' then n - 1
    else LastDotBefore(s, n - 1)
  }

  /** Position of the last '.' in s, or -1 when s has none (see `LastDotSpec`). */
  function LastDot(s: string): (k: int)
    ensures -1 <= k < |s|
  {
    LastDotBefore(s, |s|)
  }

  /** k is the position of the last dot of s, or -1 when s has none. */
  predicate IsLastDot(s: string, k: int)
  {
    && -1 <= k < |s|
    && (k >= 0 ==> s[k] == '.')
    && forall j :: k < j < |s| ==> s[j] != '.'
  }

  lemma {:induction false} LastDotBeforeSpec(s: string, n: nat)
    requires n <= |s|
    ensures LastDotBefore(s, n) >= 0 ==> s[LastDotBefore(s, n)] == '.'
    ensures forall j :: LastDotBefore(s, n) < j < n ==> s[j] != '.'
  {
    if n > 0 && s[n - 1] != '.' {
      LastDotBeforeSpec(s, n - 1);
    }
  }

  /** `LastDot` finds the last dot: a dot, with no dot after it. */
  lemma LastDotSpec(s: string)
    ensures IsLastDot(s, LastDot(s))
  {
    LastDotBeforeSpec(s, |s|);
  }

  /** There is only one last dot. */
  lemma LastDotUnique(s: string, k: int)
    requires IsLastDot(s, k)
    ensures LastDot(s) == k
  {
    LastDotSpec(s);
  }

  /** s holds no dot. */
  predicate DotFree(s: string) { forall j :: 0 <= j < |s| ==> s[j] != '.' }

  /** Nothing after the last dot is a dot. */
  lemma DotFreeTail(s: string, k: int)
    requires -1 <= k < |s|
    requires forall j :: k < j < |s| ==> s[j] != '.'
    ensures DotFree(s[k + 1..])
  {
    var tail := s[k + 1..];
    forall j | 0 <= j < |tail| ensures tail[j] != '.' {
      assert tail[j] == s[k + 1 + j];
    }
  }

  /** A dot-free string does not contain '.'. */
  lemma DotFreeHasNoDot(s: string)
    requires DotFree(s)
    ensures '.' !in s
  {
    forall c | c in s ensures c != '.' {
      var j :| 0 <= j < |s| && s[j] == c;
    }
  }

  /** `s.split('.')`: the pieces of s between dots, in order; there is always at least one. */
  function Split(s: string): (parts: seq<string>)
    ensures |parts| >= 1
    ensures forall i :: 0 <= i < |parts| ==> DotFree(parts[i])
    decreases |s|
  {
    var k := LastDot(s);
    LastDotSpec(s);
    DotFreeTail(s, k);
    if k < 0 then [s[k + 1..]]
    else Split(s[..k]) + [s[k + 1..]]
  }

  /** `parts.join('.')`; the empty array joins to the empty string. */
  function Join(parts: seq<string>): string
  {
    if |parts| == 0 then ""
    else if |parts| == 1 then parts[0]
    else Join(parts[..|parts| - 1]) + "." + parts[|parts| - 1]
  }

  /** Everything before the last dot; the empty string when there is no dot. */
  function BaseName(name: string): string
  {
    var k := LastDot(name);
    if k < 0 then "" else name[..k]
  }

  /** Everything after the last dot; the whole name when there is no dot. */
  function Extension(name: string): string
  {
    name[LastDot(name) + 1..]
  }

  /** Joining the pieces of a split gives back the string. */
  lemma {:induction false} JoinSplit(s: string)
    ensures Join(Split(s)) == s
    decreases |s|
  {
    var k := LastDot(s);
    LastDotSpec(s);
    if k >= 0 {
      JoinSplit(s[..k]);
      var front := Split(s[..k]);
      var parts := front + [s[k + 1..]];
      assert parts[..|parts| - 1] == front;
      DotAt(s, k);
    }
  }

  /** The last dot of `head + "." + last` is the one before `last` when `last` has none. */
  lemma LastDotOfJoin(head: string, last: string)
    requires DotFree(last)
    ensures LastDot(head + "." + last) == |head|
  {
    var s := head + "." + last;
    var m := |head|;
    assert s[m] == '.';
    forall j | m < j < |s| ensures s[j] != '.' {
      assert s[j] == last[j - m - 1];
    }
    LastDotUnique(s, m);
  }

  /** `split` is the only way to cut a string into dot-free pieces that join back to it. */
  lemma {:induction false} SplitJoin(parts: seq<string>)
    requires |parts| >= 1
    requires forall i :: 0 <= i < |parts| ==> DotFree(parts[i])
    ensures Split(Join(parts)) == parts
  {
    var n := |parts|;
    var last := parts[n - 1];
    assert DotFree(last);
    if n == 1 {
      LastDotSpec(last);
    } else {
      var front := parts[..n - 1];
      var head := Join(front);
      var s := head + "." + last;
      assert Join(parts) == s;
      LastDotOfJoin(head, last);
      var k := |head|;
      assert s[..k] == head;
      assert s[k + 1..] == last;
      SplitJoin(front);
      assert parts == front + [last];
    }
  }

  /** The pieces `split` produces: all but the last join to the base name, the last is the extension. */
  lemma SplitLast(name: string)
    ensures Join(Split(name)[..|Split(name)| - 1]) == BaseName(name)
    ensures Split(name)[|Split(name)| - 1] == Extension(name)
  {
    var k := LastDot(name);
    var parts := Split(name);
    if k >= 0 {
      JoinSplit(name[..k]);
      var front := Split(name[..k]);
      assert parts == front + [name[k + 1..]];
      assert parts[..|parts| - 1] == front;
    } else {
      assert parts == [name[k + 1..]];
    }
  }

  /** No dot follows the last dot. */
  lemma NoDotAfter(s: string, k: int)
    requires -1 <= k < |s|
    requires forall j :: k < j < |s| ==> s[j] != '.'
    ensures '.' !in s[k + 1..]
  {
    DotFreeTail(s, k);
    DotFreeHasNoDot(s[k + 1..]);
  }

  /** A string with a dot at k is its two sides joined by that dot. */
  lemma DotAt(s: string, k: int)
    requires 0 <= k < |s| && s[k] == '.'
    ensures '.' in s
    ensures s[..k] + "." + s[k + 1..] == s
  {
    assert s[k] in s;
  }

  /** A name has a dot exactly when `LastDot` finds one. */
  lemma HasDot(name: string)
    ensures '.' in name <==> LastDot(name) >= 0
  {
    var k := LastDot(name);
    LastDotSpec(name);
    if k >= 0 {
      DotAt(name, k);
    } else {
      NoDotAfter(name, k);
      assert name[k + 1..] == name;
    }
  }

  /** The extension holds no dot. */
  lemma ExtensionHasNoDot(name: string)
    ensures '.' !in Extension(name)
  {
    LastDotSpec(name);
    NoDotAfter(name, LastDot(name));
  }

  /** A dotted name is its base name and its extension joined by a dot. */
  lemma DottedName(name: string)
    requires LastDot(name) >= 0
    ensures BaseName(name) + "." + Extension(name) == name
  {
    LastDotSpec(name);
    DotAt(name, LastDot(name));
  }

  /** A name without a dot has an empty base name and is its own extension. */
  lemma UndottedName(name: string)
    requires LastDot(name) < 0
    ensures BaseName(name) == "" && Extension(name) == name
  {
    assert name[LastDot(name) + 1..] == name;
  }

  /** Base name and extension around the last dot. */
  lemma NameAroundDot(name: string)
    ensures '.' !in Extension(name)
    ensures '.' in name ==> BaseName(name) + "." + Extension(name) == name
    ensures '.' !in name ==> BaseName(name) == "" && Extension(name) == name
  {
    HasDot(name);
    ExtensionHasNoDot(name);
    if LastDot(name) >= 0 {
      DottedName(name);
    } else {
      UndottedName(name);
    }
  }

  /**
   * The handler's `name.split('.').slice(0, -1).join('.')` is the base name and its
   * `name.split('.').pop()` is the extension. The extension holds no dot, and
   * base + "." + extension is the name; a name without a dot has an empty base name and is its
   * own extension.
   */
  lemma SplitNameSpec(name: string)
    ensures Join(Split(name)[..|Split(name)| - 1]) == BaseName(name)
    ensures Split(name)[|Split(name)| - 1] == Extension(name)
    ensures '.' !in Extension(name)
    ensures '.' in name ==> BaseName(name) + "." + Extension(name) == name
    ensures '.' !in name ==> BaseName(name) == "" && Extension(name) == name
  {
    SplitLast(name);
    NameAroundDot(name);
  }
}
