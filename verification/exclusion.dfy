/** The exclusion filter (`should_exclude`) and the pattern list `main` builds. */
module Exclusion {
  import opened Strings

  /** The fixed patterns that follow the output filename in `main`'s list. */
  const DefaultPatterns: seq<string> :=
    [".git", "node_modules", "__pycache__", "build", "dist", ".log", ".tmp", ".swp", ".DS_Store"]

  /** `exclude_patterns` in `main`: the output filename first, then the defaults. */
  function ExcludePatterns(outputFilename: string): (r: seq<string>)
    ensures |r| == 1 + |DefaultPatterns|
    ensures outputFilename in r
    ensures forall p | p in DefaultPatterns :: p in r
  {
    [outputFilename] + DefaultPatterns
  }

  /** A path is excluded when some pattern occurs literally anywhere in its
      absolute path: no path segments, no globbing. */
  predicate Excluded(absPath: string, patterns: seq<string>) {
    exists i | 0 <= i < |patterns| :: IsSubstring(patterns[i], absPath)
  }

  /** `should_exclude`, given the path already made absolute: scans the
      patterns in order and stops at the first that occurs. */
  method ShouldExclude(absPath: string, patterns: seq<string>) returns (excluded: bool)
    ensures excluded <==> Excluded(absPath, patterns)
  {
    for i := 0 to |patterns|
      invariant forall k | 0 <= k < i :: !IsSubstring(patterns[k], absPath)
    {
      if IsSubstring(patterns[i], absPath) {
        return true;
      }
    }
    return false;
  }

  /** More patterns never un-exclude a path. */
  lemma ExcludedMonotone(absPath: string, patterns: seq<string>, more: seq<string>)
    requires forall p | p in patterns :: p in more
    requires Excluded(absPath, patterns)
    ensures Excluded(absPath, more)
  {
    var i :| 0 <= i < |patterns| && IsSubstring(patterns[i], absPath);
    assert patterns[i] in more;
    var j :| 0 <= j < |more| && more[j] == patterns[i];
  }

  /** Only which patterns are present matters: not their order, not repeats. */
  lemma ExcludedIgnoresOrder(absPath: string, patterns: seq<string>, other: seq<string>)
    requires (set p | p in patterns) == (set p | p in other)
    ensures Excluded(absPath, patterns) <==> Excluded(absPath, other)
  {
    var present := set p | p in patterns;
    assert present == set p | p in other;
    forall p | p in patterns ensures p in other {
      assert p in present;
    }
    forall p | p in other ensures p in patterns {
      assert p in present;
    }
    if Excluded(absPath, patterns) { ExcludedMonotone(absPath, patterns, other); }
    if Excluded(absPath, other) { ExcludedMonotone(absPath, other, patterns); }
  }

  /** An excluded path excludes every path that extends it, in particular
      every path below an excluded directory. */
  lemma ExcludedExtends(absPath: string, longer: string, patterns: seq<string>)
    requires absPath <= longer
    requires Excluded(absPath, patterns)
    ensures Excluded(longer, patterns)
  {
    var i :| 0 <= i < |patterns| && IsSubstring(patterns[i], absPath);
    SubstringOfPrefix(patterns[i], absPath, longer);
  }

  /** A path that contains the output filename is excluded by `main`'s list. */
  lemma OutputFilenameExcluded(absPath: string, outputFilename: string)
    requires IsSubstring(outputFilename, absPath)
    ensures Excluded(absPath, ExcludePatterns(outputFilename))
  {
    assert ExcludePatterns(outputFilename)[0] == outputFilename;
  }
}
