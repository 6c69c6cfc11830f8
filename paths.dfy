/** `Path.GetExtension` and the extension test of the parameter-file reader. */
module Paths {

  /** `ToLowerInvariant` on the characters that matter for comparing with ".yml" and ".yaml". */
  function ToLowerAscii(s: string): (r: string)
    ensures |r| == |s|
    ensures forall i :: 0 <= i < |s| && !('A' <= s[i] <= 'Z') ==> r[i] == s[i]
    ensures forall i :: 0 <= i < |s| && 'A' <= s[i] <= 'Z' ==> r[i] as int == s[i] as int + 32
  {
    seq(|s|, i requires 0 <= i < |s| => if 'A' <= s[i] <= 'Z' then (s[i] as int + 32) as char else s[i])
  }

  predicate IsDirectorySeparator(c: char, onWindows: bool) {
    c == '/' || (onWindows && c == '\\')
  }

  /** Some directory separator lies strictly between positions `k` and `i` of `path`. */
  predicate SeparatorBetween(path: string, onWindows: bool, k: int, i: int)
    requires 0 <= k <= i <= |path|
  {
    exists j :: k < j < i && IsDirectorySeparator(path[j], onWindows)
  }

  /** The loop of `Path.GetExtension`: scanning `path[..i]` backwards, the position of the first '.' met before a separator, or -1. */
  function ExtensionDot(path: string, onWindows: bool, i: nat): (d: int)
    requires i <= |path|
    ensures -1 <= d < i
    ensures 0 <= d ==> (path[d] == '.'
      && forall k :: d < k < i ==> path[k] != '.' && !IsDirectorySeparator(path[k], onWindows))
    ensures d < 0 ==> forall k :: 0 <= k < i && path[k] == '.' ==> SeparatorBetween(path, onWindows, k, i)
  {
    if i == 0 then -1
    else if path[i - 1] == '.' then i - 1
    else if IsDirectorySeparator(path[i - 1], onWindows) then -1
    else ExtensionDot(path, onWindows, i - 1)
  }

  /**
   * `Path.GetExtension(path)`: the suffix from the last '.' of the last path segment, or ""
   * when that segment has no '.' or ends with it.
   */
  function GetExtension(path: string, onWindows: bool): (ext: string)
    ensures ext == [] || (2 <= |ext| <= |path| && ext[0] == '.' && ext == path[|path| - |ext|..]
      && forall k :: 1 <= k < |ext| ==> ext[k] != '.' && !IsDirectorySeparator(ext[k], onWindows))
  {
    var d := ExtensionDot(path, onWindows, |path|);
    if d < 0 || d == |path| - 1 then "" else path[d..]
  }

  /** The extension test of `ReadInputParametersFiles`: ".yml" or ".yaml" after lower-casing. */
  predicate IsYamlFile(path: string, onWindows: bool) {
    var ext := ToLowerAscii(GetExtension(path, onWindows));
    ext == ".yml" || ext == ".yaml"
  }

  /** A last segment ending in ".yml" or ".yaml", in any letter case, makes a YAML file. */
  lemma YamlSuffixes(stem: string, onWindows: bool)
    ensures IsYamlFile(stem + ".yml", onWindows)
    ensures IsYamlFile(stem + ".YAML", onWindows)
  {
    SuffixExtension(stem, ".yml", onWindows);
    SuffixExtension(stem, ".YAML", onWindows);
    LowerCaseLiterals();
  }

  /** Other extensions do not. */
  lemma JsonSuffix(stem: string, onWindows: bool)
    ensures !IsYamlFile(stem + ".json", onWindows)
  {
    SuffixExtension(stem, ".json", onWindows);
    LowerCaseLiterals();
  }

  /** Only the last extension counts: "inputs.yml.txt" is not a YAML file. */
  lemma InnerYamlSuffix(stem: string, onWindows: bool)
    ensures !IsYamlFile(stem + ".yml" + ".txt", onWindows)
  {
    SuffixExtension(stem + ".yml", ".txt", onWindows);
    LowerCaseLiterals();
  }

  lemma LowerCaseLiterals()
    ensures ToLowerAscii(".yml") == ".yml" && ToLowerAscii(".YAML") == ".yaml"
    ensures ToLowerAscii(".json")[1] == 'j' && ToLowerAscii(".txt")[1] == 't'
  {
    assert ToLowerAscii(".YAML")[2] == 'a';
  }

  /** A path made of a stem and a tail that starts with its only '.' and holds no separator has that tail as its extension. */
  lemma SuffixExtension(stem: string, suffix: string, onWindows: bool)
    requires |suffix| >= 2 && suffix[0] == '.'
    requires forall k :: 1 <= k < |suffix| ==> suffix[k] != '.' && !IsDirectorySeparator(suffix[k], onWindows)
    ensures GetExtension(stem + suffix, onWindows) == suffix
  {
    var p := stem + suffix;
    forall k | |stem| < k < |p| ensures p[k] != '.' && !IsDirectorySeparator(p[k], onWindows) {
      assert p[k] == suffix[k - |stem|];
    }
    ScanToDot(p, onWindows, |stem|, |p|);
    assert p[|stem|..] == suffix;
  }

  /** The backward scan passes over a dot- and separator-free stretch and stops at the '.' before it. */
  lemma {:induction false} ScanToDot(path: string, onWindows: bool, n: nat, i: nat)
    requires n < i <= |path| && path[n] == '.'
    requires forall k :: n < k < |path| ==> path[k] != '.' && !IsDirectorySeparator(path[k], onWindows)
    ensures ExtensionDot(path, onWindows, i) == n
    decreases i
  {
    if i > n + 1 {
      ScanToDot(path, onWindows, n, i - 1);
    }
  }
}
