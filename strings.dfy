/**
 * The string operations of the .NET base library that the parameter-file reader relies on,
 * written out with the behaviour the library documents: ordinal `StartsWith`, `Split` on
 * one character (empty pieces kept), `String.Join`, `Trim` with the `char.IsWhiteSpace`
 * set and `Replace("::", "")`.
 */
module Strings {

  predicate StartsWith(s: string, prefix: string) {
    |prefix| <= |s| && s[..|prefix|] == prefix
  }

  // ---------------------------------------------------------------------------
  // Split and Join

  /** `s` has no character `c`. */
  predicate Free(s: string, c: char) {
    forall k :: 0 <= k < |s| ==> s[k] != c
  }

  /** `s.Split(sep)`: the pieces between the separators, empty ones included; never empty. */
  function Split(s: string, sep: char): (parts: seq<string>)
    ensures |parts| >= 1
    ensures forall j :: 0 <= j < |parts| ==> Free(parts[j], sep)
    decreases |s|
  {
    if s == [] then [""]
    else
      var rest := Split(s[1..], sep);
      if s[0] == sep then [""] + rest
      else
        var first := [s[0]] + rest[0];
        assert Free(first, sep) by {
          assert forall k :: 1 <= k < |first| ==> first[k] == rest[0][k - 1];
        }
        [first] + rest[1..]
  }

  /** `String.Join(sep, parts)`: the parts with `sep` between neighbours; "" for no parts. */
  function Join(sep: string, parts: seq<string>): string {
    if parts == [] then ""
    else if |parts| == 1 then parts[0]
    else parts[0] + sep + Join(sep, parts[1..])
  }

  lemma JoinHeadSplit(sep: string, a: string, b: string, tail: seq<string>)
    ensures Join(sep, [a + b] + tail) == a + Join(sep, [b] + tail)
  {
    if tail != [] {
      assert ([a + b] + tail)[1..] == tail && ([b] + tail)[1..] == tail;
    }
  }

  /** Joining the pieces of a split with the separator gives the input back. */
  lemma {:induction false} JoinSplit(s: string, sep: char)
    ensures Join([sep], Split(s, sep)) == s
    decreases |s|
  {
    if s != [] {
      var rest := Split(s[1..], sep);
      JoinSplit(s[1..], sep);
      if s[0] == sep {
        assert ([""] + rest)[1..] == rest;
        assert s == [sep] + s[1..];
      } else {
        JoinHeadSplit([sep], [s[0]], rest[0], rest[1..]);
        assert [rest[0]] + rest[1..] == rest;
        assert s == [s[0]] + s[1..];
      }
    }
  }

  /** A piece without the separator splits into itself. */
  lemma {:induction false} SplitFree(p: string, sep: char)
    requires Free(p, sep)
    ensures Split(p, sep) == [p]
    decreases |p|
  {
    if p != [] {
      SplitFree(p[1..], sep);
      assert [p[0]] + p[1..] == p;
    }
  }

  /** Splitting at the first separator: the separator-free piece before it, then the split of the rest. */
  lemma {:induction false} SplitAtFirst(p: string, sep: char, t: string)
    requires Free(p, sep)
    ensures Split(p + [sep] + t, sep) == [p] + Split(t, sep)
    decreases |p|
  {
    var s := p + [sep] + t;
    if p == [] {
      assert s == [sep] + t && s[1..] == t;
    } else {
      assert s[1..] == p[1..] + [sep] + t;
      SplitAtFirst(p[1..], sep, t);
      assert [p[0]] + p[1..] == p;
    }
  }

  /** Splitting a join of separator-free parts gives the parts back. */
  lemma {:induction false} SplitJoin(parts: seq<string>, sep: char)
    requires parts != []
    requires forall j :: 0 <= j < |parts| ==> Free(parts[j], sep)
    ensures Split(Join([sep], parts), sep) == parts
    decreases |parts|
  {
    if |parts| == 1 {
      SplitFree(parts[0], sep);
    } else {
      var tail := parts[1..];
      SplitJoin(tail, sep);
      SplitAtFirst(parts[0], sep, Join([sep], tail));
      assert [parts[0]] + tail == parts;
    }
  }

  // ---------------------------------------------------------------------------
  // Trim

  /** `char.IsWhiteSpace`: the Unicode space, line and paragraph separators and the control characters it counts. */
  predicate IsWhiteSpace(c: char) {
    || ('\t' <= c <= '\r')
    || c == ' ' || c == '\U{85}' || c == '\U{A0}' || c == '\U{1680}'
    || ('\U{2000}' <= c <= '\U{200A}')
    || c == '\U{2028}' || c == '\U{2029}' || c == '\U{202F}' || c == '\U{205F}' || c == '\U{3000}'
  }

  function LeadingWhiteSpace(s: string): (n: nat)
    ensures n <= |s|
    ensures forall k :: 0 <= k < n ==> IsWhiteSpace(s[k])
    ensures n < |s| ==> !IsWhiteSpace(s[n])
  {
    if s == [] || !IsWhiteSpace(s[0]) then 0
    else
      var n := LeadingWhiteSpace(s[1..]);
      assert forall k :: 1 <= k < n + 1 ==> s[k] == s[1..][k - 1];
      n + 1
  }

  function TrailingWhiteSpace(s: string): (n: nat)
    ensures n <= |s|
    ensures forall k :: |s| - n <= k < |s| ==> IsWhiteSpace(s[k])
    ensures n < |s| ==> !IsWhiteSpace(s[|s| - n - 1])
  {
    if s == [] || !IsWhiteSpace(s[|s| - 1]) then 0
    else
      var n := TrailingWhiteSpace(s[..|s| - 1]);
      assert forall k :: 0 <= k < |s| - 1 ==> s[k] == s[..|s| - 1][k];
      n + 1
  }

  /**
   * `s.Trim()`: a contiguous slice of `s` such that everything before and after it is
   * white space and it neither starts nor ends with white space.
   */
  function Trim(s: string): (r: string)
    ensures |r| <= |s|
    ensures LeadingWhiteSpace(s) + |r| <= |s|
    ensures r == s[LeadingWhiteSpace(s)..LeadingWhiteSpace(s) + |r|]
    ensures forall k :: LeadingWhiteSpace(s) + |r| <= k < |s| ==> IsWhiteSpace(s[k])
    ensures r != [] ==> !IsWhiteSpace(r[0]) && !IsWhiteSpace(r[|r| - 1])
  {
    var a := LeadingWhiteSpace(s);
    var b := TrailingWhiteSpace(s[a..]);
    TrailingWhiteSpaceOfSuffix(s, a);
    assert a + b <= |s|;
    var r := s[a..|s| - b];
    assert |r| == |s| - b - a;
    assert r != [] ==> r[0] == s[a] && r[|r| - 1] == s[|s| - b - 1];
    r
  }

  /** The white space trailing a suffix of `s` is white space trailing `s`. */
  lemma TrailingWhiteSpaceOfSuffix(s: string, a: nat)
    requires a <= |s|
    ensures var b := TrailingWhiteSpace(s[a..]);
      a + b <= |s|
      && (forall k :: |s| - b <= k < |s| ==> IsWhiteSpace(s[k]))
      && (a + b < |s| ==> !IsWhiteSpace(s[|s| - b - 1]))
  {
    var t := s[a..];
    assert forall k :: a <= k < |s| ==> s[k] == t[k - a];
  }

  /** Trimming twice is trimming once. */
  lemma TrimIdempotent(s: string)
    ensures Trim(Trim(s)) == Trim(s)
  {
    var r := Trim(s);
    if r != [] {
      assert LeadingWhiteSpace(r) == 0;
      var r2 := Trim(r);
      assert r2 == r[..|r2|];
      assert !IsWhiteSpace(r[|r| - 1]);
      assert |r2| == |r|;
    }
  }

  // ---------------------------------------------------------------------------
  // Replace("::", "")

  predicate HasDoubleColon(s: string) {
    exists i :: 0 <= i < |s| - 1 && s[i] == ':' && s[i + 1] == ':'
  }

  /** `s.Replace("::", "")`: occurrences removed left to right, without overlap. */
  function StripDoubleColons(s: string): (r: string)
    ensures |r| <= |s|
    ensures s != [] && s[0] != ':' ==> r != [] && r[0] == s[0]
    decreases |s|
  {
    if |s| < 2 then s
    else if s[0] == ':' && s[1] == ':' then StripDoubleColons(s[2..])
    else [s[0]] + StripDoubleColons(s[1..])
  }

  /** No "::" survives the replacement, even where removing one brings two colons together. */
  lemma {:induction false} StripLeavesNoDoubleColon(s: string)
    ensures !HasDoubleColon(StripDoubleColons(s))
    decreases |s|
  {
    if |s| >= 2 {
      if s[0] == ':' && s[1] == ':' {
        StripLeavesNoDoubleColon(s[2..]);
      } else {
        var t := StripDoubleColons(s[1..]);
        StripLeavesNoDoubleColon(s[1..]);
        var r := [s[0]] + t;
        forall i | 0 <= i < |r| - 1 ensures !(r[i] == ':' && r[i + 1] == ':') {
          if i > 0 {
            assert r[i] == t[i - 1] && r[i + 1] == t[i];
          } else if s[0] == ':' {
            assert s[1] != ':';
            assert r[1] == t[0] == s[1];
          }
        }
      }
    }
  }

  /** A key without "::" is kept as it is. */
  lemma {:induction false} StripKeepsPlainKey(s: string)
    requires !HasDoubleColon(s)
    ensures StripDoubleColons(s) == s
    decreases |s|
  {
    if |s| >= 2 {
      assert !(s[0] == ':' && s[1] == ':');
      var t := s[1..];
      NoDoubleColonInTail(s);
      StripKeepsPlainKey(t);
      assert s == [s[0]] + t;
    }
  }

  /**
   * The first "::" is removed and the text before it is kept: with the lemma above, this fixes
   * the replacement on every key, since the text before a key's first "::" has no "::" and does
   * not end in ':'.
   */
  lemma {:induction false} StripRemovesFirstDoubleColon(p: string, t: string)
    requires !HasDoubleColon(p)
    requires p == [] || p[|p| - 1] != ':'
    ensures StripDoubleColons(p + "::" + t) == p + StripDoubleColons(t)
    decreases |p|
  {
    var s := p + "::" + t;
    if p == [] {
      assert s == "::" + t && s[2..] == t;
    } else {
      var q := p[1..];
      assert s[0] == p[0] && s[1..] == q + "::" + t;
      assert !(s[0] == ':' && s[1] == ':') by {
        if |p| == 1 {
          assert s[0] == p[|p| - 1];
        } else {
          assert s[1] == p[1];
        }
      }
      assert StripDoubleColons(s) == [p[0]] + StripDoubleColons(q + "::" + t);
      NoDoubleColonInTail(p);
      StripRemovesFirstDoubleColon(q, t);
      assert p == [p[0]] + q;
    }
  }

  lemma NoDoubleColonInTail(p: string)
    requires p != [] && !HasDoubleColon(p)
    ensures !HasDoubleColon(p[1..])
  {
    var q := p[1..];
    forall i | 0 <= i < |q| - 1 ensures !(q[i] == ':' && q[i + 1] == ':') {
      assert q[i] == p[i + 1] && q[i + 1] == p[i + 2];
    }
  }
}
