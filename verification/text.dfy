/** The .NET string operations the adapters are built from, over `seq<char>`:
    ordinal `String.Contains`, ordinal `String.Replace` (every occurrence, left to
    right, non-overlapping), an ordered list of replacements, `TrimEnd(char)`,
    and splitting and joining on a separator character. */
module Text {

  /** A search string for `String.Replace`, which throws on an empty one. */
  type Pattern = s: string | |s| > 0 witness "?"

  predicate StartsWith(s: string, p: string) {
    |p| <= |s| && s[..|p|] == p
  }

  predicate EndsWith(s: string, p: string) {
    |p| <= |s| && s[|s| - |p|..] == p
  }

  /** `p` occurs in `s` at index `i`. */
  predicate OccursAt(s: string, p: string, i: int) {
    0 <= i && i + |p| <= |s| && s[i..i + |p|] == p
  }

  /** Ordinal `String.Contains`: true for the empty probe, as in .NET. */
  function Contains(s: string, p: string): bool
    decreases |s|
  {
    StartsWith(s, p) || (|s| > 0 && Contains(s[1..], p))
  }

  /** Occurrences after the first character are occurrences in the tail. */
  lemma OccursInTail(s: string, p: string, i: int)
    requires |s| > 0 && i > 0
    ensures OccursAt(s, p, i) <==> OccursAt(s[1..], p, i - 1)
  {
    if i + |p| <= |s| {
      assert s[1..][i - 1..i - 1 + |p|] == s[i..i + |p|];
    }
  }

  /** `Contains` holds exactly when the probe occurs at some index. */
  lemma {:induction false} ContainsIff(s: string, p: string)
    ensures Contains(s, p) <==> exists i :: OccursAt(s, p, i)
    decreases |s|
  {
    if StartsWith(s, p) {
      assert OccursAt(s, p, 0);
    } else if |s| == 0 {
      assert forall i :: !OccursAt(s, p, i);
    } else {
      ContainsIff(s[1..], p);
      if Contains(s[1..], p) {
        var i :| OccursAt(s[1..], p, i);
        OccursInTail(s, p, i + 1);
      } else {
        forall i | OccursAt(s, p, i)
          ensures false
        {
          if i > 0 {
            OccursInTail(s, p, i);
          }
        }
      }
    }
  }

  /** Ordinal `String.Replace(p, r)`: scans left to right and replaces every
      occurrence of `p` that does not overlap an earlier replaced one. */
  function Replace(s: string, p: Pattern, r: string): (t: string)
    ensures !Contains(s, p) ==> t == s
    decreases |s|
  {
    if |s| < |p| then s
    else if s[..|p|] == p then r + Replace(s[|p|..], p, r)
    else [s[0]] + Replace(s[1..], p, r)
  }

  /** One `ret = ret.Replace(find, with)` statement of a shim. */
  datatype Rule = Rule(find: Pattern, with: string)

  /** No rule of the list has its search string in `s`. */
  predicate NoneApply(rules: seq<Rule>, s: string) {
    forall i :: 0 <= i < |rules| ==> !Contains(s, rules[i].find)
  }

  /** A shim's straight-line sequence of replacements, applied in order. */
  function ApplyRules(rules: seq<Rule>, s: string): (t: string)
    ensures NoneApply(rules, s) ==> t == s
  {
    if |rules| == 0 then s
    else ApplyRules(rules[1..], Replace(s, rules[0].find, rules[0].with))
  }

  /** No rule of a concatenated list applies exactly when none of either
      part does. */
  lemma NoneApplyParts(a: seq<Rule>, b: seq<Rule>, s: string)
    ensures NoneApply(a + b, s) <==> NoneApply(a, s) && NoneApply(b, s)
  {
    if NoneApply(a + b, s) {
      forall i | 0 <= i < |a|
        ensures !Contains(s, a[i].find)
      {
        assert (a + b)[i] == a[i];
      }
      forall i | 0 <= i < |b|
        ensures !Contains(s, b[i].find)
      {
        assert (a + b)[|a| + i] == b[i];
      }
    } else if NoneApply(a, s) && NoneApply(b, s) {
      forall i | 0 <= i < |a + b|
        ensures !Contains(s, (a + b)[i].find)
      {
        if i >= |a| {
          assert (a + b)[i] == b[i - |a|];
        }
      }
    }
  }

  /** `String.TrimEnd(c)`: removes every trailing `c`. */
  function TrimEnd(s: string, c: char): (t: string)
    ensures StartsWith(s, t)
    ensures |t| == 0 || t[|t| - 1] != c
    ensures forall i :: |t| <= i < |s| ==> s[i] == c
  {
    if |s| > 0 && s[|s| - 1] == c then TrimEnd(s[..|s| - 1], c) else s
  }

  /** The pieces of `s` between occurrences of `c`, as `String.Split(c)`. */
  function Split(s: string, c: char): (parts: seq<string>)
    ensures |parts| > 0
    decreases |s|
  {
    if |s| == 0 then [""]
    else if s[0] == c then [""] + Split(s[1..], c)
    else
      var rest := Split(s[1..], c);
      [[s[0]] + rest[0]] + rest[1..]
  }

  /** `String.Join(c, parts)`. */
  function Join(parts: seq<string>, c: char): string {
    if |parts| == 0 then ""
    else if |parts| == 1 then parts[0]
    else parts[0] + [c] + Join(parts[1..], c)
  }

  /** Splitting a piece free of the separator gives the piece back. */
  lemma {:induction false} SplitNoSeparator(a: string, c: char)
    requires c !in a
    ensures Split(a, c) == [a]
    decreases |a|
  {
    if |a| > 0 {
      SplitNoSeparator(a[1..], c);
      assert [a[0]] + a[1..] == a;
    }
  }

  /** The first separator ends the first piece. */
  lemma {:induction false} SplitAtFirst(a: string, c: char, b: string)
    requires c !in a
    ensures Split(a + [c] + b, c) == [a] + Split(b, c)
    decreases |a|
  {
    if |a| == 0 {
      assert a + [c] + b == [c] + b;
      assert ([c] + b)[1..] == b;
    } else {
      var s := a + [c] + b;
      assert s[0] == a[0] && s[1..] == a[1..] + [c] + b;
      SplitAtFirst(a[1..], c, b);
      assert [a[0]] + a[1..] == a;
    }
  }

  /** Splitting undoes joining when no piece holds the separator. */
  lemma {:induction false} SplitJoin(parts: seq<string>, c: char)
    requires |parts| > 0
    requires forall i :: 0 <= i < |parts| ==> c !in parts[i]
    ensures Split(Join(parts, c), c) == parts
    decreases |parts|
  {
    if |parts| == 1 {
      SplitNoSeparator(parts[0], c);
    } else {
      SplitJoin(parts[1..], c);
      SplitAtFirst(parts[0], c, Join(parts[1..], c));
      assert [parts[0]] + parts[1..] == parts;
    }
  }

  /** Joining undoes splitting. */
  lemma {:induction false} JoinSplit(s: string, c: char)
    ensures Join(Split(s, c), c) == s
    decreases |s|
  {
    if |s| > 0 {
      JoinSplit(s[1..], c);
      var rest := Split(s[1..], c);
      if s[0] == c {
        assert Split(s, c) == [""] + rest;
        assert ([""] + rest)[1..] == rest;
        assert s == [c] + s[1..];
      } else {
        var parts := Split(s, c);
        assert parts == [[s[0]] + rest[0]] + rest[1..];
        if |rest| == 1 {
          assert s == [s[0]] + rest[0];
        } else {
          assert parts[1..] == rest[1..];
          assert Join(rest, c) == rest[0] + [c] + Join(rest[1..], c);
          assert s == [s[0]] + s[1..];
        }
      }
    }
  }

  /** The text after the last `c` in `s` (all of `s` when it has none). */
  function AfterLast(s: string, c: char): (t: string)
    ensures c !in t && EndsWith(s, t)
    decreases |s|
  {
    if |s| == 0 || s[|s| - 1] == c then "" else AfterLast(s[..|s| - 1], c) + [s[|s| - 1]]
  }

  /** A tail free of `c` is what follows the last `c`. */
  lemma {:induction false} AfterLastSeparator(a: string, c: char, b: string)
    requires c !in b
    ensures AfterLast(a + [c] + b, c) == b
    decreases |b|
  {
    var s := a + [c] + b;
    if |b| > 0 {
      assert s[..|s| - 1] == a + [c] + b[..|b| - 1];
      AfterLastSeparator(a, c, b[..|b| - 1]);
      assert b[..|b| - 1] + [b[|b| - 1]] == b;
    }
  }
}
