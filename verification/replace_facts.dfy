/** Facts about `Replace` and ordered replacement lists: when a replacement
    leaves a string alone, when it acts on the two halves of a concatenation
    independently, and when it can neither leave behind nor create a probe
    string. The shim theorems are built from these. */
module ReplaceFacts {
  import opened Text

  // ---------------------------------------------------------------------------
  // Occurrences
  // ---------------------------------------------------------------------------

  lemma ContainsLength(s: string, q: string)
    requires Contains(s, q)
    ensures |q| <= |s|
  {
    ContainsIff(s, q);
  }

  /** An occurrence in a suffix is an occurrence in the whole. */
  lemma ContainsInSuffix(s: string, k: nat, q: string)
    requires k <= |s|
    requires Contains(s[k..], q)
    ensures Contains(s, q)
  {
    ContainsIff(s[k..], q);
    var i :| OccursAt(s[k..], q, i);
    assert s[k..][i..i + |q|] == s[i + k..i + k + |q|];
    assert OccursAt(s, q, i + k);
    ContainsIff(s, q);
  }

  /** A string that a suffix starts with occurs in the whole. */
  lemma ContainsAtJoin(a: string, b: string, q: string)
    requires StartsWith(b, q)
    ensures Contains(a + b, q)
  {
    assert (a + b)[|a|..|a| + |q|] == b[..|q|];
    assert OccursAt(a + b, q, |a|);
    ContainsIff(a + b, q);
  }

  /** An occurrence in a prefix is an occurrence in the whole. */
  lemma ContainsInPrefix(a: string, b: string, q: string)
    requires Contains(a, q)
    ensures Contains(a + b, q)
  {
    ContainsIff(a, q);
    var i :| OccursAt(a, q, i);
    assert (a + b)[i..i + |q|] == a[i..i + |q|];
    assert OccursAt(a + b, q, i);
    ContainsIff(a + b, q);
  }

  /** No proper, non-empty prefix of `p` ends `a` while the rest of `p` starts `b`:
      no occurrence of `p` in `a + b` crosses the join. */
  predicate NoStraddle(a: string, b: string, p: string) {
    forall m :: 0 < m < |p| ==> !(EndsWith(a, p[..m]) && StartsWith(b, p[m..]))
  }

  /** An occurrence in `a + b` lies in `a`, lies in `b`, or crosses the join. */
  lemma {:induction false} ContainsSplit(a: string, b: string, q: string)
    ensures Contains(a + b, q) ==> Contains(a, q) || Contains(b, q) || !NoStraddle(a, b, q)
  {
    if Contains(a + b, q) {
      var s := a + b;
      ContainsIff(s, q);
      var i :| OccursAt(s, q, i);
      if i + |q| <= |a| {
        assert s[i..i + |q|] == a[i..i + |q|];
        assert OccursAt(a, q, i);
        ContainsIff(a, q);
      } else if i >= |a| {
        assert s[i..i + |q|] == b[i - |a|..i - |a| + |q|];
        assert OccursAt(b, q, i - |a|);
        ContainsIff(b, q);
      } else {
        var m := |a| - i;
        assert q[..m] == s[i..|a|] == a[|a| - m..];
        assert q[m..] == s[|a|..i + |q|] == b[..|q| - m];
        assert EndsWith(a, q[..m]) && StartsWith(b, q[m..]);
      }
    }
  }

  /** Without a crossing occurrence, `a + b` holds `q` only if a half does. */
  lemma ContainsJoin(a: string, b: string, q: string)
    requires NoStraddle(a, b, q)
    requires !Contains(a, q) && !Contains(b, q)
    ensures !Contains(a + b, q)
  {
    ContainsSplit(a, b, q);
  }

  // ---------------------------------------------------------------------------
  // When a replacement changes nothing
  // ---------------------------------------------------------------------------

  /** A shorter replacement never lengthens; a longer one never shortens. */
  lemma {:induction false} ReplaceLengthBounds(s: string, p: Pattern, r: string)
    ensures |r| <= |p| ==> |Replace(s, p, r)| <= |s|
    ensures |r| >= |p| ==> |Replace(s, p, r)| >= |s|
    decreases |s|
  {
    if |s| >= |p| {
      if s[..|p|] == p {
        ReplaceLengthBounds(s[|p|..], p, r);
      } else {
        ReplaceLengthBounds(s[1..], p, r);
      }
    }
  }

  lemma {:induction false} ReplaceWithItself(s: string, p: Pattern)
    ensures Replace(s, p, p) == s
    decreases |s|
  {
    if |s| >= |p| {
      if s[..|p|] == p {
        ReplaceWithItself(s[|p|..], p);
        assert s == p + s[|p|..];
      } else {
        ReplaceWithItself(s[1..], p);
        assert s == [s[0]] + s[1..];
      }
    }
  }

  /** `s.Replace(p, r)` returns `s` itself exactly when `p` does not occur in
      `s` or the replacement equals the pattern. */
  lemma {:induction false} ReplaceIdentityIff(s: string, p: Pattern, r: string)
    ensures Replace(s, p, r) == s <==> (!Contains(s, p) || r == p)
    decreases |s|
  {
    if r == p {
      ReplaceWithItself(s, p);
    } else if Contains(s, p) {
      ContainsLength(s, p);
      if s[..|p|] == p {
        var y := s[|p|..];
        ReplaceLengthBounds(y, p, r);
        assert s == p + y;
        if |r| == |p| {
          assert Replace(s, p, r)[..|p|] == r;
        }
      } else {
        ContainsLength(s[1..], p);
        ReplaceIdentityIff(s[1..], p, r);
        assert Replace(s, p, r) == [s[0]] + Replace(s[1..], p, r);
        assert s == [s[0]] + s[1..];
      }
    }
  }

  // ---------------------------------------------------------------------------
  // Replacement over a concatenation
  // ---------------------------------------------------------------------------

  lemma NoStraddleDrop(a: string, k: nat, b: string, p: string)
    requires k <= |a|
    requires NoStraddle(a, b, p)
    ensures NoStraddle(a[k..], b, p)
  {
    forall m | 0 < m < |p| && EndsWith(a[k..], p[..m])
      ensures !StartsWith(b, p[m..])
    {
      assert a[k..][|a[k..]| - m..] == a[|a| - m..];
      assert EndsWith(a, p[..m]);
    }
  }

  /** A string shorter than `p` that starts an occurrence of `p` in `a + b`
      leaves a crossing occurrence. */
  lemma ShortStart(a: string, b: string, p: string)
    ensures 0 < |a| < |p| && StartsWith(a + b, p) ==> !NoStraddle(a, b, p)
  {
    if 0 < |a| < |p| && StartsWith(a + b, p) {
      var s, m := a + b, |a|;
      assert a == s[..m] == p[..m];
      assert a[|a| - m..] == a;
      assert b[..|p| - m] == s[m..|p|] == p[m..];
      assert EndsWith(a, p[..m]) && StartsWith(b, p[m..]);
    }
  }

  /** When no occurrence crosses the join, the halves are rewritten independently. */
  lemma {:induction false} ReplaceConcat(a: string, b: string, p: Pattern, r: string)
    requires NoStraddle(a, b, p)
    ensures Replace(a + b, p, r) == Replace(a, p, r) + Replace(b, p, r)
    decreases |a|
  {
    var s := a + b;
    if |a| == 0 {
      assert s == b;
    } else if |s| < |p| {
    } else if s[..|p|] == p {
      if |a| < |p| {
        ShortStart(a, b, p);
        assert false;
      }
      ReplaceConcatMatch(a, b, p, r);
    } else {
      ReplaceConcatSkip(a, b, p, r);
    }
  }

  lemma {:induction false} ReplaceConcatMatch(a: string, b: string, p: Pattern, r: string)
    requires NoStraddle(a, b, p)
    requires |p| <= |a| && a[..|p|] == p
    ensures Replace(a + b, p, r) == Replace(a, p, r) + Replace(b, p, r)
    decreases |a|, 0
  {
    var s := a + b;
    assert s[..|p|] == p;
    assert s[|p|..] == a[|p|..] + b;
    NoStraddleDrop(a, |p|, b, p);
    ReplaceConcat(a[|p|..], b, p, r);
  }

  /** Where `p` does not start `s`, `Replace` keeps the first character. */
  lemma ReplaceKeepsHead(s: string, p: Pattern, r: string)
    requires 0 < |s| && (|s| < |p| || s[..|p|] != p)
    ensures Replace(s, p, r) == [s[0]] + Replace(s[1..], p, r)
  {
    if |s| < |p| {
      assert Replace(s[1..], p, r) == s[1..];
      assert s == [s[0]] + s[1..];
    }
  }

  lemma {:induction false} ReplaceConcatSkip(a: string, b: string, p: Pattern, r: string)
    requires NoStraddle(a, b, p)
    requires 0 < |a| && |p| <= |a + b| && (a + b)[..|p|] != p
    ensures Replace(a + b, p, r) == Replace(a, p, r) + Replace(b, p, r)
    decreases |a|, 0
  {
    var s := a + b;
    HeadOfConcat(a, b, p);
    NoStraddleDrop(a, 1, b, p);
    ReplaceConcat(a[1..], b, p, r);
    ReplaceKeepsHead(s, p, r);
    ReplaceKeepsHead(a, p, r);
  }

  /** What does not start `a + b` does not start `a` either. */
  lemma HeadOfConcat(a: string, b: string, p: Pattern)
    requires 0 < |a| && |p| <= |a + b| && (a + b)[..|p|] != p
    ensures |a| < |p| || a[..|p|] != p
    ensures (a + b)[0] == a[0] && (a + b)[1..] == a[1..] + b
  {
    if |a| >= |p| {
      assert a[..|p|] == (a + b)[..|p|];
    }
  }

  /** Every stage of the rule list keeps the join between the rewritten halves
      free of crossing occurrences. */
  predicate SafeJoin(rules: seq<Rule>, a: string, b: string)
    decreases |rules|
  {
    |rules| == 0 ||
    (NoStraddle(a, b, rules[0].find) &&
     SafeJoin(rules[1..], Replace(a, rules[0].find, rules[0].with), Replace(b, rules[0].find, rules[0].with)))
  }

  /** An ordered rule list acts on the two halves of a safe join independently. */
  lemma {:induction false} ApplyRulesConcat(rules: seq<Rule>, a: string, b: string)
    requires SafeJoin(rules, a, b)
    ensures ApplyRules(rules, a + b) == ApplyRules(rules, a) + ApplyRules(rules, b)
    decreases |rules|
  {
    if |rules| > 0 {
      var p, r := rules[0].find, rules[0].with;
      ReplaceConcat(a, b, p, r);
      ApplyRulesConcat(rules[1..], Replace(a, p, r), Replace(b, p, r));
    }
  }

  // ---------------------------------------------------------------------------
  // Three ways to know a join is safe
  // ---------------------------------------------------------------------------

  /** No search string of the list starts with `c`. */
  predicate Leads(rules: seq<Rule>, c: char) {
    forall i :: 0 <= i < |rules| ==> rules[i].find[0] != c
  }

  /** No search string of the list contains `c`. */
  predicate Avoids(rules: seq<Rule>, c: char) {
    forall i, j :: 0 <= i < |rules| && 0 <= j < |rules[i].find| ==> rules[i].find[j] != c
  }

  /** When `a` ends with a proper prefix of `p`, the rest of `p` does not
      start with `c`. */
  predicate EndGuard(a: string, p: string, c: char) {
    forall m :: 0 < m < |p| && EndsWith(a, p[..m]) ==> p[m] != c
  }

  /** Every stage of `a` can be followed by `c` without a crossing occurrence. */
  function SafeBefore(rules: seq<Rule>, a: string, c: char): bool
    decreases |rules|
  {
    |rules| == 0 ||
    (EndGuard(a, rules[0].find, c) &&
     SafeBefore(rules[1..], Replace(a, rules[0].find, rules[0].with), c))
  }

  /** Replacing in a string that starts with `c` keeps `c` in front when no
      search string starts with `c`. */
  lemma ReplaceLeading(c: char, b: string, p: Pattern, r: string)
    requires p[0] != c
    ensures Replace([c] + b, p, r) == [c] + Replace(b, p, r)
  {
    var s := [c] + b;
    assert s[1..] == b;
    if |s| >= |p| {
      assert s[..|p|][0] == c;
    }
  }

  lemma {:induction false} ApplyRulesLeading(rules: seq<Rule>, c: char, b: string)
    requires Leads(rules, c)
    ensures ApplyRules(rules, [c] + b) == [c] + ApplyRules(rules, b)
    decreases |rules|
  {
    if |rules| > 0 {
      ReplaceLeading(c, b, rules[0].find, rules[0].with);
      ApplyRulesLeading(rules[1..], c, Replace(b, rules[0].find, rules[0].with));
    }
  }

  lemma {:induction false} SafeBeforeJoin(rules: seq<Rule>, a: string, c: char, b: string)
    requires Leads(rules, c) && SafeBefore(rules, a, c)
    ensures SafeJoin(rules, a, [c] + b)
    decreases |rules|
  {
    if |rules| > 0 {
      var p, r := rules[0].find, rules[0].with;
      forall m | 0 < m < |p| && EndsWith(a, p[..m])
        ensures !StartsWith([c] + b, p[m..])
      {
        assert p[m..][0] == p[m];
      }
      ReplaceLeading(c, b, p, r);
      SafeBeforeJoin(rules[1..], Replace(a, p, r), c, Replace(b, p, r));
    }
  }

  /** Text followed by `c` is rewritten apart from what follows `c`, provided
      every stage of it passes the `SafeBefore` check. */
  lemma ApplyRulesBefore(rules: seq<Rule>, a: string, c: char, b: string)
    requires Leads(rules, c) && SafeBefore(rules, a, c)
    ensures ApplyRules(rules, a + [c] + b) == ApplyRules(rules, a) + [c] + ApplyRules(rules, b)
  {
    var cb := [c] + b;
    assert a + [c] + b == a + cb;
    SafeBeforeJoin(rules, a, c, b);
    ApplyRulesConcat(rules, a, cb);
    ApplyRulesLeading(rules, c, b);
  }

  lemma {:induction false} AvoidsSafeBefore(rules: seq<Rule>, a: string, c: char)
    requires Avoids(rules, c)
    ensures SafeBefore(rules, a, c)
    decreases |rules|
  {
    if |rules| > 0 {
      var p := rules[0].find;
      assert EndGuard(a, p, c) by {
        assert forall m :: 0 < m < |p| ==> rules[0].find[m] != c;
      }
      AvoidsSafeBefore(rules[1..], Replace(a, p, rules[0].with), c);
    }
  }

  /** A separator that no search string contains splits the text into pieces
      that are rewritten independently, whatever surrounds it. */
  lemma ApplyRulesSeparator(rules: seq<Rule>, a: string, c: char, b: string)
    requires Avoids(rules, c)
    ensures ApplyRules(rules, a + [c] + b) == ApplyRules(rules, a) + [c] + ApplyRules(rules, b)
  {
    AvoidsSafeBefore(rules, a, c);
    ApplyRulesBefore(rules, a, c, b);
  }

  // ---------------------------------------------------------------------------
  // Replacements that cannot create a probe string
  // ---------------------------------------------------------------------------

  /** No non-empty prefix of `x` is also a suffix of `y`. */
  predicate PrefixNotSuffix(x: string, y: string) {
    forall k :: 0 < k <= |x| && k <= |y| ==> x[..k] != y[|y| - k..]
  }

  /** Dropping the first character of `y` keeps its suffixes. */
  lemma PrefixNotSuffixTail(x: string, y: string)
    requires |y| > 0
    ensures PrefixNotSuffix(x, y) ==> PrefixNotSuffix(x, y[1..])
  {
    if PrefixNotSuffix(x, y) {
      forall k | 0 < k <= |x| && k <= |y| - 1
        ensures x[..k] != y[1..][|y| - 1 - k..]
      {
        assert y[1..][|y| - 1 - k..] == y[|y| - k..];
      }
    }
  }

  /** A probe `q` and a replacement `r` that cannot overlap: neither contains
      the other and no end of one is the start of the other. Then a copy of
      `q` can never be assembled from `r` and the text around it. */
  predicate Disjoint(q: string, r: string) {
    PrefixNotSuffix(r, q) && PrefixNotSuffix(q, r) && !Contains(q, r) && !Contains(r, q)
  }

  /** If a rewritten string starts with `w`, then either the original already
      started with `w`, or `w` overlaps the replacement: it contains `r`, or a
      start of `r` is an end of `w`. */
  lemma {:induction false} PrefixPreserved(t: string, p: Pattern, r: string, w: string)
    ensures StartsWith(Replace(t, p, r), w) ==>
              StartsWith(t, w) || !PrefixNotSuffix(r, w) || Contains(w, r)
    decreases |t|
  {
    if StartsWith(Replace(t, p, r), w) && |w| > 0 && |t| >= |p| {
      if t[..|p|] == p {
        if |w| <= |r| {
          assert r[..|w|] == w == w[|w| - |w|..];
        } else {
          assert w[..|r|] == r;
        }
      } else {
        var rest := Replace(t[1..], p, r);
        assert Replace(t, p, r) == [t[0]] + rest;
        var w' := w[1..];
        assert StartsWith(rest, w');
        PrefixPreserved(t[1..], p, r, w');
        PrefixNotSuffixTail(r, w);
        if StartsWith(t[1..], w') {
          assert t[..|w|] == [t[0]] + t[1..][..|w'|];
          assert w == [w[0]] + w';
        }
      }
    }
  }

  /** An occurrence in `a + b` lies in a half or starts inside `a` with a
      prefix of `q` that ends `a`. */
  lemma ContainsAfterInsert(a: string, b: string, q: string)
    ensures Contains(a + b, q) ==> Contains(a, q) || Contains(b, q) || !PrefixNotSuffix(q, a)
  {
    ContainsSplit(a, b, q);
    if !NoStraddle(a, b, q) {
      var m :| 0 < m < |q| && EndsWith(a, q[..m]) && StartsWith(b, q[m..]);
      assert q[..m] == a[|a| - m..];
    }
  }

  /** Every occurrence of a `q` disjoint from `r` in `s.Replace(p, r)` was
      already an occurrence in `s`, and it is not one of `p` itself. */
  lemma {:induction false} ReplaceTracesBack(s: string, p: Pattern, r: string, q: string)
    ensures Contains(Replace(s, p, r), q) ==> !Disjoint(q, r) || (q != p && Contains(s, q))
    decreases |s|
  {
    var t := Replace(s, p, r);
    if Contains(t, q) && Disjoint(q, r) {
      if |s| < |p| {
        ContainsLength(s, q);
      } else if s[..|p|] == p {
        var y := s[|p|..];
        var rest := Replace(y, p, r);
        assert t == r + rest;
        ContainsAfterInsert(r, rest, q);
        ReplaceTracesBack(y, p, r, q);
        if Contains(y, q) {
          ContainsInSuffix(s, |p|, q);
        }
      } else {
        var y := s[1..];
        var rest := Replace(y, p, r);
        assert t == [s[0]] + rest && t[1..] == rest;
        ReplaceTracesBack(y, p, r, q);
        if Contains(y, q) {
          ContainsInSuffix(s, 1, q);
        }
        if StartsWith(t, q) && |q| > 0 {
          var w := q[1..];
          assert StartsWith(rest, w);
          PrefixPreserved(y, p, r, w);
          PrefixNotSuffixTail(r, q);
          if StartsWith(y, w) {
            assert s[..|q|] == [s[0]] + y[..|w|];
            assert q == [q[0]] + w;
            assert StartsWith(s, q);
          }
        }
      }
    }
  }

  /** `Replace(p, r)` never produces a `q` disjoint from `r`: it removes every
      occurrence of its own pattern, and it creates no `q` that was not there. */
  lemma ReplaceKeepsOut(s: string, p: Pattern, r: string, q: string)
    requires Disjoint(q, r)
    requires q == p || !Contains(s, q)
    ensures !Contains(Replace(s, p, r), q)
  {
    ReplaceTracesBack(s, p, r, q);
  }

  /** Every replacement of the list is disjoint from `q`. */
  predicate AllDisjoint(q: string, rules: seq<Rule>) {
    forall i :: 0 <= i < |rules| ==> Disjoint(q, rules[i].with)
  }

  /** A rule list whose replacements are all disjoint from `q` creates no `q`. */
  lemma {:induction false} ApplyRulesKeepsOut(rules: seq<Rule>, s: string, q: string)
    requires !Contains(s, q) && AllDisjoint(q, rules)
    ensures !Contains(ApplyRules(rules, s), q)
    decreases |rules|
  {
    if |rules| > 0 {
      ReplaceKeepsOut(s, rules[0].find, rules[0].with, q);
      ApplyRulesKeepsOut(rules[1..], Replace(s, rules[0].find, rules[0].with), q);
    }
  }

  /** Rule `i`'s search string is gone after the list has run, when neither
      its own replacement nor any later one can rebuild it. */
  lemma ApplyRulesClearsFind(rules: seq<Rule>, i: nat, s: string)
    requires i < |rules| && Disjoint(rules[i].find, rules[i].with)
    requires forall j :: i < j < |rules| ==> Disjoint(rules[i].find, rules[j].with)
    ensures !Contains(ApplyRules(rules, s), rules[i].find)
  {
    var q := rules[i].find;
    assert rules == rules[..i] + rules[i..];
    ApplyRulesAppend(rules[..i], rules[i..], s);
    var t := ApplyRules(rules[..i], s);
    assert rules[i..][0] == rules[i] && rules[i..][1..] == rules[i + 1..];
    ReplaceKeepsOut(t, q, rules[i].with, q);
    var later := rules[i + 1..];
    forall j | 0 <= j < |later|
      ensures Disjoint(q, later[j].with)
    {
      assert later[j] == rules[i + 1 + j];
    }
    ApplyRulesKeepsOut(later, Replace(t, q, rules[i].with), q);
  }

  /** The first rule's search string is gone after the list has run, when
      neither its own replacement nor any later one can rebuild it. */
  lemma ApplyRulesClearsHead(rules: seq<Rule>, s: string)
    requires |rules| > 0 && Disjoint(rules[0].find, rules[0].with)
    requires AllDisjoint(rules[0].find, rules[1..])
    ensures !Contains(ApplyRules(rules, s), rules[0].find)
  {
    var q := rules[0].find;
    ReplaceKeepsOut(s, q, rules[0].with, q);
    ApplyRulesKeepsOut(rules[1..], Replace(s, q, rules[0].with), q);
  }

  /** The same for a list given as two parts. */
  lemma ApplyRulesClearsHeadOfAppend(a: seq<Rule>, b: seq<Rule>, s: string)
    requires |a| > 0 && Disjoint(a[0].find, a[0].with)
    requires AllDisjoint(a[0].find, a[1..]) && AllDisjoint(a[0].find, b)
    ensures !Contains(ApplyRules(a + b, s), a[0].find)
  {
    var rules := a + b;
    assert rules[0] == a[0];
    assert rules[1..] == a[1..] + b;
    AllDisjointAppend(a[0].find, a[1..], b);
    ApplyRulesClearsHead(rules, s);
  }

  /** When `y`'s last character appears in `x` only at its end, the one
      overlap left to rule out is the whole of `x`. */
  lemma LastOnlyApart(x: string, y: string)
    requires |x| > 0 && |y| > 0 && Absent(y[|y| - 1], x[..|x| - 1])
    requires |x| > |y| || x != y[|y| - |x|..]
    ensures PrefixNotSuffix(x, y)
  {
    forall k | 0 < k <= |x| && k <= |y|
      ensures x[..k] != y[|y| - k..]
    {
      if k < |x| {
        assert x[..|x| - 1][k - 1] == x[..k][k - 1];
        assert y[|y| - k..][k - 1] == y[|y| - 1];
      } else {
        assert x[..k] == x;
      }
    }
  }

  /** Two keys that end in their only colon are disjoint when neither ends
      the other and neither can occur in the other. */
  lemma ColonKeysApart(q: string, r: string)
    requires |q| > 0 && |r| > 0 && q[|q| - 1] == ':' && r[|r| - 1] == ':'
    requires Absent(':', q[..|q| - 1]) && Absent(':', r[..|r| - 1])
    requires |r| > |q| || r != q[|q| - |r|..]
    requires |q| > |r| || q != r[|r| - |q|..]
    requires |r| > 0 && |q| > 0 && Misses(q, r) && Misses(r, q)
    ensures Disjoint(q, r)
  {
    LastOnlyApart(r, q);
    LastOnlyApart(q, r);
    MissesNotContains(r, q);
    MissesNotContains(q, r);
  }

  /** Two strings are disjoint when each one's first character is absent
      from the other. */
  lemma FirstCharApart(q: string, r: string)
    requires |q| > 0 && |r| > 0 && Absent(r[0], q) && Absent(q[0], r)
    ensures Disjoint(q, r)
  {
    forall k | 0 < k <= |r| && k <= |q|
      ensures r[..k] != q[|q| - k..]
    {
      assert r[..k][0] == r[0] && q[|q| - k..][0] == q[|q| - k];
    }
    forall k | 0 < k <= |q| && k <= |r|
      ensures q[..k] != r[|r| - k..]
    {
      assert q[..k][0] == q[0] && r[|r| - k..][0] == r[|r| - k];
    }
    MissesNotContains(q, r);
    MissesNotContains(r, q);
  }

  /** Every replacement starts with a character `q` lacks, and lacks `q`'s
      first character. */
  lemma FirstCharsApartAll(q: string, rules: seq<Rule>)
    requires |q| > 0
    requires forall j :: 0 <= j < |rules| ==>
               |rules[j].with| > 0 && Absent(rules[j].with[0], q) && Absent(q[0], rules[j].with)
    ensures AllDisjoint(q, rules)
  {
    forall j | 0 <= j < |rules|
      ensures Disjoint(q, rules[j].with)
    {
      FirstCharApart(q, rules[j].with);
    }
  }

  lemma AllDisjointAppend(q: string, a: seq<Rule>, b: seq<Rule>)
    requires AllDisjoint(q, a) && AllDisjoint(q, b)
    ensures AllDisjoint(q, a + b)
  {
    forall i | |a| <= i < |a + b|
      ensures (a + b)[i] == b[i - |a|]
    {
    }
  }

  // ---------------------------------------------------------------------------
  // Rules that cannot match a given token
  // ---------------------------------------------------------------------------

  /** `c` is not in `t`, stated by index. */
  predicate Absent(c: char, t: string) {
    forall j :: 0 <= j < |t| ==> t[j] != c
  }

  /** A cheap witness that `p` does not occur in `t`: `p` is longer, one of its
      first two or its last character is missing from `t`, or it is a different
      string of the same length. */
  predicate Misses(t: string, p: Pattern) {
    |p| > |t| || Absent(p[0], t) || Absent(p[|p| - 1], t) || (|p| > 1 && Absent(p[1], t)) ||
    (|p| == |t| && p != t)
  }

  lemma MissesNotContains(t: string, p: Pattern)
    ensures Misses(t, p) ==> !Contains(t, p)
  {
    ContainsIff(t, p);
    if Contains(t, p) {
      var i :| OccursAt(t, p, i);
      assert t[i..i + |p|] == p;
      assert p[0] == t[i] && p[|p| - 1] == t[i + |p| - 1];
      if |p| > 1 {
        assert p[1] == t[i + 1];
      }
    }
  }

  /** No rule of the list can match `t`. */
  predicate MissesAll(rules: seq<Rule>, t: string) {
    forall i :: 0 <= i < |rules| ==> Misses(t, rules[i].find)
  }

  lemma ApplyRulesMissed(rules: seq<Rule>, t: string)
    requires MissesAll(rules, t)
    ensures ApplyRules(rules, t) == t
  {
    forall i | 0 <= i < |rules|
      ensures !Contains(t, rules[i].find)
    {
      MissesNotContains(t, rules[i].find);
    }
  }

  /** A token that is exactly the search string becomes the replacement. */
  lemma ReplaceWhole(p: Pattern, r: string)
    ensures Replace(p, p, r) == r
  {
    assert p[|p|..] == [];
  }

  /** A token that starts with the search string has that start replaced. */
  lemma ReplaceHead(p: Pattern, x: string, r: string)
    ensures Replace(p + x, p, r) == r + Replace(x, p, r)
  {
    assert (p + x)[..|p|] == p && (p + x)[|p|..] == x;
  }

  /** Running two lists one after the other is running their concatenation. */
  lemma {:induction false} ApplyRulesAppend(a: seq<Rule>, b: seq<Rule>, s: string)
    ensures ApplyRules(a + b, s) == ApplyRules(b, ApplyRules(a, s))
    decreases |a|
  {
    if |a| == 0 {
      assert a + b == b;
    } else {
      assert (a + b)[0] == a[0] && (a + b)[1..] == a[1..] + b;
      ApplyRulesAppend(a[1..], b, Replace(s, a[0].find, a[0].with));
    }
  }

  /** The first rule of a list, then the rest. */
  lemma ApplyRulesFirst(rules: seq<Rule>, s: string)
    requires |rules| > 0
    ensures ApplyRules(rules, s) == ApplyRules(rules[1..], Replace(s, rules[0].find, rules[0].with))
  {
  }

  /** Every character of `t` occurs in `k`. */
  predicate Within(t: string, k: string) {
    forall j :: 0 <= j < |t| ==> t[j] in k
  }

  /** One of the first three or the last character of `p` is not in `k`, so
      `p` occurs in no text made of characters of `k`. */
  predicate Foreign(p: Pattern, k: string) {
    Absent(p[0], k) || (|p| > 1 && Absent(p[1], k)) || (|p| > 2 && Absent(p[2], k)) ||
    Absent(p[|p| - 1], k)
  }

  lemma ForeignNotContains(t: string, p: Pattern, k: string)
    ensures Within(t, k) && Foreign(p, k) ==> !Contains(t, p)
  {
    ContainsIff(t, p);
    if Contains(t, p) && Within(t, k) {
      var i :| OccursAt(t, p, i);
      assert t[i..i + |p|] == p;
      assert p[0] == t[i] && p[|p| - 1] == t[i + |p| - 1];
      assert t[i] in k && t[i + |p| - 1] in k;
      if |p| > 1 {
        assert p[1] == t[i + 1] && t[i + 1] in k;
      }
      if |p| > 2 {
        assert p[2] == t[i + 2] && t[i + 2] in k;
      }
    }
  }

  /** A list whose every search string is foreign to `k` leaves text made of
      characters of `k` alone. */
  lemma ApplyRulesForeign(rules: seq<Rule>, t: string, k: string)
    requires Within(t, k)
    requires forall i :: 0 <= i < |rules| ==> Foreign(rules[i].find, k)
    ensures ApplyRules(rules, t) == t
  {
    forall i | 0 <= i < |rules|
      ensures !Contains(t, rules[i].find)
    {
      ForeignNotContains(t, rules[i].find, k);
    }
  }

  /** A list renames the search string of its rule `k` to that rule's
      replacement when no earlier rule matches the key and no later rule
      matches the new name. */
  lemma ApplyRulesRenamesKey(rules: seq<Rule>, k: nat)
    requires k < |rules|
    requires forall j :: 0 <= j < k ==> Misses(rules[k].find, rules[j].find)
    requires forall j :: k < j < |rules| ==> Misses(rules[k].with, rules[j].find)
    ensures ApplyRules(rules, rules[k].find) == rules[k].with
  {
    var key, name := rules[k].find, rules[k].with;
    assert rules == rules[..k] + rules[k..];
    ApplyRulesAppend(rules[..k], rules[k..], key);
    MissesAllSlice(rules, 0, k, key);
    ApplyRulesMissed(rules[..k], key);
    ReplaceWhole(key, name);
    assert rules[k..][1..] == rules[k + 1..];
    MissesAllSlice(rules, k + 1, |rules|, name);
    ApplyRulesMissed(rules[k + 1..], name);
  }

  /** Missing every rule in a range is missing every rule of that slice. */
  lemma MissesAllSlice(rules: seq<Rule>, lo: nat, hi: nat, t: string)
    requires lo <= hi <= |rules|
    requires forall j :: lo <= j < hi ==> Misses(t, rules[j].find)
    ensures MissesAll(rules[lo..hi], t)
  {
    forall i | 0 <= i < hi - lo
      ensures Misses(t, rules[lo..hi][i].find)
    {
      assert rules[lo..hi][i] == rules[lo + i];
    }
  }

  /** A key made of rule `k`'s search string and a tail is renamed by rule `k`
      into rule `k + 1`'s search string, which rule `k + 1` renames in turn. */
  lemma ApplyRulesChain(rules: seq<Rule>, k: nat, tail: string)
    requires k + 1 < |rules|
    requires forall j :: 0 <= j < k ==> Misses(rules[k].find + tail, rules[j].find)
    requires Misses(tail, rules[k].find)
    requires rules[k].with + tail == rules[k + 1].find
    requires forall j :: k + 1 < j < |rules| ==> Misses(rules[k + 1].with, rules[j].find)
    ensures ApplyRules(rules, rules[k].find + tail) == rules[k + 1].with
  {
    var key := rules[k].find + tail;
    assert rules == rules[..k] + rules[k..];
    ApplyRulesAppend(rules[..k], rules[k..], key);
    ApplyRulesMissed(rules[..k], key);
    ReplaceHead(rules[k].find, tail, rules[k].with);
    MissesNotContains(tail, rules[k].find);
    assert rules[k..][1..] == rules[k + 1..];
    ApplyRulesRenamesKey(rules[k + 1..], 0);
  }
}

