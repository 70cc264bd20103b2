/** `String.Format` as the .NET Framework's `StringBuilder.AppendFormat`
    reads a composite format, for string arguments. Outside a hole, `{{` and
    `}}` each stand for one brace and any other character is copied. A hole
    `{index[,alignment][:format]}` is replaced by its argument: the index is
    decimal, spaces may follow it and the alignment, a negative alignment pads
    on the right and a positive one on the left, and the format part, which a
    string ignores, runs to the first lone `}`. Anything else, including an
    index past the arguments and a text that ends inside a hole, throws
    `FormatException`, which is `None` here. */
module CompositeFormat {
  import opened Outcomes
  import opened Numbers

  /** A text that holds neither brace: the formatter copies it verbatim. */
  predicate Braceless(s: string) {
    '{' !in s && '}' !in s
  }

  lemma BracelessSuffix(s: string, k: nat)
    requires Braceless(s) && k <= |s|
    ensures Braceless(s[k..])
  {
  }

  function DigitValue(c: char): nat
    requires IsDecimalDigit(c)
  {
    (c - '0') as nat
  }

  /** The formatter stops reading an index or a width once it reaches this. */
  const NumberLimit := 1000000

  /** Reads the digits of an index or a width onto `acc`, while the value is
      below `NumberLimit`: the value and the text from the first character
      not read. Running out of text here is an error. */
  function Number(s: string, acc: nat): (r: Option<(nat, string)>)
    ensures r.Some? ==> r.value.1 != [] && |r.value.1| <= |s|
    ensures r.Some? && Braceless(s) ==> Braceless(r.value.1)
    ensures r.Some? && s != [] && IsDecimalDigit(s[0]) && acc < NumberLimit ==> |r.value.1| < |s|
    decreases |s|
  {
    if s == [] then None
    else if IsDecimalDigit(s[0]) && acc < NumberLimit then Number(s[1..], acc * 10 + DigitValue(s[0]))
    else Some((acc, s))
  }

  /** The text after a run of spaces. */
  function SkipSpaces(s: string): (t: string)
    ensures |t| <= |s| && (Braceless(s) ==> Braceless(t))
    ensures t == [] || t[0] != ' '
    decreases |s|
  {
    if s != [] && s[0] == ' ' then SkipSpaces(s[1..]) else s
  }

  function Spaces(n: nat): (s: string)
    ensures |s| == n && forall i :: 0 <= i < n ==> s[i] == ' '
  {
    if n == 0 then [] else [' '] + Spaces(n - 1)
  }

  /** An argument padded with spaces to `width`: on the right when
      left-justified, on the left otherwise. */
  function Pad(s: string, width: nat, left: bool): (p: string)
    ensures |p| == if |s| < width then width else |s|
    ensures left ==> p[..|s|] == s && forall i :: |s| <= i < |p| ==> p[i] == ' '
    ensures !left ==> p[|p| - |s|..] == s && forall i :: 0 <= i < |p| - |s| ==> p[i] == ' '
  {
    if |s| >= width then s
    else if left then s + Spaces(width - |s|)
    else Spaces(width - |s|) + s
  }

  /** The alignment's width, `t` starting after the comma and its spaces: an
      optional `-` for left justification, then at least one digit. Gives
      the text after the width. */
  function Width(t: string): (r: Option<(bool, nat, string)>)
    ensures r.Some? ==> r.value.2 != [] && |r.value.2| <= |t|
    ensures r.Some? && Braceless(t) ==> Braceless(r.value.2)
  {
    if t == [] then None
    else
      var left := t[0] == '-';
      var u := if left then t[1..] else t;
      if u == [] || !IsDecimalDigit(u[0]) then None
      else
        match Number(u, 0)
        case None => None
        case Some((width, v)) => Some((left, width, v))
  }

  /** The optional alignment, `s` starting after the index and its spaces:
      whether the argument is left-justified, the width, and the text after
      the width. Without a comma the width is zero and nothing is read. */
  function Alignment(s: string): (r: Option<(bool, nat, string)>)
    ensures r.Some? ==> |r.value.2| <= |s|
    ensures r.Some? && Braceless(s) ==> Braceless(r.value.2)
    ensures r.Some? && s != [] && s[0] == ',' ==> r.value.2 != []
  {
    if s == [] || s[0] != ',' then Some((false, 0, s))
    else Width(SkipSpaces(s[1..]))
  }

  /** The format part, `s` starting after its colon: `{{` and `}}` are
      escapes and a lone `{` is an error. Gives the text from the closing
      brace on. */
  function FormatPart(s: string): (r: Option<string>)
    ensures r.Some? ==> r.value != [] && r.value[0] == '}' && |r.value| <= |s|
    decreases |s|
  {
    if s == [] then None
    else if s[0] == '{' then (if |s| > 1 && s[1] == '{' then FormatPart(s[2..]) else None)
    else if s[0] == '}' then (if |s| > 1 && s[1] == '}' then FormatPart(s[2..]) else Some(s))
    else FormatPart(s[1..])
  }

  /** The end of a hole, `u` starting after the alignment: spaces, the
      optional format part, then the closing brace. Gives the padded argument
      and the text after the brace. */
  function Close(u: string, arg: string, left: bool, width: nat): (r: Option<(string, string)>)
    ensures r.Some? ==> |r.value.1| < |u|
  {
    var v := SkipSpaces(u);
    if v == [] then None
    else
      var w := if v[0] == ':' then FormatPart(v[1..]) else Some(v);
      if w.None? || w.value[0] != '}' then None
      else Some((Pad(arg, width, left), w.value[1..]))
  }

  /** A hole once its index is read, `t` starting after the digits. */
  function HoleTail(t: string, arg: string): (r: Option<(string, string)>)
    ensures r.Some? ==> |r.value.1| < |t|
  {
    match Alignment(SkipSpaces(t))
    case None => None
    case Some((left, width, u)) => Close(u, arg, left, width)
  }

  /** A hole, `s` starting after its opening brace: the text that replaces
      it and the text after its closing brace. */
  function Hole(s: string, args: seq<string>): (r: Option<(string, string)>)
    ensures r.Some? ==> |r.value.1| < |s|
  {
    if s == [] || !IsDecimalDigit(s[0]) then None
    else
      match Number(s, 0)
      case None => None
      case Some((index, t)) => if index >= |args| then None else HoleTail(t, args[index])
  }

  function Prepend(p: string, r: Option<string>): Option<string> {
    match r
    case None => None
    case Some(s) => Some(p + s)
  }

  function Append(r: Option<string>, p: string): Option<string> {
    match r
    case None => None
    case Some(s) => Some(s + p)
  }

  /** `String.Format(f, args)`, or `None` where it throws. */
  function Format(f: string, args: seq<string>): (r: Option<string>)
    ensures Braceless(f) ==> r == Some(f)
    decreases |f|
  {
    if f == [] then Some([])
    else if f[0] == '}' then
      if |f| > 1 && f[1] == '}' then Prepend("}", Format(f[2..], args)) else None
    else if f[0] == '{' then
      if |f| > 1 && f[1] == '{' then Prepend("{", Format(f[2..], args))
      else
        match Hole(f[1..], args)
        case None => None
        case Some((text, rest)) => Prepend(text, Format(rest, args))
    else
      assert Braceless(f) ==> Braceless(f[1..]) by {
        if Braceless(f) { BracelessSuffix(f, 1); }
      }
      assert [f[0]] + f[1..] == f;
      Prepend([f[0]], Format(f[1..], args))
  }

  // ---------------------------------------------------------------------------
  // Literal text, escapes and single-digit holes
  // ---------------------------------------------------------------------------

  /** Brace-free text in front of a format is copied in front of its result. */
  lemma {:induction false} FormatLiteral(lit: string, rest: string, args: seq<string>)
    requires Braceless(lit)
    ensures Format(lit + rest, args) == Prepend(lit, Format(rest, args))
    decreases |lit|
  {
    if lit != [] {
      var f := lit + rest;
      assert f[0] == lit[0] && lit[0] in lit;
      assert f[1..] == lit[1..] + rest;
      BracelessSuffix(lit, 1);
      FormatLiteral(lit[1..], rest, args);
      assert Format(f, args) == Prepend([lit[0]], Prepend(lit[1..], Format(rest, args)));
      PrependPrepend([lit[0]], lit[1..], Format(rest, args));
      assert [lit[0]] + lit[1..] == lit;
    } else {
      assert lit + rest == rest;
      var r := Format(rest, args);
      if r.Some? {
        assert lit + r.value == r.value;
      }
    }
  }

  lemma PrependPrepend(p: string, q: string, r: Option<string>)
    ensures Prepend(p, Prepend(q, r)) == Prepend(p + q, r)
  {
    if r.Some? {
      assert p + (q + r.value) == p + q + r.value;
    }
  }

  lemma PrependAppend(p: string, r: Option<string>, b: string)
    ensures Append(Prepend(p, r), b) == Prepend(p, Append(r, b))
  {
    if r.Some? {
      assert p + r.value + b == p + (r.value + b);
    }
  }

  /** Every brace doubled: the format that stands for the text itself. */
  function Escape(s: string): (e: string)
    ensures |e| >= |s|
  {
    if s == [] then []
    else if s[0] == '{' || s[0] == '}' then [s[0], s[0]] + Escape(s[1..])
    else [s[0]] + Escape(s[1..])
  }

  /** Formatting an escaped text gives the text back, whatever the
      arguments. */
  lemma {:induction false} FormatEscape(s: string, args: seq<string>)
    ensures Format(Escape(s), args) == Some(s)
  {
    if s != [] {
      FormatEscape(s[1..], args);
      var e := Escape(s);
      if s[0] == '{' || s[0] == '}' {
        assert e[2..] == Escape(s[1..]);
      } else {
        assert e[1..] == Escape(s[1..]);
      }
      assert [s[0]] + s[1..] == s;
    }
  }

  /** The hole `{i}` for a one-digit index. */
  function HoleOf(i: nat): string
    requires i < 10
  {
    "{" + DecimalString(i) + "}"
  }

  /** A one-digit number followed by a non-digit reads as that digit. */
  lemma NumberOneDigit(c: char, t: string)
    requires IsDecimalDigit(c) && t != [] && !IsDecimalDigit(t[0])
    ensures Number([c] + t, 0) == Some((DigitValue(c), t))
  {
    assert ([c] + t)[1..] == t;
    assert Number(t, DigitValue(c)) == Some((DigitValue(c), t));
  }

  /** A hole that closes right after its index is replaced by the argument
      as it is. */
  lemma HoleTailClosed(rest: string, arg: string)
    ensures HoleTail("}" + rest, arg) == Some((arg, rest))
  {
    var t := "}" + rest;
    assert t[0] == '}';
    assert SkipSpaces(t) == t;
    assert Alignment(t) == Some((false, 0, t));
    assert Pad(arg, 0, false) == arg;
    assert t[1..] == rest;
    CloseAtBrace(t, arg);
  }

  lemma CloseAtBrace(t: string, arg: string)
    requires t != [] && t[0] == '}'
    ensures Close(t, arg, false, 0) == Some((arg, t[1..]))
  {
    assert SkipSpaces(t) == t;
    assert Pad(arg, 0, false) == arg;
  }

  /** The one-digit hole `{i}`: its index and what follows its brace. */
  lemma OneDigitHole(i: nat, rest: string)
    requires i < 10
    ensures var f := HoleOf(i) + rest;
            f[0] == '{' && f[1] != '{' && IsDecimalDigit(f[1]) &&
            Number(f[1..], 0) == Some((i, "}" + rest))
  {
    var d := DecimalString(i);
    assert d == ['0' + i as char];
    var f := "{" + d + "}" + rest;
    assert f[1..] == [d[0]] + ("}" + rest);
    NumberOneDigit(d[0], "}" + rest);
  }

  /** A hole naming argument `i` by one digit is replaced by that argument. */
  lemma FormatHole(i: nat, rest: string, args: seq<string>)
    requires i < 10 && i < |args|
    ensures Format(HoleOf(i) + rest, args) == Prepend(args[i], Format(rest, args))
  {
    var f := HoleOf(i) + rest;
    OneDigitHole(i, rest);
    HoleTailClosed(rest, args[i]);
    assert Hole(f[1..], args) == Some((args[i], rest));
    FormatAtHole(f, args);
  }

  /** A format that opens with a hole: the hole's text, then the rest
      formatted. */
  lemma FormatAtHole(f: string, args: seq<string>)
    requires |f| > 1 && f[0] == '{' && f[1] != '{'
    ensures Hole(f[1..], args).None? ==> Format(f, args).None?
    ensures Hole(f[1..], args).Some? ==>
              Format(f, args) == Prepend(Hole(f[1..], args).value.0, Format(Hole(f[1..], args).value.1, args))
  {
  }

  /** A one-digit hole followed by brace-free text: the argument and the
      text, then the rest formatted. */
  lemma FormatHoleLiteral(f: string, args: seq<string>, i: nat, lit: string, rest: string)
    requires i < 10 && i < |args| && Braceless(lit)
    requires f == HoleOf(i) + lit + rest
    ensures Format(f, args) == Prepend(args[i] + lit, Format(rest, args))
  {
    assert f == HoleOf(i) + (lit + rest);
    FormatHole(i, lit + rest, args);
    FormatLiteral(lit, rest, args);
    PrependPrepend(args[i], lit, Format(rest, args));
  }

  /** Two one-digit holes, each followed by brace-free text: both
      arguments and both texts, in order, then the rest formatted. */
  lemma FormatTwoHoles(f: string, args: seq<string>, i: nat, lit0: string, j: nat, lit1: string, rest: string)
    requires i < 10 && j < 10 && i < |args| && j < |args|
    requires Braceless(lit0) && Braceless(lit1)
    requires f == HoleOf(i) + lit0 + HoleOf(j) + lit1 + rest
    ensures Format(f, args) == Prepend(args[i] + lit0 + args[j] + lit1, Format(rest, args))
  {
    var g := HoleOf(j) + lit1 + rest;
    assert f == HoleOf(i) + lit0 + g;
    FormatHoleLiteral(f, args, i, lit0, g);
    FormatHoleLiteral(g, args, j, lit1, rest);
    PrependPrepend(args[i] + lit0, args[j] + lit1, Format(rest, args));
    assert args[i] + lit0 + (args[j] + lit1) == args[i] + lit0 + args[j] + lit1;
  }

  /** A single-digit index past the arguments throws. */
  lemma FormatHoleOutOfRange(i: nat, rest: string, args: seq<string>)
    requires |args| <= i < 10
    ensures Format(HoleOf(i) + rest, args) == None
  {
    var f := HoleOf(i) + rest;
    OneDigitHole(i, rest);
    assert Hole(f[1..], args) == None;
  }

  /** A `}` that is not doubled throws. */
  lemma {:induction false} FormatLoneClose(lit: string, rest: string, args: seq<string>)
    requires Braceless(lit)
    requires rest == [] || rest[0] != '}'
    ensures Format(lit + "}" + rest, args) == None
  {
    FormatLiteral(lit, "}" + rest, args);
    assert lit + "}" + rest == lit + ("}" + rest);
  }

  /** A `{` that is neither doubled nor followed by a digit throws. */
  lemma {:induction false} FormatLoneOpen(lit: string, rest: string, args: seq<string>)
    requires Braceless(lit)
    requires rest == [] || (rest[0] != '{' && !IsDecimalDigit(rest[0]))
    ensures Format(lit + "{" + rest, args) == None
  {
    FormatLiteral(lit, "{" + rest, args);
    assert lit + "{" + rest == lit + ("{" + rest);
    assert ("{" + rest)[1..] == rest;
  }

  // ---------------------------------------------------------------------------
  // Appending brace-free text
  // ---------------------------------------------------------------------------

  lemma {:induction false} SkipSpacesAppend(s: string, b: string)
    ensures SkipSpaces(s + b) == if SkipSpaces(s) != [] then SkipSpaces(s) + b else SkipSpaces(b)
    decreases |s|
  {
    if s != [] && s[0] == ' ' {
      assert (s + b)[1..] == s[1..] + b;
      SkipSpacesAppend(s[1..], b);
    } else if s == [] {
      assert s + b == b;
    }
  }

  /** The number a text starts with is unchanged by brace-free text after
      it; where the text ran out, what is left is brace-free. */
  lemma {:induction false} NumberAppend(s: string, acc: nat, b: string)
    requires Braceless(b)
    ensures Number(s, acc).Some? ==> Number(s + b, acc) == Some((Number(s, acc).value.0, Number(s, acc).value.1 + b))
    ensures Number(s, acc).None? && Number(s + b, acc).Some? ==> Braceless(Number(s + b, acc).value.1)
    decreases |s|
  {
    if s == [] {
      assert s + b == b;
      var r := Number(b, acc);
      if r.Some? {
      }
    } else {
      assert (s + b)[0] == s[0];
      if IsDecimalDigit(s[0]) && acc < NumberLimit {
        assert (s + b)[1..] == s[1..] + b;
        NumberAppend(s[1..], acc * 10 + DigitValue(s[0]), b);
      }
    }
  }

  lemma {:induction false} AlignmentBraceless(s: string)
    requires Braceless(s)
    ensures Alignment(s).Some? ==> Braceless(Alignment(s).value.2)
  {
    var r := Alignment(s);
    if r.Some? {
    }
  }

  /** A width that ends before the text does is unchanged by brace-free text
      after it; otherwise what is left is brace-free. */
  lemma WidthAppend(t: string, b: string)
    requires Braceless(b) && t != []
    ensures Width(t).Some? ==> Width(t + b) == Some((Width(t).value.0, Width(t).value.1, Width(t).value.2 + b))
    ensures Width(t).None? && Width(t + b).Some? ==> Braceless(Width(t + b).value.2)
  {
    var tb := t + b;
    assert tb[0] == t[0];
    var u := if t[0] == '-' then t[1..] else t;
    var ub := if t[0] == '-' then tb[1..] else tb;
    assert ub == u + b;
    if u == [] {
      assert ub == b;
      var r := Number(b, 0);
      if r.Some? {
      }
    } else {
      assert ub[0] == u[0];
      NumberAppend(u, 0, b);
    }
  }

  /** An alignment that ends before the text does is unchanged by brace-free
      text after it; otherwise what is left is brace-free. */
  lemma {:induction false} AlignmentAppend(s: string, b: string)
    requires Braceless(b)
    ensures Alignment(s).Some? && Alignment(s).value.2 != [] ==>
              Alignment(s + b) == Some((Alignment(s).value.0, Alignment(s).value.1, Alignment(s).value.2 + b))
    ensures !(Alignment(s).Some? && Alignment(s).value.2 != []) && Alignment(s + b).Some? ==>
              Braceless(Alignment(s + b).value.2)
  {
    if s == [] {
      assert s + b == b;
      AlignmentBraceless(b);
    } else if s[0] == ',' {
      CommaAppend(s, b);
    } else {
      assert (s + b)[0] == s[0];
    }
  }

  lemma {:induction false} CommaAppend(s: string, b: string)
    requires Braceless(b) && s != [] && s[0] == ','
    ensures Width(SkipSpaces(s[1..])).Some? ==>
              Width(SkipSpaces((s + b)[1..])) == Some((Width(SkipSpaces(s[1..])).value.0,
                                                       Width(SkipSpaces(s[1..])).value.1,
                                                       Width(SkipSpaces(s[1..])).value.2 + b))
    ensures Width(SkipSpaces(s[1..])).None? && Width(SkipSpaces((s + b)[1..])).Some? ==>
              Braceless(Width(SkipSpaces((s + b)[1..])).value.2)
  {
    assert (s + b)[1..] == s[1..] + b;
    SkipSpacesAppend(s[1..], b);
    var t := SkipSpaces(s[1..]);
    if t == [] {
      var t' := SkipSpaces(b);
      var r := Width(t');
      if r.Some? {
      }
    } else {
      WidthAppend(t, b);
    }
  }

  lemma {:induction false} FormatPartBraceless(s: string)
    requires Braceless(s)
    ensures FormatPart(s).None?
    decreases |s|
  {
    if s != [] {
      BracelessSuffix(s, 1);
      FormatPartBraceless(s[1..]);
    }
  }

  /** A format part that closes is unchanged by brace-free text after it; one
      that does not cannot be closed by it. */
  lemma {:induction false} FormatPartAppend(s: string, b: string)
    requires Braceless(b)
    ensures FormatPart(s + b) == Append(FormatPart(s), b)
    decreases |s|
  {
    if s == [] {
      assert s + b == b;
      FormatPartBraceless(b);
    } else {
      var sb := s + b;
      assert sb[0] == s[0];
      if |s| == 1 {
        assert sb[1..] == b;
        if b != [] {
          assert sb[1] == b[0];
          assert b[0] in b;
        }
        if s[0] != '{' && s[0] != '}' {
          FormatPartBraceless(b);
        }
      } else {
        assert sb[1] == s[1];
        assert sb[2..] == s[2..] + b;
        assert sb[1..] == s[1..] + b;
        FormatPartAppend(s[2..], b);
        FormatPartAppend(s[1..], b);
      }
    }
  }

  lemma {:induction false} CloseBraceless(u: string, arg: string, left: bool, width: nat)
    requires Braceless(u)
    ensures Close(u, arg, left, width).None?
  {
    var v := SkipSpaces(u);
    if v != [] {
      assert v[0] in v;
      if v[0] == ':' {
        BracelessSuffix(v, 1);
        FormatPartBraceless(v[1..]);
      }
    }
  }

  lemma {:induction false} CloseAppend(u: string, arg: string, left: bool, width: nat, b: string)
    requires Braceless(b)
    ensures Close(u, arg, left, width).None? ==> Close(u + b, arg, left, width).None?
    ensures Close(u, arg, left, width).Some? ==>
              Close(u + b, arg, left, width) ==
              Some((Close(u, arg, left, width).value.0, Close(u, arg, left, width).value.1 + b))
  {
    SkipSpacesAppend(u, b);
    var v := SkipSpaces(u);
    if v == [] {
      assert Close(u + b, arg, left, width) == Close(b, arg, left, width);
      CloseBraceless(b, arg, left, width);
    } else {
      var vb := v + b;
      assert vb[0] == v[0];
      if v[0] == ':' {
        assert vb[1..] == v[1..] + b;
        FormatPartAppend(v[1..], b);
        var w := FormatPart(v[1..]);
        if w.Some? {
          assert (w.value + b)[1..] == w.value[1..] + b;
        }
      } else {
        assert vb[1..] == v[1..] + b;
      }
    }
  }

  lemma {:induction false} HoleTailBraceless(t: string, arg: string)
    requires Braceless(t)
    ensures HoleTail(t, arg).None?
  {
    var t0 := SkipSpaces(t);
    AlignmentBraceless(t0);
    match Alignment(t0)
    case None =>
    case Some((left, width, u)) => CloseBraceless(u, arg, left, width);
  }

  lemma {:induction false} HoleTailAppend(t: string, arg: string, b: string)
    requires Braceless(b)
    ensures HoleTail(t, arg).None? ==> HoleTail(t + b, arg).None?
    ensures HoleTail(t, arg).Some? ==>
              HoleTail(t + b, arg) == Some((HoleTail(t, arg).value.0, HoleTail(t, arg).value.1 + b))
  {
    SkipSpacesAppend(t, b);
    var t0 := SkipSpaces(t);
    if t0 == [] {
      assert HoleTail(t + b, arg) == HoleTail(b, arg);
      HoleTailBraceless(b, arg);
      assert Alignment(t0) == Some((false, 0, []));
      assert Close([], arg, false, 0).None?;
    } else {
      AlignmentAppend(t0, b);
      var a := Alignment(t0);
      if a.Some? && a.value.2 != [] {
        CloseAppend(a.value.2, arg, a.value.0, a.value.1, b);
      } else {
        var ab := Alignment(t0 + b);
        if ab.Some? {
          CloseBraceless(ab.value.2, arg, ab.value.0, ab.value.1);
        }
      }
    }
  }

  lemma {:induction false} HoleBraceless(s: string, args: seq<string>)
    requires Braceless(s)
    ensures Hole(s, args).None?
  {
    if s != [] && IsDecimalDigit(s[0]) {
      var n := Number(s, 0);
      if n.Some? {
        if n.value.0 < |args| {
          HoleTailBraceless(n.value.1, args[n.value.0]);
        }
      }
    }
  }

  /** A hole that closes is unchanged by brace-free text after it; one that
      does not cannot be closed by it. */
  lemma {:induction false} HoleAppend(s: string, args: seq<string>, b: string)
    requires Braceless(b)
    ensures Hole(s, args).None? ==> Hole(s + b, args).None?
    ensures Hole(s, args).Some? ==> Hole(s + b, args) == Some((Hole(s, args).value.0, Hole(s, args).value.1 + b))
  {
    if s == [] {
      assert s + b == b;
      HoleBraceless(b, args);
    } else {
      assert (s + b)[0] == s[0];
      if IsDecimalDigit(s[0]) {
        IndexAppend(s, args, b);
      }
    }
  }

  lemma {:induction false} IndexAppend(s: string, args: seq<string>, b: string)
    requires Braceless(b) && s != [] && IsDecimalDigit(s[0])
    ensures Hole(s, args).None? ==> Hole(s + b, args).None?
    ensures Hole(s, args).Some? ==> Hole(s + b, args) == Some((Hole(s, args).value.0, Hole(s, args).value.1 + b))
  {
    assert (s + b)[0] == s[0];
    NumberAppend(s, 0, b);
    var n := Number(s, 0);
    var nb := Number(s + b, 0);
    if n.Some? {
      assert nb == Some((n.value.0, n.value.1 + b));
      if n.value.0 < |args| {
        HoleTailAppend(n.value.1, args[n.value.0], b);
      }
    } else if nb.Some? && nb.value.0 < |args| {
      HoleTailBraceless(nb.value.1, args[nb.value.0]);
    }
  }

  /** Formatting distributes over brace-free text at the end: it is copied
      after the result, and where the format throws, it still throws. */
  lemma {:induction false} FormatAppend(a: string, b: string, args: seq<string>)
    requires Braceless(b)
    ensures Format(a + b, args) == Append(Format(a, args), b)
    decreases |a|
  {
    var ab := a + b;
    if a == [] {
      assert ab == b;
    } else {
      assert ab[0] == a[0];
      if |a| == 1 {
        assert ab[1..] == b;
        if b != [] {
          assert ab[1] == b[0];
          assert b[0] in b;
        }
      } else {
        assert ab[1] == a[1];
        assert ab[2..] == a[2..] + b;
      }
      assert ab[1..] == a[1..] + b;
      if a[0] == '}' {
        if |a| > 1 && a[1] == '}' {
          FormatAppend(a[2..], b, args);
          PrependAppend("}", Format(a[2..], args), b);
        }
      } else if a[0] == '{' {
        if |a| > 1 && a[1] == '{' {
          FormatAppend(a[2..], b, args);
          PrependAppend("{", Format(a[2..], args), b);
        } else {
          HoleAppend(a[1..], args, b);
          var h := Hole(a[1..], args);
          if h.Some? {
            FormatAppend(h.value.1, b, args);
            PrependAppend(h.value.0, Format(h.value.1, args), b);
          }
        }
      } else {
        FormatAppend(a[1..], b, args);
        PrependAppend([a[0]], Format(a[1..], args), b);
      }
    }
  }
}
