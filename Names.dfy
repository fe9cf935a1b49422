/** Normalisation of block names into graph node identities.

    The graph builder passes every name through four `re.sub`/`replace` steps:
    drop newlines, collapse whitespace runs to one space, turn `"` into `'`,
    and replace the argument list with the placeholder `(...)`. The list of
    local blocks is normalised by the last step alone. */
module Names {
  import opened Text

  const Placeholder: string := "(...)"

  /** `s.replace("\n", "")`. */
  function DropNewlines(s: string): (r: string)
    ensures '\n' !in r
    ensures forall c :: c in r <==> c in s && c != '\n'
    ensures '\n' !in s ==> r == s
    ensures |r| == |s| - multiset(s)['\n']
    decreases |s|
  {
    if |s| == 0 then ""
    else
      assert s == [s[0]] + s[1..];
      if s[0] == '\n' then DropNewlines(s[1..])
      else [s[0]] + DropNewlines(s[1..])
  }

  /** The newline step works character by character: it distributes over concatenation. */
  lemma {:induction false} DropNewlinesConcat(a: string, b: string)
    ensures DropNewlines(a + b) == DropNewlines(a) + DropNewlines(b)
    decreases |a|
  {
    if |a| == 0 {
      assert a + b == b;
    } else {
      assert (a + b)[0] == a[0] && (a + b)[1..] == a[1..] + b;
      DropNewlinesConcat(a[1..], b);
      var x, y := DropNewlines(a[1..]), DropNewlines(b);
      assert [a[0]] + (x + y) == ([a[0]] + x) + y;
    }
  }

  /** Every whitespace character is a plain space and no two are adjacent. */
  ghost predicate CanonicalSpaces(s: string)
  {
    && (forall k :: 0 <= k < |s| && IsSpace(s[k]) ==> s[k] == ' ')
    && (forall i, j :: 0 <= i < j < |s| && j == i + 1 ==> s[i] != ' ' || s[j] != ' ')
  }

  /** `re.sub('\s+', ' ', s)`: each maximal run of whitespace becomes one space. */
  function CollapseSpaces(s: string): (r: string)
    ensures CanonicalSpaces(r)
    ensures |s| > 0 && !IsSpace(s[0]) ==> |r| > 0 && r[0] == s[0]
    decreases |s|
  {
    if |s| == 0 then ""
    else if IsSpace(s[0]) then
      var t := LStrip(s);
      var x := CollapseSpaces(t);
      CanonicalJoin(" ", x);
      " " + x
    else
      var x := CollapseSpaces(s[1..]);
      CanonicalJoin([s[0]], x);
      [s[0]] + x
  }

  /** The collapse changes whitespace only: every other character stays, in order. */
  lemma {:induction false} CollapseSpacesKeepsText(s: string)
    ensures NonSpaces(CollapseSpaces(s)) == NonSpaces(s)
    decreases |s|
  {
    if |s| > 0 {
      if IsSpace(s[0]) {
        var x := CollapseSpaces(LStrip(s));
        CollapseSpacesKeepsText(LStrip(s));
        NonSpacesLStrip(s);
        CollapseSpacesAtSpace(s);
        assert (" " + x)[0] == ' ' && (" " + x)[1..] == x;
      } else {
        var x := CollapseSpaces(s[1..]);
        CollapseSpacesKeepsText(s[1..]);
        assert s == [s[0]] + s[1..];
        CollapseSpacesAtChar(s[0], s[1..]);
        assert ([s[0]] + x)[0] == s[0] && ([s[0]] + x)[1..] == x;
      }
    }
  }

  /** A whitespace run between two non-space boundaries collapses to exactly
      one space, whatever its length, and the text on either side collapses on
      its own; with `a` or `b` empty it is a leading or a trailing run. */
  lemma CollapseSpacesRun(a: string, w: string, b: string)
    requires |w| > 0 && forall k :: 0 <= k < |w| ==> IsSpace(w[k])
    requires a == [] || !IsSpace(a[|a| - 1])
    requires b == [] || !IsSpace(b[0])
    ensures CollapseSpaces(a + w + b) == CollapseSpaces(a) + " " + CollapseSpaces(b)
  {
    var v := w + b;
    LStripSpaces(w, b);
    assert v[0] == w[0];
    CollapseSpacesAtSpace(v);
    CollapseBefore(a, v, CollapseSpaces(b));
    Assoc(a, w, b);
  }

  /** The collapse of `a` is not disturbed by a run that follows it. */
  lemma {:induction false} CollapseBefore(a: string, v: string, y: string)
    requires a == [] || !IsSpace(a[|a| - 1])
    requires CollapseSpaces(v) == " " + y
    ensures CollapseSpaces(a + v) == CollapseSpaces(a) + " " + y
    decreases |a|
  {
    if |a| == 0 {
      RunAfterNothing(a, v, y);
    } else if !IsSpace(a[0]) {
      CollapseBefore(a[1..], v, y);
      RunAfterChar(a, v, y);
    } else {
      LStripKeepsLast(a);
      CollapseBefore(LStrip(a), v, y);
      RunAfterSpace(a, v, y);
    }
  }

  lemma RunAfterNothing(a: string, v: string, y: string)
    requires a == [] && CollapseSpaces(v) == " " + y
    ensures CollapseSpaces(a + v) == CollapseSpaces(a) + " " + y
  {
    EmptyConcat(v);
    EmptyConcat(" ");
    assert CollapseSpaces(a) == [];
  }

  lemma LStripKeepsLast(a: string)
    requires |a| > 0 && IsSpace(a[0]) && !IsSpace(a[|a| - 1])
    ensures 0 < |LStrip(a)| < |a| && LStrip(a)[|LStrip(a)| - 1] == a[|a| - 1]
  {
  }

  lemma RunAfterChar(a: string, v: string, y: string)
    requires |a| > 0 && !IsSpace(a[0])
    requires CollapseSpaces(a[1..] + v) == CollapseSpaces(a[1..]) + " " + y
    ensures CollapseSpaces(a + v) == CollapseSpaces(a) + " " + y
  {
    ConsConcat(a, v);
    CollapseSpacesAtFirst(a + v);
    CollapseSpacesAtFirst(a);
    var x := CollapseSpaces(a[1..]);
    Assoc([a[0]], x, " ");
    Assoc([a[0]], x + " ", y);
  }

  lemma CollapseSpacesAtFirst(s: string)
    requires |s| > 0 && !IsSpace(s[0])
    ensures CollapseSpaces(s) == [s[0]] + CollapseSpaces(s[1..])
  {
  }

  lemma RunAfterSpace(a: string, v: string, y: string)
    requires |a| > 0 && IsSpace(a[0]) && LStrip(a) != []
    requires CollapseSpaces(LStrip(a) + v) == CollapseSpaces(LStrip(a)) + " " + y
    ensures CollapseSpaces(a + v) == CollapseSpaces(a) + " " + y
  {
    var t := LStrip(a);
    LStripConcat(a, v);
    assert (a + v)[0] == a[0];
    CollapseSpacesAtSpace(a + v);
    CollapseSpacesAtSpace(a);
    var x := CollapseSpaces(t);
    Assoc(" ", x, " ");
    Assoc(" ", x + " ", y);
  }

  lemma CollapseSpacesAtChar(c: char, x: string)
    requires !IsSpace(c)
    ensures CollapseSpaces([c] + x) == [c] + CollapseSpaces(x)
  {
    assert ([c] + x)[0] == c && ([c] + x)[1..] == x;
  }

  lemma CollapseSpacesAtSpace(s: string)
    requires |s| > 0 && IsSpace(s[0])
    ensures CollapseSpaces(s) == " " + CollapseSpaces(LStrip(s))
  {
  }

  /** Leading whitespace up to a non-space character is stripped exactly. */
  lemma {:induction false} LStripSpaces(w: string, b: string)
    requires forall k :: 0 <= k < |w| ==> IsSpace(w[k])
    requires b == [] || !IsSpace(b[0])
    ensures LStrip(w + b) == b
    decreases |w|
  {
    if |w| == 0 {
      assert w + b == b;
    } else {
      assert (w + b)[0] == w[0] && (w + b)[1..] == w[1..] + b;
      LStripSpaces(w[1..], b);
    }
  }

  /** Text after a non-space character is untouched by `lstrip`. */
  lemma {:induction false} LStripConcat(x: string, y: string)
    requires LStrip(x) != []
    ensures LStrip(x + y) == LStrip(x) + y
    decreases |x|
  {
    assert (x + y)[0] == x[0];
    if IsSpace(x[0]) {
      assert (x + y)[1..] == x[1..] + y;
      LStripConcat(x[1..], y);
    }
  }

  /** A string whose whitespace is already canonical is left as it is. */
  lemma {:induction false} CollapseSpacesFixpoint(s: string)
    requires CanonicalSpaces(s)
    ensures CollapseSpaces(s) == s
    decreases |s|
  {
    if |s| > 0 {
      CanonicalSlice(s, 1, |s|);
      if IsSpace(s[0]) {
        LStripOne(s);
      }
      CollapseSpacesFixpoint(s[1..]);
    }
  }

  lemma LStripOne(s: string)
    requires |s| > 0 && IsSpace(s[0]) && (|s| > 1 ==> !IsSpace(s[1]))
    ensures LStrip(s) == s[1..]
  {
    var t := LStrip(s);
    if |s| > 1 {
      assert !IsSpace(s[1]);
    }
  }

  /** The last non-whitespace character survives the collapse. */
  lemma {:induction false} CollapseSpacesLast(s: string)
    requires |s| > 0 && !IsSpace(s[|s| - 1])
    ensures |CollapseSpaces(s)| > 0 && CollapseSpaces(s)[|CollapseSpaces(s)| - 1] == s[|s| - 1]
    decreases |s|
  {
    if |s| > 1 {
      if IsSpace(s[0]) {
        var t := LStrip(s);
        assert |t| > 0 by {
          assert !IsSpace(s[|s| - 1]);
        }
        CollapseSpacesLast(t);
      } else {
        CollapseSpacesLast(s[1..]);
      }
    }
  }

  /** `re.sub('"', "'", s)`. */
  function SwapQuotes(s: string): (r: string)
    ensures |r| == |s| && '"' !in r
    ensures forall k :: 0 <= k < |s| ==> r[k] == (if s[k] == '"' then '\'' else s[k])
  {
    seq(|s|, k requires 0 <= k < |s| => if s[k] == '"' then '\'' else s[k])
  }

  /** `re.sub("\(.*\)", "(...)", s)` on one line: the span from the first `(`
      to the last `)` becomes `(...)`, when such a span exists. */
  function ReplaceArgsInLine(s: string): (r: string)
  {
    var f := IndexOf(s, '(');
    var l := LastIndexOf(s, ')');
    if f < l then s[..f] + Placeholder + s[l + 1..] else s
  }

  /** `re.sub("\(.*\)", "(...)", s)`: `.` never matches a newline, so the
      substitution works on each line of `s` separately. */
  function ReplaceArgs(s: string): (r: string)
    decreases |s|
  {
    var k := IndexOf(s, '\n');
    if k < |s| then ReplaceArgsInLine(s[..k]) + "\n" + ReplaceArgs(s[k + 1..])
    else ReplaceArgsInLine(s)
  }

  /** The identity used for graph nodes. The newline step leaves a single
      line, so the argument step works on it as one line; `NormalizeIsChain`
      shows this is the graph builder's four-step chain. */
  function Normalize(s: string): string
  {
    ReplaceArgsInLine(SwapQuotes(CollapseSpaces(DropNewlines(s))))
  }

  /** The identity used for the list of local blocks (the argument step only). */
  function LocalId(s: string): string
  {
    ReplaceArgs(s)
  }

  lemma NoNewlineReplaceArgs(s: string)
    requires '\n' !in s
    ensures ReplaceArgs(s) == ReplaceArgsInLine(s)
  {
    IndexOfIs(s, '\n', |s|);
  }

  /** On one line the argument replacement keeps everything before the first `(`,
      and a name that ends with its closing `)` comes out ending in `(...)`. */
  lemma ReplaceArgsShape(s: string)
    requires '\n' !in s
    ensures var f := IndexOf(s, '(');
            var r := ReplaceArgs(s);
            f <= |r| && r[..f] == s[..f] && '(' !in r[..f]
    ensures |s| > 0 && s[|s| - 1] == ')' && '(' in s ==>
              var f := IndexOf(s, '(');
              ReplaceArgs(s) == s[..f] + Placeholder
  {
    NoNewlineReplaceArgs(s);
    ReplaceArgsInLineShape(s);
  }

  lemma ReplaceArgsInLineShape(s: string)
    ensures var f := IndexOf(s, '(');
            var r := ReplaceArgsInLine(s);
            f <= |r| && r[..f] == s[..f] && '(' !in r[..f]
    ensures |s| > 0 && s[|s| - 1] == ')' && '(' in s ==>
              var f := IndexOf(s, '(');
              ReplaceArgsInLine(s) == s[..f] + Placeholder
  {
    var f := IndexOf(s, '(');
    var l := LastIndexOf(s, ')');
    if f < l {
      Assoc(s[..f], Placeholder, s[l + 1..]);
      PrefixOfConcat(s[..f], Placeholder + s[l + 1..]);
    }
    if |s| > 0 && s[|s| - 1] == ')' && '(' in s {
      ReplaceArgsInCall(s);
    }
  }

  /** On a line ending in `)`, the span runs from the first `(` to the end. */
  lemma ReplaceArgsInCall(s: string)
    requires |s| > 0 && s[|s| - 1] == ')' && '(' in s
    ensures ReplaceArgsInLine(s) == s[..IndexOf(s, '(')] + Placeholder
  {
    var f := IndexOf(s, '(');
    var l := LastIndexOf(s, ')');
    IndexOfFound(s, '(');
    OpenBeforeClose(s, f);
    var p := s[..f] + Placeholder;
    assert ReplaceArgsInLine(s) == p + s[l + 1..];
    assert s[l + 1..] == [];
    ConcatEmpty(p);
  }

  lemma IndexOfFound(s: string, c: char)
    requires c in s
    ensures IndexOf(s, c) < |s| && s[IndexOf(s, c)] == c
  {
  }

  lemma OpenBeforeClose(s: string, f: nat)
    requires f < |s| && s[f] == '(' && s[|s| - 1] == ')'
    ensures f < LastIndexOf(s, ')') == |s| - 1
  {
  }

  /** Replacing the arguments of a line twice is the same as replacing them once. */
  lemma {:induction false} ReplaceArgsInLineIdempotent(s: string)
    ensures ReplaceArgsInLine(ReplaceArgsInLine(s)) == ReplaceArgsInLine(s)
  {
    var f := IndexOf(s, '(');
    var l := LastIndexOf(s, ')');
    var r := ReplaceArgsInLine(s);
    if f < l {
      var p, q := s[..f], s[l + 1..];
      assert r == p + Placeholder + q;
      PlaceholderIsFixed(p, q);
    } else {
      assert r == s;
    }
  }

  lemma PlaceholderIsFixed(p: string, q: string)
    requires '(' !in p && ')' !in q
    ensures ReplaceArgsInLine(p + Placeholder + q) == p + Placeholder + q
  {
    var t := p + Placeholder + q;
    var f := |p|;
    assert t[..f] == p;
    assert t[f] == '(';
    IndexOfIs(t, '(', f);
    assert t[f + 5..] == q;
    assert t[f + 4] == ')';
    LastIndexOfIs(t, ')', f + 4);
    assert t[..f] + Placeholder + t[f + 5..] == t;
  }

  lemma {:induction false} NoNewlineAfterReplaceInLine(s: string)
    requires '\n' !in s
    ensures '\n' !in ReplaceArgsInLine(s)
  {
    var f := IndexOf(s, '(');
    var l := LastIndexOf(s, ')');
    if f < l {
      assert forall c :: c in s[..f] ==> c in s;
      assert forall c :: c in s[l + 1..] ==> c in s;
    }
  }

  /** The argument replacement is idempotent on every string, newlines included. */
  lemma {:induction false} ReplaceArgsIdempotent(s: string)
    ensures ReplaceArgs(ReplaceArgs(s)) == ReplaceArgs(s)
    decreases |s|
  {
    var k := IndexOf(s, '\n');
    if k < |s| {
      var head := ReplaceArgsInLine(s[..k]);
      var tail := ReplaceArgs(s[k + 1..]);
      assert ReplaceArgs(s) == head + "\n" + tail;
      NoNewlineAfterReplaceInLine(s[..k]);
      ReplaceArgsLines(head, tail);
      ReplaceArgsInLineIdempotent(s[..k]);
      ReplaceArgsIdempotent(s[k + 1..]);
    } else {
      var r := ReplaceArgsInLine(s);
      NoNewlineAfterReplaceInLine(s);
      NoNewlineReplaceArgs(r);
      ReplaceArgsInLineIdempotent(s);
    }
  }

  /** The argument replacement keeps the line structure: as many newlines come out as go in. */
  lemma {:induction false} ReplaceArgsKeepsLines(s: string)
    ensures multiset(ReplaceArgs(s))['\n'] == multiset(s)['\n']
    decreases |s|
  {
    var k := IndexOf(s, '\n');
    if k < |s| {
      var head, tail := s[..k], s[k + 1..];
      assert s == head + [s[k]] + tail;
      NoNewlineAfterReplaceInLine(head);
      ReplaceArgsKeepsLines(tail);
      assert ReplaceArgs(s) == ReplaceArgsInLine(head) + "\n" + ReplaceArgs(tail);
    } else {
      assert s[..k] == s;
      NoNewlineAfterReplaceInLine(s);
    }
  }

  /** A first line without a newline is replaced on its own. */
  lemma ReplaceArgsLines(head: string, tail: string)
    requires '\n' !in head
    ensures ReplaceArgs(head + "\n" + tail) == ReplaceArgsInLine(head) + "\n" + ReplaceArgs(tail)
  {
    var r := head + "\n" + tail;
    assert r[..|head|] == head && r[|head|] == '\n' && r[|head| + 1..] == tail;
    IndexOfIs(r, '\n', |head|);
  }

  lemma CanonicalSlice(s: string, i: nat, j: nat)
    requires CanonicalSpaces(s) && i <= j <= |s|
    ensures CanonicalSpaces(s[i..j])
  {
    assert forall k :: 0 <= k < j - i ==> s[i..j][k] == s[i + k];
  }

  lemma CanonicalJoin(a: string, b: string)
    requires CanonicalSpaces(a) && CanonicalSpaces(b)
    requires a == [] || b == [] || !IsSpace(a[|a| - 1]) || !IsSpace(b[0])
    ensures CanonicalSpaces(a + b)
  {
    var s := a + b;
    forall k | 0 <= k < |s| && IsSpace(s[k]) ensures s[k] == ' ' {
      if k < |a| {
        assert s[k] == a[k];
      } else {
        assert s[k] == b[k - |a|];
      }
    }
    forall i, j | 0 <= i < j < |s| && j == i + 1 ensures s[i] != ' ' || s[j] != ' ' {
      if j < |a| {
        assert s[i] == a[i] && s[j] == a[j];
      } else if i < |a| {
        assert s[i] == a[|a| - 1] && s[j] == b[0];
      } else {
        assert s[i] == b[i - |a|] && s[j] == b[j - |a|];
      }
    }
  }

  lemma CanonicalHasNoNewline(s: string)
    requires CanonicalSpaces(s)
    ensures '\n' !in s
  {
    if '\n' in s {
      var k :| 0 <= k < |s| && s[k] == '\n';
      assert IsSpace(s[k]);
    }
  }

  lemma SwapQuotesKeepsSpaces(b: string)
    requires CanonicalSpaces(b)
    ensures CanonicalSpaces(SwapQuotes(b))
  {
    var c := SwapQuotes(b);
    forall k | 0 <= k < |c| && IsSpace(c[k]) ensures c[k] == ' ' {
      assert c[k] == b[k];
    }
    forall i, j | 0 <= i < j < |c| && j == i + 1 ensures c[i] != ' ' || c[j] != ' ' {
      assert c[i] == ' ' ==> b[i] == ' ';
      assert c[j] == ' ' ==> b[j] == ' ';
    }
  }

  lemma SwapQuotesFixed(t: string)
    requires '"' !in t
    ensures SwapQuotes(t) == t
  {
    forall k | 0 <= k < |t| ensures SwapQuotes(t)[k] == t[k] {
      assert t[k] in t;
    }
  }

  /** The argument replacement keeps a line newline-free, quote-free and canonically spaced. */
  lemma ReplaceArgsInLineKeeps(c: string)
    requires CanonicalSpaces(c) && '"' !in c && '\n' !in c
    ensures var t := ReplaceArgsInLine(c); CanonicalSpaces(t) && '"' !in t && '\n' !in t
  {
    var f := IndexOf(c, '(');
    var l := LastIndexOf(c, ')');
    var t := ReplaceArgsInLine(c);
    if f < l {
      var p, q := c[..f], c[l + 1..];
      assert t == p + Placeholder + q;
      SpliceKeepsSpaces(c, f, l);
      assert forall ch :: ch in p ==> ch in c;
      assert forall ch :: ch in q ==> ch in c;
      SpliceKeepsChars(c, p, q);
    }
  }

  lemma SpliceKeepsSpaces(c: string, f: nat, l: nat)
    requires CanonicalSpaces(c) && f < l < |c|
    ensures CanonicalSpaces(c[..f] + Placeholder + c[l + 1..])
  {
    CanonicalSlice(c, 0, f);
    CanonicalSlice(c, l + 1, |c|);
    assert CanonicalSpaces(Placeholder);
    CanonicalJoin(c[..f], Placeholder);
    CanonicalJoin(c[..f] + Placeholder, c[l + 1..]);
  }

  lemma SpliceKeepsChars(c: string, p: string, q: string)
    requires '"' !in c && '\n' !in c
    requires forall ch :: ch in p ==> ch in c
    requires forall ch :: ch in q ==> ch in c
    ensures '"' !in p + Placeholder + q && '\n' !in p + Placeholder + q
  {
  }

  /** Normalising a normalised name changes nothing: every step of the chain
      leaves the chain's result as it is. */
  lemma {:induction false} NormalizeIdempotent(s: string)
    ensures Normalize(Normalize(s)) == Normalize(s)
  {
    var a := DropNewlines(s);
    var b := CollapseSpaces(a);
    var c := SwapQuotes(b);
    SwapQuotesKeepsSpaces(b);
    CanonicalHasNoNewline(c);
    var t := ReplaceArgsInLine(c);
    ReplaceArgsInLineKeeps(c);
    assert t == Normalize(s);
    assert DropNewlines(t) == t;
    CollapseSpacesFixpoint(t);
    SwapQuotesFixed(t);
    ReplaceArgsInLineIdempotent(c);
  }

  /** A name that ends with its closing `)` and holds an opening `(` is
      identified by what precedes its first `(` followed by `(...)`: the
      identifier ends in `(...)` and has no other `(`. */
  lemma NormalizeEndsWithPlaceholder(s: string)
    requires |s| > 0 && s[|s| - 1] == ')' && '(' in s
    ensures var n := Normalize(s); |n| >= 5 && n[|n| - 5..] == Placeholder && '(' !in n[..|n| - 5]
  {
    var a := DropNewlines(s);
    DropNewlinesKeepsCall(s);
    var b := CollapseSpaces(a);
    CollapseKeepsCall(a);
    var c := SwapQuotes(b);
    SwapQuotesKeepsCall(b);
    ReplaceArgsInLineCall(c);
  }

  /** A text that ends with `)` and holds a `(`. */
  predicate CallShaped(s: string)
  {
    |s| > 0 && s[|s| - 1] == ')' && '(' in s
  }

  lemma DropNewlinesKeepsCall(s: string)
    requires CallShaped(s)
    ensures CallShaped(DropNewlines(s))
  {
    assert s == s[..|s| - 1] + [')'];
    DropNewlinesConcat(s[..|s| - 1], [')']);
    assert DropNewlines([')']) == [')'];
  }

  lemma CollapseKeepsCall(a: string)
    requires CallShaped(a)
    ensures CallShaped(CollapseSpaces(a))
  {
    CollapseSpacesLast(a);
    CollapseSpacesKeepsText(a);
    NonSpacesChars(a);
    NonSpacesChars(CollapseSpaces(a));
  }

  lemma SwapQuotesKeepsCall(b: string)
    requires CallShaped(b)
    ensures CallShaped(SwapQuotes(b))
  {
    var c := SwapQuotes(b);
    var k :| 0 <= k < |b| && b[k] == '(';
    assert c[k] == '(';
  }

  lemma ReplaceArgsInLineCall(c: string)
    requires CallShaped(c)
    ensures var n := ReplaceArgsInLine(c); |n| >= 5 && n[|n| - 5..] == Placeholder && '(' !in n[..|n| - 5]
  {
    ReplaceArgsInLineShape(c);
    var f := IndexOf(c, '(');
    var n := ReplaceArgsInLine(c);
    assert n[..|n| - 5] == c[..f];
  }

  /** `Normalize` is the chain of the four substitutions, the last one applied
      to the whole text (as `re.sub` is). */
  lemma NormalizeIsChain(s: string)
    ensures Normalize(s) == ReplaceArgs(SwapQuotes(CollapseSpaces(DropNewlines(s))))
  {
    var b := CollapseSpaces(DropNewlines(s));
    var c := SwapQuotes(b);
    SwapQuotesKeepsSpaces(b);
    CanonicalHasNoNewline(c);
    NoNewlineReplaceArgs(c);
  }
}
