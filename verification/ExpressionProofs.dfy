/** Rewriting the text computes the value of the expression tree. */
module ExpressionProofs {
  import opened Bits
  import opened Text
  import opened Expression

  // -------------------------------------------------- the rewritten text

  /** The text of a tree once every outermost parenthesis has been replaced by its value. */
  function Flat(t: Tree, part: string -> Option<int>): Option<string>
    decreases t, 0
  {
    match t
    case Leaf(pre, name, post) => Some(pre + name + post)
    case Paren(pre, body, post) =>
      var v := FlatValue(body, part);
      if v.None? then None else Some(pre + IntText(v.value) + post)
    case Node(op, l, r) =>
      var a, b := Flat(l, part), Flat(r, part);
      if a.None? || b.None? then None else Some(a.value + OpText(op) + b.value)
  }

  function FlatValue(t: Tree, part: string -> Option<int>): Option<int>
    decreases t, 1
  {
    var x := Flat(t, part);
    if x.None? then None else part(x.value)
  }

  lemma Regroup(v: string, w: string, x: string, y: string, z: string)
    ensures v + (w + x + y) + z == v + w + (x + y + z) == (v + w + x) + y + z
    ensures "" + w == w && (w + x + y) + z == w + (x + (y + z))
    ensures v + (w + x + y) == v + w + x + y
  {}

  ghost predicate NoParens(x: string) { forall c | c in x :: c != '(' && c != ')' }

  lemma {:induction false} LoopPlain(x: string, rest: string, levels: seq<string>, buf: string,
      part: string -> Option<int>)
    requires NoParens(x)
    ensures EvaluateFrom(x + rest, levels, buf, part) == EvaluateFrom(rest, levels, buf + x, part)
  {
    if x == [] {
      assert x + rest == rest && buf + x == buf;
    } else {
      var w := x + rest;
      assert w[0] == x[0] && x[0] in x;
      assert w[1..] == x[1..] + rest;
      assert NoParens(x[1..]) by { forall c | c in x[1..] ensures c in x {} }
      LoopPlain(x[1..], rest, levels, buf + [x[0]], part);
      assert buf + [x[0]] + x[1..] == buf + x;
    }
  }

  /** The loop over the characters of a tree appends the rewritten text to the current level. */
  lemma {:induction false} LoopFlat(t: Tree, rest: string, levels: seq<string>, buf: string,
      part: string -> Option<int>)
    requires CleanTree(t)
    ensures EvaluateFrom(Render(t) + rest, levels, buf, part)
         == if Flat(t, part).None? then None
            else EvaluateFrom(rest, levels, buf + Flat(t, part).value, part)
    decreases t, 0
  {
    match t
    case Leaf(pre, name, post) =>
      assert NoParens(pre) && NoParens(name) && NoParens(post);
      LoopPlain(pre + name + post, rest, levels, buf, part);
    case Paren(pre, body, post) =>
      assert Render(t) + rest == pre + ("(" + (Render(body) + (")" + (post + rest))));
      LoopParen(pre, body, post, rest, levels, buf, part);
      var v := FlatValue(body, part);
      if v.Some? {
        assert buf + (pre + IntText(v.value) + post) == buf + pre + IntText(v.value) + post;
      }
    case Node(op, l, r) =>
      var o := OpText(op);
      var more := Render(r) + rest;
      Regroup("", Render(l), o, Render(r), rest);
      LoopFlat(l, o + more, levels, buf, part);
      if Flat(l, part).Some? {
        var a := Flat(l, part).value;
        OpIsPlain(op);
        LoopPlain(o, more, levels, buf + a, part);
        LoopFlat(r, rest, levels, buf + a + o, part);
        if Flat(r, part).Some? {
          Regroup(buf, a, o, Flat(r, part).value, "");
        }
      }
  }

  lemma LoopOpen(y: string, levels: seq<string>, buf: string, part: string -> Option<int>)
    ensures EvaluateFrom("(" + y, levels, buf, part) == EvaluateFrom(y, levels + [buf], [], part)
  {
    assert ("(" + y)[1..] == y;
  }

  lemma LoopClose(y: string, levels: seq<string>, up: string, buf: string, part: string -> Option<int>)
    ensures EvaluateFrom(")" + y, levels + [up], buf, part)
         == if part(buf).None? then None else EvaluateFrom(y, levels, up + IntText(part(buf).value), part)
  {
    assert (")" + y)[1..] == y;
    assert (levels + [up])[..|levels|] == levels;
  }

  lemma {:induction false} LoopParen(pre: string, body: Tree, post: string, rest: string,
      levels: seq<string>, buf: string, part: string -> Option<int>)
    requires CleanTree(Paren(pre, body, post))
    ensures EvaluateFrom(pre + ("(" + (Render(body) + (")" + (post + rest)))), levels, buf, part)
         == if FlatValue(body, part).None? then None
            else EvaluateFrom(rest, levels, buf + pre + IntText(FlatValue(body, part).value) + post, part)
    decreases body, 1
  {
    var after := ")" + (post + rest);
    LoopPlain(pre, "(" + (Render(body) + after), levels, buf, part);
    LoopOpen(Render(body) + after, levels, buf + pre, part);
    LoopFlat(body, after, levels + [buf + pre], [], part);
    if Flat(body, part).Some? {
      var x := Flat(body, part).value;
      assert [] + x == x;
      LoopClose(post + rest, levels, buf + pre, x, part);
      if part(x).Some? {
        LoopPlain(post, rest, levels, buf + pre + IntText(part(x).value), part);
      }
    }
  }

  lemma OpIsPlain(op: Op)
    ensures IsOpChar(OpText(op)[0])
    ensures NoParens(OpText(op))
    ensures forall p: Op | p != op :: OpText(p)[0] != OpText(op)[0]
  {}

  // -------------------------------------------------- texts that cannot be evaluated

  /** The operator a text ends with. */
  function TrailingOp(y: string): Option<Op> {
    if y == [] then None
    else
      var c := y[|y| - 1];
      var twice := |y| > 1 && y[|y| - 2] == c;
      if c == '+' then Some(Plus)
      else if c == '-' then Some(Minus)
      else if c == '*' then Some(Times)
      else if c == '/' then Some(Divide)
      else if c == '&' then Some(BitAnd)
      else if c == '|' then Some(BitOr)
      else if c == '>' && twice then Some(ShiftRight)
      else if c == '<' && twice then Some(ShiftLeft)
      else None
  }

  lemma TrailingEnds(y: string)
    requires TrailingOp(y).Some?
    ensures At(y, OpText(TrailingOp(y).value), |y| - |OpText(TrailingOp(y).value)|)
  {}

  lemma TrailingCut(p: string, y: string)
    requires y != [] && TrailingOp(p + y).Some?
    requires p == [] || p[|p| - 1] != y[0] || (y[0] != '>' && y[0] != '<')
    ensures TrailingOp(y).Some?
  {
    var n, x := |y|, p + y;
    assert x[|x| - 1] == y[n - 1];
    assert n > 1 ==> x[|x| - 2] == y[n - 2];
    assert n == 1 && p != [] ==> x[|x| - 2] == p[|p| - 1];
  }

  lemma TrailingOpOf(x: string, op: Op)
    ensures TrailingOp(x + OpText(op)) == Some(op)
  {
    var o := OpText(op);
    var y := x + o;
    assert y[|y| - 1] == o[|o| - 1];
    if |o| == 2 { assert y[|y| - 2] == o[0]; }
  }

  /** Nothing, or nothing after an operator, except for blanks. */
  predicate Hanging(x: string) {
    if x == [] then true
    else if IsSpace(x[|x| - 1]) then Hanging(x[..|x| - 1])
    else TrailingOp(x).Some?
  }

  /** A minus sign with nothing to subtract from. */
  ghost predicate SignedOperand(s: string) { exists q :: SignAt(s, q) }

  predicate SignAt(s: string, q: int) { 0 <= q < |s| && s[q] == '-' && Hanging(s[..q]) }

  lemma {:induction false} HangingBlank(x: string, p: string)
    requires Hanging(x) && Blank(p)
    ensures Hanging(x + p)
  {
    if p == [] {
      assert x + p == x;
    } else {
      assert (x + p)[..|x + p| - 1] == x + p[..|p| - 1];
      HangingBlank(x, p[..|p| - 1]);
    }
  }

  /** Cutting a hanging text leaves a hanging text, unless the cut goes through `>>` or `<<`. */
  lemma {:induction false} HangingCut(p: string, y: string)
    requires Hanging(p + y)
    requires p == [] || y == [] || p[|p| - 1] != y[0] || (y[0] != '>' && y[0] != '<')
    ensures Hanging(y)
  {
    if y != [] {
      var n, x := |y| - 1, p + y;
      assert x[|x| - 1] == y[n];
      if IsSpace(y[n]) {
        assert x[..|x| - 1] == p + y[..n];
        HangingCut(p, y[..n]);
      } else {
        TrailingCut(p, y);
      }
    }
  }

  /** Two different operators do not share a character. */
  lemma NoOverlap(s: string, a: Op, i: int, b: Op, j: int)
    requires a != b && At(s, OpText(a), i) && At(s, OpText(b), j)
    ensures i + |OpText(a)| <= j || j + |OpText(b)| <= i
  {
    var o, p := OpText(a), OpText(b);
    OpIsPlain(a);
    assert s[i] == o[0] && s[i + |o| - 1] == o[0];
    assert s[j] == p[0] && s[j + |p| - 1] == p[0];
  }

  /** What SplitAt finds: the last occurrence of the first operator that occurs. */
  ghost predicate SplitsAt(s: string, r: Parts) {
    match r
    case Atom(name) => name == s && forall op, j :: !At(s, OpText(op), j)
    case Cut(op, a, b) =>
      && s == a + OpText(op) + b
      && (forall j | |a| < j :: !At(s, OpText(op), j))
      && (forall p, j | Rank(p) < Rank(op) :: !At(s, OpText(p), j))
  }

  lemma {:induction false} SplitIsFirst(s: string, k: nat)
    requires k <= |OPERATORS|
    requires forall p, j | Rank(p) < k :: !At(s, OpText(p), j)
    ensures SplitsAt(s, SplitAt(s, OPERATORS[k..]))
    decreases |OPERATORS| - k
  {
    hide SplitsAt, LastIndex, OpText;
    var ops := OPERATORS[k..];
    if k == |OPERATORS| {
      NoOperators(s);
    } else {
      assert ops[0] == OPERATORS[k];
      var o := OpText(ops[0]);
      var i := LastIndex(s, o);
      if i < 0 {
        assert ops[1..] == OPERATORS[k + 1..];
        NoneBelow(s, k);
        SplitIsFirst(s, k + 1);
      } else {
        SplitHere(s, k, i);
      }
    }
  }

  lemma NoOperators(s: string)
    requires forall p, j | Rank(p) < |OPERATORS| :: !At(s, OpText(p), j)
    ensures SplitsAt(s, SplitAt(s, []))
  {}

  lemma SplitHere(s: string, k: nat, i: int)
    requires k < |OPERATORS| && i == LastIndex(s, OpText(OPERATORS[k])) >= 0
    requires forall p, j | Rank(p) < k :: !At(s, OpText(p), j)
    ensures SplitsAt(s, Cut(OPERATORS[k], s[..i], s[i + |OpText(OPERATORS[k])|..]))
  {
    var o := OpText(OPERATORS[k]);
    assert s == s[..i] + o + s[i + |o|..];
    assert Rank(OPERATORS[k]) == k;
  }

  lemma NoneBelow(s: string, k: nat)
    requires k < |OPERATORS| && LastIndex(s, OpText(OPERATORS[k])) == -1
    requires forall p, j | Rank(p) < k :: !At(s, OpText(p), j)
    ensures forall p, j | Rank(p) < k + 1 :: !At(s, OpText(p), j)
  {
    forall p, j | Rank(p) < k + 1 ensures !At(s, OpText(p), j) {
      if Rank(p) == k { assert OPERATORS[Rank(p)] == p; }
    }
  }

  lemma SplitPlace(s: string, r: Parts)
    requires SplitsAt(s, r) && r.Cut?
    ensures At(s, OpText(r.op), |r.left|)
    ensures s[..|r.left|] == r.left && s[|r.left| + |OpText(r.op)|..] == r.right
  {}

  lemma SplitStripped(x: string) returns (r: Parts)
    ensures r == SplitAt(Strip(x), OPERATORS) && SplitsAt(Strip(x), r)
  {
    r := SplitAt(Strip(x), OPERATORS);
    assert OPERATORS[0..] == OPERATORS;
    SplitIsFirst(Strip(x), 0);
  }

  lemma EmptyFails(env: Env)
    requires PlainNames(env)
    ensures EvaluatePart("", env) == None
  {
    var r := SplitStripped("");
  }

  lemma {:induction false} HangingFails(x: string, env: Env)
    requires PlainNames(env) && Hanging(x)
    ensures EvaluatePart(x, env) == None
    decreases |x|
  {
    if x == [] {
      EmptyFails(env);
    } else if IsSpace(x[|x| - 1]) {
      var y := x[..|x| - 1];
      assert x == y + [x[|x| - 1]];
      StripTrailing(y, [x[|x| - 1]]);
      SameStrip(x, y, env);
      HangingFails(y, env);
    } else {
      var r := HangingSplit(x);
      HangingFails(r.right, env);
    }
  }

  lemma HangingSplit(x: string) returns (r: Parts)
    requires x != [] && !IsSpace(x[|x| - 1]) && TrailingOp(x).Some?
    ensures r == SplitAt(Strip(x), OPERATORS) && r.Cut? && Hanging(r.right)
  {
    StripKeepsEnd(x);
    r := SplitStripped(x);
    HangingRight(Strip(x), r, TrailingOp(Strip(x)).value);
  }

  /** The right part of a text that ends with an operator is empty or ends with it too. */
  lemma HangingRight(s: string, r: Parts, op: Op)
    requires SplitsAt(s, r) && TrailingOp(s) == Some(op)
    ensures r.Cut? && Hanging(r.right)
  {
    hide OpText, TrailingOp;
    var j := |s| - |OpText(op)|;
    TrailingEnds(s);
    if r.op == op {
      assert |r.left| >= j;
      assert r.right == [];
    } else {
      SplitPlace(s, r);
      NoOverlap(s, r.op, |r.left|, op, j);
      EndsRight(r.left + OpText(r.op), r.right, OpText(op));
      HangingOp(r.right[..|r.right| - |OpText(op)|], op);
    }
  }

  lemma EndsRight(p: string, y: string, o: string)
    requires At(p + y, o, |p + y| - |o|) && |p| <= |p + y| - |o|
    ensures y == y[..|y| - |o|] + o
  {
    var s := p + y;
    assert s[|s| - |o|..] == o;
    assert y[|y| - |o|..] == s[|s| - |o|..];
  }

  lemma SameStrip(x: string, y: string, env: Env)
    requires Strip(x) == Strip(y)
    ensures EvaluatePart(x, env) == EvaluatePart(y, env)
  {}

  lemma StripKeepsEnd(x: string)
    requires x != [] && !IsSpace(x[|x| - 1]) && TrailingOp(x).Some?
    ensures TrailingOp(Strip(x)).Some?
  {
    hide LStrip, RStrip, Strip, IsSpace, TrailingOp;
    var a, c := x[..|x| - 1], [x[|x| - 1]];
    assert x == a + c + [];
    StripMiddle(a, c, []);
    var p := LStripParts(a);
    var s := Strip(x);
    assert s == LStrip(a) + c by { NothingStripped(LStrip(a) + c); }
    assert x == p + s;
    if p != [] { assert p[|p| - 1] in p; }
    HangingCut(p, s);
    assert s[|s| - 1] == c[0];
  }

  lemma NothingStripped(s: string)
    ensures s + RStrip([]) == s
  {}

  /** No text with a signed operand has a value. */
  lemma {:induction false} SignedOperandFails(x: string, env: Env)
    requires PlainNames(env) && SignedOperand(x)
    ensures EvaluatePart(x, env) == None
    decreases |x|
  {
    var q := SignedStripped(x);
    var r := SplitStripped(x);
    SignedParts(Strip(x), r, q);
    if Hanging(r.left) {
      HangingFails(r.left, env);
    } else if SignedOperand(r.left) {
      SignedOperandFails(r.left, env);
    } else {
      SignedOperandFails(r.right, env);
    }
  }

  lemma SignedParts(s: string, r: Parts, q: int)
    requires SplitsAt(s, r) && SignAt(s, q)
    ensures r.Cut? && (Hanging(r.left) || SignedOperand(r.left) || SignedOperand(r.right))
  {
    assert s[q..q + 1] == "-";
    assert At(s, OpText(Minus), q);
    SplitPlace(s, r);
    var op, i := r.op, |r.left|;
    if op != Minus {
      NoOverlap(s, op, i, Minus, q);
    }
    if q < i {
      assert r.left[..q] == s[..q] && r.left[q] == s[q];
      assert SignAt(r.left, q);
    } else if q > i {
      SignedRight(s, r, q);
    }
  }

  lemma SignedRight(s: string, r: Parts, q: int)
    requires SplitsAt(s, r) && r.Cut? && SignAt(s, q) && |r.left| + |OpText(r.op)| <= q
    ensures SignedOperand(r.right)
  {
    var b := |r.left| + |OpText(r.op)|;
    SplitPlace(s, r);
    HangingAfter(s, r.op, |r.left|, q);
    hide SplitsAt, Hanging, OpText;
    SliceOfRest(s, b, q);
    assert SignAt(r.right, q - b);
  }

  lemma SliceOfRest(s: string, b: nat, q: nat)
    requires b <= q < |s|
    ensures |s[b..]| == |s| - b && s[b..][..q - b] == s[b..q] && s[b..][q - b] == s[q]
  {}

  lemma BlankHasNoMinus(p: string)
    requires Blank(p)
    ensures forall k | 0 <= k < |p| :: p[k] != '-'
  {
    forall k | 0 <= k < |p| ensures p[k] != '-' {
      assert p[k] in p;
    }
  }

  lemma SignedStripped(x: string) returns (q: int)
    requires SignedOperand(x)
    ensures SignAt(Strip(x), q)
  {
    hide LStrip, RStrip, IsSpace, SignAt, Hanging;
    var q0 :| SignAt(x, q0);
    var p := LStripParts(x);
    var r := RStripParts(LStrip(x));
    assert x == p + Strip(x) + r;
    q := SignedMiddle(p, Strip(x), r, q0);
  }

  lemma SignedMiddle(p: string, s: string, r: string, q0: int) returns (q: int)
    requires Blank(p) && Blank(r) && SignAt(p + s + r, q0)
    ensures SignAt(s, q)
  {
    q := q0 - |p|;
    BlankHasNoMinus(p);
    BlankHasNoMinus(r);
    assert |p| <= q0 < |p + s|;
    assert (p + s + r)[..q0] == p + s[..q];
    if p != [] { assert IsSpace(p[|p| - 1]) by { assert p[|p| - 1] in p; } }
    HangingCut(p, s[..q]);
  }

  /** The last occurrence of `>>` is not followed by a third `>`. */
  lemma NoStraddle(s: string, op: Op, i: int)
    requires At(s, OpText(op), i) && forall m | i < m :: !At(s, OpText(op), m)
    requires |OpText(op)| == 2 && i + 2 < |s|
    ensures s[i + 2] != OpText(op)[0]
  {
    var o := OpText(op);
    assert s[i..i + 2][1] == s[i + 1] == o[1];
    assert s[i + 1..i + 3] == [s[i + 1], s[i + 2]];
    assert o == [o[0], o[1]];
    assert !At(s, o, i + 1);
  }

  /** Cutting at the last occurrence of an operator leaves a hanging text hanging. */
  lemma HangingAfter(s: string, op: Op, i: int, q: int)
    requires At(s, OpText(op), i) && forall m | i < m :: !At(s, OpText(op), m)
    requires i + |OpText(op)| <= q <= |s| && Hanging(s[..q])
    ensures Hanging(s[i + |OpText(op)|..q])
  {
    var o := OpText(op);
    var e := i + |o|;
    assert s[..q] == s[..e] + s[e..q];
    assert s[e - 1] == o[|o| - 1];
    if e < q && |o| == 2 {
      NoStraddle(s, op, i);
    }
    HangingCut(s[..e], s[e..q]);
  }

  // -------------------------------------------------- negative values in parentheses

  /** Some outermost parenthesis has a negative value. */
  ghost predicate Negative(t: Tree, part: string -> Option<int>) {
    match t
    case Leaf(_, _, _) => false
    case Paren(_, body, _) => FlatValue(body, part).Some? && FlatValue(body, part).value < 0
    case Node(_, l, r) => Negative(l, part) || Negative(r, part)
  }

  lemma SignedHere(before: string, pre: string, x: string)
    requires Hanging(before) && Blank(pre) && x != [] && x[0] == '-'
    ensures SignedOperand(before + pre + x)
  {
    HangingBlank(before, pre);
    var whole := before + pre + x;
    assert whole[..|before + pre|] == before + pre;
    assert SignAt(whole, |before + pre|);
  }

  lemma {:induction false} NegativeIsSigned(t: Tree, part: string -> Option<int>, before: string, after: string)
    requires CleanTree(t) && Flat(t, part).Some? && Negative(t, part) && Hanging(before)
    ensures SignedOperand(before + Flat(t, part).value + after)
  {
    match t {
      case Leaf(_, _, _) =>
      case Paren(pre, body, post) =>
        var x := IntText(FlatValue(body, part).value);
        SignedHere(before, pre, x + post + after);
        Regroup(before, pre, x, post, after);
      case Node(op, l, r) =>
        var a, o, b := Flat(l, part).value, OpText(op), Flat(r, part).value;
        if Negative(l, part) {
          NegativeIsSigned(l, part, before, o + b + after);
          Regroup(before, a, o, b, after);
        } else {
          HangingOp(before + a, op);
          NegativeIsSigned(r, part, before + a + o, after);
          Regroup(before, a, o, b, after);
        }
    }
  }

  lemma HangingOp(x: string, op: Op)
    ensures Hanging(x + OpText(op))
  {
    TrailingOpOf(x, op);
    var o := OpText(op);
    assert (x + o)[|x + o| - 1] == o[|o| - 1];
  }

  // -------------------------------------------------- the value of flat text

  /** An operator that is not in the tree is not in its text. */
  lemma {:induction false} AbsentOperator(t: Tree, op: Op, part: string -> Option<int>)
    requires CleanTree(t) && Flat(t, part).Some? && !Negative(t, part) && op !in TopOps(t)
    ensures OpText(op)[0] !in Flat(t, part).value
  {
    OpIsPlain(op);
    match t
    case Leaf(_, _, _) =>
    case Paren(_, _, _) =>
    case Node(p, l, r) =>
      AbsentOperator(l, op, part);
      AbsentOperator(r, op, part);
  }

  lemma PlainText(pre: string, name: string, post: string, env: Env)
    requires Blank(pre) && Blank(post) && Strip(name) == name
    requires forall c | c in name :: !IsOpChar(c)
    ensures EvaluatePart(pre + name + post, env) == Lookup(name, env)
  {
    var x := pre + name + post;
    StripBlankSides(pre, name, post);
    var r := SplitStripped(x);
    if r.Cut? {
      OpIsPlain(r.op);
      assert false;
    }
  }

  lemma NumeralText(pre: string, v: nat, post: string, env: Env)
    requires Blank(pre) && Blank(post) && PlainNames(env)
    ensures EvaluatePart(pre + NatText(v) + post, env) == Some(v)
  {
    var s := NatText(v);
    assert s[0] in s && s[|s| - 1] in s;
    assert LStrip(s) == s && RStrip(s) == s;
    PlainText(pre, s, post, env);
    NumeralOfText(v);
    assert |s| > 1 ==> s[1] in s;
    assert IsNumeral(s);
  }

  /** Evaluation splits the text of a well shaped tree where the tree does. */
  lemma SplitAtRoot(a: string, op: Op, b: string, env: Env)
    requires forall p | Rank(p) < Rank(op) :: OpText(p)[0] !in a + OpText(op) + b
    requires OpText(op)[0] !in b
    ensures EvaluatePart(a + OpText(op) + b, env) == Combine(op, EvaluatePart(a, env), EvaluatePart(b, env))
  {
    var o := OpText(op);
    var x := a + o + b;
    var a', b' := LStrip(a), RStrip(b);
    var pa := LStripParts(a);
    var pb := RStripParts(b);
    StripMiddle(a, o, b);
    var r := SplitStripped(x);
    RootFound(a', op, b', r);
    StripOfParts(a);
    StripOfParts(b);
    SameStrip(a', a, env);
    SameStrip(b', b, env);
  }

  lemma LastChar(a: string, o: string, b: string, j: int)
    requires o != [] && o[|o| - 1] == o[0] && o[0] !in b && At(a + o + b, o, j)
    ensures j <= |a|
  {
    var s := a + o + b;
    var last := j + |o| - 1;
    assert s[last] == s[j..j + |o|][|o| - 1] == o[|o| - 1] == o[0];
    assert forall k | |a| + |o| <= k < |s| :: s[k] == b[k - |a| - |o|] && s[k] in b;
  }

  lemma RootFound(a: string, op: Op, b: string, r: Parts)
    requires SplitsAt(a + OpText(op) + b, r)
    requires forall p | Rank(p) < Rank(op) :: OpText(p)[0] !in a + OpText(op) + b
    requires OpText(op)[0] !in b
    ensures r == Cut(op, a, b)
  {
    var o := OpText(op);
    var s := a + o + b;
    var i := |a|;
    assert At(s, o, i);
    if r.Atom? {
      assert false;
    }
    var j := |r.left|;
    var o' := OpText(r.op);
    assert s[j] == o'[0] && s[j] in s;
    assert Rank(op) <= Rank(r.op);
    assert r.op == op;
    assert j >= i;
    LastChar(a, o, b, j);
    assert s[..j] == r.left && s[..i] == a;
    assert s[j + |o|..] == r.right && s[i + |o|..] == b;
  }

  lemma FlatNode(op: Op, l: Tree, r: Tree, env: Env)
    requires CleanTree(Node(op, l, r)) && WellShaped(Node(op, l, r))
    requires Flat(Node(op, l, r), Part(env)).Some? && !Negative(Node(op, l, r), Part(env))
    ensures FlatValue(Node(op, l, r), Part(env)) == Combine(op, FlatValue(l, Part(env)), FlatValue(r, Part(env)))
  {
    hide Tightness, Rank, OpText, Combine;
    var t := Node(op, l, r);
    TightnessIs(op);
    forall p | Rank(p) < Rank(op) ensures OpText(p)[0] !in Flat(t, Part(env)).value {
      TightnessIs(p);
      AbsentOperator(t, p, Part(env));
    }
    AbsentOperator(r, op, Part(env));
    SplitAtRoot(Flat(l, Part(env)).value, op, Flat(r, Part(env)).value, env);
  }

  lemma NodeValue(op: Op, l: Tree, r: Tree, env: Env)
    ensures Value(Node(op, l, r), env) == Combine(op, Value(l, env), Value(r, env))
    ensures Value(l, env).None? || Value(r, env).None? ==> Value(Node(op, l, r), env) == None
  {
    hide Apply;
    CombineIs(op, Value(l, env), Value(r, env));
  }

  lemma {:induction false} FlatMeansValue(t: Tree, env: Env)
    requires CleanTree(t) && WellShaped(t) && PlainNames(env)
    ensures FlatValue(t, Part(env)) == Value(t, env)
    ensures Flat(t, Part(env)).None? || Negative(t, Part(env)) ==> Value(t, env) == None
  {
    hide Combine, Computed;
    var part := Part(env);
    match t {
      case Leaf(pre, name, post) =>
        PlainText(pre, name, post, env);
      case Paren(pre, body, post) =>
        FlatMeansValue(body, env);
        var v := FlatValue(body, part);
        if v.Some? && v.value >= 0 {
          NumeralText(pre, v.value, post, env);
        }
      case Node(op, l, r) =>
        NodeValue(op, l, r, env);
        FlatMeansValue(l, env);
        FlatMeansValue(r, env);
        if Flat(t, part).Some? && !Negative(t, part) {
          FlatNode(op, l, r, env);
        }
    }
    if Flat(t, part).Some? && Negative(t, part) {
      var x := Flat(t, part).value;
      NegativeIsSigned(t, part, "", "");
      assert "" + x + "" == x;
      SignedOperandFails(x, env);
    }
  }

  /** The evaluator is correct: for every expression, the textual substitution loop gives the
      value of the tree, left associative and with precedence rising from `+` to `<<`. */
  lemma EvaluatesTree(t: Tree, env: Env)
    requires CleanTree(t) && WellShaped(t) && PlainNames(env)
    ensures EvaluateFrom(Render(t), [], [], Part(env)) == Value(t, env)
  {
    LoopFlat(t, "", [], [], Part(env));
    assert Render(t) + "" == Render(t);
    FlatMeansValue(t, env);
    if Flat(t, Part(env)).Some? {
      assert [] + Flat(t, Part(env)).value == Flat(t, Part(env)).value;
    }
  }

  /** A name alone: the field of that name, else a hexadecimal numeral, else the constant of that name, else
      a numeral. */
  lemma NameAlone(name: string, env: Env)
    requires Clean(name) && PlainNames(env)
    ensures var v := EvaluateFrom(name, [], [], Part(env));
            && (name in env.context ==> v == env.context[name])
            && (name !in env.context && "0x" <= name ==>
                  v == if IsHex(name[2..]) then Some(HexValue(name[2..])) else None)
            && (name !in env.context && !("0x" <= name) && name in env.consts ==> v == Some(env.consts[name]))
            && (name !in env.context && !("0x" <= name) && name !in env.consts ==>
                  v == if IsNumeral(name) then Some(NumeralValue(name)) else None)
  {
    hide HexValue, NumeralValue, IsHex, IsNumeral, EvaluateFrom, Part, Clean, PlainNames;
    var t := Leaf("", name, "");
    assert Render(t) == name by { hide Lookup; assert "" + name + "" == name; }
    EvaluatesTree(t, env);
    assert EvaluateFrom(name, [], [], Part(env)) == Lookup(name, env);
  }
}
