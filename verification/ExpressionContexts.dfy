/** When the value of a count expression does not depend on what is known under a name. */
module ExpressionContexts {
  import opened Text
  import opened Expression
  import Ex = Expression
  import opened Layout
  import ExpressionProofs

  /** The texts that the evaluator meets do not hold this character, if one is given. */
  predicate Without(s: string, c: Option<char>) { c.Some? ==> c.value !in s }

  predicate AllWithout(ss: seq<string>, c: Option<char>) { forall k | 0 <= k < |ss| :: Without(ss[k], c) }

  /** No numeral holds it. */
  predicate NoNumeralChar(c: Option<char>) { c.Some? ==> c.value != '-' && !IsDigit(c.value) }

  /** What the first environment knows, the second knows too. */
  ghost predicate Extends(known: Env, env: Env, c: Option<char>) {
    forall s | Without(s, c) && Lookup(s, known).Some? :: Lookup(s, env) == Lookup(s, known)
  }

  ghost predicate PartExtends(known: string -> Option<int>, part: string -> Option<int>, c: Option<char>) {
    forall s | Without(s, c) && known(s).Some? :: part(s) == known(s)
  }

  lemma StripWithout(s: string, c: Option<char>)
    requires Without(s, c)
    ensures Without(Strip(s), c)
  {
    hide LStrip, RStrip;
    var p := LStripParts(s);
    var q := RStripParts(LStrip(s));
    assert s == p + LStrip(s) && LStrip(s) == Strip(s) + q;
    assert forall x | x in Strip(s) :: x in LStrip(s);
    assert forall x | x in LStrip(s) :: x in s;
  }

  lemma {:induction false} SplitWithout(s: string, ops: seq<Op>, c: Option<char>)
    requires Without(s, c)
    ensures var r := SplitAt(s, ops);
            match r
            case Cut(_, a, b) => Without(a, c) && Without(b, c)
            case Atom(name) => Without(name, c)
  {
    if ops != [] { SplitWithout(s, ops[1..], c); }
  }

  lemma {:induction false} PartOfMore(e: string, known: Env, env: Env, c: Option<char>)
    requires Without(e, c) && Extends(known, env, c) && EvaluatePart(e, known).Some?
    ensures EvaluatePart(e, env) == EvaluatePart(e, known)
    decreases |e|
  {
    hide SplitAt, Strip, Lookup, Apply;
    StripWithout(e, c);
    SplitWithout(Strip(e), OPERATORS, c);
    match SplitAt(Strip(e), OPERATORS) {
      case Cut(op, a, b) =>
        PartOfMore(a, known, env, c);
        PartOfMore(b, known, env, c);
      case Atom(name) =>
    }
  }

  lemma {:induction false} NatTextDigits(n: nat)
    ensures forall x | x in NatText(n) :: IsDigit(x)
  {
    if n >= 10 { NatTextDigits(n / 10); }
  }

  lemma IntTextWithout(v: int, c: Option<char>)
    requires NoNumeralChar(c)
    ensures Without(IntText(v), c)
  {
    NatTextDigits(if v < 0 then -v else v);
    hide NatText;
  }

  lemma {:induction false} EvaluateMore(rest: string, levels: seq<string>, buf: string, known: string -> Option<int>,
      part: string -> Option<int>, c: Option<char>)
    requires PartExtends(known, part, c) && NoNumeralChar(c)
    requires Without(rest, c) && Without(buf, c) && AllWithout(levels, c)
    requires EvaluateFrom(rest, levels, buf, known).Some?
    ensures EvaluateFrom(rest, levels, buf, part) == EvaluateFrom(rest, levels, buf, known)
    decreases |rest|
  {
    hide IntText, NoNumeralChar;
    if rest != [] {
      if rest[0] == '(' {
        EvaluateMore(rest[1..], levels + [buf], [], known, part, c);
      } else if rest[0] == ')' {
        var v := known(buf).value;
        IntTextWithout(v, c);
        EvaluateMore(rest[1..], levels[..|levels| - 1], levels[|levels| - 1] + IntText(v), known, part, c);
      } else {
        EvaluateMore(rest[1..], levels, buf + [rest[0]], known, part, c);
      }
    }
  }

  /** A count that can be evaluated keeps its value when more is known. */
  lemma EvaluatedMore(expr: string, known: map<string, Value>, r: map<string, Value>, src: Source, c: Option<char>)
    requires Extends(Env(ContextOf(known), src.consts), Env(ContextOf(r), src.consts), c)
    requires Without(expr, c) && NoNumeralChar(c) && Evaluated(expr, known, src).Some?
    ensures Evaluated(expr, r, src) == Evaluated(expr, known, src)
  {
    hide EvaluatePart, EvaluateFrom, Extends, NoNumeralChar;
    var k, e := Env(ContextOf(known), src.consts), Env(ContextOf(r), src.consts);
    forall s | Without(s, c) && Part(k)(s).Some? ensures Part(e)(s) == Part(k)(s) { PartOfMore(s, k, e, c); }
    EvaluateMore(expr, [], [], Part(k), Part(e), c);
  }

  // -------------------------------------------------- a field's own name

  /** The expression does not depend on what is known under the name: it has the same value when that is
      an empty list. */
  ghost predicate OwnNameUnused(name: string, expr: string) {
    forall r, src :: Evaluated(expr, r[name := List([])], src) == Evaluated(expr, r, src)
  }

  /** That is so for every name with a letter that is not in the expression. */
  lemma OwnLetter(name: string, expr: string, c: char)
    requires c in name && c !in expr && c != '-' && !IsDigit(c)
    ensures OwnNameUnused(name, expr)
  {
    hide Evaluated, Lookup;
    forall r: map<string, Value>, src: Source
      ensures Evaluated(expr, r[name := List([])], src) == Evaluated(expr, r, src)
    {
      var own := r[name := List([])];
      SameButFor(name, r, src, c);
      if Evaluated(expr, r, src).Some? { EvaluatedMore(expr, r, own, src, Some(c)); }
      if Evaluated(expr, own, src).Some? { EvaluatedMore(expr, own, r, src, Some(c)); }
    }
  }

  lemma SameButFor(name: string, r: map<string, Value>, src: Source, c: char)
    requires c in name
    ensures var e, own := Env(ContextOf(r), src.consts), Env(ContextOf(r[name := List([])]), src.consts);
            Extends(e, own, Some(c)) && Extends(own, e, Some(c))
  {
    hide HexValue, NumeralValue, IsHex, IsNumeral;
  }

  /** The length of an array is the value of its expression, or none where that is negative. */
  lemma CountExactly(t: Tree, r: map<string, Value>, src: Source)
    requires CleanTree(t) && WellShaped(t) && PlainNames(Env(ContextOf(r), src.consts))
    ensures Evaluated(Render(t), r, src)
         == match Ex.Value(t, Env(ContextOf(r), src.consts))
            case None => None
            case Some(v) => Some(if v > 0 then v else 0)
  {
    hide EvaluateFrom, Part, Render, Ex.Value;
    ExpressionProofs.EvaluatesTree(t, Env(ContextOf(r), src.consts));
  }

  /** And then nothing is read. */
  lemma NegativeCount(e: Elem, t: Tree, r: map<string, Value>, src: Source, seeks: bool, pos: nat)
    requires CleanTree(t) && WellShaped(t) && PlainNames(Env(ContextOf(r), src.consts))
    requires Ex.Value(t, Env(ContextOf(r), src.consts)).Some? && Ex.Value(t, Env(ContextOf(r), src.consts)).value <= 0
    ensures ReadType(Many(e, Dynamic(Render(t))), r, src, seeks, pos)
         == Ok(if e == Single(Char) then Raw([]) else List([]), pos, true)
  {
    hide Evaluated, Render, Ex.Value;
    CountExactly(t, r, src);
    NothingRead(e, src, seeks, pos);
  }

  lemma NothingRead(e: Elem, src: Source, seeks: bool, pos: nat)
    ensures ReadCounted(e, 0, src, seeks, pos) == Ok(if e == Single(Char) then Raw([]) else List([]), pos, true)
  {
    if e.Single? { assert Ints(ReadInts(e.scalar, 0, src, pos)) == [] && Chunk(src, pos, 0) == []; }
  }
}
