/** The calculator that decides array lengths (class Expression): it rewrites the text,
    replacing each innermost parenthesis by the decimal text of its value, and evaluates what
    has no parentheses by splitting at the last occurrence of the first operator found. */
module Expression {
  import opened Bits
  import opened Text

  datatype Op = Plus | Minus | Times | Divide | BitAnd | BitOr | ShiftRight | ShiftLeft

  /** In the order they are looked for: the first to be found is split at, so binds loosest. */
  const OPERATORS: seq<Op> := [Plus, Minus, Times, Divide, BitAnd, BitOr, ShiftRight, ShiftLeft]

  function OpText(op: Op): (s: string)
    ensures 1 <= |s| <= 2 && s[|s| - 1] == s[0] && !IsSpace(s[0])
  {
    match op
    case Plus => "+"
    case Minus => "-"
    case Times => "*"
    case Divide => "/"
    case BitAnd => "&"
    case BitOr => "|"
    case ShiftRight => ">>"
    case ShiftLeft => "<<"
  }

  function Rank(op: Op): (k: nat)
    ensures k < |OPERATORS| && OPERATORS[k] == op
  {
    match op
    case Plus => 0
    case Minus => 1
    case Times => 2
    case Divide => 3
    case BitAnd => 4
    case BitOr => 5
    case ShiftRight => 6
    case ShiftLeft => 7
  }

  /** None stands for a raised exception. The true division of `/` gives a float and is not modelled. */
  function Apply(op: Op, a: int, b: int): Option<int> {
    match op
    case Plus => Some(a + b)
    case Minus => Some(a - b)
    case Times => Some(a * b)
    case Divide => None
    case BitAnd => Some(And(a, b))
    case BitOr => Some(Or(a, b))
    case ShiftRight => if b < 0 then None else Some(Shr(a, b))
    case ShiftLeft => if b < 0 then None else Some(Shl(a, b))
  }

  /** Names known while a structure is read: the fields before, None where the value is no
      number, and the constants of the definition. */
  datatype Env = Env(context: map<string, Option<int>>, consts: map<string, int>)

  function Lookup(s: string, env: Env): Option<int> {
    if s in env.context then env.context[s]
    else if "0x" <= s then (if IsHex(s[2..]) then Some(HexValue(s[2..])) else None)
    else if s in env.consts then Some(env.consts[s])
    else if IsNumeral(s) then Some(NumeralValue(s))
    else None
  }

  datatype Parts = Atom(name: string) | Cut(op: Op, left: string, right: string)

  /** rsplit at the first of the operators that occurs in the text. */
  function SplitAt(s: string, ops: seq<Op>): (r: Parts)
    ensures r.Cut? ==> |r.left| < |s| && |r.right| < |s|
  {
    if ops == [] then Atom(s)
    else
      var o := OpText(ops[0]);
      var i := LastIndex(s, o);
      if i >= 0 then Cut(ops[0], s[..i], s[i + |o|..]) else SplitAt(s, ops[1..])
  }

  function Combine(op: Op, a: Option<int>, b: Option<int>): Option<int> {
    if a.Some? && b.Some? then Apply(op, a.value, b.value) else None
  }

  function EvaluatePart(e: string, env: Env): Option<int>
    decreases |e|
  {
    match SplitAt(Strip(e), OPERATORS)
    case Cut(op, a, b) => Combine(op, EvaluatePart(a, env), EvaluatePart(b, env))
    case Atom(name) => Lookup(name, env)
  }

  /** evaluate_part in the given environment. */
  function Part(env: Env): string -> Option<int> { s => EvaluatePart(s, env) }

  /** What evaluate does with the rest of the text, the texts of the open levels and the text
      of the current one, given the evaluation of text without parentheses. */
  function EvaluateFrom(rest: string, levels: seq<string>, buf: string, part: string -> Option<int>): Option<int>
    decreases |rest|
  {
    if rest == [] then part(buf)
    else if rest[0] == '(' then EvaluateFrom(rest[1..], levels + [buf], [], part)
    else if rest[0] == ')' then
      var val := part(buf);
      if val.None? || levels == [] then None
      else EvaluateFrom(rest[1..], levels[..|levels| - 1], levels[|levels| - 1] + IntText(val.value), part)
    else EvaluateFrom(rest[1..], levels, buf + [rest[0]], part)
  }

  method Evaluate(expr: string, env: Env) returns (r: Option<int>)
    ensures r == EvaluateFrom(expr, [], [], Part(env))
  {
    var levels: seq<string> := [];
    var buf := "";
    ghost var part := Part(env);
    for i := 0 to |expr|
      invariant EvaluateFrom(expr[i..], levels, buf, part) == EvaluateFrom(expr, [], [], part)
    {
      assert expr[i..][1..] == expr[i + 1..];
      if expr[i] == '(' {
        levels := levels + [buf];
        buf := "";
        continue;
      }
      if expr[i] == ')' {
        var val := EvaluatePart(buf, env);
        if val.None? || levels == [] {
          return None;
        }
        buf := levels[|levels| - 1] + IntText(val.value);
        levels := levels[..|levels| - 1];
        continue;
      }
      buf := buf + [expr[i]];
    }
    r := EvaluatePart(buf, env);
  }

  // -------------------------------------------------- what expressions mean

  /** An expression as a tree. Blanks around operands and parentheses are kept. */
  datatype Tree =
    | Leaf(pre: string, name: string, post: string)
    | Paren(pre: string, body: Tree, post: string)
    | Node(op: Op, left: Tree, right: Tree)

  function Render(t: Tree): string {
    match t
    case Leaf(pre, name, post) => pre + name + post
    case Paren(pre, body, post) => pre + "(" + Render(body) + ")" + post
    case Node(op, l, r) => Render(l) + OpText(op) + Render(r)
  }

  /** The operators of a tree outside its parentheses. */
  function TopOps(t: Tree): set<Op> {
    match t
    case Leaf(_, _, _) => {}
    case Paren(_, _, _) => {}
    case Node(op, l, r) => {op} + TopOps(l) + TopOps(r)
  }

  /** How tightly an operator binds, by its first character: + - * / & | > < */
  function Tightness(op: Op): nat {
    var c := OpText(op)[0];
    if c == '+' then 0 else if c == '-' then 1 else if c == '*' then 2 else if c == '/' then 3
    else if c == '&' then 4 else if c == '|' then 5 else if c == '>' then 6 else 7
  }

  lemma TightnessIs(op: Op)
    ensures Tightness(op) == Rank(op)
  {}

  /** Left associative, with the operators binding tighter from `+` to `<<`. */
  ghost predicate WellShaped(t: Tree) {
    match t
    case Leaf(_, _, _) => true
    case Paren(_, body, _) => WellShaped(body)
    case Node(op, l, r) =>
      && WellShaped(l) && WellShaped(r)
      && (forall o | o in TopOps(l) :: Tightness(op) <= Tightness(o))
      && (forall o | o in TopOps(r) :: Tightness(op) < Tightness(o))
  }

  predicate IsOpChar(c: char) { c in "+-*/&|<>" }

  ghost predicate Clean(name: string) {
    && Strip(name) == name
    && forall c | c in name :: !IsOpChar(c) && c != '(' && c != ')'
  }

  ghost predicate CleanTree(t: Tree) {
    match t
    case Leaf(pre, name, post) => Blank(pre) && Clean(name) && Blank(post)
    case Paren(pre, body, post) => Blank(pre) && CleanTree(body) && Blank(post)
    case Node(_, l, r) => CleanTree(l) && CleanTree(r)
  }

  /** The value of a tree: an exception for unknown names, negative shifts, and a negative
      value in parentheses, whose text begins with an operator. */
  function Value(t: Tree, env: Env): Option<int> {
    match t
    case Leaf(_, name, _) => Lookup(name, env)
    case Paren(_, body, _) =>
      var v := Value(body, env);
      if v.Some? && v.value < 0 then None else v
    case Node(op, l, r) => Computed(op, Value(l, env), Value(r, env))
  }

  /** Shifting is multiplying or dividing by a power of two, rounding down; a shift by a negative number
      raises an exception, and so does what has no whole value. */
  function Computed(op: Op, x: Option<int>, y: Option<int>): Option<int> {
    match (x, y)
    case (Some(a), Some(b)) => (
      match op
      case Plus => Some(a + b)
      case Minus => Some(a - b)
      case Times => Some(a * b)
      case Divide => None
      case BitAnd => Some(And(a, b))
      case BitOr => Some(Or(a, b))
      case ShiftRight => if b < 0 then None else Some(a / Pow2(b))
      case ShiftLeft => if b < 0 then None else Some(a * Pow2(b))
    )
    case _ => None
  }

  lemma CombineIs(op: Op, x: Option<int>, y: Option<int>)
    ensures Combine(op, x, y) == Computed(op, x, y)
  {
    if x.Some? && y.Some? && y.value >= 0 {
      ShrIs(x.value, y.value);
      ShlIs(x.value, y.value);
    }
  }

  /** No name is empty or a numeral, so that the text of a value is read back as the value. */
  ghost predicate PlainNames(env: Env) {
    && "" !in env.context && "" !in env.consts
    && forall s | IsNumeral(s) :: s !in env.context && s !in env.consts
  }
}
