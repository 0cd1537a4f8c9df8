/** Search filters as trees: printing, matching and simplifying. */
module FilterTree {

  datatype Op = And | Or | Not

  /** What the parser's actions build. Nothing is Python's None, Fill a white-space node; a filter
      that was built rather than parsed holds neither. */
  datatype Filter =
    | Item(attr: string, comp: string, val: string)
    | Group(op: Op, filters: seq<Filter>)
    | Nothing
    | Fill(text: string)

  predicate Proper(t: Filter)
    decreases t
  {
    t.Item? || (t.Group? && forall k | 0 <= k < |t.filters| :: Proper(t.filters[k]))
  }

  // -------------------------------------------------- printing

  function OpText(op: Op): (t: string)
    ensures |t| == 1
  {
    match op
    case And => "&"
    case Or => "|"
    case Not => "!"
  }

  /** to_string without indentation. */
  function Print(t: Filter): string
    decreases t
  {
    match t
    case Item(attr, comp, val) => "(" + attr + comp + val + ")"
    case Group(op, filters) => "(" + OpText(op) + PrintAll(filters) + ")"
    case Nothing => ""
    case Fill(text) => text
  }

  function PrintAll(ts: seq<Filter>): string
    decreases ts
  {
    if ts == [] then "" else Print(ts[0]) + PrintAll(ts[1..])
  }

  // -------------------------------------------------- matching

  /** match, given which items match the entry. */
  predicate Match(t: Filter, leaf: Filter -> bool)
    decreases t
  {
    match t
    case Group(And, fs) => AllMatch(fs, leaf)
    case Group(Or, fs) => AnyMatch(fs, leaf)
    case Group(Not, fs) => !AnyMatch(fs, leaf)
    case _ => leaf(t)
  }

  predicate AllMatch(ts: seq<Filter>, leaf: Filter -> bool)
    decreases ts
  {
    ts == [] || (Match(ts[0], leaf) && AllMatch(ts[1..], leaf))
  }

  predicate AnyMatch(ts: seq<Filter>, leaf: Filter -> bool)
    decreases ts
  {
    ts != [] && (Match(ts[0], leaf) || AnyMatch(ts[1..], leaf))
  }

  /** An And matches if all members do, an Or if one does, a Not if none does. */
  lemma MatchMeans(op: Op, fs: seq<Filter>, leaf: Filter -> bool)
    ensures Match(Group(And, fs), leaf) <==> forall k :: 0 <= k < |fs| ==> Match(fs[k], leaf)
    ensures Match(Group(Or, fs), leaf) <==> exists k :: 0 <= k < |fs| && Match(fs[k], leaf)
    ensures Match(Group(Not, fs), leaf) <==> forall k :: 0 <= k < |fs| ==> !Match(fs[k], leaf)
  {
    EachMatches(fs, leaf);
  }

  lemma {:induction false} EachMatches(fs: seq<Filter>, leaf: Filter -> bool)
    ensures AllMatch(fs, leaf) <==> forall k :: 0 <= k < |fs| ==> Match(fs[k], leaf)
    ensures AnyMatch(fs, leaf) <==> exists k :: 0 <= k < |fs| && Match(fs[k], leaf)
  {
    hide Match;
    if fs != [] {
      var rest := fs[1..];
      EachMatches(rest, leaf);
      assert forall k | 0 < k < |fs| :: fs[k] == rest[k - 1];
      if exists k :: 0 <= k < |rest| && Match(rest[k], leaf) {
        var k :| 0 <= k < |rest| && Match(rest[k], leaf);
        assert fs[k + 1] == rest[k];
      }
    }
  }

  // -------------------------------------------------- simplifying

  /** The filter that simplify leaves: a group of one gives way to its member, except a Not. */
  function Simplified(t: Filter): Filter
    decreases t
  {
    if !t.Group? || t.op.Not? || t.filters == [] then t
    else if |t.filters| == 1 then Simplified(t.filters[0])
    else Group(t.op, AllSimplified(t.filters))
  }

  function AllSimplified(ts: seq<Filter>): (us: seq<Filter>)
    ensures |us| == |ts|
    decreases ts
  {
    if ts == [] then [] else [Simplified(ts[0])] + AllSimplified(ts[1..])
  }

  lemma {:induction false} SimplifiedAt(ts: seq<Filter>, k: nat)
    requires k < |ts|
    ensures AllSimplified(ts)[k] == Simplified(ts[k])
  {
    if k > 0 {
      SimplifiedAt(ts[1..], k - 1);
      assert ts[1..][k - 1] == ts[k];
    }
  }

  lemma SimplifiedEach(ts: seq<Filter>)
    ensures forall k | 0 <= k < |ts| :: AllSimplified(ts)[k] == Simplified(ts[k])
  {
    forall k | 0 <= k < |ts| ensures AllSimplified(ts)[k] == Simplified(ts[k]) {
      SimplifiedAt(ts, k);
    }
  }

  /** Simplifying changes no match, whatever the items match. */
  lemma {:induction false} SimplifyKeepsMatch(t: Filter, leaf: Filter -> bool)
    ensures Match(Simplified(t), leaf) == Match(t, leaf)
    decreases t, 0
  {
    if t.Group? && !t.op.Not? && t.filters != [] {
      if |t.filters| == 1 {
        SimplifyKeepsMatch(t.filters[0], leaf);
        OneMember(t.filters, leaf);
      } else {
        SimplifyKeepsAll(t.filters, leaf);
      }
    }
  }

  lemma OneMember(ts: seq<Filter>, leaf: Filter -> bool)
    requires |ts| == 1
    ensures AllMatch(ts, leaf) == AnyMatch(ts, leaf) == Match(ts[0], leaf)
  {
    assert ts[1..] == [];
  }

  lemma {:induction false} SimplifyKeepsAll(ts: seq<Filter>, leaf: Filter -> bool)
    ensures AllMatch(AllSimplified(ts), leaf) == AllMatch(ts, leaf)
    ensures AnyMatch(AllSimplified(ts), leaf) == AnyMatch(ts, leaf)
    decreases ts, 1
  {
    if ts != [] {
      SimplifyKeepsMatch(ts[0], leaf);
      SimplifyKeepsAll(ts[1..], leaf);
      assert AllSimplified(ts)[1..] == AllSimplified(ts[1..]);
    }
  }

  /** No And or Or outside a Not has exactly one member. */
  predicate NoSingles(t: Filter)
    decreases t
  {
    !t.Group? || t.op.Not? || (|t.filters| != 1 && forall k | 0 <= k < |t.filters| :: NoSingles(t.filters[k]))
  }

  lemma {:induction false} SimplifyLeavesNoSingles(t: Filter)
    ensures NoSingles(Simplified(t))
    decreases t
  {
    if t.Group? && !t.op.Not? && t.filters != [] {
      if |t.filters| == 1 {
        SimplifyLeavesNoSingles(t.filters[0]);
      } else {
        forall k | 0 <= k < |t.filters| ensures NoSingles(AllSimplified(t.filters)[k]) {
          SimplifyLeavesNoSingles(t.filters[k]);
          SimplifiedAt(t.filters, k);
        }
      }
    }
  }

  /** Simplifying stops exactly at the filters without such groups; so doing it twice is doing it
      once. */
  lemma {:induction false} SimplifiedExactly(t: Filter)
    ensures Simplified(t) == t <==> NoSingles(t)
    decreases t
  {
    SimplifyLeavesNoSingles(t);
    if NoSingles(t) && t.Group? && !t.op.Not? && t.filters != [] {
      forall k | 0 <= k < |t.filters| ensures AllSimplified(t.filters)[k] == t.filters[k] {
        SimplifiedExactly(t.filters[k]);
        SimplifiedAt(t.filters, k);
      }
      assert AllSimplified(t.filters) == t.filters;
    }
  }

  lemma SimplifyTwice(t: Filter)
    ensures Simplified(Simplified(t)) == Simplified(t)
  {
    SimplifyLeavesNoSingles(t);
    SimplifiedExactly(Simplified(t));
  }

  // -------------------------------------------------- simplifying in place

  /** A filter object: an item, or a group whose list of filters simplify replaces. The ghost
      field tree is the filter that the object stands for. */
  class FilterObject {
    const group: bool
    const op: Op
    const attr: string
    const comp: string
    const val: string
    var filters: seq<FilterObject>
    ghost var tree: Filter
    ghost var repr: set<FilterObject>

    constructor MakeItem(attr: string, comp: string, val: string)
      ensures Valid() && fresh(repr) && tree == Item(attr, comp, val)
    {
      this.group, this.op, this.attr, this.comp, this.val := false, And, attr, comp, val;
      filters := [];
      tree := Item(attr, comp, val);
      repr := {this};
    }

    constructor MakeGroup(op: Op, filters: seq<FilterObject>)
      requires (forall k | 0 <= k < |filters| :: filters[k].Valid()) && Apart(filters)
      ensures Valid() && fresh(repr - Union(filters)) && tree == Group(op, Trees(filters))
    {
      this.group, this.op, this.attr, this.comp, this.val := true, op, "", "", "";
      this.filters := filters;
      tree := Group(op, Trees(filters));
      repr := {this} + Union(filters);
    }

    /** The objects below are valid and none is shared. */
    ghost predicate Valid()
      reads this, repr
      decreases repr
    {
      && this in repr && group == tree.Group?
      && (if group then tree.op == op && |tree.filters| == |filters|
          else tree == Item(attr, comp, val) && filters == [])
      && (forall k | 0 <= k < |filters| :: filters[k] in repr && filters[k].repr <= repr && this !in filters[k].repr)
      && (forall k | 0 <= k < |filters| :: filters[k].Valid() && filters[k].tree == tree.filters[k])
      && (forall j, k | 0 <= j < k < |filters| :: filters[j].repr !! filters[k].repr)
    }

    /** self.filters = simple */
    method Replace(simple: seq<FilterObject>, ghost parts: seq<set<FilterObject>>, ghost trees: seq<Filter>)
      requires group && this in repr && tree.Group? && tree.op == op && |trees| == |simple| == |parts|
      requires Disjoint(parts) && forall k | 0 <= k < |parts| :: parts[k] <= repr - {this}
      requires forall k | 0 <= k < |simple| :: Within(simple[k], parts[k], trees[k])
      modifies this
      ensures Valid() && tree == Group(op, trees) && repr == old(repr)
    {
      filters := simple;
      tree := Group(op, trees);
      assert forall k | 0 <= k < |simple| :: Within(simple[k], parts[k], trees[k]);
    }

    /** Simplify works on the tree in place: it gives an object of the tree that stands for the
        simplified filter. */
    method Simplify() returns (f: FilterObject)
      requires Valid()
      modifies repr
      ensures f.Valid() && f in old(repr) && f.repr <= old(repr)
      ensures f.tree == Simplified(old(tree))
      decreases repr, 0
    {
      hide AllSimplified;
      f := this;
      if group && op != Not && filters != [] {
        if |filters| == 1 {
          f := filters[0].Simplify();
        } else {
          ghost var parts, trees := Parts(filters), tree.filters;
          var simple := SimplifyEach(filters, parts, trees);
          SimplifiedEach(trees);
          Replace(simple, parts, AllSimplified(trees));
        }
      }
    }
  }

  /** The object stands for a filter and owns exactly, or at most, these objects. */
  ghost predicate Owns(f: FilterObject, part: set<FilterObject>, tree: Filter)
    reads f, f.repr
  {
    f.Valid() && f in part && f.repr == part && f.tree == tree
  }

  ghost predicate Within(f: FilterObject, part: set<FilterObject>, tree: Filter)
    reads f, f.repr
  {
    f.Valid() && f in part && f.repr <= part && f.tree == tree
  }

  ghost predicate Disjoint(parts: seq<set<FilterObject>>) {
    forall j, k | 0 <= j < k < |parts| :: parts[j] !! parts[k]
  }

  ghost function Flat(parts: seq<set<FilterObject>>): set<FilterObject> {
    set k, o | 0 <= k < |parts| && o in parts[k] :: o
  }

  /** Every filter of a list, simplified. */
  method SimplifyEach(fs: seq<FilterObject>, ghost parts: seq<set<FilterObject>>, ghost trees: seq<Filter>)
      returns (simple: seq<FilterObject>)
    requires |fs| == |parts| == |trees| && Disjoint(parts)
    requires forall k | 0 <= k < |fs| :: Owns(fs[k], parts[k], trees[k])
    modifies Flat(parts)
    ensures |simple| == |fs|
    ensures forall k | 0 <= k < |fs| :: Within(simple[k], parts[k], Simplified(trees[k]))
    decreases Flat(parts), 1
  {
    hide FilterObject.Valid, Simplified;
    simple := [];
    for i := 0 to |fs|
      invariant |simple| == i
      invariant forall k | 0 <= k < i :: Within(simple[k], parts[k], Simplified(trees[k]))
      invariant forall k | i <= k < |fs| :: Owns(fs[k], parts[k], trees[k])
    {
      assert parts[i] <= Flat(parts);
      assert Owns(fs[i], parts[i], trees[i]);
      var g := fs[i].Simplify();
      assert Within(g, parts[i], Simplified(trees[i]));
      simple := simple + [g];
    }
  }

  ghost function Parts(fs: seq<FilterObject>): (ps: seq<set<FilterObject>>)
    reads fs
    ensures |ps| == |fs| && forall k | 0 <= k < |fs| :: ps[k] == fs[k].repr
  {
    if fs == [] then [] else [fs[0].repr] + Parts(fs[1..])
  }

  ghost predicate Apart(fs: seq<FilterObject>)
    reads fs
  {
    forall j, k | 0 <= j < k < |fs| :: fs[j].repr !! fs[k].repr
  }

  ghost function Union(fs: seq<FilterObject>): set<FilterObject>
    reads fs
  {
    set k, o | 0 <= k < |fs| && o in fs[k].repr :: o
  }

  ghost function Trees(fs: seq<FilterObject>): (ts: seq<Filter>)
    reads fs
    ensures |ts| == |fs| && forall k | 0 <= k < |fs| :: ts[k] == fs[k].tree
  {
    if fs == [] then [] else [fs[0].tree] + Trees(fs[1..])
  }
}
