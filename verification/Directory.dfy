/** The tree of distinguished names that children are looked up in, against the flat table of
    names. Names are compared in upper case; the tree branches on their components, last first. */
module Directory {
  import opened Bytes
  import opened Text

  // -------------------------------------------------- components

  /** str.split(",") */
  function Split(s: string): (ps: seq<string>)
    ensures ps != [] && forall p | p in ps :: ',' !in p
  {
    if s == "" then [""]
    else
      var ps := Split(s[1..]);
      if s[0] == ',' then [""] + ps else [[s[0]] + ps[0]] + ps[1..]
  }

  /** ",".join */
  function Join(ps: seq<string>): string {
    if ps == [] then "" else if |ps| == 1 then ps[0] else ps[0] + "," + Join(ps[1..])
  }

  function ReverseComponents(dn: string): string { Upper(Join(Reverse(Split(dn)))) }

  /** What explode_dn gives for the rest of a text, with the part begun and whether the character
      before was a backslash that escapes. */
  function ExplodeFrom(s: string, esc: bool, part: string): seq<string> {
    if s == "" then (if part != "" then [part] else [])
    else if esc then ExplodeFrom(s[1..], false, part + [s[0]])
    else if s[0] == '\\' then ExplodeFrom(s[1..], true, part + [s[0]])
    else if s[0] == ',' then (if part != "" then [part] else []) + ExplodeFrom(s[1..], false, "")
    else ExplodeFrom(s[1..], false, part + [s[0]])
  }

  method ExplodeDn(dn: string) returns (parts: seq<string>)
    ensures parts == ExplodeFrom(dn, false, "")
  {
    parts := [];
    var esc := false;
    var part := "";
    assert dn[0..] == dn;
    for i := 0 to |dn|
      invariant parts + ExplodeFrom(dn[i..], esc, part) == ExplodeFrom(dn, false, "")
    {
      var c := dn[i];
      assert dn[i..][0] == c && dn[i..][1..] == dn[i + 1..];
      if esc {
        part := part + [c];
        esc := false;
      } else if c == '\\' {
        esc := true;
        part := part + [c];
      } else if c == ',' {
        if part != "" {
          Regroup(parts, part, ExplodeFrom(dn[i + 1..], false, ""));
          parts := parts + [part];
          part := "";
        }
      } else {
        part := part + [c];
      }
    }
    assert dn[|dn|..] == "";
    if part != "" {
      parts := parts + [part];
    }
  }

  lemma Regroup(a: seq<string>, p: string, b: seq<string>)
    ensures a + ([p] + b) == a + [p] + b
  {}

  /** Where a name stands in the tree. */
  function PathOf(dn: string): seq<string> { ExplodeFrom(ReverseComponents(dn), false, "") }

  lemma {:induction false} PartsUpper(s: string, esc: bool, part: string)
    requires IsUpper(s) && IsUpper(part)
    ensures forall p | p in ExplodeFrom(s, esc, part) :: IsUpper(p)
    decreases |s|
  {
    if s != "" {
      assert s[0] in s && forall c | c in s[1..] :: c in s;
      PartsUpper(s[1..], false, part + [s[0]]);
      PartsUpper(s[1..], true, part + [s[0]]);
      PartsUpper(s[1..], false, "");
    }
  }

  lemma PathUpper(dn: string)
    ensures forall p | p in PathOf(dn) :: Upper(p) == p
  {
    hide ExplodeFrom;
    var s := ReverseComponents(dn);
    UpperIsUpper(Join(Reverse(Split(dn))));
    PartsUpper(s, false, "");
    forall p | p in PathOf(dn) ensures Upper(p) == p { UpperIsUpper(p); }
  }

  // -------------------------------------------------- the tree

  /** The path stands in the tree of these names: it is the beginning of the path of one. */
  ghost predicate InTree(path: seq<string>, dns: seq<string>) {
    path == [] || exists d :: d in dns && Begins(path, PathOf(d))
  }

  predicate Begins(path: seq<string>, whole: seq<string>) { path <= whole }

  type Branches = seq<map<string, nat>>

  /** Nested dictionaries, one for each path; up has the one that each is in. */
  ghost predicate Nested(bs: Branches, paths: seq<seq<string>>, up: seq<nat>) {
    && |bs| == |paths| == |up| > 0 && paths[0] == []
    && Led(bs, paths) && Distinct(paths)
    && (forall m | 0 < m < |paths| :: up[m] < m && Hangs(bs, paths[m], up[m], m))
  }

  /** A component leads from a path to the path with it. */
  predicate Led(bs: Branches, paths: seq<seq<string>>)
    requires |bs| == |paths|
  {
    forall n, p | 0 <= n < |bs| && p in bs[n] :: bs[n][p] < |bs| && paths[bs[n][p]] == paths[n] + [p]
  }

  predicate Distinct(paths: seq<seq<string>>) { forall i, j | 0 <= i < j < |paths| :: paths[i] != paths[j] }

  /** The dictionary m is in the dictionary n. */
  predicate Hangs(bs: Branches, path: seq<string>, n: nat, m: nat) {
    n < |bs| && path != [] && path[|path| - 1] in bs[n] && bs[n][path[|path| - 1]] == m
  }

  lemma Above(bs: Branches, paths: seq<seq<string>>, up: seq<nat>, m: nat)
    requires Nested(bs, paths, up) && 0 < m < |paths|
    ensures up[m] < m && Hangs(bs, paths[m], up[m], m) && paths[m] == paths[up[m]] + [paths[m][|paths[m]| - 1]]
  {
    assert Hangs(bs, paths[m], up[m], m);
  }

  lemma Unsnoc(a: seq<string>, x: string, b: seq<string>, y: string)
    requires a + [x] == b + [y]
    ensures a == b && x == y
  {
    assert a == (a + [x])[..|a|] && b == (b + [y])[..|b|];
    assert x == (a + [x])[|a|] && y == (b + [y])[|b|];
  }

  /** A path has a dictionary if and only if its last component is in the dictionary above. */
  lemma BranchExactly(bs: Branches, paths: seq<seq<string>>, up: seq<nat>, n: nat, part: string)
    requires Nested(bs, paths, up) && n < |bs|
    ensures part in bs[n] <==> paths[n] + [part] in paths
  {
    if paths[n] + [part] in paths {
      var m :| 0 <= m < |paths| && paths[m] == paths[n] + [part];
      assert m != 0;
      Above(bs, paths, up, m);
      Unsnoc(paths[n], part, paths[up[m]], paths[m][|paths[m]| - 1]);
      assert up[m] == n;
    }
  }

  /** A new empty dictionary in another: branch[part] = {} */
  function Branched(bs: Branches, n: nat, part: string): Branches
    requires n < |bs|
  {
    var added: nat := |bs|;
    var more: map<string, nat> := bs[n][part := added];
    bs[n := more] + [map[]]
  }

  lemma Grow(bs: Branches, paths: seq<seq<string>>, up: seq<nat>, n: nat, part: string)
    requires Nested(bs, paths, up) && n < |bs| && part !in bs[n]
    ensures Nested(Branched(bs, n, part), paths + [paths[n] + [part]], up + [n])
  {
    BranchExactly(bs, paths, up, n, part);
    GrowLed(bs, paths, n, part);
    hide Led, Distinct, Branched;
    GrowDistinct(paths, paths[n] + [part]);
    forall m | 0 < m < |paths| + 1
      ensures (up + [n])[m] < m && Hangs(Branched(bs, n, part), (paths + [paths[n] + [part]])[m], (up + [n])[m], m)
    {
      if m < |paths| { GrowHangs(bs, n, part, paths[m], up[m], m); }
    }
  }

  lemma GrowLed(bs: Branches, paths: seq<seq<string>>, n: nat, part: string)
    requires |bs| == |paths| && Led(bs, paths) && n < |bs|
    ensures |Branched(bs, n, part)| == |bs| + 1 && Led(Branched(bs, n, part), paths + [paths[n] + [part]])
    ensures Hangs(Branched(bs, n, part), paths[n] + [part], n, |bs|)
  {
    var bs', paths' := Branched(bs, n, part), paths + [paths[n] + [part]];
    forall i, p | 0 <= i < |bs'| && p in bs'[i] ensures bs'[i][p] < |bs'| && paths'[bs'[i][p]] == paths'[i] + [p] {}
  }

  lemma GrowDistinct(paths: seq<seq<string>>, path: seq<string>)
    requires Distinct(paths) && path !in paths
    ensures Distinct(paths + [path])
  {}

  lemma GrowHangs(bs: Branches, n: nat, part: string, path: seq<string>, k: nat, m: nat)
    requires n < |bs| && part !in bs[n] && Hangs(bs, path, k, m)
    ensures Hangs(Branched(bs, n, part), path, k, m)
  {}

  class DirectoryIndex {
    var dns: seq<string>
    /** The nested dictionaries of DNs_sorted, the outermost first; paths has where each stands. */
    var branches: Branches
    ghost var paths: seq<seq<string>>
    ghost var up: seq<nat>

    constructor (dns: seq<string>)
      ensures Valid() && this.dns == dns && paths == [[]]
    {
      this.dns, branches, paths, up := dns, [map[]], [[]], [0];
    }

    ghost predicate Valid()
      reads this
    {
      Nested(branches, paths, up)
    }

    /** One turn of the loop over the components of a name. */
    method Descend(branch: nat, part: string) returns (next: nat)
      requires Valid() && branch < |branches| && Upper(part) == part
      modifies this`branches, this`paths, this`up
      ensures Valid() && |old(branches)| <= |branches| && next < |branches|
          && paths[next] == old(paths)[branch] + [part]
      ensures forall path :: path in paths <==> path in old(paths) || path == old(paths)[branch] + [part]
    {
      BranchExactly(branches, paths, up, branch, part);
      if part !in branches[branch] {
        Grow(branches, paths, up, branch, part);
        branches := Branched(branches, branch, Upper(part));
        paths := paths + [paths[branch] + [part]];
        up := up + [branch];
      }
      next := branches[branch][Upper(part)];
    }

    /** The loops at the end of dump_lookuptable. */
    method Build()
      requires Valid() && paths == [[]]
      modifies this`branches, this`paths, this`up
      ensures Valid() && forall path :: path in paths <==> InTree(path, dns)
    {
      NoneInTree();
      for i := 0 to |dns|
        invariant Valid() && forall path :: path in paths <==> InTree(path, dns[..i])
      {
        var parts := ExplodeDn(ReverseComponents(dns[i]));
        PathUpper(dns[i]);
        var branch: nat := 0;
        for j := 0 to |parts|
          invariant Valid() && branch < |branches| && paths[branch] == parts[..j]
          invariant forall path :: path in paths <==> InTree(path, dns[..i]) || Begins(path, parts[..j])
        {
          branch := Descend(branch, parts[j]);
          LongerPrefix(parts, j);
        }
        assert parts[..|parts|] == parts;
        OneMoreName(dns, i);
      }
      assert dns[..|dns|] == dns;
    }

    /** lookup_dn_children up to the names of the candidates. */
    method LookupChildren(name: string) returns (children: set<string>)
      requires Valid() && forall path :: path in paths <==> InTree(path, dns)
      ensures Upper(name) !in dns ==> children == {}
      ensures Upper(name) in dns ==> forall c :: c in children <==> IsCandidate(c, Upper(name), dns)
    {
      var parent := Upper(name);
      if parent !in dns {
        return {};
      }
      var parts := ExplodeDn(ReverseComponents(parent));
      assert PathOf(parent) == parts;
      hide PathOf, InTree, IsCandidate, Nested;
      var branch: nat := 0;
      RootPath(branches, paths, up);
      assert parts[..0] == [];
      for level := 0 to |parts|
        invariant branch < |branches| && paths[branch] == parts[..level]
      {
        ListedIsThere(branches, paths, up, branch, dns, parent, level);
        // "Part not found": no listed name comes here.
        if parts[level] !in branches[branch] {
          assert false;
        }
        branch := branches[branch][parts[level]];
      }
      assert parts[..|parts|] == parts;
      children := set part | part in branches[branch] :: part + "," + parent;
      CandidatesAre(branches, paths, up, branch, dns, parent, children);
    }
  }

  lemma RootPath(bs: Branches, paths: seq<seq<string>>, up: seq<nat>)
    requires Nested(bs, paths, up)
    ensures |bs| == |paths| > 0 && paths[0] == []
  {}

  /** The components of a listed name are all there: the lookup finds every one. */
  lemma ListedIsThere(bs: Branches, paths: seq<seq<string>>, up: seq<nat>, n: nat, dns: seq<string>, dn: string,
      level: nat)
    requires Nested(bs, paths, up) && (forall path :: path in paths <==> InTree(path, dns))
    requires dn in dns && level < |PathOf(dn)| && n < |bs| && n < |paths| && paths[n] == PathOf(dn)[..level]
    ensures var part := PathOf(dn)[level];
            part in bs[n] && bs[n][part] < |bs| && bs[n][part] < |paths|
                && paths[bs[n][part]] == PathOf(dn)[..level + 1]
  {
    hide PathOf;
    var whole := PathOf(dn);
    assert whole[..level + 1] == whole[..level] + [whole[level]];
    assert Begins(whole[..level + 1], whole);
    assert InTree(whole[..level + 1], dns);
    BranchExactly(bs, paths, up, n, whole[level]);
  }

  lemma CandidatesAre(bs: Branches, paths: seq<seq<string>>, up: seq<nat>, n: nat, dns: seq<string>, parent: string,
      children: set<string>)
    requires Nested(bs, paths, up) && (forall path :: path in paths <==> InTree(path, dns))
    requires n < |bs| && n < |paths| && paths[n] == PathOf(parent)
    requires children == set part | part in bs[n] :: part + "," + parent
    ensures forall c :: c in children <==> IsCandidate(c, parent, dns)
  {
    hide PathOf, InTree, Nested;
    forall part ensures part in bs[n] <==> InTree(PathOf(parent) + [part], dns) {
      BranchExactly(bs, paths, up, n, part);
    }
  }

  /** The component c stands under in the tree is one below the parent's path. */
  ghost predicate IsCandidate(c: string, parent: string, dns: seq<string>) {
    exists part :: c == part + "," + parent && InTree(PathOf(parent) + [part], dns)
  }

  lemma NoneInTree()
    ensures forall path :: path in [[]] <==> InTree(path, [])
  {}

  lemma LongerPrefix(parts: seq<string>, j: nat)
    requires j < |parts|
    ensures parts[..j + 1] == parts[..j] + [parts[j]]
    ensures forall path :: Begins(path, parts[..j + 1]) <==> Begins(path, parts[..j]) || path == parts[..j + 1]
  {}

  lemma OneMoreName(dns: seq<string>, i: nat)
    requires i < |dns|
    ensures forall path :: InTree(path, dns[..i + 1]) <==> InTree(path, dns[..i]) || Begins(path, PathOf(dns[i]))
  {
    hide PathOf;
    assert dns[..i + 1] == dns[..i] + [dns[i]];
  }

  // -------------------------------------------------- splitting, reversing and joining

  lemma SplitCons(c: char, s: string)
    ensures c == ',' ==> Split([c] + s) == [""] + Split(s)
    ensures c != ',' ==> Split([c] + s) == [[c] + Split(s)[0]] + Split(s)[1..]
  {
    assert ([c] + s)[1..] == s;
  }

  lemma {:induction false} SplitParts(a: string, b: string)
    ensures Split(a + "," + b) == Split(a) + Split(b)
    decreases |a|
  {
    hide Split;
    if a == "" {
      assert a + "," + b == [','] + b;
      SplitCons(',', b);
      NoComma("");
    } else {
      var c, rest := a[0], a[1..];
      SplitParts(rest, b);
      SplitCons(c, rest);
      SplitCons(c, rest + "," + b);
      assert a == [c] + rest && a + "," + b == [c] + (rest + "," + b);
      var ps := Split(rest);
      assert (ps + Split(b))[0] == ps[0] && (ps + Split(b))[1..] == ps[1..] + Split(b);
    }
  }

  lemma {:induction false} NoComma(s: string)
    requires ',' !in s
    ensures Split(s) == [s]
  {
    if s != "" {
      NoComma(s[1..]);
      assert s == [s[0]] + s[1..] && s[0] in s;
    }
  }

  lemma {:induction false} ReverseParts(a: seq<string>, b: seq<string>)
    ensures Reverse(a + b) == Reverse(b) + Reverse(a)
  {
    if a == [] {
      assert a + b == b && Reverse(b) + [] == Reverse(b);
    } else {
      assert (a + b)[1..] == a[1..] + b;
      ReverseParts(a[1..], b);
      assert Reverse(b) + Reverse(a[1..]) + [a[0]] == Reverse(b) + (Reverse(a[1..]) + [a[0]]);
    }
  }

  lemma {:induction false} JoinParts(a: seq<string>, b: seq<string>)
    requires a != [] && b != []
    ensures Join(a + b) == Join(a) + "," + Join(b)
    decreases |a|
  {
    assert (a + b)[0] == a[0] && (a + b)[1..] == a[1..] + b;
    if |a| == 1 {
      assert a[1..] + b == b;
    } else {
      JoinParts(a[1..], b);
      assert a[0] + "," + (Join(a[1..]) + "," + Join(b)) == a[0] + "," + Join(a[1..]) + "," + Join(b);
    }
  }

  lemma {:induction false} UpperParts(a: string, b: string)
    ensures Upper(a + b) == Upper(a) + Upper(b)
  {
    forall k | 0 <= k < |a + b| ensures Upper(a + b)[k] == (Upper(a) + Upper(b))[k] {}
    assert Upper(a + b) == Upper(a) + Upper(b);
  }

  /** Reversing swaps the two sides of any comma, escaped or not. */
  lemma ReversedParts(a: string, b: string)
    ensures ReverseComponents(a + "," + b) == ReverseComponents(b) + "," + ReverseComponents(a)
  {
    hide Split, Reverse, Join, Upper;
    SplitParts(a, b);
    ReverseParts(Split(a), Split(b));
    var x, y := Reverse(Split(a)), Reverse(Split(b));
    JoinParts(y, x);
    UpperParts(Join(y) + ",", Join(x));
    UpperParts(Join(y), ",");
    assert Upper(",") == "," by { UpperComma(); }
  }

  lemma UpperComma()
    ensures Upper(",") == ","
  {
    assert ","[1..] == "";
  }

  lemma ReversedOne(s: string)
    requires ',' !in s
    ensures ReverseComponents(s) == Upper(s)
  {
    hide Upper;
    NoComma(s);
    assert [s][1..] == [] && Reverse([s]) == [s];
  }

  lemma LastComma(s: string) returns (a: string, b: string)
    requires ',' in s
    ensures s == a + "," + b && ',' !in b
  {
    var k := |s| - 1;
    while s[k] != ','
      invariant 0 <= k < |s| && ',' !in s[k + 1..] && ',' in s[..k + 1]
      decreases k
    {
      assert s[..k + 1] == s[..k] + [s[k]] && s[k..] == [s[k]] + s[k + 1..];
      k := k - 1;
    }
    a, b := s[..k], s[k + 1..];
  }

  lemma {:induction false} ReversedSize(s: string)
    ensures |ReverseComponents(s)| == |s|
    decreases |s|
  {
    hide ReverseComponents;
    if ',' in s {
      var a, b := LastComma(s);
      ReversedParts(a, b);
      ReversedOne(b);
      ReversedSize(a);
    } else {
      ReversedOne(s);
    }
  }

  // -------------------------------------------------- escapes

  /** Whether the character behind this text would be escaped. */
  predicate Escapes(s: string, esc: bool) {
    if s == "" then esc else Escapes(s[1..], !esc && s[0] == '\\')
  }

  lemma {:induction false} EscapesBehind(a: string, b: string, esc: bool)
    ensures Escapes(a + b, esc) == Escapes(b, Escapes(a, esc))
  {
    if a == "" {
      assert a + b == b;
    } else {
      assert (a + b)[1..] == a[1..] + b;
      EscapesBehind(a[1..], b, !esc && a[0] == '\\');
    }
  }

  /** A comma ends any escape. */
  lemma EscapesLast(a: string, b: string)
    ensures Escapes(a + "," + b, false) == Escapes(b, false)
  {
    EscapesBehind(a + ",", b, false);
    EscapesBehind(a, ",", false);
    assert ","[1..] == "";
  }

  lemma {:induction false} EscapesUpper(s: string, esc: bool)
    ensures Escapes(Upper(s), esc) == Escapes(s, esc)
  {
    if s != "" {
      EscapesUpper(s[1..], !esc && s[0] == '\\');
      assert Upper(s)[1..] == Upper(s[1..]);
    }
  }

  /** Reversed, a name ends with its first component. */
  lemma EscapesReversed(dn: string)
    ensures Escapes(ReverseComponents(dn), false) == Escapes(Split(dn)[0], false)
  {
    hide ReverseComponents, Split, Escapes, Upper;
    if ',' in dn {
      var a, b := FirstComma(dn);
      SplitParts(a, b);
      NoComma(a);
      ReversedParts(a, b);
      ReversedOne(a);
      EscapesLast(ReverseComponents(b), Upper(a));
      EscapesUpper(a, false);
    } else {
      NoComma(dn);
      ReversedOne(dn);
      EscapesUpper(dn, false);
    }
  }

  lemma FirstComma(s: string) returns (a: string, b: string)
    requires ',' in s
    ensures s == a + "," + b && ',' !in a
  {
    var k := 0;
    while s[k] != ','
      invariant 0 <= k < |s| && ',' !in s[..k] && ',' in s[k..]
      decreases |s| - k
    {
      assert s[..k + 1] == s[..k] + [s[k]] && s[k..] == [s[k]] + s[k + 1..];
      k := k + 1;
    }
    a, b := s[..k], s[k + 1..];
  }

  // -------------------------------------------------- exploding

  /** A comma that is not escaped separates. */
  lemma {:induction false} ExplodeApart(a: string, b: string, esc: bool, part: string)
    requires !Escapes(a, esc)
    ensures ExplodeFrom(a + "," + b, esc, part) == ExplodeFrom(a, esc, part) + ExplodeFrom(b, false, "")
    decreases |a|
  {
    var s := a + "," + b;
    if a == "" {
      assert s == "," + b && s[1..] == b;
    } else {
      assert s[1..] == a[1..] + "," + b && s[0] == a[0];
      var esc' := !esc && a[0] == '\\';
      if !esc && a[0] == ',' {
        ExplodeApart(a[1..], b, false, "");
      } else {
        ExplodeApart(a[1..], b, esc', part + [a[0]]);
      }
    }
  }

  lemma {:induction false} EscapedPart(a: string, esc: bool, part: string)
    requires Escapes(a, esc) && (esc ==> part != "")
    ensures ExplodeFrom(a, esc, part) != []
    decreases |a|
  {
    if a != "" {
      if !esc && a[0] == ',' { EscapedPart(a[1..], false, ""); }
      else { EscapedPart(a[1..], !esc && a[0] == '\\', part + [a[0]]); }
    }
  }

  function Front(ps: seq<string>): seq<string>
    requires ps != []
  {
    ps[..|ps| - 1]
  }

  function Back(ps: seq<string>): string
    requires ps != []
  {
    ps[|ps| - 1]
  }

  /** An escaped comma makes what is behind it a part of the component before it. */
  lemma {:induction false} ExplodeOn(a: string, b: string, esc: bool, part: string)
    requires Escapes(a, esc) && (esc ==> part != "")
    ensures var ps := ExplodeFrom(a, esc, part);
            ps != [] && ExplodeFrom(a + "," + b, esc, part) == Front(ps) + ExplodeFrom(b, false, Back(ps) + ",")
    decreases |a|
  {
    EscapedPart(a, esc, part);
    var s := a + "," + b;
    if a == "" {
      assert s == "," + b && s[1..] == b;
      assert ExplodeFrom(a, esc, part) == [part];
    } else {
      assert s[1..] == a[1..] + "," + b && s[0] == a[0];
      if !esc && a[0] == ',' {
        EscapedPart(a[1..], false, "");
        ExplodeOn(a[1..], b, false, "");
        ExplodeOnApart(part, ExplodeFrom(a[1..], false, ""), b);
      } else {
        ExplodeOn(a[1..], b, !esc && a[0] == '\\', part + [a[0]]);
      }
    }
  }

  lemma ExplodeOnApart(part: string, ps: seq<string>, b: string)
    requires ps != []
    ensures var qs := (if part != "" then [part] else []) + ps;
            && qs != [] && Back(qs) == Back(ps)
            && Front(qs) + ExplodeFrom(b, false, Back(qs) + ",")
               == (if part != "" then [part] else []) + (Front(ps) + ExplodeFrom(b, false, Back(ps) + ","))
  {
    var h: seq<string> := if part != "" then [part] else [];
    assert Front(h + ps) == h + Front(ps);
    assert h + Front(ps) + ExplodeFrom(b, false, Back(ps) + ",")
        == h + (Front(ps) + ExplodeFrom(b, false, Back(ps) + ","));
  }

  lemma {:induction false} ExplodeOne(c: string, esc: bool, part: string)
    requires ',' !in c
    ensures ExplodeFrom(c, esc, part) == if part + c == "" then [] else [part + c]
    decreases |c|
  {
    if c == "" {
      assert part + c == part;
    } else {
      assert c[0] in c && part + [c[0]] + c[1..] == part + c;
      ExplodeOne(c[1..], !esc && c[0] == '\\', part + [c[0]]);
    }
  }

  /** A component that has begun goes on. */
  lemma {:induction false} ExplodeBegun(s: string, esc: bool, part: string)
    requires part != ""
    ensures ExplodeFrom(s, esc, part) != [] && part <= ExplodeFrom(s, esc, part)[0]
    decreases |s|
  {
    if s != "" && (esc || s[0] != ',') {
      ExplodeBegun(s[1..], !esc && s[0] == '\\', part + [s[0]]);
    }
  }

  /** No component is longer than the text. */
  lemma {:induction false} ExplodedSize(s: string, esc: bool, part: string)
    ensures forall p | p in ExplodeFrom(s, esc, part) :: p != "" && |p| <= |part| + |s|
    decreases |s|
  {
    if s != "" {
      ExplodedSize(s[1..], false, "");
      ExplodedSize(s[1..], !esc && s[0] == '\\', part + [s[0]]);
    }
  }

  // -------------------------------------------------- where a child hangs

  /** A component with a comma, however that is escaped, comes back in pieces. */
  lemma PiecesAreShorter(c: string, p: string)
    requires ',' in c && !Escapes(c, false) && p in ExplodeFrom(ReverseComponents(c), false, "")
    ensures |p| < |c|
  {
    hide ReverseComponents, ExplodeFrom, Escapes, Upper;
    var a, b := LastComma(c);
    ReversedParts(a, b);
    ReversedOne(b);
    EscapesLast(a, b);
    EscapesUpper(b, false);
    ExplodeApart(Upper(b), ReverseComponents(a), false, "");
    ExplodedSize(Upper(b), false, "");
    ExplodedSize(ReverseComponents(a), false, "");
    ReversedSize(a);
  }

  /** Where a name with the component c in front of a parent stands. Where the first comma of the
      parent is escaped, it does not stand below the parent but beside it: its component becomes a
      part of the parent's own. */
  lemma ChildPathIs(c: string, parent: string)
    ensures !Escapes(Split(parent)[0], false) ==>
              PathOf(c + "," + parent) == PathOf(parent) + ExplodeFrom(ReverseComponents(c), false, "")
    ensures Escapes(Split(parent)[0], false) ==>
              && PathOf(parent) != []
              && PathOf(c + "," + parent)
                 == Front(PathOf(parent)) + ExplodeFrom(ReverseComponents(c), false, Back(PathOf(parent)) + ",")
  {
    hide ReverseComponents, ExplodeFrom, Escapes, Split;
    ReversedParts(c, parent);
    EscapesReversed(parent);
    var r := ReverseComponents(parent);
    if Escapes(r, false) {
      ExplodeOn(r, ReverseComponents(c), false, "");
    } else {
      ExplodeApart(r, ReverseComponents(c), false, "");
    }
  }

  /** A name that puts one well-escaped component in front of a parent hangs right below the parent
      if and only if there is no comma in the component and the parent's own first comma is not
      escaped; in all other cases the parent with that component is not even the beginning of its
      path. Other escapes do no harm. */
  lemma ChildPath(c: string, parent: string)
    requires c != "" && !Escapes(c, false)
    ensures var right := ',' !in c && !Escapes(Split(parent)[0], false);
            && (PathOf(c + "," + parent) == PathOf(parent) + [Upper(c)] <==> right)
            && (Begins(PathOf(parent) + [Upper(c)], PathOf(c + "," + parent)) <==> right)
  {
    hide ReverseComponents, ExplodeFrom, Escapes, Split, PathOf;
    ChildPathIs(c, parent);
    var path, whole := PathOf(parent), PathOf(c + "," + parent);
    var more := ExplodeFrom(ReverseComponents(c), false, "");
    if Escapes(Split(parent)[0], false) {
      var last := Back(path) + ",";
      ExplodeBegun(ReverseComponents(c), false, last);
      assert whole[|path| - 1] == ExplodeFrom(ReverseComponents(c), false, last)[0];
      Differs(path + [Upper(c)], whole, |path| - 1);
    } else if ',' in c {
      forall p | p in more ensures |p| < |c| { PiecesAreShorter(c, p); }
      if |path| < |whole| { assert whole[|path|] == more[0]; }
      Differs(path + [Upper(c)], whole, |path|);
    } else {
      ReversedOne(c);
      ExplodeOne(Upper(c), false, "") by { UpperNoComma(c); }
      assert "" + Upper(c) == Upper(c);
    }
  }

  lemma Differs(a: seq<string>, b: seq<string>, n: nat)
    requires n < |a| && (n < |b| ==> a[n] != b[n])
    ensures !Begins(a, b) && a != b
  {}

  lemma UpperNoComma(c: string)
    requires ',' !in c
    ensures ',' !in Upper(c)
  {
    forall k | 0 <= k < |c| ensures Upper(c)[k] != ',' { assert c[k] in c; }
  }

  /** An escaped comma: the component comes back in two, the second half first. */
  lemma EscapedCommaIsMisplaced(x: string, y: string, parent: string)
    requires ',' !in x && ',' !in y && y != "" && !Escapes(y, false) && !Escapes(Split(parent)[0], false)
    ensures PathOf(x + "\\" + "," + y + "," + parent) == PathOf(parent) + [Upper(y), Upper(x + "\\")]
  {
    hide ReverseComponents, ExplodeFrom, Escapes, Split, PathOf, Upper;
    var a := x + "\\";
    ChildPathIs(a + "," + y, parent);
    ReversedParts(a, y);
    ReversedOne(a);
    ReversedOne(y);
    EscapesUpper(y, false);
    ExplodeApart(Upper(y), Upper(a), false, "");
    UpperNoComma(y);
    UpperNoComma(a);
    ExplodeOne(Upper(y), false, "");
    ExplodeOne(Upper(a), false, "");
    assert "" + Upper(y) == Upper(y) && "" + Upper(a) == Upper(a);
    assert a + "," + y + "," + parent == x + "\\" + "," + y + "," + parent;
  }

  // -------------------------------------------------- the tree and the table

  /** No comma of the name is escaped. */
  predicate Tidy(dn: string) { forall p | p in Split(dn) :: !Escapes(p, false) }

  lemma TidyParts(a: string, b: string)
    requires Tidy(a + "," + b)
    ensures Tidy(a) && Tidy(b)
  {
    SplitParts(a, b);
    hide Split, Escapes;
    assert forall p | p in Split(a) :: p in Split(a) + Split(b);
    assert forall p | p in Split(b) :: p in Split(a) + Split(b);
  }

  /** Then no component of its path has a comma. */
  lemma {:induction false} TidyPath(dn: string)
    requires Tidy(dn)
    ensures forall p | p in PathOf(dn) :: p != "" && ',' !in p
    decreases |dn|
  {
    hide ReverseComponents, ExplodeFrom, Escapes, Split, Upper;
    if ',' in dn {
      var a, b := FirstComma(dn);
      TidyParts(a, b);
      TidyPath(b);
      TidyPath(a);
      ChildPathIs(a, b);
    } else {
      ReversedOne(dn);
      UpperNoComma(dn);
      ExplodeOne(Upper(dn), false, "");
      assert "" + Upper(dn) == Upper(dn);
    }
  }

  ghost predicate IsChild(dn: string, parent: string) { exists c :: c != "" && ',' !in c && dn == c + "," + parent }

  /** The tree agrees with the flat table, whose names are in upper case: in a table without escaped
      commas, a listed name is a candidate for a parent if and only if it is the parent with one
      component in front. */
  lemma CandidatesAreChildren(dn: string, parent: string, dns: seq<string>)
    requires (forall d | d in dns :: Tidy(d)) && dn in dns && IsUpper(dn)
    ensures IsCandidate(dn, parent, dns) <==> IsChild(dn, parent)
  {
    hide PathOf, Split, Escapes;
    if IsChild(dn, parent) {
      var c :| c != "" && ',' !in c && dn == c + "," + parent;
      TidyParts(c, parent);
      NoComma(c);
      assert Split(c)[0] == c && Split(c)[0] in Split(c) && Split(parent)[0] in Split(parent);
      ChildPath(c, parent);
      assert forall x | x in c :: x in dn;
      UpperIsUpper(c);
      assert Begins(PathOf(parent) + [c], PathOf(dn));
      assert IsCandidate(c + "," + parent, parent, dns);
    }
    if IsCandidate(dn, parent, dns) {
      var part :| dn == part + "," + parent && InTree(PathOf(parent) + [part], dns);
      var d :| d in dns && Begins(PathOf(parent) + [part], PathOf(d));
      TidyPath(d);
      assert PathOf(d)[|PathOf(parent)|] == part;
      assert part in PathOf(d) && part != "" && ',' !in part;
      assert IsChild(part + "," + parent, parent);
    }
  }

  // -------------------------------------------------- tables with escaped commas

  /** In any table: a listed child is a candidate for its parent if and only if neither its component
      has a comma nor the parent's first comma is escaped, or the path of another listed name begins
      with the parent's path and that component. */
  lemma CandidateExactly(c: string, parent: string, dns: seq<string>)
    requires c != "" && !Escapes(c, false) && IsUpper(c) && c + "," + parent in dns
    ensures var dn := c + "," + parent;
            IsCandidate(dn, parent, dns)
            <==> || (',' !in c && !Escapes(Split(parent)[0], false))
                 || exists d :: d in dns && d != dn && Begins(PathOf(parent) + [c], PathOf(d))
  {
    hide PathOf, Split, Escapes, Begins;
    var dn := c + "," + parent;
    ChildPath(c, parent);
    UpperIsUpper(c);
    forall part | dn == part + "," + parent ensures part == c { SameFront(part, c, parent); }
    assert IsCandidate(dn, parent, dns) <==> InTree(PathOf(parent) + [c], dns);
  }

  lemma SameFront(a: string, b: string, tail: string)
    requires a + "," + tail == b + "," + tail
    ensures a == b
  {
    assert a == (a + "," + tail)[..|a|] && b == (b + "," + tail)[..|b|];
  }

  /** The other name can be one in which the two halves of the component stand in the other order. */
  lemma OtherNameMisleads(x: string, y: string, parent: string, dns: seq<string>)
    requires ',' !in x && ',' !in y && !Escapes(x, false) && !Escapes(Split(parent)[0], false)
    requires IsUpper(x + "\\" + "," + y) && y + "," + (x + "\\") + "," + parent in dns
    ensures IsCandidate(x + "\\" + "," + y + "," + parent, parent, dns)
  {
    hide ReverseComponents, ExplodeFrom, Escapes, Split, PathOf, Upper;
    var a := x + "\\";
    EscapedAtEnd(x);
    ChildPathIs(y + "," + a, parent);
    ReversedParts(y, a);
    ReversedOne(a);
    ReversedOne(y);
    EscapesUpper(a, false);
    UpperNoComma(a);
    UpperNoComma(y);
    ExplodeOn(Upper(a), Upper(y), false, "");
    ExplodeOne(Upper(a), false, "");
    ExplodeOne(Upper(y), false, Upper(a) + ",");
    assert "" + Upper(a) == Upper(a);
    UpperIsUpper(a) by { assert forall k | k in a :: k in a + "," + y; }
    UpperIsUpper(y) by { assert forall k | k in y :: k in a + "," + y; }
    var part := a + "," + y;
    assert PathOf(y + "," + a + "," + parent) == PathOf(parent) + [part];
    assert Begins(PathOf(parent) + [part], PathOf(y + "," + a + "," + parent));
    assert InTree(PathOf(parent) + [part], dns);
    assert part + "," + parent == x + "\\" + "," + y + "," + parent;
  }

  lemma EscapedAtEnd(x: string)
    requires !Escapes(x, false)
    ensures Escapes(x + "\\", false)
  {
    EscapesBehind(x, "\\", false);
    assert "\\"[1..] == "";
  }

  /** And a name with an escaped comma is a candidate for what stands behind that comma. */
  lemma HalfIsNoParent(x: string, y: string, parent: string, dns: seq<string>)
    requires ',' !in x && ',' !in y && y != "" && !Escapes(y, false) && !Escapes(Split(parent)[0], false)
    requires IsUpper(x + "\\") && x + "\\" + "," + y + "," + parent in dns
    ensures IsCandidate(x + "\\" + "," + y + "," + parent, y + "," + parent, dns)
  {
    hide ReverseComponents, ExplodeFrom, Escapes, Split, PathOf, Upper;
    var a, dn := x + "\\", x + "\\" + "," + y + "," + parent;
    EscapedCommaIsMisplaced(x, y, parent);
    ChildPathIs(y, parent);
    ReversedOne(y);
    UpperNoComma(y);
    ExplodeOne(Upper(y), false, "");
    assert "" + Upper(y) == Upper(y);
    UpperIsUpper(a);
    assert PathOf(y + "," + parent) + [a] == PathOf(dn);
    assert InTree(PathOf(y + "," + parent) + [a], dns);
    assert dn == a + "," + (y + "," + parent);
  }
}
