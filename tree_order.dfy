/** The sibling ordering `sortTree` (graph.ts): branches before leaves, then
    by name through a natural, case-insensitive comparison, as a stable sort
    of an array in place. */
module TreeOrder {
  import opened Attributes
  import opened Hierarchy
  import StableSort

  // ---------------------------------------------------------------------
  // Name comparison (a simplified stand-in for the en-US numeric collator)

  predicate IsDigit(c: char) {
    '0' <= c <= '9'
  }

  /** ASCII case folding: the collator's "base" sensitivity ignores case. */
  function Fold(c: char): char {
    if 'A' <= c <= 'Z' then (c as int + 32) as char else c
  }

  /** A collation unit: one (case-folded) non-digit character, or a maximal
      run of digits read as a number (the collator's `numeric` option). */
  datatype Token = Chr(c: char) | Num(value: nat)

  /** The length of the run of digits at the start of `s`. */
  function DigitRun(s: string): (k: nat)
    ensures k <= |s|
    ensures forall i :: 0 <= i < k ==> IsDigit(s[i])
    ensures k < |s| ==> !IsDigit(s[k])
  {
    if s != [] && IsDigit(s[0]) then 1 + DigitRun(s[1..]) else 0
  }

  /** The decimal value of a run of digits. */
  function DigitsValue(s: string): nat
    requires forall i :: 0 <= i < |s| ==> IsDigit(s[i])
  {
    if s == [] then 0
    else
      var d := s[|s| - 1];
      assert IsDigit(d);
      10 * DigitsValue(s[..|s| - 1]) + (d as int - '0' as int)
  }

  function Tokens(s: string): seq<Token>
    decreases |s|
  {
    if s == [] then []
    else if IsDigit(s[0]) then
      var k := DigitRun(s);
      [Num(DigitsValue(s[..k]))] + Tokens(s[k..])
    else [Chr(Fold(s[0]))] + Tokens(s[1..])
  }

  function CompareInts(x: int, y: int): int {
    if x < y then -1 else if x > y then 1 else 0
  }

  /** A number sorts where a digit would; numbers compare by value. */
  function Primary(t: Token): int {
    match t
    case Chr(c) => c as int
    case Num(_) => '0' as int
  }

  function Secondary(t: Token): nat {
    match t
    case Chr(_) => 0
    case Num(v) => v
  }

  function CompareTokens(a: Token, b: Token): int {
    var p := CompareInts(Primary(a), Primary(b));
    if p != 0 then p else CompareInts(Secondary(a), Secondary(b))
  }

  /** Lexicographic comparison of token sequences; a proper prefix sorts first. */
  function CompareTokenSeqs(a: seq<Token>, b: seq<Token>): (r: int)
    ensures -1 <= r <= 1
  {
    if a == [] && b == [] then 0
    else if a == [] then -1
    else if b == [] then 1
    else if CompareTokens(a[0], b[0]) != 0 then CompareTokens(a[0], b[0])
    else CompareTokenSeqs(a[1..], b[1..])
  }

  /** `collator.compare(x, y)` in this model. */
  function CompareNames(x: string, y: string): int {
    CompareTokenSeqs(Tokens(x), Tokens(y))
  }

  lemma {:induction false} CompareTokenSeqsAntisymmetric(a: seq<Token>, b: seq<Token>)
    ensures CompareTokenSeqs(a, b) == -CompareTokenSeqs(b, a)
  {
    if a != [] && b != [] && CompareTokens(a[0], b[0]) == 0 {
      CompareTokenSeqsAntisymmetric(a[1..], b[1..]);
    }
  }

  lemma {:induction false} CompareTokenSeqsTransitive(a: seq<Token>, b: seq<Token>, c: seq<Token>)
    requires CompareTokenSeqs(a, b) <= 0 && CompareTokenSeqs(b, c) <= 0
    ensures CompareTokenSeqs(a, c) <= 0
  {
    if a != [] && b != [] && c != [] {
      if CompareTokens(a[0], b[0]) == 0 && CompareTokens(b[0], c[0]) == 0 {
        CompareTokenSeqsTransitive(a[1..], b[1..], c[1..]);
      }
    }
  }

  // ---------------------------------------------------------------------
  // The sibling comparator

  /** `node.children` is truthy: a node built with children (an array, truthy
      even when empty), or a leaf whose own bag carries a truthy `children`
      attribute. */
  predicate HasChildren(t: Tree) {
    t.Branch? || Truthy(t.bag, "children")
  }

  /** The comparator passed to `tree.sort`: a node with truthy `children`
      sorts before one without; otherwise the names decide. */
  function Compare(a: Tree, b: Tree): int {
    if HasChildren(a) && !HasChildren(b) then -1
    else if !HasChildren(a) && HasChildren(b) then 1
    else CompareNames(NameOf(a.bag), NameOf(b.bag))
  }

  /** The comparator is consistent: antisymmetric and transitive. */
  lemma CompareConsistent()
    ensures StableSort.Consistent(Compare)
  {
    forall a, b ensures Compare(a, b) == -Compare(b, a) {
      CompareTokenSeqsAntisymmetric(Tokens(NameOf(a.bag)), Tokens(NameOf(b.bag)));
    }
    forall a, b, c | StableSort.Precedes(Compare, a, b) && StableSort.Precedes(Compare, b, c)
      ensures StableSort.Precedes(Compare, a, c)
    {
      if HasChildren(a) == HasChildren(b) && HasChildren(b) == HasChildren(c) {
        CompareTokenSeqsTransitive(Tokens(NameOf(a.bag)), Tokens(NameOf(b.bag)), Tokens(NameOf(c.bag)));
      }
    }
  }

  // ---------------------------------------------------------------------
  // sortTree

  /** The order `tree.sort(comparator)` leaves a sibling sequence in. */
  function SortedTrees(s: seq<Tree>): seq<Tree> {
    StableSort.Sorted(s, Compare)
  }

  /** The sort is a permutation; every node with truthy `children` precedes
      every node without; within each group the names are in collator order; and
      siblings that compare equal keep their input order. */
  lemma SortedTreesSpec(s: seq<Tree>)
    ensures multiset(SortedTrees(s)) == multiset(s) && |SortedTrees(s)| == |s|
    ensures forall i, j :: 0 <= i < j < |s| ==> !(!HasChildren(SortedTrees(s)[i]) && HasChildren(SortedTrees(s)[j]))
    ensures forall i, j :: 0 <= i < j < |s| && HasChildren(SortedTrees(s)[i]) == HasChildren(SortedTrees(s)[j]) ==>
              CompareNames(NameOf(SortedTrees(s)[i].bag), NameOf(SortedTrees(s)[j].bag)) <= 0
    ensures forall k :: StableSort.EqualTo(SortedTrees(s), k, Compare) == StableSort.EqualTo(s, k, Compare)
  {
    CompareConsistent();
    StableSort.SortedSpec(s, Compare);
    forall k ensures StableSort.EqualTo(SortedTrees(s), k, Compare) == StableSort.EqualTo(s, k, Compare) {
      StableSort.SortedStable(s, k, Compare);
    }
  }

  /** Sorting keeps exactly the trees it was given. */
  lemma SortedTreesMembers(s: seq<Tree>)
    ensures forall t :: t in SortedTrees(s) <==> t in s
  {
    SortedTreesSpec(s);
    forall t ensures t in SortedTrees(s) <==> t in s {
      assert t in SortedTrees(s) <==> t in multiset(SortedTrees(s));
    }
  }

  /** `sortTree(tree)` */
  method SortTree(a: array<Tree>)
    modifies a
    ensures a[..] == SortedTrees(old(a[..]))
  {
    StableSort.SortInPlace(a, Compare);
  }

  /** Siblings named "b2", "B10" and "a-branch", where only "a-branch" has
      children, sort as "a-branch", "b2", "B10": branches first, then digit
      runs by value and without regard to case. */
  lemma SortExample()
    ensures var b2 := Leaf(map["name" := "b2"]);
            var b10 := Leaf(map["name" := "B10"]);
            var branch := Branch(map["name" := "a-branch"], [Leaf(map[])]);
            SortedTrees([b2, b10, branch]) == [branch, b2, b10]
  {
    var b2 := Leaf(map["name" := "b2"]);
    var b10 := Leaf(map["name" := "B10"]);
    var branch := Branch(map["name" := "a-branch"], [Leaf(map[])]);
    SortExampleCompares();
    var s := [b2, b10, branch];
    assert s[..2][..1] == [b2] && s[..2] == [b2, b10] && s[..1] == [b2];
    assert SortedTrees([b2]) == [b2] by {
      assert [b2][..0] == [];
      assert StableSort.Sorted([], Compare) == [];
      assert StableSort.Sorted([b2], Compare) == StableSort.Insert([], b2, Compare);
    }
    assert SortedTrees([b2, b10]) == [b2, b10];
    assert StableSort.Insert([b2], branch, Compare) == [branch, b2];
  }

  /** The comparisons behind `SortExample`. */
  lemma SortExampleCompares()
    ensures var b2 := Leaf(map["name" := "b2"]);
            var b10 := Leaf(map["name" := "B10"]);
            var branch := Branch(map["name" := "a-branch"], [Leaf(map[])]);
            Compare(b2, b10) == -1 && Compare(b10, branch) == 1 && Compare(b2, branch) == 1
  {
    var b2 := Leaf(map["name" := "b2"]);
    var b10 := Leaf(map["name" := "B10"]);
    var branch := Branch(map["name" := "a-branch"], [Leaf(map[])]);
    assert "children" != "name" by {
      assert "children"[0] != "name"[0];
    }
    assert !HasChildren(b2) && !HasChildren(b10) && HasChildren(branch);
    assert DigitRun("2") == 1 && DigitsValue("2") == 2;
    assert Tokens("b2") == [Chr('b'), Num(2)] by {
      assert "b2"[1..] == "2" && "2"[..1] == "2" && "2"[1..] == "";
    }
    assert DigitRun("10") == 2 && DigitsValue("10") == 10 by {
      assert "10"[1..] == "0" && "0"[1..] == "" && "10"[..1] == "1";
    }
    assert Tokens("B10") == [Chr('b'), Num(10)] by {
      assert "B10"[1..] == "10" && "10"[..2] == "10" && "10"[2..] == "";
    }
  }
}
