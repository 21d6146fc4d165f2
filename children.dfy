/** How an action reads its child sequence.

    Every structural action walks its children in order and routes each one it
    recognises into one field of its accumulator.  A field that is overwritten
    on every match ends up holding the value of the LAST matching child
    (`Last`); a list that is appended to holds the matching children in their
    original order (`Collect`); a set that is added to holds the union of what
    every matching child brings (`UnionOf`).  The generator-expression filters
    some actions apply first are `Filter`.  The lemmas here say what each of
    these means in terms of positions in the child sequence. */
module Children {
  import opened Metamodel

  /** The children `keep` accepts, in their original order. */
  function Filter(cs: seq<Child>, keep: Child -> bool): (r: seq<Child>)
    ensures |r| <= |cs|
  {
    if cs == [] then [] else Filter(cs[..|cs| - 1], keep) + (if keep(cs[|cs| - 1]) then [cs[|cs| - 1]] else [])
  }

  /** A child survives the filter exactly when it is a child `keep` accepts. */
  lemma {:induction false} FilterMembers(cs: seq<Child>, keep: Child -> bool, c: Child)
    ensures c in Filter(cs, keep) <==> c in cs && keep(c)
    decreases |cs|
  {
    if cs != [] {
      var init := cs[..|cs| - 1];
      assert cs == init + [cs[|cs| - 1]];
      FilterMembers(init, keep, c);
    }
  }

  /** Filtering keeps the relative order: it distributes over concatenation. */
  lemma {:induction false} FilterAppend(a: seq<Child>, b: seq<Child>, keep: Child -> bool)
    ensures Filter(a + b, keep) == Filter(a, keep) + Filter(b, keep)
    decreases |b|
  {
    if b == [] {
      assert a + b == a;
    } else {
      var init := b[..|b| - 1];
      assert (a + b)[..|a + b| - 1] == a + init;
      FilterAppend(a, init, keep);
    }
  }

  /** The position of the last child `f` picks something from, or -1. */
  function LastIndex<U>(cs: seq<Child>, f: Child -> Option<U>): (k: int)
    ensures -1 <= k < |cs|
    ensures 0 <= k ==> f(cs[k]).Some?
  {
    if cs == [] then -1
    else if f(cs[|cs| - 1]).Some? then |cs| - 1
    else LastIndex(cs[..|cs| - 1], f)
  }

  /** No child after the last index yields anything. */
  lemma {:induction false} LastIndexIsLast<U>(cs: seq<Child>, f: Child -> Option<U>, j: int)
    requires LastIndex(cs, f) < j < |cs|
    ensures f(cs[j]).None?
    decreases |cs|
  {
    if f(cs[|cs| - 1]).None? && j < |cs| - 1 {
      LastIndexIsLast(cs[..|cs| - 1], f, j);
    }
  }

  /** What `f` picks from the last child it picks anything from: the value a
      field holds after being overwritten by every matching child. */
  function Last<U>(cs: seq<Child>, f: Child -> Option<U>): Option<U>
  {
    if cs == [] then None
    else if f(cs[|cs| - 1]).Some? then f(cs[|cs| - 1])
    else Last(cs[..|cs| - 1], f)
  }

  /** Nothing is picked exactly when no child yields anything. */
  lemma {:induction false} LastNone<U>(cs: seq<Child>, f: Child -> Option<U>)
    ensures Last(cs, f).None? <==> forall k :: 0 <= k < |cs| ==> f(cs[k]).None?
    decreases |cs|
  {
    if cs != [] {
      var init := cs[..|cs| - 1];
      LastNone(init, f);
      assert forall k :: 0 <= k < |init| ==> init[k] == cs[k];
    }
  }

  /** The last pick is what `f` yields at the last position it yields anything. */
  lemma {:induction false} LastAtLastIndex<U>(cs: seq<Child>, f: Child -> Option<U>)
    ensures Last(cs, f) == if LastIndex(cs, f) < 0 then None else f(cs[LastIndex(cs, f)])
    decreases |cs|
  {
    if cs != [] && f(cs[|cs| - 1]).None? {
      var init := cs[..|cs| - 1];
      LastAtLastIndex(init, f);
    }
  }

  /** The position of the first child `f` picks something from, or |cs|. */
  function FirstIndex<U>(cs: seq<Child>, f: Child -> Option<U>): (k: nat)
    ensures k <= |cs|
    ensures k < |cs| ==> f(cs[k]).Some?
    ensures forall j :: 0 <= j < k ==> f(cs[j]).None?
  {
    if cs == [] then 0
    else if f(cs[0]).Some? then 0
    else 1 + FirstIndex(cs[1..], f)
  }

  function Picked<U>(o: Option<U>): seq<U>
  {
    match o
    case Some(u) => [u]
    case None => []
  }

  /** What `f` picks from each child, in the children's order: the list an
      action appends every matching child to. */
  function Collect<U>(cs: seq<Child>, f: Child -> Option<U>): (r: seq<U>)
    ensures |r| <= |cs|
  {
    if cs == [] then [] else Collect(cs[..|cs| - 1], f) + Picked(f(cs[|cs| - 1]))
  }

  /** Collecting keeps the relative order: it distributes over concatenation. */
  lemma {:induction false} CollectAppend<U>(a: seq<Child>, b: seq<Child>, f: Child -> Option<U>)
    ensures Collect(a + b, f) == Collect(a, f) + Collect(b, f)
    decreases |b|
  {
    if b == [] {
      assert a + b == a;
    } else {
      var init := b[..|b| - 1];
      assert (a + b)[..|a + b| - 1] == a + init;
      CollectAppend(a, init, f);
    }
  }

  /** A value is collected exactly when some child yields it. */
  lemma {:induction false} CollectMembers<U>(cs: seq<Child>, f: Child -> Option<U>, u: U)
    ensures u in Collect(cs, f) <==> exists k :: 0 <= k < |cs| && f(cs[k]) == Some(u)
    decreases |cs|
  {
    if cs != [] {
      var init, c := cs[..|cs| - 1], cs[|cs| - 1];
      assert cs == init + [c];
      CollectMembers(init, f, u);
      CollectSnoc(init, c, f);
      assert u in Collect(cs, f) <==> u in Collect(init, f) || f(c) == Some(u);
      if u in Collect(init, f) {
        var k :| 0 <= k < |init| && f(init[k]) == Some(u);
        assert cs[k] == init[k];
      }
      if exists k :: 0 <= k < |cs| && f(cs[k]) == Some(u) {
        var k :| 0 <= k < |cs| && f(cs[k]) == Some(u);
        if k < |init| {
          assert init[k] == cs[k];
        }
      }
    }
  }

  /** Everything `f` yields for any child: the set an action adds every
      matching child's members to. */
  function UnionOf<U>(cs: seq<Child>, f: Child -> set<U>): (r: set<U>)
  {
    if cs == [] then {} else UnionOf(cs[..|cs| - 1], f) + f(cs[|cs| - 1])
  }

  /** A value is in the union exactly when some child yields it. */
  lemma {:induction false} UnionMembers<U>(cs: seq<Child>, f: Child -> set<U>, u: U)
    ensures u in UnionOf(cs, f) <==> exists k :: 0 <= k < |cs| && u in f(cs[k])
    decreases |cs|
  {
    if cs != [] {
      var init := cs[..|cs| - 1];
      UnionMembers(init, f, u);
      if exists k :: 0 <= k < |cs| && u in f(cs[k]) {
        var k :| 0 <= k < |cs| && u in f(cs[k]);
        if k < |cs| - 1 {
          assert init[k] == cs[k];
        }
      }
      if exists k :: 0 <= k < |init| && u in f(init[k]) {
        var k :| 0 <= k < |init| && u in f(init[k]);
        assert cs[k] == init[k];
      }
    }
  }

  /** A child whose contribution is already in the union changes nothing:
      adding an equal member twice is idempotent. */
  lemma {:induction false} UnionAbsorbs<U>(cs: seq<Child>, f: Child -> set<U>, c: Child)
    requires f(c) <= UnionOf(cs, f)
    ensures UnionOf(cs + [c], f) == UnionOf(cs, f)
  {
    assert (cs + [c])[..|cs|] == cs;
  }

  /** Appending one child: the last pick is that child's, if it has one. */
  lemma LastSnoc<U>(cs: seq<Child>, c: Child, f: Child -> Option<U>)
    ensures Last(cs + [c], f) == if f(c).Some? then f(c) else Last(cs, f)
  {
    assert (cs + [c])[..|cs|] == cs;
  }

  lemma CollectSnoc<U>(cs: seq<Child>, c: Child, f: Child -> Option<U>)
    ensures f(c).Some? ==> Collect(cs + [c], f) == Collect(cs, f) + [f(c).value]
    ensures f(c).None? ==> Collect(cs + [c], f) == Collect(cs, f)
  {
    assert (cs + [c])[..|cs|] == cs;
    assert Collect(cs, f) + [] == Collect(cs, f);
  }

  lemma UnionSnoc<U>(cs: seq<Child>, c: Child, f: Child -> set<U>)
    ensures UnionOf(cs + [c], f) == UnionOf(cs, f) + f(c)
  {
    assert (cs + [c])[..|cs|] == cs;
  }

  lemma FilterSnoc(cs: seq<Child>, c: Child, keep: Child -> bool)
    ensures keep(c) ==> Filter(cs + [c], keep) == Filter(cs, keep) + [c]
    ensures !keep(c) ==> Filter(cs + [c], keep) == Filter(cs, keep)
  {
    assert (cs + [c])[..|cs|] == cs;
    assert Filter(cs, keep) + [] == Filter(cs, keep);
  }

  /** Whether the keyword `word` is among the children. */
  predicate HasKeyword(cs: seq<Child>, word: string)
  {
    Token(word) in cs
  }

  lemma KeywordSnoc(cs: seq<Child>, c: Child, word: string)
    ensures HasKeyword(cs + [c], word) == (HasKeyword(cs, word) || c == Token(word))
  {
  }

  /** Filtering out children `f` ignores does not change the last pick. */
  lemma {:induction false} LastIgnoresDropped<U>(cs: seq<Child>, keep: Child -> bool, f: Child -> Option<U>)
    requires forall c :: !keep(c) ==> f(c).None?
    ensures Last(Filter(cs, keep), f) == Last(cs, f)
    decreases |cs|
  {
    if cs != [] {
      var init, c := cs[..|cs| - 1], cs[|cs| - 1];
      assert cs == init + [c];
      LastIgnoresDropped(init, keep, f);
      FilterSnoc(init, c, keep);
      LastSnoc(init, c, f);
      LastSnoc(Filter(init, keep), c, f);
    }
  }

  /** Filtering out children `f` ignores does not change what is collected. */
  lemma {:induction false} CollectIgnoresDropped<U>(cs: seq<Child>, keep: Child -> bool, f: Child -> Option<U>)
    requires forall c :: !keep(c) ==> f(c).None?
    ensures Collect(Filter(cs, keep), f) == Collect(cs, f)
    decreases |cs|
  {
    if cs != [] {
      var init, c := cs[..|cs| - 1], cs[|cs| - 1];
      assert cs == init + [c];
      CollectIgnoresDropped(init, keep, f);
      FilterSnoc(init, c, keep);
      CollectSnoc(init, c, f);
      CollectSnoc(Filter(init, keep), c, f);
    }
  }

  /** Filtering out children `f` ignores does not change the union. */
  lemma {:induction false} UnionIgnoresDropped<U>(cs: seq<Child>, keep: Child -> bool, f: Child -> set<U>)
    requires forall c :: !keep(c) ==> f(c) == {}
    ensures UnionOf(Filter(cs, keep), f) == UnionOf(cs, f)
    decreases |cs|
  {
    if cs != [] {
      var init, c := cs[..|cs| - 1], cs[|cs| - 1];
      assert cs == init + [c];
      UnionIgnoresDropped(init, keep, f);
      FilterSnoc(init, c, keep);
      UnionSnoc(init, c, f);
      UnionSnoc(Filter(init, keep), c, f);
    }
  }

  /** Filtering twice keeps what both filters accept. */
  lemma {:induction false} FilterTwice(cs: seq<Child>, first: Child -> bool, second: Child -> bool, both: Child -> bool)
    requires forall c :: both(c) == (first(c) && second(c))
    ensures Filter(Filter(cs, first), second) == Filter(cs, both)
    decreases |cs|
  {
    if cs != [] {
      var init, c := cs[..|cs| - 1], cs[|cs| - 1];
      assert cs == init + [c];
      FilterTwice(init, first, second, both);
      FilterSnoc(init, c, first);
      FilterSnoc(init, c, both);
      FilterSnoc(Filter(init, first), c, second);
    }
  }

  /** Projections shared by several actions. */

  /** The identifier an identifier child carries. */
  function IdOf(c: Child): Option<Id>
  {
    if c.IdValue? then Some(c.id) else None
  }

  /** `val._id` of an identifier child. */
  function NameOf(c: Child): Option<string>
  {
    if c.IdValue? then Some(c.id.name) else None
  }

  /** The description a `NamedElement` child carries. */
  function DescOf(c: Child): Option<NamedElement>
  {
    if c.NamedValue? then Some(c.named) else None
  }

  /** `val.specs` of a `SpecsObj` child. */
  function SpecsOf(c: Child): set<ConstraintSpec>
  {
    if c.SpecsObjValue? then c.specsObj.specs else {}
  }

  /** `type(x) is not str` */
  predicate NotToken(c: Child)
  {
    !c.Token?
  }
}
