/** The actions that build constraint specifications and de-duplicated sets
    of them (domm/domm/actions.py: ConstraintSpecAction,
    ConstraintSpecListAction). */
module Specs {
  import opened Metamodel
  import opened Children

  /** What `add_param` receives from a child after the leading identifier: an
      identifier or an integer itself, or the content of a string parameter. */
  function ParamOf(c: Child): Option<Child>
  {
    if c.IdValue? || c.IntValue? then Some(c)
    else if c.StrObjValue? then Some(c.strObj.content)
    else None
  }

  /** The non-token children that follow the leading identifier, if the first
      non-token child is one; otherwise all non-token children. */
  function ParamChildren(children: seq<Child>): seq<Child>
  {
    var f := Filter(children, NotToken);
    if |f| > 0 && f[0].IdValue? then f[1..] else f
  }

  /** The spec a sequence of non-token children denotes: a leading identifier
      is its name, and the parameters are collected from the rest. */
  function SpecOfFiltered(f: seq<Child>): ConstraintSpec
  {
    if |f| > 0 && f[0].IdValue? then ConstraintSpec(Some(f[0].id), Collect(f[1..], ParamOf))
    else ConstraintSpec(None, Collect(f, ParamOf))
  }

  /** One round of ConstraintSpecAction's loop on the child at position ind. */
  function SpecRoute(spec: ConstraintSpec, val: Child, ind: nat): ConstraintSpec
  {
    if val.IdValue? && ind == 0 then spec.(ident := Some(val.id))
    else if val.IdValue? && ind != 0 then spec.(params := spec.params + [val])
    else if val.StrObjValue? then spec.(params := spec.params + [val.strObj.content])
    else if val.IntValue? then spec.(params := spec.params + [val])
    else spec
  }

  /** A round of the loop extends the spec of the children seen so far to the
      spec of one more child. */
  lemma SpecStep(f: seq<Child>, val: Child)
    ensures SpecRoute(SpecOfFiltered(f), val, |f|) == SpecOfFiltered(f + [val])
  {
    if |f| == 0 {
      assert f + [val] == [] + [val];
      assert (f + [val])[1..] == [];
      CollectSnoc([], val, ParamOf);
    } else {
      assert (f + [val])[0] == f[0];
      assert (f + [val])[1..] == f[1..] + [val];
      CollectSnoc(f[1..], val, ParamOf);
      CollectSnoc(f, val, ParamOf);
    }
  }

  /** ConstraintSpecAction: once the tokens are dropped, a leading identifier
      names the constraint; every later identifier, string parameter content
      and integer is a parameter, in source order. */
  method ConstraintSpecAction(children: seq<Child>) returns (spec: ConstraintSpec)
    ensures var f := Filter(children, NotToken);
      spec.ident == if |f| > 0 && f[0].IdValue? then Some(f[0].id) else None
    ensures spec.params == Collect(ParamChildren(children), ParamOf)
  {
    var f := Filter(children, NotToken);
    spec := ConstraintSpec(None, []);
    for ind := 0 to |f|
      invariant spec == SpecOfFiltered(f[..ind])
    {
      var val := f[ind];
      assert f[..ind + 1] == f[..ind] + [val];
      SpecStep(f[..ind], val);
      spec := SpecRoute(spec, val, ind);
    }
    assert f[..|f|] == f;
  }

  /** `type(x) is ConstraintSpec or type(x) is Id` */
  predicate IsSpecOrId(c: Child)
  {
    c.ConstraintSpecValue? || c.IdValue?
  }

  /** What `specs.add` receives for a child: a spec itself, or the
      zero-parameter spec naming a bare identifier. */
  function SpecOf(c: Child): set<ConstraintSpec>
  {
    if c.ConstraintSpecValue? then {c.spec}
    else if c.IdValue? then {ConstraintSpec(Some(c.id), [])}
    else {}
  }

  /** ConstraintSpecListAction: the set of every spec child and of the
      zero-parameter spec of every bare identifier child. */
  method ConstraintSpecListAction(children: seq<Child>) returns (listSpecs: SpecsObj)
    ensures listSpecs.specs == UnionOf(children, SpecOf)
  {
    var f := Filter(children, IsSpecOrId);
    listSpecs := SpecsObj({});
    for i := 0 to |f|
      invariant listSpecs.specs == UnionOf(f[..i], SpecOf)
    {
      var val := f[i];
      assert f[..i + 1] == f[..i] + [val];
      UnionSnoc(f[..i], val, SpecOf);
      if val.ConstraintSpecValue? {
        listSpecs := listSpecs.(specs := listSpecs.specs + {val.spec});
      } else if val.IdValue? {
        var temp := ConstraintSpec(Some(val.id), []);
        listSpecs := listSpecs.(specs := listSpecs.specs + {temp});
      }
    }
    assert f[..|f|] == f;
    UnionIgnoresDropped(children, IsSpecOrId, SpecOf);
  }

  /** A spec is in the list's set exactly when it is one of the spec children,
      or it has no parameters and names one of the identifier children. */
  lemma SpecListMembers(children: seq<Child>, s: ConstraintSpec)
    ensures s in UnionOf(children, SpecOf) <==>
      ConstraintSpecValue(s) in children || (s.ident.Some? && s.params == [] && IdValue(s.ident.value) in children)
  {
    UnionMembers(children, SpecOf, s);
    if ConstraintSpecValue(s) in children {
      var k :| 0 <= k < |children| && children[k] == ConstraintSpecValue(s);
      assert s in SpecOf(children[k]);
    }
    if s.ident.Some? && s.params == [] && IdValue(s.ident.value) in children {
      var k :| 0 <= k < |children| && children[k] == IdValue(s.ident.value);
      assert s in SpecOf(children[k]);
    }
  }

  /** Inserting a spec equal to one already in the set leaves it unchanged:
      equal specs, and a bare identifier and the zero-parameter spec naming
      it, collapse into one member. */
  lemma {:induction false} SpecListDuplicate(children: seq<Child>, dup: Child)
    requires dup.ConstraintSpecValue? || dup.IdValue?
    requires exists k :: 0 <= k < |children| && SpecOf(children[k]) == SpecOf(dup)
    ensures UnionOf(children + [dup], SpecOf) == UnionOf(children, SpecOf)
  {
    var k :| 0 <= k < |children| && SpecOf(children[k]) == SpecOf(dup);
    forall s | s in SpecOf(dup)
      ensures s in UnionOf(children, SpecOf)
    {
      UnionMembers(children, SpecOf, s);
    }
    UnionAbsorbs(children, SpecOf, dup);
  }

  /** Two equal spec children, after any earlier children, add one member
      to the set between them. */
  lemma EqualSpecsCollapse(children: seq<Child>, s: ConstraintSpec, t: ConstraintSpec)
    requires s.ident == t.ident && s.params == t.params
    ensures UnionOf(children + [ConstraintSpecValue(s), ConstraintSpecValue(t)], SpecOf) ==
      UnionOf(children, SpecOf) + {s}
  {
    var a, b := ConstraintSpecValue(s), ConstraintSpecValue(t);
    assert children + [a, b] == (children + [a]) + [b];
    UnionSnoc(children, a, SpecOf);
    UnionSnoc(children + [a], b, SpecOf);
    assert s == t;
  }
}
