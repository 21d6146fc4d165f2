/** The actions that build the features of entities, exceptions and
    services: type references, properties and their relationships, exception
    types, extends and depends-on references, operations and their parameters,
    and services (domm/domm/actions.py: TypeDefAction, PropertyAction,
    ExceptionAction, ExtDefAction, DepDefAction, OpParamAction,
    OperationAction, ServiceAction). */
module Features {
  import opened Metamodel
  import opened Children

  function IntOf(c: Child): Option<int>
  {
    if c.IntValue? then Some(c.n) else None
  }

  /** TypeDefAction: an identifier at position 0 is the base type, the last
      identifier after it is the name, a "[" marks a container and the last
      integer is the multiplicity. */
  method TypeDefAction(children: seq<Child>) returns (typeDef: TypeDef)
    ensures typeDef.baseType == if |children| > 0 && children[0].IdValue? then Some(children[0].id.name) else None
    ensures typeDef.name == if |children| == 0 then None else Last(children[1..], NameOf)
    ensures typeDef.container == (Token("[") in children)
    ensures typeDef.multiplicity == Last(children, IntOf)
    ensures typeDef.desc.None?
  {
    typeDef := EmptyTypeDef;
    for ind := 0 to |children|
      invariant typeDef.baseType == if ind > 0 && children[0].IdValue? then Some(children[0].id.name) else None
      invariant typeDef.name == if ind == 0 then None else Last(children[1..ind], NameOf)
      invariant typeDef.container == (Token("[") in children[..ind])
      invariant typeDef.multiplicity == Last(children[..ind], IntOf)
      invariant typeDef.desc.None?
    {
      var val := children[ind];
      assert children[..ind + 1] == children[..ind] + [val];
      LastSnoc(children[..ind], val, IntOf);
      if ind > 0 {
        assert children[1..ind + 1] == children[1..ind] + [val];
        LastSnoc(children[1..ind], val, NameOf);
      }
      if val.IdValue? && ind == 0 {
        typeDef := typeDef.(baseType := Some(val.id.name));
      } else if val.IdValue? && ind != 0 {
        typeDef := typeDef.(name := Some(val.id.name));
      } else if val == Token("[") {
        typeDef := typeDef.(container := true);
      } else if val.IntValue? {
        typeDef := typeDef.(multiplicity := Some(val.n));
      }
    }
    assert children[..|children|] == children;
    assert |children| > 0 ==> children[1..|children|] == children[1..];
  }

  function TypeDefOf(c: Child): Option<TypeDef>
  {
    if c.TypeDefValue? then Some(c.typeDef) else None
  }

  /** The type reference after `set_desc`: the given one (an empty one when
      absent) carrying the description. */
  function WithDesc(typeDef: Option<TypeDef>, ne: NamedElement): TypeDef
  {
    (if typeDef.Some? then typeDef.value else EmptyTypeDef).(desc := Some(NamedElement(ne.shortDesc, ne.longDesc)))
  }

  /** The type reference a property ends up with: the last TypeDef child (an
      empty one when there is none), carrying the last description that comes
      after it; `None` when neither a TypeDef nor a description follows. */
  function PropertyTypeDef(children: seq<Child>): Option<TypeDef>
  {
    var k := LastIndex(children, TypeDefOf);
    var base := if k < 0 then None else TypeDefOf(children[k]);
    var desc := Last(children[k + 1..], DescOf);
    if desc.Some? then Some(WithDesc(base, desc.value)) else base
  }

  /** PropertyAction's type reference, child by child. */
  function PropertyTypeDefFold(children: seq<Child>): Option<TypeDef>
  {
    if children == [] then None
    else
      var c, prev := children[|children| - 1], PropertyTypeDefFold(children[..|children| - 1]);
      if c.TypeDefValue? then Some(c.typeDef)
      else if c.NamedValue? then Some(WithDesc(prev, c.named))
      else prev
  }

  /** Child by child, the type reference is always the declarative one. */
  lemma {:induction false} PropertyTypeDefFoldSpec(children: seq<Child>)
    ensures PropertyTypeDefFold(children) == PropertyTypeDef(children)
    decreases |children|
  {
    if children == [] {
      assert LastIndex(children, TypeDefOf) == -1;
      assert children[0..] == [];
    } else {
      var init, c := children[..|children| - 1], children[|children| - 1];
      assert children == init + [c];
      PropertyTypeDefFoldSpec(init);
      PropertyTypeDefStep(init, c);
    }
  }

  /** One step of PropertyAction on its type reference: a TypeDef child
      replaces it; a description is set on it, creating an empty one first. */
  lemma PropertyTypeDefStep(children: seq<Child>, c: Child)
    ensures c.TypeDefValue? ==> PropertyTypeDef(children + [c]) == Some(c.typeDef)
    ensures c.NamedValue? ==> PropertyTypeDef(children + [c]) == Some(WithDesc(PropertyTypeDef(children), c.named))
    ensures !c.TypeDefValue? && !c.NamedValue? ==> PropertyTypeDef(children + [c]) == PropertyTypeDef(children)
  {
    if c.TypeDefValue? {
      TypeDefStepReplaces(children, c);
    } else {
      TypeDefStepKeeps(children, c);
    }
  }

  lemma TypeDefStepReplaces(children: seq<Child>, c: Child)
    requires c.TypeDefValue?
    ensures PropertyTypeDef(children + [c]) == Some(c.typeDef)
  {
    var cs := children + [c];
    assert cs[|cs| - 1] == c;
    assert LastIndex(cs, TypeDefOf) == |children|;
    assert cs[|children| + 1..] == [];
  }

  lemma TypeDefStepKeeps(children: seq<Child>, c: Child)
    requires !c.TypeDefValue?
    ensures PropertyTypeDef(children + [c]) ==
      if c.NamedValue? then Some(WithDesc(PropertyTypeDef(children), c.named)) else PropertyTypeDef(children)
  {
    var cs := children + [c];
    var k := LastIndex(children, TypeDefOf);
    var base := if k < 0 then None else TypeDefOf(children[k]);
    var desc := Last(children[k + 1..], DescOf);
    assert LastIndex(cs, TypeDefOf) == k by {
      assert cs[..|cs| - 1] == children;
    }
    assert (if k < 0 then None else TypeDefOf(cs[k])) == base;
    assert Last(cs[k + 1..], DescOf) == if c.NamedValue? then Some(c.named) else desc by {
      assert cs[k + 1..] == children[k + 1..] + [c];
      LastSnoc(children[k + 1..], c, DescOf);
    }
    if c.NamedValue? {
      assert WithDesc(PropertyTypeDef(children), c.named) == WithDesc(base, c.named);
    }
  }

  /** The type reference is absent exactly when there is neither a TypeDef
      child nor a description child. */
  lemma {:induction false} PropertyTypeDefAbsent(children: seq<Child>)
    ensures PropertyTypeDef(children).None? <==>
      forall k :: 0 <= k < |children| ==> !children[k].TypeDefValue? && !children[k].NamedValue?
  {
    var k := LastIndex(children, TypeDefOf);
    if k < 0 {
      assert children[k + 1..] == children;
      LastNone(children, DescOf);
      forall j | 0 <= j < |children|
        ensures !children[j].TypeDefValue?
      {
        LastIndexIsLast(children, TypeDefOf, j);
      }
    }
  }

  /** The identifier a RefObj child refers to. */
  function RefIdentOf(c: Child): Option<Id>
  {
    if c.RefObjValue? then Some(c.refObj.ident) else None
  }

  /** The relationship a property ends up with: created by the first "+" or
      RefObj child, a containment exactly when a "+" occurs, with the last
      RefObj's identifier as its opposite end. */
  function PropertyRelationship(children: seq<Child>): Option<Relationship>
  {
    if !HasKeyword(children, "+") && Last(children, RefIdentOf).None? then None
    else Some(Relationship(HasKeyword(children, "+"), Last(children, RefIdentOf)))
  }

  /** The property PropertyAction builds, field by field. */
  function PropertySpec(children: seq<Child>): Property
  {
    Property(PropertyTypeDefFold(children), HasKeyword(children, "unique"), HasKeyword(children, "ordered"),
      HasKeyword(children, "readonly"), HasKeyword(children, "required"),
      PropertyRelationship(children), UnionOf(children, SpecsOf))
  }

  /** The property after PropertyAction has routed one more child into it. */
  function PropertyRoute(prop: Property, val: Child): Property
  {
    if val == Token("unique") then prop.(unique := true)
    else if val == Token("ordered") then prop.(ordered := true)
    else if val == Token("readonly") then prop.(readonly := true)
    else if val == Token("required") then prop.(required := true)
    else if val.TypeDefValue? then prop.(typeDef := Some(val.typeDef))
    else if val == Token("+") then
      var rel := if prop.relationship.None? then Relationship(false, None) else prop.relationship.value;
      prop.(relationship := Some(rel.(containment := true)))
    else if val.RefObjValue? then
      var rel := if prop.relationship.None? then Relationship(false, None) else prop.relationship.value;
      prop.(relationship := Some(rel.(oppositeEnd := Some(val.refObj.ident))))
    else if val.SpecsObjValue? then prop.(specs := prop.specs + val.specsObj.specs)
    else if val.NamedValue? then prop.(typeDef := Some(WithDesc(prop.typeDef, val.named)))
    else prop
  }

  /** Routing one more child moves the property from the specification of
      the children seen so far to that of one child more. */
  lemma PropertyStep(children: seq<Child>, val: Child)
    ensures PropertyRoute(PropertySpec(children), val) == PropertySpec(children + [val])
  {
    var cs := children + [val];
    assert PropertyTypeDefFold(cs) ==
      if val.TypeDefValue? then Some(val.typeDef)
      else if val.NamedValue? then Some(WithDesc(PropertyTypeDefFold(children), val.named))
      else PropertyTypeDefFold(children)
    by {
      assert cs[..|children|] == children;
    }
    if val.Token? {
      PropertyStepToken(children, val);
    } else {
      PropertyStepValue(children, val);
    }
  }

  /** PropertyStep for a raw string child: a keyword sets its flag, "+" the
      containment of the relationship. */
  lemma PropertyStepToken(children: seq<Child>, val: Child)
    requires val.Token?
    requires PropertyTypeDefFold(children + [val]) == PropertyTypeDefFold(children)
    ensures PropertyRoute(PropertySpec(children), val) == PropertySpec(children + [val])
  {
    LastSnoc(children, val, RefIdentOf);
    UnionSnoc(children, val, SpecsOf);
    KeywordSnoc(children, val, "unique");
    KeywordSnoc(children, val, "ordered");
    KeywordSnoc(children, val, "readonly");
    KeywordSnoc(children, val, "required");
    KeywordSnoc(children, val, "+");
    if val.text in {"unique", "ordered", "readonly", "required"} {
      PropertyStepFlag(children, val);
    } else {
      PropertyStepPlus(children, val);
    }
  }

  lemma PropertyStepFlag(children: seq<Child>, val: Child)
    requires val.Token? && val.text in {"unique", "ordered", "readonly", "required"}
    requires PropertyTypeDefFold(children + [val]) == PropertyTypeDefFold(children)
    requires Last(children + [val], RefIdentOf) == Last(children, RefIdentOf)
    requires UnionOf(children + [val], SpecsOf) == UnionOf(children, SpecsOf)
    requires HasKeyword(children + [val], "unique") == (HasKeyword(children, "unique") || val == Token("unique"))
    requires HasKeyword(children + [val], "ordered") == (HasKeyword(children, "ordered") || val == Token("ordered"))
    requires HasKeyword(children + [val], "readonly") == (HasKeyword(children, "readonly") || val == Token("readonly"))
    requires HasKeyword(children + [val], "required") == (HasKeyword(children, "required") || val == Token("required"))
    requires HasKeyword(children + [val], "+") == HasKeyword(children, "+")
    ensures PropertyRoute(PropertySpec(children), val) == PropertySpec(children + [val])
  {
    var p, cs := PropertySpec(children), children + [val];
    if val == Token("unique") {
      assert PropertySpec(cs) == p.(unique := true);
    } else if val == Token("ordered") {
      assert PropertySpec(cs) == p.(ordered := true);
    } else if val == Token("readonly") {
      assert PropertySpec(cs) == p.(readonly := true);
    } else {
      assert PropertySpec(cs) == p.(required := true);
    }
  }

  lemma PropertyStepPlus(children: seq<Child>, val: Child)
    requires val.Token? && val.text !in {"unique", "ordered", "readonly", "required"}
    requires PropertyTypeDefFold(children + [val]) == PropertyTypeDefFold(children)
    requires Last(children + [val], RefIdentOf) == Last(children, RefIdentOf)
    requires UnionOf(children + [val], SpecsOf) == UnionOf(children, SpecsOf)
    requires HasKeyword(children + [val], "unique") == HasKeyword(children, "unique")
    requires HasKeyword(children + [val], "ordered") == HasKeyword(children, "ordered")
    requires HasKeyword(children + [val], "readonly") == HasKeyword(children, "readonly")
    requires HasKeyword(children + [val], "required") == HasKeyword(children, "required")
    requires HasKeyword(children + [val], "+") == (HasKeyword(children, "+") || val == Token("+"))
    ensures PropertyRoute(PropertySpec(children), val) == PropertySpec(children + [val])
  {
    var p, cs := PropertySpec(children), children + [val];
    if val == Token("+") {
      assert PropertySpec(cs) == PropertyRoute(p, val);
    } else {
      assert PropertySpec(cs) == p;
    }
  }

  /** PropertyStep for any other child: a TypeDef or a description updates
      the type reference, a RefObj the opposite end, a SpecsObj the specs. */
  lemma PropertyStepValue(children: seq<Child>, val: Child)
    requires !val.Token?
    requires PropertyTypeDefFold(children + [val]) ==
      if val.TypeDefValue? then Some(val.typeDef)
      else if val.NamedValue? then Some(WithDesc(PropertyTypeDefFold(children), val.named))
      else PropertyTypeDefFold(children)
    ensures PropertyRoute(PropertySpec(children), val) == PropertySpec(children + [val])
  {
    var p, cs := PropertySpec(children), children + [val];
    LastSnoc(children, val, RefIdentOf);
    UnionSnoc(children, val, SpecsOf);
    KeywordSnoc(children, val, "unique");
    KeywordSnoc(children, val, "ordered");
    KeywordSnoc(children, val, "readonly");
    KeywordSnoc(children, val, "required");
    KeywordSnoc(children, val, "+");
    if val.TypeDefValue? {
      assert PropertySpec(cs) == p.(typeDef := Some(val.typeDef));
    } else if val.RefObjValue? {
      assert PropertySpec(cs) == PropertyRoute(p, val);
    } else if val.SpecsObjValue? {
      assert PropertySpec(cs) == p.(specs := p.specs + val.specsObj.specs);
    } else if val.NamedValue? {
      assert PropertySpec(cs) == p.(typeDef := Some(WithDesc(p.typeDef, val.named)));
    } else {
      assert PropertySpec(cs) == p;
    }
  }

  /** PropertyAction: the property its loop builds is PropertySpec. */
  method PropertyAction(children: seq<Child>) returns (prop: Property)
    ensures prop == PropertySpec(children)
  {
    prop := Property(None, false, false, false, false, None, {});
    for i := 0 to |children|
      invariant prop == PropertySpec(children[..i])
    {
      var val := children[i];
      assert children[..i + 1] == children[..i] + [val];
      PropertyStep(children[..i], val);
      prop := PropertyRoute(prop, val);
    }
    assert children[..|children|] == children;
  }

  /** What PropertyAction promises: each keyword sets only its own flag; the
      type reference is PropertyTypeDef; a relationship exists exactly when a
      "+" or a RefObj child occurs, "+" making it a containment and the last
      RefObj giving its opposite end; the specs are the union of every
      SpecsObj child's. */
  lemma PropertySpecMeaning(children: seq<Child>)
    ensures var prop := PropertySpec(children);
      && prop.unique == (Token("unique") in children)
      && prop.ordered == (Token("ordered") in children)
      && prop.readonly == (Token("readonly") in children)
      && prop.required == (Token("required") in children)
      && prop.typeDef == PropertyTypeDef(children)
      && (prop.relationship.None? <==>
            Token("+") !in children && forall k :: 0 <= k < |children| ==> !children[k].RefObjValue?)
      && (prop.relationship.Some? ==> prop.relationship.value.containment == (Token("+") in children))
      && (prop.relationship.Some? ==> prop.relationship.value.oppositeEnd == Last(children, RefIdentOf))
      && prop.specs == UnionOf(children, SpecsOf)
  {
    LastNone(children, RefIdentOf);
    PropertyTypeDefFoldSpec(children);
  }

  function PropertyOf(c: Child): Option<Property>
  {
    if c.PropertyValue? then Some(c.property) else None
  }

  /** ExceptionAction: name and description from the last identifier and
      description, the properties in source order. */
  method ExceptionAction(children: seq<Child>) returns (exception: ExceptionType)
    ensures exception.name == Last(children, NameOf)
    ensures exception.desc == Last(children, DescOf)
    ensures exception.props == Collect(children, PropertyOf)
  {
    exception := ExceptionType(None, None, []);
    var f := Filter(children, NotToken);
    for i := 0 to |f|
      invariant exception.name == Last(f[..i], NameOf)
      invariant exception.desc == Last(f[..i], DescOf)
      invariant exception.props == Collect(f[..i], PropertyOf)
    {
      var val := f[i];
      assert f[..i + 1] == f[..i] + [val];
      LastSnoc(f[..i], val, NameOf);
      LastSnoc(f[..i], val, DescOf);
      CollectSnoc(f[..i], val, PropertyOf);
      if val.IdValue? {
        exception := exception.(name := Some(val.id.name));
      } else if val.NamedValue? {
        exception := exception.(desc := Some(NamedElement(val.named.shortDesc, val.named.longDesc)));
      } else if val.PropertyValue? {
        exception := exception.(props := exception.props + [val.property]);
      }
    }
    assert f[..|f|] == f;
    LastIgnoresDropped(children, NotToken, NameOf);
    LastIgnoresDropped(children, NotToken, DescOf);
    CollectIgnoresDropped(children, NotToken, PropertyOf);
  }

  /** ExtDefAction: a reference to an entity named by the FIRST identifier
      child; `None` when there is no identifier child. */
  method ExtDefAction(children: seq<Child>) returns (r: Option<ExtObj>)
    ensures r.None? <==> forall k :: 0 <= k < |children| ==> !children[k].IdValue?
    ensures r.Some? ==>
      FirstIndex(children, IdOf) < |children| &&
      r.value == ExtObj(ClassifierBound(children[FirstIndex(children, IdOf)].id, Some(Entity)))
  {
    for i := 0 to |children|
      invariant forall k :: 0 <= k < i ==> !children[k].IdValue?
    {
      var val := children[i];
      if val.IdValue? {
        assert FirstIndex(children, IdOf) == i by {
          var k := FirstIndex(children, IdOf);
          assert k < i ==> IdOf(children[k]).Some?;
          assert IdOf(children[i]).Some?;
        }
        return Some(ExtObj(ClassifierBound(val.id, Some(Entity))));
      }
    }
    return None;
  }

  /** An identifier child as a dependency reference with the default kind. */
  function DependencyOf(c: Child): Option<ClassifierBound>
  {
    if c.IdValue? then Some(ClassifierBound(c.id, None)) else None
  }

  /** DepDefAction: a reference for every identifier child, in order. */
  method DepDefAction(children: seq<Child>) returns (dep: DepObj)
    ensures dep.rels == Collect(children, DependencyOf)
    ensures forall b :: b in dep.rels ==> b.typeOf.None?
  {
    var listDependencies := [];
    for i := 0 to |children|
      invariant listDependencies == Collect(children[..i], DependencyOf)
      invariant forall b :: b in listDependencies ==> b.typeOf.None?
    {
      var val := children[i];
      assert children[..i + 1] == children[..i] + [val];
      CollectSnoc(children[..i], val, DependencyOf);
      if val.IdValue? {
        listDependencies := listDependencies + [ClassifierBound(val.id, None)];
      }
    }
    assert children[..|children|] == children;
    dep := DepObj(listDependencies);
  }

  /** OpParamAction: like a property's flags, type and description; a
      SpecsObj child is iterated directly, which raises TypeError because
      SpecsObj defines no iteration, so the constraints stay empty whenever
      the action succeeds. */
  method OpParamAction(children: seq<Child>) returns (r: Result<OpParam>)
    ensures r.Err? <==> exists k :: 0 <= k < |children| && children[k].SpecsObjValue?
    ensures r.Err? ==> r.error == NotIterable
    ensures r.Ok? ==> r.value.typeDef == Last(children, TypeDefOf)
    ensures r.Ok? ==> r.value.desc == Last(children, DescOf)
    ensures r.Ok? ==> r.value.ordered == (Token("ordered") in children)
    ensures r.Ok? ==> r.value.required == (Token("required") in children)
    ensures r.Ok? ==> r.value.unique == (Token("unique") in children)
    ensures r.Ok? ==> r.value.constraints == {}
  {
    var param := OpParam(None, None, false, false, false, {});
    for i := 0 to |children|
      invariant forall k :: 0 <= k < i ==> !children[k].SpecsObjValue?
      invariant param.typeDef == Last(children[..i], TypeDefOf)
      invariant param.desc == Last(children[..i], DescOf)
      invariant param.ordered == (Token("ordered") in children[..i])
      invariant param.required == (Token("required") in children[..i])
      invariant param.unique == (Token("unique") in children[..i])
      invariant param.constraints == {}
    {
      var val := children[i];
      assert children[..i + 1] == children[..i] + [val];
      LastSnoc(children[..i], val, TypeDefOf);
      LastSnoc(children[..i], val, DescOf);
      if val.TypeDefValue? {
        param := param.(typeDef := Some(val.typeDef));
      } else if val.NamedValue? {
        param := param.(desc := Some(val.named));
      } else if val.SpecsObjValue? {
        return Err(NotIterable);
      } else if val == Token("ordered") {
        param := param.(ordered := true);
      } else if val == Token("required") {
        param := param.(required := true);
      } else if val == Token("unique") {
        param := param.(unique := true);
      }
    }
    assert children[..|children|] == children;
    r := Ok(param);
  }

  /** A dependency reference is recorded exactly for the identifiers among
      the children, always with the default kind. */
  lemma DependencyMembers(children: seq<Child>, b: ClassifierBound)
    ensures b in Collect(children, DependencyOf) <==> b.typeOf.None? && IdValue(b.target) in children
  {
    CollectMembers(children, DependencyOf, b);
    if b.typeOf.None? && IdValue(b.target) in children {
      var k :| 0 <= k < |children| && children[k] == IdValue(b.target);
      assert DependencyOf(children[k]) == Some(b);
    }
  }

  /** `x != "(" and x != ")" and x != "{" and x != "}"` */
  predicate NotOperationPunct(c: Child)
  {
    c != Token("(") && c != Token(")") && c != Token("{") && c != Token("}")
  }

  function OpParamOf(c: Child): Option<OpParam>
  {
    if c.OpParamValue? then Some(c.opParam) else None
  }

  /** An identifier child as a thrown-exception reference. */
  function ThrownOf(c: Child): Option<ClassifierBound>
  {
    if c.IdValue? then Some(ClassifierBound(c.id, Some(ExceptType))) else None
  }

  /** The parentheses and braces OperationAction drops carry nothing the
      operation records, so dropping them changes none of its fields. */
  lemma OperationPunctIgnored(children: seq<Child>)
    ensures var f := Filter(children, NotOperationPunct);
      && Last(f, TypeDefOf) == Last(children, TypeDefOf)
      && Last(f, DescOf) == Last(children, DescOf)
      && (Token("ordered") in f <==> Token("ordered") in children)
      && (Token("unique") in f <==> Token("unique") in children)
      && (Token("required") in f <==> Token("required") in children)
      && Collect(f, OpParamOf) == Collect(children, OpParamOf)
      && UnionOf(f, SpecsOf) == UnionOf(children, SpecsOf)
      && Collect(f, ThrownOf) == Collect(children, ThrownOf)
  {
    LastIgnoresDropped(children, NotOperationPunct, TypeDefOf);
    LastIgnoresDropped(children, NotOperationPunct, DescOf);
    CollectIgnoresDropped(children, NotOperationPunct, OpParamOf);
    UnionIgnoresDropped(children, NotOperationPunct, SpecsOf);
    CollectIgnoresDropped(children, NotOperationPunct, ThrownOf);
    FilterMembers(children, NotOperationPunct, Token("ordered"));
    FilterMembers(children, NotOperationPunct, Token("unique"));
    FilterMembers(children, NotOperationPunct, Token("required"));
  }

  /** The operation the children denote: flags, return type and description
      as for a property; the parameters in source order; the union of the
      SpecsObj children's specs; every identifier as a thrown exception. */
  function OperationSpec(cs: seq<Child>): Operation
  {
    Operation(Last(cs, TypeDefOf), Last(cs, DescOf), HasKeyword(cs, "ordered"),
              HasKeyword(cs, "unique"), HasKeyword(cs, "required"),
              Collect(cs, OpParamOf), UnionOf(cs, SpecsOf), Collect(cs, ThrownOf))
  }

  /** One round of OperationAction's loop. */
  function OperationRoute(oper: Operation, val: Child): Operation
  {
    if val.TypeDefValue? then oper.(typeDef := Some(val.typeDef))
    else if val.NamedValue? then oper.(desc := Some(val.named))
    else if val == Token("ordered") then oper.(ordered := true)
    else if val == Token("unique") then oper.(unique := true)
    else if val == Token("required") then oper.(required := true)
    else if val.OpParamValue? then oper.(params := oper.params + [val.opParam])
    else if val.SpecsObjValue? then oper.(specs := oper.specs + val.specsObj.specs)
    else if val.IdValue? then oper.(throws := oper.throws + [ClassifierBound(val.id, Some(ExceptType))])
    else oper
  }

  /** A round of the loop extends the operation of the children seen so far
      to the operation of one more child. */
  lemma OperationStep(cs: seq<Child>, val: Child)
    ensures OperationRoute(OperationSpec(cs), val) == OperationSpec(cs + [val])
  {
    LastSnoc(cs, val, TypeDefOf);
    LastSnoc(cs, val, DescOf);
    CollectSnoc(cs, val, OpParamOf);
    UnionSnoc(cs, val, SpecsOf);
    CollectSnoc(cs, val, ThrownOf);
    KeywordSnoc(cs, val, "ordered");
    KeywordSnoc(cs, val, "unique");
    KeywordSnoc(cs, val, "required");
    var o := OperationSpec(cs);
    if val.TypeDefValue? {
      assert OperationSpec(cs + [val]) == o.(typeDef := Some(val.typeDef));
    } else if val.NamedValue? {
      assert OperationSpec(cs + [val]) == o.(desc := Some(val.named));
    } else if val.Token? {
      assert OperationSpec(cs + [val]) == OperationRoute(o, val);
    } else if val.OpParamValue? {
      assert OperationSpec(cs + [val]) == o.(params := o.params + [val.opParam]);
    } else if val.SpecsObjValue? {
      assert OperationSpec(cs + [val]) == o.(specs := o.specs + val.specsObj.specs);
    } else if val.IdValue? {
      assert OperationSpec(cs + [val]) == o.(throws := o.throws + [ClassifierBound(val.id, Some(ExceptType))]);
    } else {
      assert OperationSpec(cs + [val]) == o;
    }
  }

  /** OperationAction: flags, return type and description as for a property;
      the parameters in source order; the union of the SpecsObj children's
      specs; and every identifier child as a thrown exception, in order. */
  method OperationAction(children: seq<Child>) returns (oper: Operation)
    ensures oper.typeDef == Last(children, TypeDefOf)
    ensures oper.desc == Last(children, DescOf)
    ensures oper.ordered == (Token("ordered") in children)
    ensures oper.unique == (Token("unique") in children)
    ensures oper.required == (Token("required") in children)
    ensures oper.params == Collect(children, OpParamOf)
    ensures oper.specs == UnionOf(children, SpecsOf)
    ensures oper.throws == Collect(children, ThrownOf)
  {
    var f := Filter(children, NotOperationPunct);
    oper := Operation(None, None, false, false, false, [], {}, []);
    for i := 0 to |f|
      invariant oper == OperationSpec(f[..i])
    {
      var val := f[i];
      assert f[..i + 1] == f[..i] + [val];
      OperationStep(f[..i], val);
      oper := OperationRoute(oper, val);
    }
    assert f[..|f|] == f;
    OperationPunctIgnored(children);
  }

  /** A thrown-exception reference is recorded exactly for the identifiers
      among the children, always as a reference to an exception type. */
  lemma ThrownMembers(children: seq<Child>, b: ClassifierBound)
    ensures b in Collect(children, ThrownOf) <==> b.typeOf == Some(ExceptType) && IdValue(b.target) in children
  {
    CollectMembers(children, ThrownOf, b);
    if b.typeOf == Some(ExceptType) && IdValue(b.target) in children {
      var k :| 0 <= k < |children| && children[k] == IdValue(b.target);
      assert ThrownOf(children[k]) == Some(b);
    }
  }

  function ExtendsOf(c: Child): Option<ClassifierBound>
  {
    if c.ExtObjValue? then Some(c.extObj.bound) else None
  }

  function DependenciesOf(c: Child): Option<seq<ClassifierBound>>
  {
    if c.DepObjValue? then Some(c.depObj.rels) else None
  }

  function OperationOf(c: Child): Option<Operation>
  {
    if c.OperationValue? then Some(c.operation) else None
  }

  /** The dependency list of the last DepObj child, or none. */
  function LastDependencies(cs: seq<Child>): seq<ClassifierBound>
  {
    match Last(cs, DependenciesOf)
    case None => []
    case Some(rels) => rels
  }

  /** The service the children denote: name, description, extends reference
      and dependency list from the last child of each kind; the union of the
      SpecsObj children's specs; the operations in source order. */
  function ServiceSpec(cs: seq<Child>): Service
  {
    Service(Last(cs, NameOf), Last(cs, DescOf), Last(cs, ExtendsOf), LastDependencies(cs),
            UnionOf(cs, SpecsOf), Collect(cs, OperationOf))
  }

  /** One round of ServiceAction's loop. */
  function ServiceRoute(service: Service, val: Child): Service
  {
    if val.IdValue? then service.(name := Some(val.id.name))
    else if val.NamedValue? then service.(desc := Some(NamedElement(val.named.shortDesc, val.named.longDesc)))
    else if val.ExtObjValue? then service.(extendsBound := Some(val.extObj.bound))
    else if val.DepObjValue? then service.(dependencies := val.depObj.rels)
    else if val.SpecsObjValue? then service.(specs := service.specs + val.specsObj.specs)
    else if val.OperationValue? then service.(operations := service.operations + [val.operation])
    else service
  }

  /** A round of the loop extends the service of the children seen so far to
      the service of one more child. */
  lemma ServiceStep(cs: seq<Child>, val: Child)
    ensures ServiceRoute(ServiceSpec(cs), val) == ServiceSpec(cs + [val])
  {
    LastSnoc(cs, val, NameOf);
    LastSnoc(cs, val, DescOf);
    LastSnoc(cs, val, ExtendsOf);
    LastSnoc(cs, val, DependenciesOf);
    UnionSnoc(cs, val, SpecsOf);
    CollectSnoc(cs, val, OperationOf);
    var s := ServiceSpec(cs);
    if val.IdValue? {
      assert ServiceSpec(cs + [val]) == s.(name := Some(val.id.name));
    } else if val.NamedValue? {
      assert ServiceSpec(cs + [val]) == s.(desc := Some(val.named));
    } else if val.ExtObjValue? {
      assert ServiceSpec(cs + [val]) == s.(extendsBound := Some(val.extObj.bound));
    } else if val.DepObjValue? {
      assert ServiceSpec(cs + [val]) == s.(dependencies := val.depObj.rels);
    } else if val.SpecsObjValue? {
      assert ServiceSpec(cs + [val]) == s.(specs := s.specs + val.specsObj.specs);
    } else if val.OperationValue? {
      assert ServiceSpec(cs + [val]) == s.(operations := s.operations + [val.operation]);
    } else {
      assert ServiceSpec(cs + [val]) == s;
    }
  }

  /** The raw strings ServiceAction drops carry nothing the service records. */
  lemma ServiceIgnoresTokens(children: seq<Child>)
    ensures ServiceSpec(Filter(children, NotToken)) == ServiceSpec(children)
  {
    LastIgnoresDropped(children, NotToken, NameOf);
    LastIgnoresDropped(children, NotToken, DescOf);
    LastIgnoresDropped(children, NotToken, ExtendsOf);
    LastIgnoresDropped(children, NotToken, DependenciesOf);
    UnionIgnoresDropped(children, NotToken, SpecsOf);
    CollectIgnoresDropped(children, NotToken, OperationOf);
  }

  /** ServiceAction: name, description, extends reference and dependency list
      from the last child of each kind; the union of the SpecsObj children's
      specs; the operations in source order. */
  method ServiceAction(children: seq<Child>) returns (service: Service)
    ensures service.name == Last(children, NameOf)
    ensures service.desc == Last(children, DescOf)
    ensures service.extendsBound == Last(children, ExtendsOf)
    ensures Last(children, DependenciesOf).None? ==> service.dependencies == []
    ensures Last(children, DependenciesOf).Some? ==> service.dependencies == Last(children, DependenciesOf).value
    ensures service.specs == UnionOf(children, SpecsOf)
    ensures service.operations == Collect(children, OperationOf)
  {
    var f := Filter(children, NotToken);
    service := Service(None, None, None, [], {}, []);
    for i := 0 to |f|
      invariant service == ServiceSpec(f[..i])
    {
      var val := f[i];
      assert f[..i + 1] == f[..i] + [val];
      ServiceStep(f[..i], val);
      service := ServiceRoute(service, val);
    }
    assert f[..|f|] == f;
    ServiceIgnoresTokens(children);
  }

  /** A SpecsObj child whose specs are all already bound adds nothing to the
      service's (or property's, or operation's) spec set. */
  lemma SpecsMergeIdempotent(children: seq<Child>, specsObj: SpecsObj)
    requires specsObj.specs <= UnionOf(children, SpecsOf)
    ensures UnionOf(children + [SpecsObjValue(specsObj)], SpecsOf) == UnionOf(children, SpecsOf)
  {
    UnionAbsorbs(children, SpecsOf, SpecsObjValue(specsObj));
  }

  /** Two SpecsObj children carrying equal specs (same identifier, same
      parameters), after any earlier children, add one member to the spec
      set between them. */
  lemma SpecsObjDuplicateCollapse(children: seq<Child>, s: ConstraintSpec, t: ConstraintSpec)
    requires s.ident == t.ident && s.params == t.params
    ensures UnionOf(children + [SpecsObjValue(SpecsObj({s})), SpecsObjValue(SpecsObj({t}))], SpecsOf) ==
      UnionOf(children, SpecsOf) + {s}
  {
    var a, b := SpecsObjValue(SpecsObj({s})), SpecsObjValue(SpecsObj({t}));
    assert children + [a, b] == (children + [a]) + [b];
    UnionSnoc(children, a, SpecsOf);
    UnionSnoc(children + [a], b, SpecsOf);
    assert s == t;
  }
}
