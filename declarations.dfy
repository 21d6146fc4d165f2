/** The actions that build the declarations of a DOMMLite model: the model
    map, the model, packages, data types, enumerations and their literals,
    constraints and the tag shapes they are bound to (domm/domm/actions.py:
    DommAction, ModelAction, EnumAction, CommonTagAction, ApplyDefAction,
    ConstrDefAction, EnumLiteralAction, DataTypeAction, ConstraintAction,
    PackageAction). */
module Declarations {
  import opened Metamodel
  import opened Children
  import opened Leaves

  /** `x.name` where the record has a `name` field; `None` where Python would
      raise AttributeError. */
  function NameField(c: Child): Option<Option<string>>
  {
    match c
    case ModelValue(m) => Some(m.name)
    case PackageValue(p) => Some(p.name)
    case DataTypeValue(d) => Some(d.name)
    case EnumerationValue(e) => Some(e.name)
    case ConstraintValue(k) => Some(k.name)
    case CommonTagValue(t) => Some(t.name)
    case TypeDefValue(t) => Some(t.name)
    case ExceptionValue(x) => Some(x.name)
    case ServiceValue(s) => Some(s.name)
    case EnumLiteralValue(l) => Some(Some(l.name))
    case _ => None
  }

  /** The model map built step by step: every non-token child is stored under
      its name, a later child replacing an earlier one of the same name. */
  function ModelMap(cs: seq<Child>): Result<map<Option<string>, Child>>
  {
    if cs == [] then Ok(map[])
    else
      var c := cs[|cs| - 1];
      match ModelMap(cs[..|cs| - 1])
      case Err(e) => Err(e)
      case Ok(m) =>
        if c.Token? then Ok(m)
        else if NameField(c).None? then Err(MissingAttribute("name"))
        else Ok(m[NameField(c).value := c])
  }

  /** Whether `k` is the last position of a child named `n`. */
  predicate LastNamed(cs: seq<Child>, k: int, n: Option<string>)
  {
    0 <= k < |cs| && NameField(cs[k]) == Some(n) &&
    forall j :: k < j < |cs| ==> NameField(cs[j]) != Some(n)
  }

  /** The model map fails exactly when some non-token child has no name; it
      holds exactly the names of the children, each mapped to the last child
      carrying it. */
  lemma {:induction false} ModelMapSpec(cs: seq<Child>)
    ensures ModelMap(cs).Err? <==> exists k :: 0 <= k < |cs| && !cs[k].Token? && NameField(cs[k]).None?
    ensures ModelMap(cs).Ok? ==>
      forall n :: n in ModelMap(cs).value <==> exists k :: 0 <= k < |cs| && NameField(cs[k]) == Some(n)
    ensures ModelMap(cs).Ok? ==>
      forall k, n :: LastNamed(cs, k, n) ==> n in ModelMap(cs).value && ModelMap(cs).value[n] == cs[k]
    decreases |cs|
  {
    if cs != [] {
      var init, c := cs[..|cs| - 1], cs[|cs| - 1];
      ModelMapSpec(init);
      assert forall k :: 0 <= k < |init| ==> init[k] == cs[k];
      if ModelMap(cs).Ok? {
        var m := ModelMap(cs).value;
        var mi := ModelMap(init).value;
        forall k, n | LastNamed(cs, k, n)
          ensures n in m && m[n] == cs[k]
        {
          if k < |init| {
            assert LastNamed(init, k, n);
          }
        }
      }
    }
  }

  /** Tokens are skipped both by the filter and by the model map. */
  lemma {:induction false} ModelMapIgnoresTokens(cs: seq<Child>)
    ensures ModelMap(Filter(cs, NotToken)) == ModelMap(cs)
    decreases |cs|
  {
    if cs != [] {
      var init, c := cs[..|cs| - 1], cs[|cs| - 1];
      assert cs == init + [c];
      ModelMapIgnoresTokens(init);
      FilterSnoc(init, c, NotToken);
      var fi := Filter(init, NotToken);
      if NotToken(c) {
        assert Filter(cs, NotToken) == fi + [c];
        assert (fi + [c])[..|fi|] == fi;
        assert (fi + [c])[|fi|] == c;
      } else {
        assert Filter(cs, NotToken) == fi;
        assert ModelMap(cs) == ModelMap(init);
      }
    }
  }

  /** DommAction: the dictionary from each model's name to the model. */
  method DommAction(children: seq<Child>) returns (r: Result<map<Option<string>, Child>>)
    ensures r.Err? <==> exists k :: 0 <= k < |children| && !children[k].Token? && NameField(children[k]).None?
    ensures r.Err? ==> r.error == MissingAttribute("name")
    ensures r.Ok? ==>
      forall n :: n in r.value <==> exists k :: 0 <= k < |children| && NameField(children[k]) == Some(n)
    ensures r.Ok? ==>
      forall k, n :: LastNamed(children, k, n) ==> n in r.value && r.value[n] == children[k]
  {
    var f := Filter(children, NotToken);
    var modelMap := map[];
    for i := 0 to |f|
      invariant ModelMap(f[..i]) == Ok(modelMap)
    {
      var x := f[i];
      assert f[..i + 1][..i] == f[..i];
      FilterMembers(children, NotToken, x);
      if NameField(x).None? {
        assert ModelMap(f[..i + 1]).Err?;
        ModelMapSpec(f[..i + 1]);
        ModelMapIgnoresTokens(children);
        ModelMapSpec(f);
        ModelMapSpec(children);
        return Err(MissingAttribute("name"));
      }
      modelMap := modelMap[NameField(x).value := x];
    }
    assert f[..|f|] == f;
    ModelMapIgnoresTokens(children);
    ModelMapSpec(children);
    r := Ok(modelMap);
  }

  /** A data type or an enumeration: what `Model.add_type` receives. */
  function TypeDeclOf(c: Child): Option<Child>
  {
    if c.DataTypeValue? || c.EnumerationValue? then Some(c) else None
  }

  function ConstraintOf(c: Child): Option<Constraint>
  {
    if c.ConstraintValue? then Some(c.constraint) else None
  }

  function PackageOf(c: Child): Option<Package>
  {
    if c.PackageValue? then Some(c.pkg) else None
  }

  /** The model the children denote: the name of the last identifier, the
      last description, and the type declarations, constraints and packages
      in source order. */
  function ModelSpec(cs: seq<Child>): Model
  {
    Model(Last(cs, NameOf), Last(cs, DescOf), Collect(cs, TypeDeclOf),
          Collect(cs, ConstraintOf), Collect(cs, PackageOf))
  }

  /** One round of ModelAction's loop. */
  function ModelRoute(model: Model, val: Child): Model
  {
    if val.IdValue? then model.(name := Some(val.id.name))
    else if val.NamedValue? then model.(desc := Some(NamedElement(val.named.shortDesc, val.named.longDesc)))
    else if val.DataTypeValue? || val.EnumerationValue? then model.(types := model.types + [val])
    else if val.ConstraintValue? then model.(constraints := model.constraints + [val.constraint])
    else if val.PackageValue? then model.(packages := model.packages + [val.pkg])
    else model
  }

  /** A round of the loop extends the model of the children seen so far to
      the model of one more child. */
  lemma ModelStep(cs: seq<Child>, val: Child)
    ensures ModelRoute(ModelSpec(cs), val) == ModelSpec(cs + [val])
  {
    LastSnoc(cs, val, NameOf);
    LastSnoc(cs, val, DescOf);
    CollectSnoc(cs, val, TypeDeclOf);
    CollectSnoc(cs, val, ConstraintOf);
    CollectSnoc(cs, val, PackageOf);
    var m := ModelSpec(cs);
    if val.IdValue? {
      assert ModelSpec(cs + [val]) == m.(name := Some(val.id.name));
    } else if val.NamedValue? {
      assert ModelSpec(cs + [val]) == m.(desc := Some(val.named));
    } else if val.DataTypeValue? || val.EnumerationValue? {
      assert ModelSpec(cs + [val]) == m.(types := m.types + [val]);
    } else if val.ConstraintValue? {
      assert ModelSpec(cs + [val]) == m.(constraints := m.constraints + [val.constraint]);
    } else if val.PackageValue? {
      assert ModelSpec(cs + [val]) == m.(packages := m.packages + [val.pkg]);
    } else {
      assert ModelSpec(cs + [val]) == m;
    }
  }

  /** ModelAction: the name of the last identifier, the last description, and
      the type declarations, constraints and packages in source order. */
  method ModelAction(children: seq<Child>) returns (model: Model)
    ensures model.name == Last(children, NameOf)
    ensures model.desc == Last(children, DescOf)
    ensures model.types == Collect(children, TypeDeclOf)
    ensures model.constraints == Collect(children, ConstraintOf)
    ensures model.packages == Collect(children, PackageOf)
  {
    model := Model(None, None, [], [], []);
    for i := 0 to |children|
      invariant model == ModelSpec(children[..i])
    {
      var val := children[i];
      assert children[..i + 1] == children[..i] + [val];
      ModelStep(children[..i], val);
      model := ModelRoute(model, val);
    }
    assert children[..|children|] == children;
  }

  function LiteralOf(c: Child): Option<EnumLiteral>
  {
    if c.EnumLiteralValue? then Some(c.literal) else None
  }

  /** EnumAction: name and description from the last identifier and
      description, the literals in source order, and the namespace in force. */
  method EnumAction(children: seq<Child>, namespace: seq<string>) returns (enum: Enumeration)
    ensures enum.name == Last(children, NameOf)
    ensures enum.desc == Last(children, DescOf)
    ensures enum.literals == Collect(children, LiteralOf)
    ensures enum.namespace == namespace
  {
    enum := Enumeration(None, [], None, []);
    for i := 0 to |children|
      invariant enum.name == Last(children[..i], NameOf)
      invariant enum.desc == Last(children[..i], DescOf)
      invariant enum.literals == Collect(children[..i], LiteralOf)
    {
      var val := children[i];
      assert children[..i + 1] == children[..i] + [val];
      LastSnoc(children[..i], val, NameOf);
      LastSnoc(children[..i], val, DescOf);
      CollectSnoc(children[..i], val, LiteralOf);
      if val.IdValue? {
        enum := enum.(name := Some(val.id.name));
      } else if val.NamedValue? {
        enum := enum.(desc := Some(val.named));
      } else if val.EnumLiteralValue? {
        enum := enum.(literals := enum.literals + [val.literal]);
      }
    }
    assert children[..|children|] == children;
    enum := enum.(namespace := namespace);
  }

  function ConstrDefOf(c: Child): Option<ConstrDef>
  {
    if c.ConstrDefValue? then Some(c.constrDef) else None
  }

  function ApplyDefOf(c: Child): Option<ApplyDef>
  {
    if c.ApplyDefValue? then Some(c.applyDef) else None
  }

  /** CommonTagAction: each field holds the last child of its kind. */
  method CommonTagAction(children: seq<Child>) returns (tag: CommonTag)
    ensures tag.name == Last(children, NameOf)
    ensures tag.desc == Last(children, DescOf)
    ensures tag.constrDef == Last(children, ConstrDefOf)
    ensures tag.applies == Last(children, ApplyDefOf)
  {
    tag := CommonTag(None, None, None, None);
    for i := 0 to |children|
      invariant tag.name == Last(children[..i], NameOf)
      invariant tag.desc == Last(children[..i], DescOf)
      invariant tag.constrDef == Last(children[..i], ConstrDefOf)
      invariant tag.applies == Last(children[..i], ApplyDefOf)
    {
      var value := children[i];
      assert children[..i + 1] == children[..i] + [value];
      LastSnoc(children[..i], value, NameOf);
      LastSnoc(children[..i], value, DescOf);
      LastSnoc(children[..i], value, ConstrDefOf);
      LastSnoc(children[..i], value, ApplyDefOf);
      if value.IdValue? {
        tag := tag.(name := Some(value.id.name));
      } else if value.ConstrDefValue? {
        tag := tag.(constrDef := Some(value.constrDef));
      } else if value.ApplyDefValue? {
        tag := tag.(applies := Some(value.applyDef));
      } else if value.NamedValue? {
        tag := tag.(desc := Some(value.named));
      }
    }
    assert children[..|children|] == children;
  }

  /** ApplyDefAction: every child, in order.  The filtered sequence the source
      computes is never used, so the "appliesTo" keyword itself is kept. */
  method ApplyDefAction(children: seq<Child>) returns (appDef: ApplyDef)
    ensures |appDef.applies| == |children|
    ensures forall k :: 0 <= k < |children| ==> appDef.applies[k] == children[k]
    ensures Token("appliesTo") in children ==> Token("appliesTo") in appDef.applies
  {
    appDef := ApplyDef([]);
    for i := 0 to |children|
      invariant appDef.applies == children[..i]
    {
      appDef := appDef.(applies := appDef.applies + [children[i]]);
    }
    assert children[..|children|] == children;
  }

  /** `x != "(" and x != ")" and x != ','` */
  predicate NotConstrDefPunct(c: Child)
  {
    c != Token("(") && c != Token(")") && c != Token(",")
  }

  /** ConstrDefAction: the children other than the parentheses and commas, in
      order. */
  method ConstrDefAction(children: seq<Child>) returns (constrDef: ConstrDef)
    ensures constrDef.constrs == Filter(children, NotConstrDefPunct)
    ensures forall c :: c in constrDef.constrs ==> NotConstrDefPunct(c)
  {
    var f := Filter(children, NotConstrDefPunct);
    constrDef := ConstrDef([]);
    for i := 0 to |f|
      invariant constrDef.constrs == f[..i]
    {
      constrDef := constrDef.(constrs := constrDef.constrs + [f[i]]);
    }
    assert f[..|f|] == f;
    forall c | c in constrDef.constrs
      ensures NotConstrDefPunct(c)
    {
      FilterMembers(children, NotConstrDefPunct, c);
    }
  }

  /** A trailing variadic marker survives the ConstrDef filter, after every
      parameter type before it. */
  lemma ConstrDefKeepsVariadic(children: seq<Child>)
    ensures Filter(children + [ElipsisAction()], NotConstrDefPunct)
         == Filter(children, NotConstrDefPunct) + [Token("...")]
  {
    FilterSnoc(children, ElipsisAction(), NotConstrDefPunct);
  }

  /** EnumLiteralAction: name from `children[0]._id`, value `children[1]`,
      and the description of `children[2]` exactly when there are three
      children.  Python evaluates `children[0]._id` before `children[1]`, so
      the failures come in that order. */
  function EnumLiteralAction(children: seq<Child>): (r: Result<EnumLiteral>)
    ensures |children| == 0 ==> r == Err(IndexOutOfRange(0, 0))
    ensures |children| > 0 && !children[0].IdValue? ==> r == Err(MissingAttribute("_id"))
    ensures |children| == 1 && children[0].IdValue? ==> r == Err(IndexOutOfRange(1, 1))
    ensures |children| == 3 && children[0].IdValue? && !children[2].NamedValue? ==> r == Err(MissingAttribute("short_desc"))
    ensures r.Ok? <==> |children| >= 2 && children[0].IdValue? && (|children| == 3 ==> children[2].NamedValue?)
    ensures r.Ok? ==> r.value.name == children[0].id.name && r.value.value == children[1]
    ensures r.Ok? ==> (r.value.desc.Some? <==> |children| == 3)
    ensures r.Ok? && |children| == 3 ==> r.value.desc == Some(children[2].named)
  {
    if |children| == 0 then Err(IndexOutOfRange(0, 0))
    else if !children[0].IdValue? then Err(MissingAttribute("_id"))
    else if |children| == 1 then Err(IndexOutOfRange(1, 1))
    else
      var literal := EnumLiteral(children[0].id.name, children[1], None);
      if |children| != 3 then Ok(literal)
      else if !children[2].NamedValue? then Err(MissingAttribute("short_desc"))
      else
        var named := children[2].named;
        Ok(literal.(desc := Some(NamedElement(named.shortDesc, named.longDesc))))
  }

  /** DataTypeAction: the built-in flag is the one the action was configured
      with, whatever the children; the namespace is the one in force. */
  method DataTypeAction(builtIn: bool, children: seq<Child>, namespace: seq<string>) returns (dataType: DataType)
    ensures dataType.builtIn == builtIn
    ensures dataType.namespace == namespace
    ensures dataType.name == Last(children, NameOf)
    ensures dataType.desc == Last(children, DescOf)
  {
    dataType := DataType(None, [], None, builtIn);
    for i := 0 to |children|
      invariant dataType.builtIn == builtIn
      invariant dataType.name == Last(children[..i], NameOf)
      invariant dataType.desc == Last(children[..i], DescOf)
    {
      var val := children[i];
      assert children[..i + 1] == children[..i] + [val];
      LastSnoc(children[..i], val, NameOf);
      LastSnoc(children[..i], val, DescOf);
      if val.NamedValue? {
        dataType := dataType.(desc := Some(val.named));
      } else if val.IdValue? {
        dataType := dataType.(name := Some(val.id.name));
      }
    }
    assert children[..|children|] == children;
    dataType := dataType.(namespace := namespace);
  }

  /** The configuration a ConstraintAction is registered with. */
  datatype ConstraintActionConfig = ConstraintActionConfig(builtIn: bool, constrType: ConstraintType)

  /** `ConstraintAction.__init__`: a tag action when `isTag`, a validator
      action otherwise. */
  function NewConstraintAction(builtIn: bool, isTag: bool): (config: ConstraintActionConfig)
    ensures config.builtIn == builtIn
    ensures config.constrType == Tag <==> isTag
    ensures config.constrType == Validator <==> !isTag
  {
    ConstraintActionConfig(builtIn, if isTag then Tag else Validator)
  }

  function TagOf(c: Child): Option<CommonTag>
  {
    if c.CommonTagValue? then Some(c.commonTag) else None
  }

  /** ConstraintAction: flag and kind from the configuration, whatever the
      children; name and bound tag from the last child of each kind. */
  method ConstraintAction(config: ConstraintActionConfig, children: seq<Child>, namespace: seq<string>)
    returns (constraint: Constraint)
    ensures constraint.builtIn == config.builtIn
    ensures constraint.constrType == config.constrType
    ensures constraint.namespace == namespace
    ensures constraint.name == Last(children, NameOf)
    ensures constraint.tag == Last(children, TagOf)
  {
    constraint := Constraint(None, [], config.builtIn, config.constrType, None);
    for j := 0 to |children|
      invariant constraint.builtIn == config.builtIn
      invariant constraint.constrType == config.constrType
      invariant constraint.name == Last(children[..j], NameOf)
      invariant constraint.tag == Last(children[..j], TagOf)
    {
      var i := children[j];
      assert children[..j + 1] == children[..j] + [i];
      LastSnoc(children[..j], i, NameOf);
      LastSnoc(children[..j], i, TagOf);
      if i.CommonTagValue? {
        constraint := constraint.(tag := Some(i.commonTag));
      } else if i.IdValue? {
        constraint := constraint.(name := Some(i.id.name));
      }
    }
    assert children[..|children|] == children;
    constraint := constraint.(namespace := namespace);
  }

  /** What `Package.add_elem` receives: a child that is neither a token, an
      identifier nor a description. */
  predicate IsPackageMember(c: Child)
  {
    !c.Token? && !c.IdValue? && !c.NamedValue?
  }

  /** PackageAction: name and description from the last identifier and
      description; every other non-token child becomes a member, in order. */
  method PackageAction(children: seq<Child>) returns (pkg: Package)
    ensures pkg.name == Last(children, NameOf)
    ensures pkg.desc == Last(children, DescOf)
    ensures pkg.elems == Filter(children, IsPackageMember)
  {
    var f := Filter(children, NotToken);
    pkg := Package(None, None, []);
    for i := 0 to |f|
      invariant pkg.name == Last(f[..i], NameOf)
      invariant pkg.desc == Last(f[..i], DescOf)
      invariant pkg.elems == Filter(f[..i], IsPackageMember)
    {
      var val := f[i];
      assert f[..i + 1] == f[..i] + [val];
      LastSnoc(f[..i], val, NameOf);
      LastSnoc(f[..i], val, DescOf);
      FilterSnoc(f[..i], val, IsPackageMember);
      FilterMembers(children, NotToken, val);
      if val.IdValue? {
        pkg := pkg.(name := Some(val.id.name));
      } else if val.NamedValue? {
        pkg := pkg.(desc := Some(NamedElement(val.named.shortDesc, val.named.longDesc)));
      } else {
        pkg := pkg.(elems := pkg.elems + [val]);
      }
    }
    assert f[..|f|] == f;
    LastIgnoresDropped(children, NotToken, NameOf);
    LastIgnoresDropped(children, NotToken, DescOf);
    FilterTwice(children, NotToken, IsPackageMember, IsPackageMember);
  }
}
