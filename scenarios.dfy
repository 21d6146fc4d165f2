/** Worked reductions: small child sequences passed to the actions, with
    the outcome each one must have. */
module Scenarios {
  import opened Metamodel
  import opened Children
  import opened Leaves
  import opened Declarations
  import opened Features

  /** A property `int required +`: `required` is set, and the lazily
      created relationship is a containment with no opposite end. */
  method PropertyWithContainment()
  {
    var intType := TypeDef(Some("int"), None, false, None, None);
    var children := [TypeDefValue(intType), Token("required"), Token("+")];
    var prop := PropertyAction(children);
    LastNone(children, RefIdentOf);
    assert prop.required && !prop.unique && !prop.ordered && !prop.readonly;
    assert prop.relationship.Some?;
    assert prop.relationship.value.containment;
    assert prop.relationship.value.oppositeEnd.None?;
  }

  /** The same property keeps its `int` type: the keywords after it leave the
      type reference alone. */
  method PropertyKeepsType()
  {
    var intType := TypeDef(Some("int"), None, false, None, None);
    var a, b, c := TypeDefValue(intType), Token("required"), Token("+");
    PropertyTypeDefStep([], a);
    PropertyTypeDefStep([a], b);
    PropertyTypeDefStep([a, b], c);
    assert [] + [a] == [a] && [a] + [b] == [a, b] && [a, b] + [c] == [a, b, c];
    assert PropertyTypeDef([a, b, c]) == Some(intType);
  }

  /** `datatype t` inside package `p`: a user-declared data type named `t`
      in namespace `[p]`, with no description. */
  method UserDataType()
  {
    var t := DataTypeAction(false, [Token("datatype"), IdValue(IdAction("t", ["p"]))], ["p"]);
    assert t.name == Some("t") && t.namespace == ["p"] && !t.builtIn && t.desc.None?;
  }

  /** `package p { t }` for any data type `t`: a package holding just `t`,
      which a model then lists as its only package. */
  method PackageWithDataType(t: DataType)
  {
    var children := [Token("package"), IdValue(IdAction("p", [])), Token("{"), DataTypeValue(t), Token("}")];
    var pkg := PackageAction(children);
    FilterSnoc([], children[0], IsPackageMember);
    FilterSnoc(children[..1], children[1], IsPackageMember);
    FilterSnoc(children[..2], children[2], IsPackageMember);
    FilterSnoc(children[..3], children[3], IsPackageMember);
    FilterSnoc(children[..4], children[4], IsPackageMember);
    assert [] + [children[0]] == children[..1];
    assert children[..1] + [children[1]] == children[..2];
    assert children[..2] + [children[2]] == children[..3];
    assert children[..3] + [children[3]] == children[..4];
    assert children[..4] + [children[4]] == children;
    assert pkg.elems == [DataTypeValue(t)];
    var model := ModelAction([IdValue(IdAction("m", [])), PackageValue(pkg)]);
    assert model.packages == [pkg];
  }

  /** An enumeration literal with two children has no description; with a
      third one the description is copied; with one child it is malformed. */
  method EnumLiterals()
  {
    var ne := NamedElement(Some(Token("short")), None);
    var two := EnumLiteralAction([IdValue(IdAction("RED", [])), IntValue(1)]);
    assert two.Ok? && two.value.desc.None?;
    var three := EnumLiteralAction([IdValue(IdAction("RED", [])), IntValue(1), NamedValue(ne)]);
    assert three.Ok? && three.value.desc == Some(ne);
    var one := EnumLiteralAction([IdValue(IdAction("RED", []))]);
    assert one == Err(IndexOutOfRange(1, 1));
  }

  /** The "appliesTo" marker survives into the list of applied-to targets. */
  method ApplyDefKeepsMarker()
  {
    var appDef := ApplyDefAction([Token("appliesTo"), IdValue(IdAction("Entity", []))]);
    assert appDef.applies[0] == Token("appliesTo");
  }

  /** The built-in data type builder marks its types built-in whatever the
      name; the user-declared one never does. */
  method DataTypeBuiltInFlag(name: string)
  {
    var builtIn := DataTypeAction(true, [IdValue(IdAction(name, []))], []);
    var user := DataTypeAction(false, [IdValue(IdAction(name, []))], []);
    assert builtIn.builtIn && !user.builtIn;
  }

  /** A description made only of quote marks and `None` is absent. */
  method EmptyDescription()
  {
    var children := [Token("\""), NoneValue, Token("\"")];
    var ne := NamedElementAction(children);
    NamedElementAbsent(children);
    assert ne.None?;
  }
}
