/** The values the DOMMLite semantic actions consume and produce.

    A grammar reduction hands each action the already-reduced values of its
    children; `Child` is the closed set of kinds such a value can have.  The
    metamodel entities are plain records whose fields are exactly the ones the
    actions assign; a field the actions may leave unset is an `Option`. */
module Metamodel {

  datatype Option<+T> = None | Some(value: T)

  /** The Python exceptions an action can raise on children it cannot use. */
  datatype Failure =
    | IndexOutOfRange(index: nat, length: nat)  // IndexError from `children[i]`
    | MissingAttribute(attribute: string)       // AttributeError
    | NotIterable                               // TypeError from `for x in obj`
    | InvalidLiteral(text: string)              // ValueError from `int(text)`

  datatype Result<+T> = Ok(value: T) | Err(error: Failure)

  /** An identifier with the namespace path in force when it was reduced. */
  datatype Id = Id(name: string, namespace: seq<string>)

  /** A short and a long description; either may be unset. */
  datatype NamedElement = NamedElement(shortDesc: Option<Child>, longDesc: Option<Child>)

  /** Helper records of the actions module. */
  datatype StrObj = StrObj(content: Child)
  datatype RefObj = RefObj(ident: Id)
  datatype ExtObj = ExtObj(bound: ClassifierBound)
  datatype DepObj = DepObj(rels: seq<ClassifierBound>)
  datatype SpecsObj = SpecsObj(specs: set<ConstraintSpec>)

  /** The kinds a classifier reference is tagged with by the actions. */
  datatype ClassType = Entity | ExceptType

  /** A reference to a classifier; `typeOf` is `None` where the action leaves
      the constructor's default in place. */
  datatype ClassifierBound = ClassifierBound(target: Id, typeOf: Option<ClassType>)

  /** A constraint invocation: the constraint named and its actual parameters.
      Two specs are the same set member exactly when both parts are equal. */
  datatype ConstraintSpec = ConstraintSpec(ident: Option<Id>, params: seq<Child>)

  datatype TypeDef = TypeDef(
    baseType: Option<string>,
    name: Option<string>,
    container: bool,
    multiplicity: Option<int>,
    desc: Option<NamedElement>)

  const EmptyTypeDef := TypeDef(None, None, false, None, None)

  datatype Relationship = Relationship(containment: bool, oppositeEnd: Option<Id>)

  datatype Property = Property(
    typeDef: Option<TypeDef>,
    unique: bool,
    ordered: bool,
    readonly: bool,
    required: bool,
    relationship: Option<Relationship>,
    specs: set<ConstraintSpec>)

  datatype OpParam = OpParam(
    typeDef: Option<TypeDef>,
    desc: Option<NamedElement>,
    ordered: bool,
    required: bool,
    unique: bool,
    constraints: set<ConstraintSpec>)

  datatype Operation = Operation(
    typeDef: Option<TypeDef>,
    desc: Option<NamedElement>,
    ordered: bool,
    unique: bool,
    required: bool,
    params: seq<OpParam>,
    specs: set<ConstraintSpec>,
    throws: seq<ClassifierBound>)

  datatype ExceptionType = ExceptionType(name: Option<string>, desc: Option<NamedElement>, props: seq<Property>)

  datatype Service = Service(
    name: Option<string>,
    desc: Option<NamedElement>,
    extendsBound: Option<ClassifierBound>,
    dependencies: seq<ClassifierBound>,
    specs: set<ConstraintSpec>,
    operations: seq<Operation>)

  datatype ConstrDef = ConstrDef(constrs: seq<Child>)

  datatype ApplyDef = ApplyDef(applies: seq<Child>)

  datatype CommonTag = CommonTag(
    name: Option<string>,
    desc: Option<NamedElement>,
    constrDef: Option<ConstrDef>,
    applies: Option<ApplyDef>)

  datatype EnumLiteral = EnumLiteral(name: string, value: Child, desc: Option<NamedElement>)

  datatype DataType = DataType(name: Option<string>, namespace: seq<string>, desc: Option<NamedElement>, builtIn: bool)

  datatype Enumeration = Enumeration(
    name: Option<string>,
    namespace: seq<string>,
    desc: Option<NamedElement>,
    literals: seq<EnumLiteral>)

  datatype ConstraintType = Tag | Validator

  datatype Constraint = Constraint(
    name: Option<string>,
    namespace: seq<string>,
    builtIn: bool,
    constrType: ConstraintType,
    tag: Option<CommonTag>)

  datatype Package = Package(name: Option<string>, desc: Option<NamedElement>, elems: seq<Child>)

  datatype Model = Model(
    name: Option<string>,
    desc: Option<NamedElement>,
    types: seq<Child>,
    constraints: seq<Constraint>,
    packages: seq<Package>)

  /** Every kind of value a reduction can hand to an action as a child. */
  datatype Child =
    | NoneValue                       // Python `None`
    | Token(text: string)             // a raw `str`: punctuation or keyword
    | IntValue(n: int)
    | IdValue(id: Id)
    | NamedValue(named: NamedElement)
    | StrObjValue(strObj: StrObj)
    | RefObjValue(refObj: RefObj)
    | ExtObjValue(extObj: ExtObj)
    | DepObjValue(depObj: DepObj)
    | SpecsObjValue(specsObj: SpecsObj)
    | TypeDefValue(typeDef: TypeDef)
    | ConstraintSpecValue(spec: ConstraintSpec)
    | OpParamValue(opParam: OpParam)
    | OperationValue(operation: Operation)
    | PropertyValue(property: Property)
    | ExceptionValue(exceptionType: ExceptionType)
    | ServiceValue(service: Service)
    | CommonTagValue(commonTag: CommonTag)
    | ConstrDefValue(constrDef: ConstrDef)
    | ApplyDefValue(applyDef: ApplyDef)
    | EnumLiteralValue(literal: EnumLiteral)
    | DataTypeValue(dataType: DataType)
    | EnumerationValue(enumeration: Enumeration)
    | ConstraintValue(constraint: Constraint)
    | PackageValue(pkg: Package)
    | ModelValue(model: Model)
}
