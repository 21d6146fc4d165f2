# DOMMLite semantic actions

DOMMLite is a textual domain-modelling language. Its parser reduces a
source document bottom-up. For each matched grammar production, a semantic
action (`first_pass` of an `*Action` class) receives the already-reduced
children of that production, in source order, and builds one metamodel
node from them. Every child is one of these:
- a raw string token (a keyword or punctuation mark);
- Python `None`;
- an integer;
- an identifier qualified by the namespace path in force where it was read;
- a node some lower action already built.

Most actions walk their children once. They look at each child's runtime
type, and for a few children also at its position or its literal text. Each
recognised child is routed into one field of a fresh accumulator object. A
scalar field is overwritten, so the last matching child wins. A list field
is appended to, so it keeps source order. A spec set is unioned into, so
equal specs collapse. Children the action does not recognise are ignored.

This project models those actions in Dafny:

- `metamodel.dfy` (module `Metamodel`):
  - the child values, as one closed datatype `Child`;
  - the metamodel nodes the actions build, as records holding the fields the
    actions assign;
  - the helper records `StrObj`, `RefObj`, `ExtObj`, `DepObj` and
    `SpecsObj`;
  - `Result`/`Failure` for the Python exceptions an action can raise.
- `children.dfy` (module `Children`): the meaning of "the last matching
  child wins" (`Last`), "matching children in order" (`Collect`), "union of
  what every child brings" (`UnionOf`), and the generator-expression filters
  (`Filter`). Lemmas state each of them in terms of positions.
- `leaves.dfy` (module `Leaves`): the identifier, integer, string and
  ellipsis leaves; descriptions (`NamedElementAction`); string parameters;
  references.
- `declarations.dfy` (module `Declarations`): the model map, model,
  enumeration, common tag, apply and constraint definitions, enumeration
  literal, data type, constraint and package actions.
- `specs.dfy` (module `Specs`): constraint specifications and spec sets.
- `features.dfy` (module `Features`): type references, properties,
  exceptions, extends and depends-on references, operation parameters,
  operations and services.
- `scenarios.dfy` (module `Scenarios`): worked reductions of small child
  sequences.

Every action that loops over its children is a method with that loop. In
the smaller actions, the loop's invariants tie each accumulator field to the
`Children` combinators over the prefix seen so far. The larger actions
(model, constraint spec, property, operation, service) have two parts. A
specification function (`ModelSpec`, `SpecOfFiltered`, `PropertySpec`,
`OperationSpec`, `ServiceSpec`) builds the whole node from the combinators.
A route function (`ModelRoute`, `SpecRoute`, and so on) is one round of the
source's `if`/`elif` chain. A step lemma proves that one round extends the
specification of a prefix to that of the prefix plus one child. The loop
then keeps a single invariant: the accumulator is the specification of the
prefix. Each method's postcondition states the finished node in terms of the
combinators. Actions without a loop are functions. A Python exception
becomes an `Err` outcome naming the failure.

The metamodel module (`metamodel.py`) is not part of this model. Its
setters are modelled as plain field assignment, and every field an action
does not set stays at an explicit default (`None`, `false`, `[]` or `{}`).

## Model

| member | source | states |
|---|---|---|
| Declarations.DommAction | domm/domm/actions.py:8-15 | Non-token children are keyed by their name. The action fails exactly when a non-token child has no `name`, and the failure is then AttributeError on `name`. Otherwise the key set is exactly the children's names, and each key maps to the last child with that name. |
| Declarations.ModelMapSpec | domm/domm/actions.py:8-15 | Same three facts about the reference fold `ModelMap`, proved by induction over the children. |
| Declarations.ModelMapIgnoresTokens | domm/domm/actions.py:11 | Dropping the string tokens first does not change the model map. |
| Declarations.ModelStep | domm/domm/actions.py:25-35 | One round of the loop turns the model of a prefix into the model of the prefix plus the next child. |
| Declarations.ModelAction | domm/domm/actions.py:21-40 | Name and description come from the last identifier and the last description. Data types and enumerations, constraints and packages each keep source order. |
| Leaves.NamedElementAction | domm/domm/actions.py:48-70 | After quote marks are dropped, the result is absent exactly when every remaining child is `None`; otherwise at least one field is set. The child at index 0 is the short description. The last present child after it is the long description. |
| Leaves.NamedElementAbsent | domm/domm/actions.py:53-63 | Over the raw children: the description is absent exactly when every child is `None` or a quote mark. |
| Leaves.StringAction | domm/domm/actions.py:78-82 | Returns the first child. An empty child list raises IndexError. |
| Leaves.IdAction | domm/domm/actions.py:88-89 | The identifier carries the matched text and the namespace path in force. |
| Leaves.IntAction | domm/domm/actions.py:95-96 | Succeeds exactly on an optionally signed, non-empty run of decimal digits. Any other text raises ValueError. |
| Leaves.IntActionRoundTrip | domm/domm/actions.py:95-96 | Every integer is read back from its decimal spelling. |
| Declarations.EnumAction | domm/domm/actions.py:102-115 | Name and description come from the last identifier and the last description. Literals keep source order. The namespace is the one in force. |
| Declarations.CommonTagAction | domm/domm/actions.py:121-140 | Name, description, constraint definition and apply definition each come from the last child of that kind. |
| Declarations.ApplyDefAction | domm/domm/actions.py:143-156 | Every child, unfiltered, becomes an applied-to target in order. The "appliesTo" marker is kept. |
| Declarations.ConstrDefAction | domm/domm/actions.py:159-171 | Keeps exactly the children that are not "(", ")" or ",", in order. None of those marks remains. |
| Declarations.ConstrDefKeepsVariadic | domm/domm/actions.py:159-171 | The "..." variadic marker passes the filter. |
| Declarations.EnumLiteralAction | domm/domm/actions.py:177-188 | Fails with IndexError when there are no children, or when the only child is an identifier. Fails with AttributeError when the first child is not an identifier, or when there are exactly three children and the third is not a description. The name comes from child 0 and the value from child 1. There is a description exactly when there are three children, and it is then the third child's. |
| Declarations.DataTypeAction | domm/domm/actions.py:196-218 | `built_in` is the configured flag, whatever the children are. The namespace is the one in force. Name and description come from the last identifier and the last description. |
| Declarations.NewConstraintAction | domm/domm/actions.py:231-236 | Keeps `built_in`. The kind is Tag exactly when `is_tag` holds, and Validator otherwise. |
| Declarations.ConstraintAction | domm/domm/actions.py:238-255 | Flag and kind come from the configuration, and the namespace is the one in force. Name and common tag come from the last identifier and the last tag. |
| Declarations.PackageAction | domm/domm/actions.py:258-274 | Name and description come from the last identifier and the last description. The elements are exactly the other non-token children, in order. |
| Features.TypeDefAction | domm/domm/actions.py:277-293 | An identifier at position 0 is the base type, and the last identifier after it is the name. The reference is a container exactly when a "[" occurs. The multiplicity is the last integer. |
| Specs.SpecStep | domm/domm/actions.py:305-313 | One round of the loop, at position `ind` of the filtered children, turns the spec of a prefix into the spec of the prefix plus the next child. Only position 0 can set the identifier. |
| Specs.ConstraintSpecAction | domm/domm/actions.py:296-318 | After tokens are dropped, a leading identifier is the spec's identifier. Every later identifier, string-parameter content and integer is a parameter, in source order. |
| Leaves.ConstraintParamAction | domm/domm/actions.py:335-348 | Gives the empty string exactly when every child is a quote mark. Otherwise gives a StrObj holding the last child that is not a quote mark. |
| Specs.ConstraintSpecListAction | domm/domm/actions.py:362-380 | The set holds every spec child, plus the zero-parameter spec of every identifier child. |
| Specs.SpecListMembers | domm/domm/actions.py:365-375 | A spec is in the set exactly when it is a spec child, or it is parameterless and names an identifier child. |
| Specs.SpecListDuplicate | domm/domm/actions.py:370-375 | Inserting a spec equal to one already present leaves the set unchanged. |
| Specs.EqualSpecsCollapse | domm/domm/actions.py:370-375 | After any earlier children, two spec children with equal identifier and parameters add a single member to the set. |
| Leaves.RefAction | domm/domm/actions.py:393-403 | Absent exactly when no child is an identifier. Otherwise refers to the last identifier child. |
| Features.PropertyStep | domm/domm/actions.py:414-464 | One round of the loop turns the property of a prefix into the property of the prefix plus the next child. |
| Features.PropertyAction | domm/domm/actions.py:408-469 | The loop builds exactly `PropertySpec` of the children. |
| Features.PropertySpecMeaning | domm/domm/actions.py:408-469 | Each keyword sets only its own flag, exactly when it occurs. The type is `PropertyTypeDef`. A relationship exists exactly when a "+" or a reference child occurs. It is a containment exactly when "+" occurs, and its opposite end is the last reference's identifier. The specs are the union of every spec-set child's specs. |
| Features.PropertyTypeDefStep | domm/domm/actions.py:428-463 | A type-reference child replaces the property's type. A description is set on the current type, or on a newly created empty one. |
| Features.PropertyTypeDefFoldSpec | domm/domm/actions.py:414-463 | The type the loop builds is the last type-reference child (or an empty one), carrying the last description that comes after it. |
| Features.PropertyTypeDefAbsent | domm/domm/actions.py:428-463 | The property has no type exactly when there is no type-reference child and no description child. |
| Features.ExceptionAction | domm/domm/actions.py:472-492 | Name and description come from the last identifier and the last description. Properties keep source order. |
| Features.ExtDefAction | domm/domm/actions.py:504-515 | Absent exactly when no child is an identifier. Otherwise the first identifier child becomes an entity reference. |
| Features.DepDefAction | domm/domm/actions.py:532-547 | Every identifier child becomes a dependency of the default kind, in source order. |
| Features.DependencyMembers | domm/domm/actions.py:538-540 | A reference is a dependency exactly when it has the default kind and names an identifier child. |
| Features.OpParamAction | domm/domm/actions.py:550-574 | Raises TypeError exactly when some child is a spec set. Otherwise type and description come from the last child of each kind. Each keyword sets only its own flag, and the constraints stay empty. |
| Features.OperationPunctIgnored | domm/domm/actions.py:577 | Dropping the parentheses and braces changes none of the operation's fields. |
| Features.OperationStep | domm/domm/actions.py:583-603 | One round of the loop turns the operation of a prefix into the operation of the prefix plus the next child. |
| Features.OperationAction | domm/domm/actions.py:576-607 | Type and description come from the last child of each kind, and each keyword sets only its own flag. Parameters keep source order. The specs are the union of every spec-set child's specs. Every identifier child becomes a thrown exception, in source order. |
| Features.ThrownMembers | domm/domm/actions.py:600-602 | A reference is thrown exactly when it is an exception-type reference that names an identifier child. |
| Features.ServiceStep | domm/domm/actions.py:621-636 | One round of the loop turns the service of a prefix into the service of the prefix plus the next child. |
| Features.ServiceIgnoresTokens | domm/domm/actions.py:614 | Dropping the raw strings first does not change the service. |
| Features.ServiceAction | domm/domm/actions.py:611-641 | Name, description, extends reference and dependency list each come from the last child of that kind; the dependencies are empty when there is none. The specs are the union of every spec-set child's specs. Operations keep source order. |
| Features.SpecsMergeIdempotent | domm/domm/actions.py:632-634 | A spec-set child whose specs are all already in the set, brought by any earlier children, adds nothing. |
| Features.SpecsObjDuplicateCollapse | domm/domm/actions.py:632-634 | After any earlier children, two spec-set children carrying equal specs add a single member to the spec set. This is the form the merging of equal specs takes in the source: the service, property and operation actions merge only spec-set children, and a bare constraint-spec child is ignored. |
| Children.LastNone | domm/domm/actions.py:621-629 | A last-wins field stays unset exactly when no child is of its kind. |
| Children.LastIndexIsLast | domm/domm/actions.py:427-428 | No child after the last matching position is of the matching kind. |
| Children.LastAtLastIndex | domm/domm/actions.py:427-428 | The last-wins value is what the child at the last matching position yields, and unset when there is none. |
| Children.FilterMembers | domm/domm/actions.py:479 | A child survives a filter exactly when it occurs and the filter accepts it. |
| Children.FilterAppend | domm/domm/actions.py:479 | Filtering keeps relative order, because it distributes over concatenation. |
| Children.CollectAppend | domm/domm/actions.py:583-603 | Appending matching children keeps relative order, because it distributes over concatenation. |
| Children.CollectMembers | domm/domm/actions.py:583-603 | A value is appended exactly when some child yields it. |
| Children.UnionMembers | domm/domm/actions.py:632-634 | A spec is in the merged set exactly when some child brings it. |
| Children.UnionAbsorbs | domm/domm/actions.py:632-634 | A child whose specs are already present changes nothing. |
| Children.LastIgnoresDropped | domm/domm/actions.py:614-623 | Filtering out children the field ignores does not change the last-wins value. |
| Children.CollectIgnoresDropped | domm/domm/actions.py:614-636 | Filtering out children the list ignores does not change the list. |
| Children.UnionIgnoresDropped | domm/domm/actions.py:614-634 | Filtering out children the set ignores does not change the set. |
| Children.FilterTwice | domm/domm/actions.py:261 | Two successive filters keep exactly what both accept. |

## Left out

- Debug tracing (`if parser.debugDomm: print(...)`) and every `__repr__`: these only produce output.
- The `SemanticAction` base class and the parser and node objects. `parser.namespace` is an input sequence of names, and `node.value` an input string.
- Pushing and popping the namespace path on package entry and exit: no action does this. The path an action reads is a parameter, so nesting discipline is not modelled.
- Aliasing: Python passes node objects by reference. When a property receives a description, `set_desc` mutates the shared TypeDef child itself. The model builds a new value instead, so that mutation is not visible through other references. In the same way, an identifier, enumeration, data type or constraint may keep a reference to the parser's own namespace list. The model assumes it stores a copy of the path as it stands at that reduction, so a later push or pop on the parser's list does not change namespaces already stored.
- Leaves.IntAction: Python's `int()` also accepts surrounding whitespace, underscores between digits and non-ASCII decimal digits. The model accepts only an optional sign followed by ASCII digits.
- Leaves.ElipsisAction: returns the "..." marker and carries no contract of its own. What it is for appears in `Declarations.ConstrDefKeepsVariadic`.
- Declarations.EnumLiteralAction: only a description child is assumed to have `short_desc` and `long_desc`. A third child of any other kind is modelled as AttributeError.
- Declarations.DommAction: only models, packages, data types, enumerations, constraints, common tags, type references, exceptions, services and enumeration literals are assumed to have a `name` field. The map key is that name, absent when the field is unset. Operation parameters, operations, properties, descriptions, identifiers, integers and `None` are assumed to have none, so the action fails with AttributeError on them. This goes against the design's data model, which gives operation parameters and operations a name.
- Features.PropertyAction: its contract ties the result to `PropertySpec`, whose type is the loop-shaped fold `PropertyTypeDefFold`. The field-by-field meaning is proved separately in `Features.PropertySpecMeaning`, and the declarative type in `Features.PropertyTypeDefFoldSpec` and `Features.PropertyTypeDefAbsent`.
- Leaves.NamedElementAction: the `NamedElement` class is defined in the metamodel module, which is not part of this model. Every `NamedElement` object is assumed to be truthy, that is, to define neither `__bool__` nor `__len__`.
- Identifier equality: `Id` is assumed not to define an `__eq__` that could make an identifier compare equal to a keyword string.
- Features.OperationAction: `add_throws_exception` belongs to the metamodel module, which is not part of this model, and the design describes an operation's thrown exceptions as a set of references. The model keeps an ordered list instead, so it keeps duplicates and source order where the metamodel may collapse duplicates or not keep order.
- Metamodel defaults: the metamodel module's constructors are not available. Unset fields are `None`, `false`, `[]` or `{}`, and a spec set is a mathematical set of (identifier, parameters) values.
- Features.OpParamAction: the source iterates a spec-set child directly (`for x in val`). That child defines no iteration, so the call raises TypeError. The model keeps this as the `NotIterable` error outcome.
- Declarations.ApplyDefAction: the filter the action computes and never uses is not modelled, because it has no effect on the result.
- Malformed enumeration literals raise the Python exceptions the code raises (IndexError, AttributeError). There is no dedicated malformed-node error value.
