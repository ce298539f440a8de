/** The subset of the OSCAL 1.0.0 Component Definition model used by the
    product: the tree ComponentDefinition -> Component ->
    ControlImplementation -> ImplementedRequirement -> Statement, the
    lookups over it and the list mutators. */
module OscalComponent {
  import opened Common

  datatype ComponentType =
    | Software | Hardware | Service | Interconnection | Policy | Process
    | Procedure | Plan | Guidance | Standard | Validation

  /** One sub-part narrative of a requirement, keyed by `statementId`. */
  datatype Statement = Statement(statementId: string, uuid: string, description: string)

  /** A `set-parameters` entry. */
  datatype Parameter = Parameter(paramId: string, values: seq<string>)

  /** The failure of a lookup: the source raises KeyError in both cases. */
  datatype LookupError =
    | CatalogVersionNotFound(catalogVersion: string)
    | ControlNotImplemented(controlId: string)

  /** A props list holds a property named `name`. */
  ghost predicate HasProperty(props: seq<Property>, name: string)
  {
    exists i :: 0 <= i < |props| && props[i].name == name
  }

  /** `value` is the value of the first property named `name`. */
  ghost predicate FirstValue(props: seq<Property>, name: string, value: string)
  {
    exists i :: 0 <= i < |props| && props[i].name == name && props[i].value == value &&
      forall j :: 0 <= j < i ==> props[j].name != name
  }

  /** One control's implementation narrative inside a ControlImplementation.
      Identity and narrative never change after construction; the optional
      lists are grown in place by the `Add` methods. */
  class ImplementedRequirement {
    const uuid: string
    const controlId: string
    const description: string
    var props: Option<seq<Property>>
    var setParameters: Option<seq<Parameter>>
    var statements: Option<seq<Statement>>

    constructor (uuid: string, controlId: string, description: string)
      ensures this.uuid == uuid && this.controlId == controlId && this.description == description
      ensures props.None? && setParameters.None? && statements.None?
    {
      this.uuid := uuid;
      this.controlId := controlId;
      this.description := description;
      props := None;
      setParameters := None;
      statements := None;
    }

    /** The value of the first property called `name`; none when there are
        no properties or none of them has that name. */
    function PropsFilter(name: string): (r: Option<string>)
      reads this
      ensures props.None? ==> r.None?
      ensures r.Some? <==> props.Some? && HasProperty(props.value, name)
      ensures r.Some? ==> FirstValue(props.value, name, r.value)
    {
      if props.None? then None
      else match FirstWhere(props.value, (p: Property) => p.name == name)
        case None => None
        case Some(i) => Some(props.value[i].value)
    }

    /** The `security_control_type` property: who is responsible for the control. */
    function Responsibility(): (r: Option<string>)
      reads this
      ensures r.Some? <==> props.Some? && HasProperty(props.value, "security_control_type")
      ensures r.Some? ==> FirstValue(props.value, "security_control_type", r.value)
    {
      PropsFilter("security_control_type")
    }

    /** The `provider` property. */
    function Provider(): (r: Option<string>)
      reads this
      ensures r.Some? <==> props.Some? && HasProperty(props.value, "provider")
      ensures r.Some? ==> FirstValue(props.value, "provider", r.value)
    {
      PropsFilter("provider")
    }

    // The source guards each append below with `key in <list>`, a test of a
    // string key against the list's model objects. The model takes that test
    // to be false, as it is when the objects' equality (inherited from the
    // `OSCALElement` base class, which is not part of this model) never
    // equates an object with a string; so a repeated key is appended like any
    // other and the `raise KeyError` under the guard is never reached.

    method AddStatement(statement: Statement) returns (self: ImplementedRequirement)
      modifies this`statements
      ensures statements == Some(OrEmpty(old(statements)) + [statement])
      ensures self == this
    {
      if statements.None? || statements.value == [] {
        statements := Some([]);
      }
      statements := Some(statements.value + [statement]);
      self := this;
    }

    method AddParameter(setParameter: Parameter) returns (self: ImplementedRequirement)
      modifies this`setParameters
      ensures setParameters == Some(OrEmpty(old(setParameters)) + [setParameter])
      ensures self == this
    {
      if setParameters.None? || setParameters.value == [] {
        setParameters := Some([]);
      }
      setParameters := Some(setParameters.value + [setParameter]);
      self := this;
    }

    method AddProperty(property: Property) returns (self: ImplementedRequirement)
      modifies this`props
      ensures props == Some(OrEmpty(old(props)) + [property])
      ensures self == this
    {
      if props.None? || props.value == [] {
        props := Some([]);
      }
      props := Some(props.value + [property]);
      self := this;
    }
  }

  /** Two statements with one statement id are both kept: the second add
      does not fail and the first stays attached. */
  method RepeatedStatementIdAccepted(first: Statement, second: Statement)
    returns (attached: seq<Statement>)
    requires first.statementId == second.statementId
    ensures attached == [first, second]
  {
    var req := new ImplementedRequirement("6698d762", "ac-2", "narrative");
    var _ := req.AddStatement(first);
    var _ := req.AddStatement(second);
    attached := OrEmpty(req.statements);
  }

  /** A claim to implement controls for one catalog version; the
      `description` field carries the catalog version tag. */
  datatype ControlImplementation = ControlImplementation(
    uuid: string,
    source: string,
    description: string,
    implementedRequirements: seq<ImplementedRequirement>)

  datatype Component = Component(
    uuid: string,
    componentType: ComponentType,
    title: string,
    description: string,
    controlImplementations: seq<ControlImplementation>)

  /** All requirements of all implementations: implementation order, then
      requirement order. */
  function Flatten(cis: seq<ControlImplementation>): seq<ImplementedRequirement>
  {
    if cis == [] then [] else cis[0].implementedRequirements + Flatten(cis[1..])
  }

  /** Flattening distributes over concatenation of implementation lists. */
  lemma {:induction false} FlattenAppend(a: seq<ControlImplementation>, b: seq<ControlImplementation>)
    ensures Flatten(a + b) == Flatten(a) + Flatten(b)
  {
    if a == [] {
      assert a + b == b;
    } else {
      assert (a + b)[1..] == a[1..] + b;
      FlattenAppend(a[1..], b);
    }
  }

  /** The flattened list holds exactly the requirements of the implementations. */
  lemma {:induction false} FlattenMembership(cis: seq<ControlImplementation>, req: ImplementedRequirement)
    ensures req in Flatten(cis) <==>
      exists i :: 0 <= i < |cis| && req in cis[i].implementedRequirements
  {
    if cis != [] {
      FlattenMembership(cis[1..], req);
      if req in Flatten(cis[1..]) {
        var i :| 0 <= i < |cis[1..]| && req in cis[1..][i].implementedRequirements;
        assert req in cis[i + 1].implementedRequirements;
      }
      if exists i :: 0 <= i < |cis| && req in cis[i].implementedRequirements {
        var i :| 0 <= i < |cis| && req in cis[i].implementedRequirements;
        if i > 0 {
          assert req in cis[1..][i - 1].implementedRequirements;
        }
      }
    }
  }

  /** Some implementation carries the tag `catalogVersion`. */
  ghost predicate HasTag(cis: seq<ControlImplementation>, catalogVersion: string)
  {
    exists i :: 0 <= i < |cis| && cis[i].description == catalogVersion
  }

  /** `ci` is the first implementation tagged `catalogVersion`. */
  ghost predicate FirstTagged(cis: seq<ControlImplementation>, catalogVersion: string, ci: ControlImplementation)
  {
    exists i :: 0 <= i < |cis| && cis[i] == ci && ci.description == catalogVersion &&
      forall j :: 0 <= j < i ==> cis[j].description != catalogVersion
  }

  /** The first implementation tagged `catalogVersion`, or KeyError. */
  function GetControlImplementation(c: Component, catalogVersion: string): (r: Result<ControlImplementation, LookupError>)
    ensures r.Ok? <==> HasTag(c.controlImplementations, catalogVersion)
    ensures r.Ok? ==> FirstTagged(c.controlImplementations, catalogVersion, r.value)
    ensures r.Err? ==> r.error == CatalogVersionNotFound(catalogVersion)
  {
    match FirstWhere(c.controlImplementations, (ci: ControlImplementation) => ci.description == catalogVersion)
    case None => Err(CatalogVersionNotFound(catalogVersion))
    case Some(i) => Ok(c.controlImplementations[i])
  }

  /** Without a version (absent or empty) every implementation's
      requirements; with one, those of the first implementation tagged
      with it, failing as `GetControlImplementation` does. */
  function Controls(c: Component, catalogVersion: Option<string>): (r: Result<seq<ImplementedRequirement>, LookupError>)
    ensures catalogVersion.None? || catalogVersion == Some("") ==>
      r == Ok(Flatten(c.controlImplementations))
    ensures catalogVersion.Some? && catalogVersion.value != "" ==>
      match GetControlImplementation(c, catalogVersion.value)
      case Ok(ci) => r == Ok(ci.implementedRequirements)
      case Err(e) => r == Err(e)
  {
    if catalogVersion.None? || catalogVersion.value == "" then
      Ok(Flatten(c.controlImplementations))
    else
      match GetControlImplementation(c, catalogVersion.value)
      case Ok(ci) => Ok(ci.implementedRequirements)
      case Err(e) => Err(e)
  }

  /** `req` is the first requirement for `controlId` in `reqs`. */
  ghost predicate FirstRequirement(reqs: seq<ImplementedRequirement>, controlId: string, req: ImplementedRequirement)
  {
    exists k :: 0 <= k < |reqs| && reqs[k] == req && req.controlId == controlId &&
      forall j :: 0 <= j < k ==> reqs[j].controlId != controlId
  }

  /** The first requirement for `controlId` inside the first implementation
      tagged `catalogVersion`; each miss is a KeyError of its own. */
  function GetControl(c: Component, controlId: string, catalogVersion: string): (r: Result<ImplementedRequirement, LookupError>)
    ensures r.Err? ==> r.error == CatalogVersionNotFound(catalogVersion) || r.error == ControlNotImplemented(controlId)
    ensures r.Ok? ==> (GetControlImplementation(c, catalogVersion).Ok? &&
      FirstRequirement(GetControlImplementation(c, catalogVersion).value.implementedRequirements, controlId, r.value))
    ensures r == Err(CatalogVersionNotFound(catalogVersion)) <==> GetControlImplementation(c, catalogVersion).Err?
    ensures r == Err(ControlNotImplemented(controlId)) <==>
      (GetControlImplementation(c, catalogVersion).Ok? &&
       forall k :: 0 <= k < |GetControlImplementation(c, catalogVersion).value.implementedRequirements| ==>
         GetControlImplementation(c, catalogVersion).value.implementedRequirements[k].controlId != controlId)
  {
    match GetControlImplementation(c, catalogVersion)
    case Err(e) => Err(e)
    case Ok(ci) =>
      match FirstWhere(ci.implementedRequirements, (req: ImplementedRequirement) => req.controlId == controlId)
      case None => Err(ControlNotImplemented(controlId))
      case Some(k) => Ok(ci.implementedRequirements[k])
  }

  /** `GetControl` answers from the first implementation tagged with the
      version alone: what any other implementation holds, even one with the
      same tag, never changes the outcome. */
  lemma GetControlIgnoresOtherImplementations(
    before: seq<ControlImplementation>, ci: ControlImplementation, after: seq<ControlImplementation>,
    uuid: string, componentType: ComponentType, title: string, description: string,
    controlId: string, catalogVersion: string)
    requires forall j :: 0 <= j < |before| ==> before[j].description != catalogVersion
    requires ci.description == catalogVersion
    ensures var c := Component(uuid, componentType, title, description, before + [ci] + after);
      GetControl(c, controlId, catalogVersion) ==
        match FirstWhere(ci.implementedRequirements, (req: ImplementedRequirement) => req.controlId == controlId)
        case None => Err(ControlNotImplemented(controlId))
        case Some(k) => Ok(ci.implementedRequirements[k])
  {
    var cis := before + [ci] + after;
    assert cis[|before|] == ci;
    var c := Component(uuid, componentType, title, description, cis);
    var r := GetControlImplementation(c, catalogVersion);
    assert r.Ok?;
    var i :| 0 <= i < |cis| && cis[i] == r.value && r.value.description == catalogVersion &&
      forall j :: 0 <= j < i ==> cis[j].description != catalogVersion;
    assert forall j :: 0 <= j < |before| ==> cis[j] == before[j];
    assert i == |before|;
  }

  /** The distinct control ids that occur in some implementation. */
  function ControlIds(c: Component): (ids: set<string>)
    ensures forall id :: id in ids <==>
      exists req :: req in Flatten(c.controlImplementations) && req.controlId == id
    ensures |ids| <= |Flatten(c.controlImplementations)|
  {
    var cis := c.controlImplementations;
    var ids := set i, k | 0 <= i < |cis| && 0 <= k < |cis[i].implementedRequirements| ::
      cis[i].implementedRequirements[k].controlId;
    forall id ensures id in ids <==> exists req :: req in Flatten(cis) && req.controlId == id {
      if id in ids {
        var i, k :| 0 <= i < |cis| && 0 <= k < |cis[i].implementedRequirements| &&
          cis[i].implementedRequirements[k].controlId == id;
        FlattenMembership(cis, cis[i].implementedRequirements[k]);
      }
      if exists req :: req in Flatten(cis) && req.controlId == id {
        var req :| req in Flatten(cis) && req.controlId == id;
        FlattenMembership(cis, req);
        var i :| 0 <= i < |cis| && req in cis[i].implementedRequirements;
        var k :| 0 <= k < |cis[i].implementedRequirements| && cis[i].implementedRequirements[k] == req;
        assert cis[i].implementedRequirements[k].controlId in ids;
      }
    }
    IdsBoundedByRequirements(Flatten(cis), ids);
    ids
  }

  /** A set drawn from the control ids of a list is no larger than the list. */
  lemma {:induction false} IdsBoundedByRequirements(reqs: seq<ImplementedRequirement>, ids: set<string>)
    requires forall id :: id in ids ==> exists req :: req in reqs && req.controlId == id
    ensures |ids| <= |reqs|
  {
    if reqs == [] {
      assert ids == {};
    } else {
      var last := reqs[|reqs| - 1];
      var rest := ids - {last.controlId};
      forall id | id in rest ensures exists req :: req in reqs[..|reqs| - 1] && req.controlId == id {
        var req :| req in reqs && req.controlId == id;
        var k :| 0 <= k < |reqs| && reqs[k] == req;
        assert k < |reqs| - 1;
        assert reqs[..|reqs| - 1][k] == req;
      }
      IdsBoundedByRequirements(reqs[..|reqs| - 1], rest);
    }
  }

  /** The catalog versions the component declares: the implementation tags
      that name one of the `valid` catalog versions, each once; a tag that
      names none is skipped without error. */
  method CatalogVersions(c: Component, valid: set<string>) returns (versions: set<string>)
    ensures forall v :: v in versions <==>
      v in valid && exists i :: 0 <= i < |c.controlImplementations| && c.controlImplementations[i].description == v
  {
    versions := {};
    for n := 0 to |c.controlImplementations|
      invariant forall v :: v in versions <==>
        v in valid && exists i :: 0 <= i < n && c.controlImplementations[i].description == v
    {
      var description := c.controlImplementations[n].description;
      if description !in valid {
        continue;
      }
      versions := versions + {description};
    }
  }

  /** The component of the project fixture: one implementation tagged with
      the revision 5 catalog version holding five requirements, four of them
      sharing one uuid. Looking up "ac-2" finds the first requirement's
      narrative, and the tag is the only catalog version it declares. */
  method CoolComponentScenario(r5: string, valid: set<string>)
    returns (narrative: Result<string, LookupError>, ids: set<string>, versions: set<string>)
    requires r5 in valid
    ensures narrative == Ok("This component satisfies a.")
    ensures ids == {"ac-2", "at-1", "at-2", "at-3", "pe-3"}
    ensures versions == {r5}
  {
    var a := new ImplementedRequirement("6698d762-5cdc-452e-9f9e-3074df5292c6", "ac-2", "This component satisfies a.");
    var b := new ImplementedRequirement("73dd3c2e-54eb-43c6-a488-dfb7c79d9413", "at-1", "This component satisfies b.");
    var c := new ImplementedRequirement("73dd3c2e-54eb-43c6-a488-dfb7c79d9413", "at-2", "This component satisfies c.");
    var d := new ImplementedRequirement("73dd3c2e-54eb-43c6-a488-dfb7c79d9413", "at-3", "This component satisfies d.");
    var e := new ImplementedRequirement("73dd3c2e-54eb-43c6-a488-dfb7c79d9413", "pe-3", "This component satisfies e.");
    var ci := ControlImplementation(
      "f94a7f03-6ac5-4386-98eb-fa0392f26a1c", "https://raw.githubusercontent.com/NIST/catalog.json", r5, [a, b, c, d, e]);
    var component := Component(
      "e35accd9-0cc3-4a02-8557-01764c7cbe0b", Software, "Cool Component", "This is a really cool component.", [ci]);
    var found := GetControl(component, "ac-2", r5);
    match found {
      case Ok(req) => narrative := Ok(req.description);
      case Err(err) => narrative := Err(err);
    }
    var reqs := [a, b, c, d, e];
    assert Flatten(component.controlImplementations) == reqs by {
      assert [ci][1..] == [];
    }
    ids := ControlIds(component);
    assert forall id :: id in ids <==> exists k :: 0 <= k < 5 && reqs[k].controlId == id;
    assert reqs[0].controlId == "ac-2" && reqs[1].controlId == "at-1" && reqs[2].controlId == "at-2";
    assert reqs[3].controlId == "at-3" && reqs[4].controlId == "pe-3";
    versions := CatalogVersions(component, valid);
    assert forall v :: v in versions <==> v == r5;
  }

  /** A component-definition document; its optional lists are grown in place. */
  class ComponentDefinition {
    const uuid: string
    var components: Option<seq<Component>>
    var capabilities: Option<seq<Capability>>

    constructor (uuid: string)
      ensures this.uuid == uuid && components.None? && capabilities.None?
    {
      this.uuid := uuid;
      components := None;
      capabilities := None;
    }

    // As in ImplementedRequirement, the `key in <list>` guard compares a
    // uuid string with model objects and is taken never to fire.

    method AddComponent(component: Component) returns (self: ComponentDefinition)
      modifies this`components
      ensures components == Some(OrEmpty(old(components)) + [component])
      ensures self == this
    {
      if components.None? || components.value == [] {
        components := Some([]);
      }
      components := Some(components.value + [component]);
      self := this;
    }

    method AddCapability(capability: Capability) returns (self: ComponentDefinition)
      modifies this`capabilities
      ensures capabilities == Some(OrEmpty(old(capabilities)) + [capability])
      ensures self == this
    {
      if capabilities.None? || capabilities.value == [] {
        capabilities := Some([]);
      }
      capabilities := Some(capabilities.value + [capability]);
      self := this;
    }
  }

  /** A weak reference from a capability to a component, by uuid. */
  datatype IncorporatesComponent = IncorporatesComponent(componentUuid: string, description: string)

  datatype Capability = Capability(
    uuid: string,
    name: string,
    description: string,
    controlImplementations: Option<seq<ControlImplementation>>,
    incorporatesComponents: Option<seq<IncorporatesComponent>>)
}
