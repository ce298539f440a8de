# OSCAL component definitions and SSP assembly, in Dafny

This project models two parts of a compliance-documentation back end (atoasap).

**1. The Component Definition model** (`blueprintapi/oscal/component.py`).
This is a subset of the NIST OSCAL 1.0.0 Component Definition model. The tree is
ComponentDefinition → Component → ControlImplementation → ImplementedRequirement → Statement.
The model covers:

- the lookups over that tree:
  - property filtering (`_props_filter`, `responsibility`, `provider`);
  - the first implementation tagged with a catalog version;
  - the requirements of one version or of all versions;
  - the requirement for one control;
  - the distinct control ids;
  - the valid catalog versions a component declares;
- the list mutators on ImplementedRequirement and ComponentDefinition.

`ImplementedRequirement` and `ComponentDefinition` are classes, because the source grows their optional lists in place. The lookups are functions over the remaining value types.

**2. System Security Plan (SSP) assembly** (`projects/downloads.py`, class `OscalSSP`).
This builds an SSP from a snapshot of a project. The class `SspAssembly.OscalSsp` has one method per step of the source's constructor:

- `SetRoles` derives users and metadata roles from the stakeholders:
  - a parenthesised abbreviation, or the initials of the key's words, becomes the short name;
  - the role id is the title hyphenated and lower-cased;
  - roles are de-duplicated by id.
- `AddComponents` maps project components to SSP components and records their uuids by title.
- `AddImplementedRequirements` builds one requirement per control, with one ByComponent entry per implementing component.

Each method is proved against a specification function: `Roles`, `Users`, `SystemComponents`, `ComponentRef` or `Expected`. Lemmas then establish what those functions promise:

- role ids are unique and in first-occurrence order;
- users and roles grow in lockstep;
- the last component with a title wins in the uuid map;
- a control appears once per implementing component.

`Text` models the Python string operations the role derivation relies on: `str.find` with its -1 result, negative slicing, `split()`, `strip()`, `upper()`, `lower()`, `replace` and the first group of `re.search(r"\((.*?)\)", key)`. `Common` holds Option, Result, the name/value Property and a first-match search (`next(filter(...))`).

### The duplicate-key guard

The mutators `add_statement`, `add_parameter`, `add_property`, `add_component` and `add_capability` each guard the append with `key in <list>` (for example `blueprintapi/oscal/component.py:92-96`). That test compares a string key with a list of model objects. Whether it can ever hold depends on the equality the objects inherit from the `OSCALElement` base class, which is not part of this model. The model takes the test to be false, as it is for an equality that never equates a model object with a string. The `raise KeyError` under that guard is therefore never reached, and a repeated key is appended like any other. The model appends unconditionally. `OscalComponent.RepeatedStatementIdAccepted` shows two statements with the same id both being kept.

## Model

| member | source | states |
|---|---|---|
| Text.Find | projects/downloads.py:74 | `str.find` returns -1 or an index into the text |
| Text.FindIsFirstOccurrence | projects/downloads.py:74 | `str.find`: the lowest index where the pattern occurs, or -1 exactly when it occurs nowhere |
| Text.ParenGroupIsFirstGroup | projects/downloads.py:71-73 | the search succeeds iff some ")" follows some "("; the captured group then starts right after the first "(" and ends at the first ")" after it |
| Text.GroupAtUnique | projects/downloads.py:71-73 | at most one group can be captured: its position and text are determined by the key |
| Text.WordLength | projects/downloads.py:77 | a word runs to the first whitespace: no whitespace inside it, and whitespace (or the end) after it |
| Text.IsSpace | projects/downloads.py:77 | `str.isspace()` for one character: the ASCII and Unicode whitespace code points Python recognises |
| Text.SliceTo | projects/downloads.py:74 | `s[:k]` is a prefix of `s`: of length `k` capped at `|s|` for `k >= 0`, and `|s| + k` floored at 0 for negative `k` |
| Text.ParenGroup | projects/downloads.py:71-73 | the first "(...)" group of the key, defined by a first-match search; characterised by `Text.ParenGroupIsFirstGroup` |
| Text.Split | projects/downloads.py:77 | `split()` yields non-empty words without whitespace |
| Text.SplitWordIsMaximalRun | projects/downloads.py:77 | every word of `split()` is a slice of the text that starts with non-whitespace and has whitespace or an end of the text on either side: a maximal run, never part of one nor two joined |
| Text.NonSpaceOfWord | projects/downloads.py:77 | the non-whitespace characters of a text that starts with a word are that word, then those of the rest |
| Text.SplitKeepsNonSpace | projects/downloads.py:77 | concatenating the words of `split()` gives back the text minus its whitespace |
| Text.Initials | projects/downloads.py:77-79 | one initial per word |
| Text.WordStartsSkipsWord | projects/downloads.py:77-79 | inside a word, no further character starts a word |
| Text.InitialsAreWordStarts | projects/downloads.py:77-79 | the initials are exactly the characters that begin a word (non-space, at the front or after whitespace) |
| Text.LeadingSpace | projects/downloads.py:97 | the run of whitespace at the front of the text |
| Text.TrailingSpaceStart | projects/downloads.py:97 | the run of whitespace at the back of the text |
| Text.Strip | projects/downloads.py:97 | `strip()`: the text between its leading and trailing whitespace; characterised by `Text.StripRemovesOuterSpace` |
| Text.StripRemovesOuterSpace | projects/downloads.py:97 | `strip()` is a slice of the text with only whitespace removed on either side, and it neither starts nor ends with whitespace |
| Text.Lower | projects/downloads.py:84 | `lower()` keeps the length, leaves no ASCII upper-case letter, and keeps every character up to case |
| Text.Upper | projects/downloads.py:98 | `upper()` keeps the length, leaves no ASCII lower-case letter, and keeps every character up to case |
| Text.HyphenateSpaces | projects/downloads.py:84 | `replace(" ", "-")` keeps the length, turns every space into "-" and keeps every other character |
| Common.FirstWhere | blueprintapi/oscal/component.py:73 | `next(filter(p, s))`: the index of the first element satisfying `p`; none exactly when no element does |
| OscalComponent.ImplementedRequirement.constructor | blueprintapi/oscal/component.py:58-67 | a requirement starts with its uuid, control id and narrative, and with no properties, parameters or statements |
| OscalComponent.ImplementedRequirement.PropsFilter | blueprintapi/oscal/component.py:69-78 | None when there are no props; otherwise the value of the first property with that name, present iff some property has that name |
| OscalComponent.ImplementedRequirement.Responsibility | blueprintapi/oscal/component.py:80-82 | the value of the first "security_control_type" property, present iff one exists |
| OscalComponent.ImplementedRequirement.Provider | blueprintapi/oscal/component.py:84-86 | the value of the first "provider" property, present iff one exists |
| OscalComponent.ImplementedRequirement.AddStatement | blueprintapi/oscal/component.py:88-98 | statements become the old list (or []) followed by the new statement; no other field changes; returns self |
| OscalComponent.ImplementedRequirement.AddParameter | blueprintapi/oscal/component.py:100-110 | set-parameters become the old list (or []) followed by the new parameter; no other field changes; returns self |
| OscalComponent.ImplementedRequirement.AddProperty | blueprintapi/oscal/component.py:112-122 | props become the old list (or []) followed by the new property; no other field changes; returns self |
| OscalComponent.Flatten | blueprintapi/oscal/component.py:199-203 | all requirements of all implementations, in implementation order and then requirement order; characterised by `FlattenAppend` and `FlattenMembership` |
| OscalComponent.RepeatedStatementIdAccepted | blueprintapi/oscal/component.py:88-98 | two statements with one statement id are both attached, in order: the duplicate guard does not reject the second |
| OscalComponent.FlattenAppend | blueprintapi/oscal/component.py:199-203 | flattening distributes over concatenation of implementation lists |
| OscalComponent.FlattenMembership | blueprintapi/oscal/component.py:199-203 | a requirement is in the flattened list iff some implementation holds it |
| OscalComponent.GetControlImplementation | blueprintapi/oscal/component.py:174-185 | the first implementation whose description equals the version, found iff one has it; otherwise the catalog-version KeyError |
| OscalComponent.Controls | blueprintapi/oscal/component.py:197-205 | with no version or an empty one, all requirements in implementation order and then requirement order; otherwise the tagged implementation's requirements, or the same error as the implementation lookup |
| OscalComponent.GetControl | blueprintapi/oscal/component.py:207-222 | the only errors are the two KeyErrors; the first requirement for the control inside the first tagged implementation; a catalog-version error iff no implementation is tagged; a control error iff the tagged one has no requirement for the control |
| OscalComponent.GetControlIgnoresOtherImplementations | blueprintapi/oscal/component.py:207-222 | the result depends only on the first tagged implementation: later implementations, even ones with the same tag, never affect it |
| OscalComponent.ControlIds | blueprintapi/oscal/component.py:187-195 | exactly the control ids of the requirements of some implementation, each once; no more ids than requirements |
| OscalComponent.IdsBoundedByRequirements | blueprintapi/oscal/component.py:187-195 | a set of ids drawn from a requirement list is no larger than the list |
| OscalComponent.CatalogVersions | blueprintapi/oscal/component.py:224-233 | exactly the implementation descriptions that are valid catalog versions; invalid ones are skipped without error |
| OscalComponent.CoolComponentScenario | projects/tests.py:15-68 | for the five-requirement fixture, looking up "ac-2" under the R5 tag yields "This component satisfies a."; the control ids are the five listed; the R5 tag is the only catalog version |
| OscalComponent.ComponentDefinition.constructor | blueprintapi/oscal/component.py:264-270 | a definition starts with no components and no capabilities |
| OscalComponent.ComponentDefinition.AddComponent | blueprintapi/oscal/component.py:272-280 | components become the old list (or []) followed by the new component; no other field changes; returns self |
| OscalComponent.ComponentDefinition.AddCapability | blueprintapi/oscal/component.py:282-290 | capabilities become the old list (or []) followed by the new capability; no other field changes; returns self |
| SspAssembly.GetImpactLevel | projects/downloads.py:103-108 | all three security objectives are equal to "fips-199-" followed by the project's impact level |
| SspAssembly.GetInformationType | projects/downloads.py:113-120 | title and description are the project title; all three impacts are equal to the impact-level string |
| SspAssembly.DeriveNames | projects/downloads.py:71-79 | the title and short name of one stakeholder key: with a "(...)" group, the group and the key up to " ("; otherwise the key and its initials; characterised by `ParenthesisedAbbreviation`, `NoParenthesesUsesInitials` and `MissingSpaceBeforeParenthesis` |
| SspAssembly.GroupAtFirstParenthesis | projects/downloads.py:71-73 | a group that starts right after the first "(" and is closed by the first ")" after it is what the search captures |
| SspAssembly.GroupOfParenthesisedKey | projects/downloads.py:71-73 | in `title (abbr)rest`, with no "(" in the title and no ")" in the abbreviation, the captured group is the abbreviation |
| SspAssembly.FindOfParenthesisedKey | projects/downloads.py:74 | in such a key, the first " (" is right after the title |
| SspAssembly.ParenthesisedAbbreviation | projects/downloads.py:71-74 | such a key derives exactly that title and that short name |
| SspAssembly.NoParenthesesUsesInitials | projects/downloads.py:75-79 | a key without "(" is its own title, and its short name is the characters that begin its words |
| SspAssembly.MissingSpaceBeforeParenthesis | projects/downloads.py:71-74 | when a "(...)" group exists but no " (" occurs, the title is the key without its last character |
| SspAssembly.NoSpaceBeforeParenthesis | projects/downloads.py:74 | a key in which no space is followed by "(" makes `find(" (")` return -1 |
| SspAssembly.RoleId | projects/downloads.py:84 | `title.replace(" ", "-").lower()`; characterised by `RoleIdHyphenatesAndLowers` |
| SspAssembly.RoleIdHyphenatesAndLowers | projects/downloads.py:84 | same length as the title; each space becomes "-", every other character is lower-cased; no space or upper-case letter remains |
| SspAssembly.StakeholderNames | projects/downloads.py:69-83 | the names of a stakeholder are those of its last item, and empty when it has none, as the inner loop overwrites them |
| SspAssembly.Candidate | projects/downloads.py:69-85 | a stakeholder is a candidate iff its title (from its last item) is non-empty; it then carries those names, the role id of the title and the last item's property |
| SspAssembly.EnrolledIds | projects/downloads.py:86 | the ids list holds, index by index, the role ids of the enrolments |
| SspAssembly.UsersAndRolesInLockstep | projects/downloads.py:87-101 | users and roles have the same length; the i-th user holds just the i-th role's id; the role's title is the user's title stripped and its short name is the user's upper-cased |
| SspAssembly.Enrolments | projects/downloads.py:85-101 | the stakeholders that receive a role, in order: a non-empty title whose role id no earlier one received; characterised by `EnrolmentsStep`, `RoleIdsAreFirstOccurrences` and `RoleIdsUnique` |
| SspAssembly.Users | projects/downloads.py:87-94 | the users `set_roles` appends, one per enrolment; characterised by `UsersAndRolesInLockstep` |
| SspAssembly.Roles | projects/downloads.py:95-101 | the metadata roles `set_roles` builds, one per enrolment; characterised by `UsersAndRolesInLockstep`, `RoleIdsAreFirstOccurrences` and `RoleIdsUnique` |
| SspAssembly.Dedupe | projects/downloads.py:85-86 | an independent definition of "first occurrence of every id, in order", against which `FirstByIdIsDedupe` checks the loop's selection; characterised by `DedupeMembership` and `DedupeDistinct` |
| SspAssembly.Without | projects/downloads.py:85-86 | removing an id keeps every other element and no more |
| SspAssembly.DedupeMembership | projects/downloads.py:85-86 | first occurrences contain the same ids as the full list |
| SspAssembly.DedupeDistinct | projects/downloads.py:85-86 | first occurrences are pairwise distinct |
| SspAssembly.WithoutAppend | projects/downloads.py:85-86 | removing an id distributes over appending one element |
| SspAssembly.DedupeAppend | projects/downloads.py:85-86 | an appended id extends the first occurrences iff it is new |
| SspAssembly.FirstByIdIsDedupe | projects/downloads.py:85-86 | keeping the first candidate per role id keeps exactly the first occurrence of every id |
| SspAssembly.EnrolmentsStep | projects/downloads.py:85-101 | one more stakeholder enrols iff it is a candidate whose role id is not yet enrolled |
| SspAssembly.CandidateFromNames | projects/downloads.py:69-85 | the names and property the inner loop leaves behind determine the candidate: none for an empty title, otherwise the enrolment with that title's role id, those names and that property |
| SspAssembly.SetRolesStep | projects/downloads.py:68-101 | one round of the outer loop appends the enrolment iff the title is non-empty and the role id is new |
| SspAssembly.EnrolmentAppend | projects/downloads.py:86-101 | appending an enrolment appends its id, its user and its role |
| SspAssembly.RoleIdsAreFirstOccurrences | projects/downloads.py:85-86 | the metadata role ids are the stakeholders' role ids in first-occurrence order, each once |
| SspAssembly.RoleIdsUnique | projects/downloads.py:85-101 | no two roles share an id, and an id has a role iff some stakeholder with a non-empty title has it |
| SspAssembly.SystemComponentFor | projects/downloads.py:149-162 | the SSP component for one project component: status 1 gives "This System" / "this-system" described by the project title, any other status copies title, type and description; state "operational" |
| SspAssembly.SystemComponents | projects/downloads.py:148-162 | one SSP component per project component, in order, with its uuid and state "operational"; a status-1 component becomes "This System" / "this-system" described by the project title; any other copies its title, type and description |
| SspAssembly.ComponentRef | projects/downloads.py:164 | the uuid map after recording each component's uuid under its title in order; characterised by `ComponentRefCoversTitles`, `ComponentRefKeys` and `ComponentRefLastWins` |
| SspAssembly.ComponentRefStep | projects/downloads.py:164 | one more component records its uuid under its title |
| SspAssembly.ComponentRefCoversTitles | projects/downloads.py:148-164 | every component's title gets an entry |
| SspAssembly.ComponentRefKeys | projects/downloads.py:148-164 | the titles with an entry are exactly the earlier entries plus the component titles |
| SspAssembly.ComponentRefLastWins | projects/downloads.py:148-164 | a component's entry survives when no later component has its title, so a shared title maps to the uuid of the last component carrying it |
| SspAssembly.NarrativeOf | projects/downloads.py:175-181 | the description of the first entry for the control in the component's document |
| SspAssembly.Implementers | projects/downloads.py:174-176 | exactly the components whose controls contain the id |
| SspAssembly.ByComponents | projects/downloads.py:174-183 | the ByComponent entries one control accumulates over the components; characterised by `ByComponentsFollowImplementers` |
| SspAssembly.ByComponentsFollowImplementers | projects/downloads.py:174-183 | one ByComponent per implementing component, in component order, each with that component's mapped uuid and narrative |
| SspAssembly.ByComponentsStep | projects/downloads.py:174-183 | one more component adds its own entry iff it implements the control |
| SspAssembly.Repeat | projects/downloads.py:184-186 | k copies of the same element |
| SspAssembly.AppendToRepeat | projects/downloads.py:184-186 | appending the element once more gives one more copy |
| SspAssembly.Expected | projects/downloads.py:170-186 | the implemented requirements as the source leaves them: per project control, its requirement once per implementing component; characterised by `ExpectedCarriesAllEntries` and `ControlOccurrences` |
| SspAssembly.ExpectedStep | projects/downloads.py:170-186 | one more control appends its requirement once per ByComponent entry |
| SspAssembly.ExpectedCarriesAllEntries | projects/downloads.py:170-186 | every element belongs to a listed control and holds all of that control's ByComponent entries |
| SspAssembly.CountControlAppend | projects/downloads.py:184-186 | occurrences of a control add up over concatenation |
| SspAssembly.CountControlRepeat | projects/downloads.py:184-186 | k copies of a control's requirement are k occurrences of it |
| SspAssembly.ControlOccurrences | projects/downloads.py:170-186 | a control occurs (times listed) × (implementers) times: k implementers give k occurrences, and with none it is absent |
| SspAssembly.OneImplementerOfTwo | projects/downloads.py:170-186 | two components, one control implemented by the first only: exactly one requirement holding exactly the first's entry |
| SspAssembly.Views | projects/downloads.py:184-186 | the contents of a list of requirement objects, element by element, as read in the current state |
| SspAssembly.ViewsOfRepeat | projects/downloads.py:184-186 | the same object appended k times shows its current contents k times |
| SspAssembly.SspRequirement.constructor | projects/downloads.py:171-173 | a requirement starts with its control id and no ByComponent entries |
| SspAssembly.OscalSsp.constructor | projects/downloads.py:32-43 | keeps the project and stakeholders; the SSP holds metadata (title, "0.1", "1.0.2") with the derived roles, the derived users, the mapped components, the uuid map from an empty one, and the expected implemented requirements |
| SspAssembly.OscalSsp.ReadStakeholder | projects/downloads.py:69-83 | the names come from the stakeholder's last item and so does the property; a stakeholder with no items leaves the property as it was |
| SspAssembly.OscalSsp.SetRoles | projects/downloads.py:64-101 | the roles become `Roles(stakeholders)` and `Users(stakeholders)` is appended to the users; nothing else changes |
| SspAssembly.OscalSsp.AddComponents | projects/downloads.py:145-164 | components become `SystemComponents`; the uuid map becomes `ComponentRef` of the old map; every component title has an entry |
| SspAssembly.OscalSsp.AddProjectComponent | projects/downloads.py:149-164 | appends the SSP component for one project component and records its uuid under the component's title; nothing else changes |
| SspAssembly.OscalSsp.AddRequirement | projects/downloads.py:171-186 | returns the fresh requirement object it creates, whose entries are the control's ByComponent list; the list becomes the old list followed by that one object once per entry, so every copy holds all of the control's ByComponent entries |
| SspAssembly.OscalSsp.AddImplementedRequirements | projects/downloads.py:166-186 | the implemented requirements read as `Expected(controls, components, uuid map)` |

## Left out

- JSON serialisation and field aliases (`exclude_if_false`, `get_ssp`'s `json(indent=2)`), `ComponentModel.from_json` and `list_components`. These are pydantic and file I/O in a base class that is not part of this model.
- UUID generation (`uuid4` default factories, `uuid.uuid5` for the system id). Uuids are inputs: the `uuids` parameter gives one per project component.
- The ORM and `ComponentTools`. The project is a value (`SspAssembly.Project`): its controls are a list of ids, and each component has a title, type, description, status, a set of control ids and a narrative list. `get_control_by_id(...)[0]` is the first narrative entry for the id.
- SspAssembly.NarrativeOf: it requires that the component's document has an entry for the control looked up. The source looks up only the project's controls that a component lists (`projects/downloads.py:170-181`), so the constructor and `AddImplementedRequirements` require an entry for exactly those (`NarrativesCover`), and `AddRequirement` for its one control (`HasNarratives`). When such an entry is missing, `ctrl[0]` raises IndexError in the source, and the model does not describe that failure.
- The SSP's `add_component` and `add_by_component` (in classes that are not part of this model) are taken to append. `system_implementation` is modelled as the `components` list. The alias `system_implementation.users = self.users` is not modelled, and neither is the wrapping ControlImplementation with its placeholder description.
- `get_import_profile`, `get_system_information`, `get_system_characteristics`, `get_back_matter` and `get_ssp`. They wrap inputs in records or serialise them. `set_metadata` appears only as the metadata the constructor sets.
- `extras.get("stakeholders")` being absent, or an item without `props`, raises in the source. The model takes the stakeholders as a list of items that each carry a property.
- Text.Lower, Text.Upper: map ASCII letters only, not Python's full Unicode case mapping.
- Text.ParenGroup: models the regular expression on keys without line breaks (`.` does not match a newline).
- OscalComponent.ControlIds: returns a set. The source's `list(set(...))` has an unspecified order.
- OscalComponent.CatalogVersions: the `Catalog.Version` enum is not part of this model. Its valid values are the parameter `valid`, and the result is a set rather than a list in unspecified order.
- Fields that no modelled operation reads are omitted: links, responsible roles, remarks, back matter, metadata other than title, version and OSCAL version, the props and links of capabilities and components, and the `metadata`, `back_matter` and `import_component_definitions` of a ComponentDefinition.
- `catalogs/models.py`, the catalog migration and the HTTP views behind `projects/tests.py` are not part of this model: they are persistence, filesystem I/O and web handlers.
