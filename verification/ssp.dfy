/** Assembly of an OSCAL System Security Plan (SSP) from a project
    snapshot: roles and users derived from the stakeholders, one SSP
    component per project component, and one implemented requirement per
    (control, implementing component) pair. */
module SspAssembly {
  import opened Common
  import opened Text

  // ---------------------------------------------------------------------
  // The project snapshot the persistence layer supplies
  // ---------------------------------------------------------------------

  /** One `key: value` item of a stakeholder: the key names the role, the
      value's `props` gives a property. */
  datatype StakeholderEntry = StakeholderEntry(key: string, props: Property)

  type Stakeholder = seq<StakeholderEntry>

  /** One requirement of a component's own document, as its control lookup
      returns it. */
  datatype Narrative = Narrative(controlId: string, description: string)

  /** A component attached to the project. */
  datatype ProjectComponent = ProjectComponent(
    title: string,
    componentType: string,
    description: string,
    status: int,
    controls: set<string>,
    narratives: seq<Narrative>)

  /** The status the project's own "this system" component carries. */
  const SystemStatus := 1

  datatype Project = Project(
    title: string,
    impactLevel: string,
    components: seq<ProjectComponent>,
    controls: seq<string>)

  // ---------------------------------------------------------------------
  // SSP elements
  // ---------------------------------------------------------------------

  datatype Role = Role(id: string, title: string, shortName: string)

  datatype User = User(roleIds: seq<string>, title: string, shortName: string, props: seq<Property>)

  datatype Metadata = Metadata(title: string, version: string, oscalVersion: string, roles: seq<Role>)

  datatype SspComponent = SspComponent(
    uuid: string, title: string, componentType: string, description: string, state: string)

  datatype ByComponent = ByComponent(componentUuid: string, description: string)

  datatype SecurityImpactLevel = SecurityImpactLevel(
    confidentiality: string, availability: string, integrity: string)

  datatype Impact = Impact(base: string)

  datatype InformationType = InformationType(
    title: string,
    description: string,
    confidentialityImpact: Impact,
    integrityImpact: Impact,
    availabilityImpact: Impact)

  // ---------------------------------------------------------------------
  // Impact levels
  // ---------------------------------------------------------------------

  /** All three security objectives are the FIPS-199 level of the project. */
  function GetImpactLevel(p: Project): (r: SecurityImpactLevel)
    ensures r.confidentiality == r.availability == r.integrity
    ensures |r.confidentiality| == 9 + |p.impactLevel|
    ensures r.confidentiality[..9] == "fips-199-" && r.confidentiality[9..] == p.impactLevel
  {
    var level := "fips-199-" + p.impactLevel;
    SecurityImpactLevel(level, level, level)
  }

  /** The single information type: named after the project, with all three
      impacts at the FIPS-199 level of the project. */
  function GetInformationType(p: Project): (r: InformationType)
    ensures r.title == p.title && r.description == p.title
    ensures r.confidentialityImpact == r.integrityImpact == r.availabilityImpact
    ensures r.confidentialityImpact.base == GetImpactLevel(p).confidentiality
  {
    var level := "fips-199-" + p.impactLevel;
    InformationType(p.title, p.title, Impact(level), Impact(level), Impact(level))
  }

  // ---------------------------------------------------------------------
  // Roles and users
  // ---------------------------------------------------------------------

  datatype Names = Names(title: string, shortName: string)

  /** Title and short name of a stakeholder key: with a "(...)" group, the
      group is the short name and the title is the key up to " ("; without
      one, the key is the title and its initials are the short name. */
  function DeriveNames(key: string): Names
  {
    match ParenGroup(key)
    case Some(group) => Names(SliceTo(key, Find(key, " (")), group)
    case None => Names(key, Initials(key))
  }

  /** A group found right after the first "(" and closed by the first ")"
      after it is what the search captures. */
  lemma GroupAtFirstParenthesis(key: string, a: nat, group: string)
    requires a + |group| + 1 < |key|
    requires key[a] == '(' && forall j :: 0 <= j < a ==> key[j] != '('
    requires key[a + 1..a + 1 + |group|] == group && key[a + 1 + |group|] == ')'
    requires forall j :: 0 <= j < |group| ==> group[j] != ')'
    ensures ParenGroup(key) == Some(group)
  {
    assert GroupAt(key, a, group);
    ParenGroupIsFirstGroup(key);
    var found := ParenGroup(key).value;
    var a' :| GroupAt(key, a', found);
    GroupAtUnique(key, a, group, a', found);
  }

  /** In `title (abbreviation)rest`, the first "(...)" group is the abbreviation. */
  lemma GroupOfParenthesisedKey(title: string, abbreviation: string, rest: string)
    requires forall i :: 0 <= i < |title| ==> title[i] != '('
    requires forall i :: 0 <= i < |abbreviation| ==> abbreviation[i] != ')'
    ensures ParenGroup(title + " (" + abbreviation + ")" + rest) == Some(abbreviation)
  {
    var key := title + " (" + abbreviation + ")" + rest;
    var a := |title| + 1;
    assert key[a] == '(' && key[a + 1 + |abbreviation|] == ')';
    assert forall j :: 0 <= j < a ==> key[j] != '(' by {
      forall j | 0 <= j < a ensures key[j] != '(' {
        if j < |title| {
          assert key[j] == title[j];
        }
      }
    }
    assert key[a + 1..a + 1 + |abbreviation|] == abbreviation;
    GroupAtFirstParenthesis(key, a, abbreviation);
  }

  /** In `title (abbreviation)rest`, the first " (" is right after the title. */
  lemma FindOfParenthesisedKey(title: string, abbreviation: string, rest: string)
    requires forall i :: 0 <= i < |title| ==> title[i] != '('
    ensures Find(title + " (" + abbreviation + ")" + rest, " (") == |title|
  {
    var key := title + " (" + abbreviation + ")" + rest;
    assert key[|title|..|title| + 2] == " (";
    assert OccursAt(key, " (", |title|);
    forall k | 0 <= k < |title| ensures !OccursAt(key, " (", k) {
      if k + 1 < |title| {
        assert key[k + 1] == title[k + 1];
      } else {
        assert key[k + 1] == ' ';
      }
      assert key[k..k + 2][1] == key[k + 1];
    }
    FindIsFirstOccurrence(key, " (");
  }

  /** A key of the form `title (abbreviation)` yields exactly that title and
      that abbreviation. */
  lemma ParenthesisedAbbreviation(title: string, abbreviation: string, rest: string)
    requires forall i :: 0 <= i < |title| ==> title[i] != '('
    requires forall i :: 0 <= i < |abbreviation| ==> abbreviation[i] != ')'
    ensures DeriveNames(title + " (" + abbreviation + ")" + rest) == Names(title, abbreviation)
  {
    var key := title + " (" + abbreviation + ")" + rest;
    GroupOfParenthesisedKey(title, abbreviation, rest);
    FindOfParenthesisedKey(title, abbreviation, rest);
    assert key[..|title|] == title;
  }

  /** A key with no "(" is its own title and its short name is the
      character that starts each of its words. */
  lemma NoParenthesesUsesInitials(key: string)
    requires forall i :: 0 <= i < |key| ==> key[i] != '('
    ensures DeriveNames(key) == Names(key, WordStarts(key, true))
  {
    InitialsAreWordStarts(key);
  }

  /** A "(...)" group not preceded by a space makes the title the key
      without its last character, since `find` then returns -1. */
  lemma MissingSpaceBeforeParenthesis(key: string)
    requires exists a, b :: 0 <= a < b < |key| && key[a] == '(' && key[b] == ')'
    requires forall k :: 0 <= k < |key| - 1 ==> !(key[k] == ' ' && key[k + 1] == '(')
    ensures DeriveNames(key).title == key[..|key| - 1]
  {
    ParenGroupIsFirstGroup(key);
    NoSpaceBeforeParenthesis(key);
    assert |key| >= 2;
  }

  /** Without " (" in the key, `find` returns -1. */
  lemma NoSpaceBeforeParenthesis(key: string)
    requires forall k :: 0 <= k < |key| - 1 ==> !(key[k] == ' ' && key[k + 1] == '(')
    ensures Find(key, " (") == -1
  {
    forall k | 0 <= k <= |key| ensures !OccursAt(key, " (", k) {
      if k + 2 <= |key| {
        assert key[k..k + 2] == [key[k], key[k + 1]];
      }
    }
    FindIsFirstOccurrence(key, " (");
  }

  /** The role id of a title: spaces become hyphens, then lower case. */
  function RoleId(title: string): string
  {
    Lower(HyphenateSpaces(title))
  }

  /** A role id has one character per character of the title: a hyphen
      for each space, the lower-case letter for every other character, so
      it holds neither spaces nor upper-case letters. */
  lemma RoleIdHyphenatesAndLowers(title: string)
    ensures |RoleId(title)| == |title|
    ensures forall i :: 0 <= i < |title| ==> RoleId(title)[i] != ' ' && !('A' <= RoleId(title)[i] <= 'Z')
    ensures forall i :: 0 <= i < |title| && title[i] == ' ' ==> RoleId(title)[i] == '-'
    ensures forall i :: 0 <= i < |title| && title[i] != ' ' ==> RoleId(title)[i] == LowerChar(title[i])
  {
  }

  /** The names of a stakeholder come from its last item: the source's
      inner loop overwrites them on every item. */
  function StakeholderNames(st: Stakeholder): Names
  {
    if st == [] then Names("", "") else DeriveNames(st[|st| - 1].key)
  }

  /** A stakeholder that received a role. */
  datatype Enrolment = Enrolment(roleId: string, names: Names, props: Property)

  /** What a stakeholder would enrol as: nothing when its title is empty,
      otherwise its role id, names and the property of its last item. */
  function Candidate(st: Stakeholder): (r: Option<Enrolment>)
    ensures r.Some? <==> StakeholderNames(st).title != ""
    ensures r.Some? ==> r.value.names == StakeholderNames(st) && r.value.roleId == RoleId(r.value.names.title)
    ensures r.Some? ==> st != [] && r.value.props == st[|st| - 1].props
  {
    var names := StakeholderNames(st);
    if names.title == "" then None else Some(Enrolment(RoleId(names.title), names, st[|st| - 1].props))
  }

  /** The candidates of all stakeholders with a non-empty title, repeats included. */
  function Candidates(sts: seq<Stakeholder>): seq<Enrolment>
    decreases |sts|
  {
    if sts == [] then []
    else
      var c := Candidate(sts[|sts| - 1]);
      Candidates(sts[..|sts| - 1]) + (if c.Some? then [c.value] else [])
  }

  function EnrolledIds(es: seq<Enrolment>): (ids: seq<string>)
    ensures |ids| == |es| && forall i :: 0 <= i < |es| ==> ids[i] == es[i].roleId
  {
    if es == [] then [] else EnrolledIds(es[..|es| - 1]) + [es[|es| - 1].roleId]
  }

  /** The candidates whose role id no earlier candidate had, in order. */
  function FirstById(cs: seq<Enrolment>): seq<Enrolment>
    decreases |cs|
  {
    if cs == [] then []
    else
      var prev := FirstById(cs[..|cs| - 1]);
      var c := cs[|cs| - 1];
      if c.roleId !in EnrolledIds(prev) then prev + [c] else prev
  }

  /** The stakeholders that receive a role, in order: those with a
      non-empty title whose role id no earlier one received. */
  function Enrolments(sts: seq<Stakeholder>): seq<Enrolment>
  {
    FirstById(Candidates(sts))
  }

  function UserOf(e: Enrolment): User
  {
    User([e.roleId], e.names.title, e.names.shortName, [e.props])
  }

  function RoleOf(e: Enrolment): Role
  {
    Role(e.roleId, Strip(e.names.title), Upper(e.names.shortName))
  }

  function UsersOf(es: seq<Enrolment>): seq<User>
  {
    seq(|es|, i requires 0 <= i < |es| => UserOf(es[i]))
  }

  function RolesOf(es: seq<Enrolment>): seq<Role>
  {
    seq(|es|, i requires 0 <= i < |es| => RoleOf(es[i]))
  }

  /** The users `set_roles` appends. */
  function Users(sts: seq<Stakeholder>): seq<User>
  {
    UsersOf(Enrolments(sts))
  }

  /** The metadata roles `set_roles` builds. */
  function Roles(sts: seq<Stakeholder>): seq<Role>
  {
    RolesOf(Enrolments(sts))
  }

  /** Users and roles grow in lockstep: the i-th user holds exactly the
      i-th role's id, the role keeps the user's title stripped and its
      short name upper-cased. */
  lemma UsersAndRolesInLockstep(sts: seq<Stakeholder>)
    ensures |Users(sts)| == |Roles(sts)|
    ensures forall i :: 0 <= i < |Users(sts)| ==>
      Users(sts)[i].roleIds == [Roles(sts)[i].id] &&
      Roles(sts)[i].title == Strip(Users(sts)[i].title) &&
      Roles(sts)[i].shortName == Upper(Users(sts)[i].shortName)
  {
  }

  /** The role ids of all stakeholders with a non-empty title, repeats included. */
  function CandidateIds(sts: seq<Stakeholder>): seq<string>
  {
    EnrolledIds(Candidates(sts))
  }

  /** `s` without the occurrences of `x`. */
  function Without(s: seq<string>, x: string): (r: seq<string>)
    ensures |r| <= |s|
    ensures forall y :: y in r <==> y in s && y != x
  {
    if s == [] then []
    else (if s[0] == x then [] else [s[0]]) + Without(s[1..], x)
  }

  /** The first occurrence of every element, in order. */
  function Dedupe(s: seq<string>): seq<string>
    decreases |s|
  {
    if s == [] then [] else [s[0]] + Dedupe(Without(s[1..], s[0]))
  }

  lemma {:induction false} DedupeMembership(s: seq<string>)
    ensures forall y :: y in Dedupe(s) <==> y in s
    decreases |s|
  {
    if s != [] {
      DedupeMembership(Without(s[1..], s[0]));
    }
  }

  lemma {:induction false} DedupeDistinct(s: seq<string>)
    ensures forall i, j :: 0 <= i < j < |Dedupe(s)| ==> Dedupe(s)[i] != Dedupe(s)[j]
    decreases |s|
  {
    if s != [] {
      var rest := Without(s[1..], s[0]);
      DedupeDistinct(rest);
      DedupeMembership(rest);
      forall i, j | 0 <= i < j < |Dedupe(s)| ensures Dedupe(s)[i] != Dedupe(s)[j] {
        if i == 0 {
          assert Dedupe(s)[j] == Dedupe(rest)[j - 1];
          assert Dedupe(rest)[j - 1] in Dedupe(rest);
        }
      }
    }
  }

  lemma {:induction false} WithoutAppend(s: seq<string>, x: string, y: string)
    ensures Without(s + [y], x) == Without(s, x) + (if y == x then [] else [y])
    decreases |s|
  {
    var tail := if y == x then [] else [y];
    if s == [] {
      assert [y][1..] == [];
      assert Without([y], x) == tail + [];
    } else {
      var head := if s[0] == x then [] else [s[0]];
      assert (s + [y])[1..] == s[1..] + [y];
      WithoutAppend(s[1..], x, y);
      calc {
        Without(s + [y], x);
        head + Without(s[1..] + [y], x);
        head + (Without(s[1..], x) + tail);
        (head + Without(s[1..], x)) + tail;
      }
    }
  }

  /** Appending an element to a list appends it to its first occurrences
      exactly when it is new. */
  lemma {:induction false} DedupeAppend(s: seq<string>, x: string)
    ensures Dedupe(s + [x]) == if x in s then Dedupe(s) else Dedupe(s) + [x]
    decreases |s|
  {
    if s == [] {
      assert [x][1..] == [];
    } else {
      assert (s + [x])[1..] == s[1..] + [x];
      WithoutAppend(s[1..], s[0], x);
      var rest := Without(s[1..], s[0]);
      if x == s[0] {
        assert rest + [] == rest;
      } else {
        DedupeAppend(rest, x);
        assert x in rest <==> x in s;
      }
    }
  }

  /** Keeping the first candidate per role id keeps exactly the first
      occurrence of every id. */
  lemma {:induction false} FirstByIdIsDedupe(cs: seq<Enrolment>)
    ensures EnrolledIds(FirstById(cs)) == Dedupe(EnrolledIds(cs))
    decreases |cs|
  {
    if cs != [] {
      var init := cs[..|cs| - 1];
      var c := cs[|cs| - 1];
      FirstByIdIsDedupe(init);
      DedupeMembership(EnrolledIds(init));
      assert EnrolledIds(cs) == EnrolledIds(init) + [c.roleId];
      DedupeAppend(EnrolledIds(init), c.roleId);
      var prev := FirstById(init);
      if c.roleId !in EnrolledIds(prev) {
        assert (prev + [c])[..|prev|] == prev;
      }
    }
  }

  /** One more stakeholder enrols exactly when it is a candidate with a
      role id not yet enrolled. */
  lemma EnrolmentsStep(sts: seq<Stakeholder>, n: nat)
    requires n < |sts|
    ensures Enrolments(sts[..n + 1]) ==
      var c := Candidate(sts[n]);
      if c.Some? && c.value.roleId !in EnrolledIds(Enrolments(sts[..n])) then Enrolments(sts[..n]) + [c.value]
      else Enrolments(sts[..n])
  {
    var all := sts[..n + 1];
    assert all[..n] == sts[..n] && all[n] == sts[n];
    var c := Candidate(sts[n]);
    if c.Some? {
      var cs := Candidates(all);
      assert cs == Candidates(sts[..n]) + [c.value];
      assert cs[..|cs| - 1] == Candidates(sts[..n]);
    } else {
      assert Candidates(all) == Candidates(sts[..n]) + [];
      assert Candidates(sts[..n]) + [] == Candidates(sts[..n]);
    }
  }

  /** The names and property the inner loop of `set_roles` leaves behind
      for a stakeholder determine its candidate. */
  lemma CandidateFromNames(st: Stakeholder, title: string, shortName: string, props: Option<Property>)
    requires Names(title, shortName) == StakeholderNames(st)
    requires st != [] ==> props == Some(st[|st| - 1].props)
    ensures title == "" ==> Candidate(st).None?
    ensures title != "" ==>
      props.Some? && Candidate(st) == Some(Enrolment(RoleId(title), Names(title, shortName), props.value))
  {
    if title != "" {
      assert st != [];
    }
  }

  /** One round of `set_roles`' outer loop, in terms of the names and the
      property its inner loop leaves behind. */
  lemma SetRolesStep(sts: seq<Stakeholder>, n: nat, title: string, shortName: string, props: Option<Property>)
    requires n < |sts|
    requires Names(title, shortName) == StakeholderNames(sts[n])
    requires sts[n] != [] ==> props == Some(sts[n][|sts[n]| - 1].props)
    ensures var id := RoleId(title);
      if title != "" && id !in EnrolledIds(Enrolments(sts[..n])) then
        props.Some? && Enrolments(sts[..n + 1]) == Enrolments(sts[..n]) + [Enrolment(id, Names(title, shortName), props.value)]
      else
        Enrolments(sts[..n + 1]) == Enrolments(sts[..n])
  {
    EnrolmentsStep(sts, n);
    CandidateFromNames(sts[n], title, shortName, props);
  }

  /** Appending one enrolment appends its id, its user and its role. */
  lemma EnrolmentAppend(es: seq<Enrolment>, e: Enrolment, earlier: seq<User>)
    ensures EnrolledIds(es + [e]) == EnrolledIds(es) + [e.roleId]
    ensures earlier + UsersOf(es + [e]) == earlier + UsersOf(es) + [UserOf(e)]
    ensures RolesOf(es + [e]) == RolesOf(es) + [RoleOf(e)]
  {
    assert (es + [e])[..|es|] == es;
    assert UsersOf(es + [e]) == UsersOf(es) + [UserOf(e)];
    assert RolesOf(es + [e]) == RolesOf(es) + [RoleOf(e)];
  }

  /** The metadata role ids are the stakeholders' role ids in order of
      first occurrence, each once. */
  lemma RoleIdsAreFirstOccurrences(sts: seq<Stakeholder>)
    ensures EnrolledIds(Enrolments(sts)) == Dedupe(CandidateIds(sts))
  {
    FirstByIdIsDedupe(Candidates(sts));
  }

  /** No two metadata roles share an id, and every stakeholder with a
      non-empty title has its role id among them. */
  lemma RoleIdsUnique(sts: seq<Stakeholder>)
    ensures forall i, j :: 0 <= i < j < |Roles(sts)| ==> Roles(sts)[i].id != Roles(sts)[j].id
    ensures forall id :: (exists i :: 0 <= i < |Roles(sts)| && Roles(sts)[i].id == id) <==> id in CandidateIds(sts)
  {
    RoleIdsAreFirstOccurrences(sts);
    DedupeDistinct(CandidateIds(sts));
    DedupeMembership(CandidateIds(sts));
    var ids := EnrolledIds(Enrolments(sts));
    forall id ensures (exists i :: 0 <= i < |Roles(sts)| && Roles(sts)[i].id == id) <==> id in ids {
      if id in ids {
        var i :| 0 <= i < |ids| && ids[i] == id;
        assert Roles(sts)[i].id == id;
      }
    }
  }

  // ---------------------------------------------------------------------
  // Components
  // ---------------------------------------------------------------------

  /** The SSP component for one project component: the project's own
      system becomes "This System", every other one keeps its fields. */
  function SystemComponentFor(p: Project, c: ProjectComponent, uuid: string): SspComponent
  {
    if c.status == SystemStatus then
      SspComponent(uuid, "This System", "this-system", p.title, "operational")
    else
      SspComponent(uuid, c.title, c.componentType, c.description, "operational")
  }

  function SystemComponents(p: Project, uuids: seq<string>): (r: seq<SspComponent>)
    requires |uuids| == |p.components|
    ensures |r| == |p.components|
    ensures forall i :: 0 <= i < |r| ==> r[i].uuid == uuids[i] && r[i].state == "operational"
    ensures forall i :: 0 <= i < |r| && p.components[i].status == SystemStatus ==>
      r[i].title == "This System" && r[i].componentType == "this-system" && r[i].description == p.title
    ensures forall i :: 0 <= i < |r| && p.components[i].status != SystemStatus ==>
      r[i].title == p.components[i].title && r[i].componentType == p.components[i].componentType &&
      r[i].description == p.components[i].description
  {
    seq(|p.components|, i requires 0 <= i < |p.components| => SystemComponentFor(p, p.components[i], uuids[i]))
  }

  /** `component_ref` after recording each component's uuid under its
      title, starting from `ref`. */
  function ComponentRef(ref: map<string, string>, comps: seq<ProjectComponent>, uuids: seq<string>): map<string, string>
    requires |uuids| == |comps|
    decreases |comps|
  {
    if comps == [] then ref
    else ComponentRef(ref, comps[..|comps| - 1], uuids[..|comps| - 1])[comps[|comps| - 1].title := uuids[|comps| - 1]]
  }

  lemma ComponentRefStep(ref: map<string, string>, comps: seq<ProjectComponent>, uuids: seq<string>, n: nat)
    requires |uuids| == |comps| && n < |comps|
    ensures ComponentRef(ref, comps[..n + 1], uuids[..n + 1]) ==
      ComponentRef(ref, comps[..n], uuids[..n])[comps[n].title := uuids[n]]
  {
    assert comps[..n + 1][..n] == comps[..n];
    assert uuids[..n + 1][..n] == uuids[..n];
  }

  /** Every component title gets an entry. */
  lemma {:induction false} ComponentRefCoversTitles(ref: map<string, string>, comps: seq<ProjectComponent>, uuids: seq<string>)
    requires |uuids| == |comps|
    ensures forall c :: c in comps ==> c.title in ComponentRef(ref, comps, uuids)
    decreases |comps|
  {
    if comps != [] {
      var n := |comps| - 1;
      ComponentRefCoversTitles(ref, comps[..n], uuids[..n]);
      assert forall c :: c in comps ==> c in comps[..n] || c == comps[n];
    }
  }

  /** The titles with an entry are those of `ref` and those of the components. */
  lemma {:induction false} ComponentRefKeys(ref: map<string, string>, comps: seq<ProjectComponent>, uuids: seq<string>)
    requires |uuids| == |comps|
    ensures forall t :: t in ComponentRef(ref, comps, uuids) <==>
      t in ref || exists i :: 0 <= i < |comps| && comps[i].title == t
    decreases |comps|
  {
    if comps != [] {
      var n := |comps| - 1;
      ComponentRefKeys(ref, comps[..n], uuids[..n]);
      forall t ensures t in ComponentRef(ref, comps, uuids) <==>
        t in ref || exists i :: 0 <= i < |comps| && comps[i].title == t
      {
        if exists i :: 0 <= i < |comps| && comps[i].title == t {
          var i :| 0 <= i < |comps| && comps[i].title == t;
          if i < n {
            assert comps[..n][i].title == t;
          }
        }
        if exists i :: 0 <= i < n && comps[..n][i].title == t {
          var i :| 0 <= i < n && comps[..n][i].title == t;
          assert comps[i].title == t;
        }
      }
    }
  }

  /** A title shared by several components maps to the uuid of the last
      of them: the entry of the component at `i` survives when no later
      component has its title. */
  lemma {:induction false} ComponentRefLastWins(ref: map<string, string>, comps: seq<ProjectComponent>, uuids: seq<string>, i: nat)
    requires |uuids| == |comps| && i < |comps|
    requires forall j :: i < j < |comps| ==> comps[j].title != comps[i].title
    ensures comps[i].title in ComponentRef(ref, comps, uuids)
    ensures ComponentRef(ref, comps, uuids)[comps[i].title] == uuids[i]
    decreases |comps|
  {
    var n := |comps| - 1;
    if i < n {
      var init, initUuids := comps[..n], uuids[..n];
      assert init[i] == comps[i] && initUuids[i] == uuids[i];
      assert forall j :: i < j < n ==> init[j] == comps[j];
      ComponentRefLastWins(ref, init, initUuids, i);
      assert comps[n].title != comps[i].title;
    }
  }

  // ---------------------------------------------------------------------
  // Implemented requirements
  // ---------------------------------------------------------------------

  /** Every component that lists `controlId` has an entry for it in its own
      document, so that the first-entry lookup for that control finds one. */
  ghost predicate HasNarratives(comps: seq<ProjectComponent>, controlId: string)
  {
    forall c :: c in comps && controlId in c.controls ==>
      exists k :: 0 <= k < |c.narratives| && c.narratives[k].controlId == controlId
  }

  /** The lookups of every control in `controls` find an entry: only the
      project's own controls are ever looked up. */
  ghost predicate NarrativesCover(comps: seq<ProjectComponent>, controls: seq<string>)
  {
    forall id :: id in controls ==> HasNarratives(comps, id)
  }

  /** Dropping the last control keeps the lookups covered. */
  lemma NarrativesCoverInit(comps: seq<ProjectComponent>, controls: seq<string>)
    requires controls != [] && NarrativesCover(comps, controls)
    ensures NarrativesCover(comps, controls[..|controls| - 1])
    ensures HasNarratives(comps, controls[|controls| - 1])
  {
    assert forall id :: id in controls[..|controls| - 1] ==> id in controls;
  }

  /** The narrative of the first entry for `controlId` in the component's document. */
  function NarrativeOf(c: ProjectComponent, controlId: string): (description: string)
    requires exists k :: 0 <= k < |c.narratives| && c.narratives[k].controlId == controlId
    ensures exists k :: (0 <= k < |c.narratives| && c.narratives[k].controlId == controlId &&
      c.narratives[k].description == description &&
      forall j :: 0 <= j < k ==> c.narratives[j].controlId != controlId)
  {
    var k := FirstWhere(c.narratives, (n: Narrative) => n.controlId == controlId).value;
    c.narratives[k].description
  }

  /** The components that implement `controlId`, in component order. */
  function Implementers(comps: seq<ProjectComponent>, controlId: string): (r: seq<ProjectComponent>)
    ensures forall c :: c in r <==> c in comps && controlId in c.controls
    decreases |comps|
  {
    if comps == [] then []
    else
      var init := comps[..|comps| - 1];
      var c := comps[|comps| - 1];
      assert forall d :: d in comps <==> d in init || d == c;
      Implementers(init, controlId) + (if controlId in c.controls then [c] else [])
  }

  /** The ByComponent entries of one control, accumulated over `comps`. */
  function ByComponents(comps: seq<ProjectComponent>, ref: map<string, string>, controlId: string): seq<ByComponent>
    requires forall c :: c in comps ==> c.title in ref
    requires HasNarratives(comps, controlId)
    decreases |comps|
  {
    if comps == [] then []
    else
      var init := comps[..|comps| - 1];
      var c := comps[|comps| - 1];
      ByComponents(init, ref, controlId) +
        (if controlId in c.controls then [ByComponent(ref[c.title], NarrativeOf(c, controlId))] else [])
  }

  /** One ByComponent per implementing component, in component order, each
      with that component's uuid and narrative. */
  lemma {:induction false} ByComponentsFollowImplementers(comps: seq<ProjectComponent>, ref: map<string, string>, controlId: string)
    requires forall c :: c in comps ==> c.title in ref
    requires HasNarratives(comps, controlId)
    ensures |ByComponents(comps, ref, controlId)| == |Implementers(comps, controlId)|
    ensures forall i :: 0 <= i < |Implementers(comps, controlId)| ==>
      ByComponents(comps, ref, controlId)[i] ==
        ByComponent(ref[Implementers(comps, controlId)[i].title], NarrativeOf(Implementers(comps, controlId)[i], controlId))
    decreases |comps|
  {
    if comps != [] {
      ByComponentsFollowImplementers(comps[..|comps| - 1], ref, controlId);
    }
  }

  /** One more component extends a control's ByComponent list by its own
      entry when it implements the control. */
  lemma ByComponentsStep(comps: seq<ProjectComponent>, j: nat, ref: map<string, string>, controlId: string)
    requires j < |comps|
    requires forall c :: c in comps ==> c.title in ref
    requires HasNarratives(comps, controlId)
    ensures forall c :: c in comps[..j + 1] ==> c.title in ref
    ensures HasNarratives(comps[..j + 1], controlId)
    ensures ByComponents(comps[..j + 1], ref, controlId) == ByComponents(comps[..j], ref, controlId) +
      (if controlId in comps[j].controls then [ByComponent(ref[comps[j].title], NarrativeOf(comps[j], controlId))] else [])
  {
    assert comps[..j + 1][..j] == comps[..j];
  }

  /** What one element of the SSP's implemented requirements holds. */
  datatype RequirementView = RequirementView(controlId: string, byComponents: seq<ByComponent>)

  function Repeat<T>(x: T, k: nat): (r: seq<T>)
    ensures |r| == k && forall i :: 0 <= i < k ==> r[i] == x
  {
    if k == 0 then [] else Repeat(x, k - 1) + [x]
  }

  lemma AppendToRepeat<T>(s: seq<T>, x: T, k: nat)
    ensures s + Repeat(x, k) + [x] == s + Repeat(x, k + 1)
  {
    assert Repeat(x, k + 1) == Repeat(x, k) + [x];
  }

  /** The implemented requirements as the source leaves them: for each
      project control, its requirement once per implementing component,
      each copy holding all of that control's ByComponent entries. */
  function Expected(controls: seq<string>, comps: seq<ProjectComponent>, ref: map<string, string>): seq<RequirementView>
    requires forall c :: c in comps ==> c.title in ref
    requires NarrativesCover(comps, controls)
    decreases |controls|
  {
    if controls == [] then []
    else
      var id := controls[|controls| - 1];
      var entries := ByComponents(comps, ref, id);
      Expected(controls[..|controls| - 1], comps, ref) + Repeat(RequirementView(id, entries), |entries|)
  }

  lemma ExpectedStep(controls: seq<string>, n: nat, comps: seq<ProjectComponent>, ref: map<string, string>)
    requires n < |controls|
    requires forall c :: c in comps ==> c.title in ref
    requires NarrativesCover(comps, controls)
    ensures var entries := ByComponents(comps, ref, controls[n]);
      Expected(controls[..n + 1], comps, ref) ==
        Expected(controls[..n], comps, ref) + Repeat(RequirementView(controls[n], entries), |entries|)
  {
    assert controls[..n + 1][..n] == controls[..n];
  }

  /** Every element carries the complete ByComponent list of its control. */
  lemma {:induction false} ExpectedCarriesAllEntries(controls: seq<string>, comps: seq<ProjectComponent>, ref: map<string, string>)
    requires forall c :: c in comps ==> c.title in ref
    requires NarrativesCover(comps, controls)
    ensures forall v :: v in Expected(controls, comps, ref) ==>
      v.controlId in controls && v.byComponents == ByComponents(comps, ref, v.controlId)
    decreases |controls|
  {
    if controls != [] {
      var init := controls[..|controls| - 1];
      ExpectedCarriesAllEntries(init, comps, ref);
      var id := controls[|controls| - 1];
      var entries := ByComponents(comps, ref, id);
      forall v | v in Expected(controls, comps, ref)
        ensures v.controlId in controls && v.byComponents == ByComponents(comps, ref, v.controlId)
      {
        if v in Expected(init, comps, ref) {
          assert v.controlId in init;
        } else {
          assert v in Repeat(RequirementView(id, entries), |entries|);
        }
      }
    }
  }

  function Count(s: seq<string>, x: string): nat
  {
    if s == [] then 0 else Count(s[..|s| - 1], x) + (if s[|s| - 1] == x then 1 else 0)
  }

  function CountControl(vs: seq<RequirementView>, controlId: string): nat
  {
    if vs == [] then 0
    else CountControl(vs[..|vs| - 1], controlId) + (if vs[|vs| - 1].controlId == controlId then 1 else 0)
  }

  lemma {:induction false} CountControlAppend(a: seq<RequirementView>, b: seq<RequirementView>, controlId: string)
    ensures CountControl(a + b, controlId) == CountControl(a, controlId) + CountControl(b, controlId)
    decreases |b|
  {
    if b != [] {
      var ab := a + b;
      assert ab[..|ab| - 1] == a + b[..|b| - 1];
      assert ab[|ab| - 1] == b[|b| - 1];
      CountControlAppend(a, b[..|b| - 1], controlId);
    } else {
      assert a + b == a;
    }
  }

  lemma {:induction false} CountControlRepeat(v: RequirementView, k: nat, controlId: string)
    ensures CountControl(Repeat(v, k), controlId) == if v.controlId == controlId then k else 0
  {
    if k > 0 {
      CountControlRepeat(v, k - 1, controlId);
      assert Repeat(v, k)[..k - 1] == Repeat(v, k - 1);
    }
  }

  /** The arithmetic of one step of `ControlOccurrences`: `k` listings so
      far give `k * m` occurrences, and one more control adds `m` when it is
      the one counted. Kept apart so that the solver meets the
      multiplication without the rest of that proof's context. */
  lemma OccurrencesStep(before: nat, after: nat, k: nat, m: nat, count: nat, hit: bool)
    requires before == k * m
    requires after == before + (if hit then m else 0)
    requires count == if hit then k + 1 else k
    ensures after == count * m
  {
  }

  /** A control listed once and implemented by k components occurs k times;
      in general its occurrences are its listings times its implementers,
      so a control no component implements is absent. */
  lemma {:induction false} ControlOccurrences(controls: seq<string>, comps: seq<ProjectComponent>, ref: map<string, string>, controlId: string)
    requires forall c :: c in comps ==> c.title in ref
    requires NarrativesCover(comps, controls)
    ensures CountControl(Expected(controls, comps, ref), controlId) ==
      Count(controls, controlId) * |Implementers(comps, controlId)|
    decreases |controls|
  {
    if controls != [] {
      NarrativesCoverInit(comps, controls);
      var init := controls[..|controls| - 1];
      var id := controls[|controls| - 1];
      var entries := ByComponents(comps, ref, id);
      var tail := Repeat(RequirementView(id, entries), |entries|);
      assert Expected(controls, comps, ref) == Expected(init, comps, ref) + tail;
      ControlOccurrences(init, comps, ref, controlId);
      CountControlAppend(Expected(init, comps, ref), tail, controlId);
      CountControlRepeat(RequirementView(id, entries), |entries|, controlId);
      ByComponentsFollowImplementers(comps, ref, id);
      var m := |Implementers(comps, controlId)|;
      var k := Count(init, controlId);
      assert Count(controls, controlId) == if id == controlId then k + 1 else k;
      assert CountControl(tail, controlId) == if id == controlId then m else 0;
      OccurrencesStep(CountControl(Expected(init, comps, ref), controlId),
        CountControl(Expected(controls, comps, ref), controlId), k, m, Count(controls, controlId), id == controlId);
    }
  }

  /** Two components, one control, implemented by the first only: exactly
      one requirement, with exactly one ByComponent, the first's. */
  lemma OneImplementerOfTwo(a: ProjectComponent, b: ProjectComponent, ref: map<string, string>, controlId: string)
    requires controlId in a.controls && controlId !in b.controls
    requires a.title in ref && b.title in ref
    requires HasNarratives([a, b], controlId)
    ensures Expected([controlId], [a, b], ref) ==
      [RequirementView(controlId, [ByComponent(ref[a.title], NarrativeOf(a, controlId))])]
  {
    assert [a, b][..1] == [a];
    assert [a][..0] == [];
    assert [controlId][..0] == [];
    var entry := ByComponent(ref[a.title], NarrativeOf(a, controlId));
    assert ByComponents([a], ref, controlId) == [entry];
    assert ByComponents([a, b], ref, controlId) == [entry];
    var view := RequirementView(controlId, [entry]);
    assert Repeat(view, 1) == [view];
    assert Expected([controlId], [a, b], ref) == [] + Repeat(view, 1);
  }

  /** An element of the SSP's implemented requirements. The source appends
      the same object once per implementing component and keeps adding
      ByComponent entries to it, so every copy ends up holding all of them. */
  class SspRequirement {
    const controlId: string
    var byComponents: seq<ByComponent>

    constructor (controlId: string)
      ensures this.controlId == controlId && byComponents == []
    {
      this.controlId := controlId;
      byComponents := [];
    }
  }

  /** What a list of requirement objects holds, read in the current heap. */
  ghost function Views(rs: seq<SspRequirement>): (vs: seq<RequirementView>)
    reads rs
    ensures |vs| == |rs|
    ensures forall i :: 0 <= i < |rs| ==> vs[i] == RequirementView(rs[i].controlId, rs[i].byComponents)
  {
    if rs == [] then [] else Views(rs[..|rs| - 1]) + [RequirementView(rs[|rs| - 1].controlId, rs[|rs| - 1].byComponents)]
  }

  /** Appending one object k times shows its current contents k times. */
  lemma ViewsOfRepeat(rs: seq<SspRequirement>, r: SspRequirement, k: nat)
    ensures Views(rs + Repeat(r, k)) == Views(rs) + Repeat(RequirementView(r.controlId, r.byComponents), k)
  {
    var all := rs + Repeat(r, k);
    assert forall i :: |rs| <= i < |all| ==> all[i] == r;
  }

  /** The SSP under assembly; each step of the source's constructor is a
      method that fills some of the fields. */
  class OscalSsp {
    const project: Project
    const stakeholders: seq<Stakeholder>
    var metadata: Metadata
    var users: seq<User>
    var componentRef: map<string, string>
    var components: seq<SspComponent>
    var implementedRequirements: seq<SspRequirement>

    constructor (project: Project, stakeholders: seq<Stakeholder>, uuids: seq<string>)
      requires |uuids| == |project.components|
      requires NarrativesCover(project.components, project.controls)
      ensures this.project == project && this.stakeholders == stakeholders
      ensures metadata == Metadata(project.title, "0.1", "1.0.2", Roles(stakeholders))
      ensures users == Users(stakeholders)
      ensures components == SystemComponents(project, uuids)
      ensures componentRef == ComponentRef(map[], project.components, uuids)
      ensures forall c :: c in project.components ==> c.title in componentRef
      ensures Views(implementedRequirements) == Expected(project.controls, project.components, componentRef)
    {
      this.project := project;
      this.stakeholders := stakeholders;
      metadata := Metadata(project.title, "0.1", "1.0.2", []);
      users := [];
      componentRef := map[];
      components := [];
      implementedRequirements := [];
      new;
      SetRoles();
      // The later steps leave the roles and users as `SetRoles` made them.
      ghost var snapshot := (metadata, users);
      assert snapshot.0 == Metadata(project.title, "0.1", "1.0.2", Roles(stakeholders));
      assert snapshot.1 == Users(stakeholders);
      AddComponents(uuids);
      AddImplementedRequirements();
      assert (metadata, users) == snapshot;
    }

    /** The source's inner loop over the items of one stakeholder: every
        item overwrites the names and the property, so the last one wins;
        a stakeholder without items leaves the property as it was. */
    static method ReadStakeholder(stakeholder: Stakeholder, properties: Option<Property>)
      returns (title: string, shortName: string, properties': Option<Property>)
      ensures Names(title, shortName) == StakeholderNames(stakeholder)
      ensures stakeholder == [] ==> properties' == properties
      ensures stakeholder != [] ==> properties' == Some(stakeholder[|stakeholder| - 1].props)
    {
      title, shortName, properties' := "", "", properties;
      for j := 0 to |stakeholder|
        invariant j == 0 ==> title == "" && shortName == "" && properties' == properties
        invariant j > 0 ==> Names(title, shortName) == DeriveNames(stakeholder[j - 1].key)
        invariant j > 0 ==> properties' == Some(stakeholder[j - 1].props)
      {
        var key := stakeholder[j].key;
        match ParenGroup(key) {
          case Some(group) =>
            shortName := group;
            title := SliceTo(key, Find(key, " ("));
          case None =>
            title := key;
            shortName := Initials(key);
        }
        properties' := Some(stakeholder[j].props);
      }
    }

    method SetRoles()
      modifies this`metadata, this`users
      ensures metadata == old(metadata).(roles := Roles(stakeholders))
      ensures users == old(users) + Users(stakeholders)
    {
      metadata := metadata.(roles := []);
      var ids: seq<string> := [];
      var properties: Option<Property> := None;
      ghost var enrolled: seq<Enrolment> := [];
      for n := 0 to |stakeholders|
        invariant enrolled == Enrolments(stakeholders[..n])
        invariant metadata == old(metadata).(roles := RolesOf(enrolled))
        invariant users == old(users) + UsersOf(enrolled)
        invariant ids == EnrolledIds(enrolled)
      {
        var stakeholder := stakeholders[n];
        var title, shortName;
        title, shortName, properties := ReadStakeholder(stakeholder, properties);
        var roleId := RoleId(title);
        SetRolesStep(stakeholders, n, title, shortName, properties);
        if title != "" && roleId !in ids {
          var user := User([roleId], title, shortName, [properties.value]);
          ghost var e := Enrolment(roleId, Names(title, shortName), properties.value);
          EnrolmentAppend(enrolled, e, old(users));
          enrolled := enrolled + [e];
          ids := ids + [roleId];
          users := users + [user];
          metadata := metadata.(roles := metadata.roles + [Role(roleId, Strip(title), Upper(shortName))]);
        }
      }
      assert stakeholders[..|stakeholders|] == stakeholders;
    }

    method AddComponents(uuids: seq<string>)
      requires |uuids| == |project.components|
      modifies this`components, this`componentRef
      ensures components == SystemComponents(project, uuids)
      ensures componentRef == ComponentRef(old(componentRef), project.components, uuids)
      ensures forall c :: c in project.components ==> c.title in componentRef
    {
      var comps := project.components;
      components := [];
      for n := 0 to |comps|
        invariant |components| == n
        invariant forall i :: 0 <= i < n ==> components[i] == SystemComponentFor(project, comps[i], uuids[i])
        invariant componentRef == ComponentRef(old(componentRef), comps[..n], uuids[..n])
      {
        ComponentRefStep(old(componentRef), comps, uuids, n);
        AddProjectComponent(comps[n], uuids[n]);
      }
      assert comps[..|comps|] == comps;
      assert uuids[..|uuids|] == uuids;
      ComponentRefCoversTitles(old(componentRef), comps, uuids);
    }

    /** One round of the loop of `add_components`: the SSP component for
        `component` is added, and its uuid is recorded under the
        component's title. */
    method AddProjectComponent(component: ProjectComponent, uuid: string)
      modifies this`components, this`componentRef
      ensures components == old(components) + [SystemComponentFor(project, component, uuid)]
      ensures componentRef == old(componentRef)[component.title := uuid]
    {
      var cpt;
      if component.status == SystemStatus {
        cpt := SspComponent(uuid, "This System", "this-system", project.title, "operational");
      } else {
        cpt := SspComponent(uuid, component.title, component.componentType, component.description, "operational");
      }
      components := components + [cpt];
      componentRef := componentRef[component.title := cpt.uuid];
    }

    /** One round of the outer loop of `add_implemented_requirements`: a
        fresh requirement for `controlId`, appended once per implementing
        component and given that component's ByComponent entry each time;
        the requirement object is returned. */
    method AddRequirement(controlId: string) returns (requirement: SspRequirement)
      requires forall c :: c in project.components ==> c.title in componentRef
      requires HasNarratives(project.components, controlId)
      modifies this`implementedRequirements
      ensures fresh(requirement) && requirement.controlId == controlId
      ensures requirement.byComponents == ByComponents(project.components, componentRef, controlId)
      ensures implementedRequirements == old(implementedRequirements) + Repeat(requirement, |requirement.byComponents|)
      ensures var entries := ByComponents(project.components, componentRef, controlId);
        Views(implementedRequirements) == old(Views(implementedRequirements)) + Repeat(RequirementView(controlId, entries), |entries|)
    {
      var comps := project.components;
      ghost var done := implementedRequirements;
      requirement := new SspRequirement(controlId);
      for j := 0 to |comps|
        invariant implementedRequirements == done + Repeat(requirement, |requirement.byComponents|)
        invariant requirement.byComponents == ByComponents(comps[..j], componentRef, controlId)
      {
        var component := comps[j];
        ByComponentsStep(comps, j, componentRef, controlId);
        if controlId in component.controls {
          var narrative := NarrativeOf(component, controlId);
          AppendToRepeat(done, requirement, |requirement.byComponents|);
          requirement.byComponents := requirement.byComponents + [ByComponent(componentRef[component.title], narrative)];
          implementedRequirements := implementedRequirements + [requirement];
        }
      }
      assert comps[..|comps|] == comps;
      ViewsOfRepeat(done, requirement, |requirement.byComponents|);
    }

    method AddImplementedRequirements()
      requires forall c :: c in project.components ==> c.title in componentRef
      requires NarrativesCover(project.components, project.controls)
      modifies this`implementedRequirements
      ensures Views(implementedRequirements) == Expected(project.controls, project.components, componentRef)
    {
      implementedRequirements := [];
      for n := 0 to |project.controls|
        invariant Views(implementedRequirements) == Expected(project.controls[..n], project.components, componentRef)
      {
        ExpectedStep(project.controls, n, project.components, componentRef);
        var _ := AddRequirement(project.controls[n]);
      }
      assert project.controls[..|project.controls|] == project.controls;
    }
  }
}
