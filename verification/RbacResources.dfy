/** What jwt-to-rbac wants to exist for a user: an account, cluster roles and cluster role bindings. */
module RbacResources {
  import opened Sequences

  const LABEL_KEY := "generatedby"
  const LABEL_VALUE := "jwttorbac"
  const DEFAULT_LABEL: map<string, string> := map[LABEL_KEY := LABEL_VALUE]

  datatype Rule = Rule(verbs: seq<string>, resources: seq<string>, apiGroups: seq<string>)

  datatype CustomGroup = CustomGroup(groupName: string, customRules: seq<Rule>)

  datatype Config = Config(githubOrg: string, customGroups: seq<CustomGroup>)

  datatype User = User(connectorId: string, userId: string, email: string, groups: seq<string>)

  datatype ClusterRole = ClusterRole(name: string, rules: seq<Rule>, labels: map<string, string>)

  datatype ClusterRoleBinding = ClusterRoleBinding(
    name: string, saName: string, roleName: string, nameSpaces: seq<string>, labels: map<string, string>)

  datatype Resources = Resources(
    clusterRoles: seq<ClusterRole>, clusterRoleBindings: seq<ClusterRoleBinding>,
    saName: string, saLabels: map<string, string>)

  predicate Builtin(role: string) {
    role == "cluster-admin" || role == "admin" || role == "edit" || role == "view"
  }

  /** The rules of the first configured group with this name. */
  method GenerateRules(group: string, config: Config) returns (rules: seq<Rule>)
    ensures rules == RulesOf(config.customGroups, group)
    ensures forall i :: FirstNamed(config.customGroups, group, i) ==> rules == config.customGroups[i].customRules
    ensures (forall i :: 0 <= i < |config.customGroups| ==> config.customGroups[i].groupName != group) ==> rules == []
  {
    FirstGroupRules(config.customGroups, group);
    rules := [];
    var i := 0;
    while i < |config.customGroups|
      invariant 0 <= i <= |config.customGroups| && rules == []
      invariant RulesOf(config.customGroups, group) == RulesOf(config.customGroups[i..], group)
    {
      var cGroup := config.customGroups[i];
      assert config.customGroups[i..][1..] == config.customGroups[i + 1..];
      if cGroup.groupName == group {
        for j := 0 to |cGroup.customRules|
          invariant rules == cGroup.customRules[..j]
        {
          rules := rules + [cGroup.customRules[j]];
        }
        assert cGroup.customRules[..|cGroup.customRules|] == cGroup.customRules;
        return;
      }
      i := i + 1;
    }
  }

  function RulesOf(groups: seq<CustomGroup>, group: string): seq<Rule> {
    if groups == [] then []
    else if groups[0].groupName == group then groups[0].customRules
    else RulesOf(groups[1..], group)
  }

  /** The first group with this name is that at index i. */
  predicate FirstNamed(groups: seq<CustomGroup>, group: string, i: int) {
    0 <= i < |groups| && groups[i].groupName == group && forall j :: 0 <= j < i ==> groups[j].groupName != group
  }

  lemma {:induction false} FirstGroupRules(groups: seq<CustomGroup>, group: string)
    ensures forall i :: FirstNamed(groups, group, i) ==> RulesOf(groups, group) == groups[i].customRules
    ensures (forall i :: 0 <= i < |groups| ==> groups[i].groupName != group) ==> RulesOf(groups, group) == []
  {
    if groups != [] {
      FirstGroupRules(groups[1..], group);
      forall i | FirstNamed(groups, group, i) ensures RulesOf(groups, group) == groups[i].customRules {
        if i > 0 {
          assert forall j :: 0 <= j < i - 1 ==> groups[1..][j] == groups[j + 1];
          assert FirstNamed(groups[1..], group, i - 1);
        }
      }
    }
  }

  /** The role a group is bound to, unless it has no rules. */
  function RoleOf(config: Config, group: string): Option<string> {
    if Builtin(group) then Some(group)
    else if group == "admins" then Some("admin")
    else if RulesOf(config.customGroups, group) == [] then None
    else Some(group + "-from-jwt")
  }

  function Replace(s: string): string {
    seq(|s|, i requires 0 <= i < |s| => if s[i] == '@' || s[i] == '.' then '-' else s[i])
  }

  /** The text up to the next colon, and the text behind it. */
  function SplitColon(s: string): (r: (string, Option<string>))
    ensures r.1.Some? ==> s == r.0 + ":" + r.1.value
    ensures ':' !in r.0
    ensures r.1.None? ==> s == r.0
  {
    if s == "" then ("", None)
    else if s[0] == ':' then ("", Some(s[1..]))
    else var (head, tail) := SplitColon(s[1..]); ([s[0]] + head, tail)
  }

  /** org:team is the team of our own organisation, and org-team for another; others are dropped. */
  function GithubGroup(group: string, org: string): Option<string> {
    var (head, tail) := SplitColon(group);
    if tail.None? then None
    else
      var team := SplitColon(tail.value).0;
      if head == org then Some(team) else Some(head + "-" + team)
  }

  function GithubGroups(groups: seq<string>, org: string): seq<string> {
    if groups == [] then []
    else GithubGroups(groups[..|groups| - 1], org) +
         match GithubGroup(groups[|groups| - 1], org)
         case Some(g) => [g]
         case None => []
  }

  /** A group of the form org:team, with or without more parts, stands for this name. */
  ghost predicate StandsFor(group: string, org: string, name: string) {
    exists head, team, rest :: Parts(group, head, team, rest) && name == if head == org then team else head + "-" + team
  }

  ghost predicate Parts(group: string, head: string, team: string, rest: string) {
    && group == head + ":" + team + rest && ':' !in head && ':' !in team && (rest == "" || rest[0] == ':')
  }

  lemma {:induction false} SplitAtColon(head: string, rest: string)
    requires ':' !in head && (rest == "" || rest[0] == ':')
    ensures SplitColon(head + rest) == (head, if rest == "" then None else Some(rest[1..]))
  {
    if head == "" {
      assert head + rest == rest;
    } else {
      assert (head + rest)[1..] == head[1..] + rest && (head + rest)[0] == head[0] != ':';
      SplitAtColon(head[1..], rest);
      assert [head[0]] + head[1..] == head;
    }
  }

  lemma SplitParts(group: string, org: string, head: string, team: string, rest: string)
    requires Parts(group, head, team, rest)
    ensures GithubGroup(group, org) == Some(if head == org then team else head + "-" + team)
  {
    hide SplitColon;
    assert group == head + (":" + team + rest) && (":" + team + rest)[1..] == team + rest;
    SplitAtColon(head, ":" + team + rest);
    SplitAtColon(team, rest);
  }

  /** A group gives a name exactly when it stands for it. */
  lemma GithubGroupMeaning(group: string, org: string, name: string)
    ensures GithubGroup(group, org) == Some(name) <==> StandsFor(group, org, name)
  {
    if GithubGroup(group, org) == Some(name) {
      var (head, tail) := SplitColon(group);
      var (team, more) := SplitColon(tail.value);
      var rest := if more.Some? then ":" + more.value else "";
      assert group == head + ":" + team + rest;
      assert Parts(group, head, team, rest);
    }
    if StandsFor(group, org, name) {
      var head, team, rest :|
        Parts(group, head, team, rest) && name == if head == org then team else head + "-" + team;
      SplitParts(group, org, head, team, rest);
    }
  }

  /**
   A name is in the list exactly when one of the groups stands for it: a team of our own organisation for itself, and
   one of another organisation with the organisation's name and a dash in front.
   */
  lemma {:induction false} TeamsListed(groups: seq<string>, org: string, name: string)
    ensures name in GithubGroups(groups, org) <==> exists i :: 0 <= i < |groups| && StandsFor(groups[i], org, name)
  {
    hide StandsFor, GithubGroup;
    if groups != [] {
      var n := |groups| - 1;
      TeamsListed(groups[..n], org, name);
      GithubGroupMeaning(groups[n], org, name);
      assert forall i :: 0 <= i < n ==> groups[..n][i] == groups[i];
    }
  }

  method GithubRoleParser(groups: seq<string>, org: string) returns (list: seq<string>)
    ensures list == GithubGroups(groups, org)
  {
    list := [];
    for i := 0 to |groups|
      invariant list == GithubGroups(groups[..i], org)
    {
      assert groups[..i + 1][..i] == groups[..i];
      var g := GithubGroup(groups[i], org);
      if g.Some? {
        list := list + [g.value];
      }
    }
    assert groups[..|groups|] == groups;
  }

  function AccountName(user: User): string {
    if user.connectorId == "github" then user.userId else Replace(user.email)
  }

  function GroupsOf(user: User, config: Config): seq<string> {
    if user.connectorId == "github" then GithubGroups(user.groups, config.githubOrg) else user.groups
  }

  predicate KnownConnector(user: User) {
    user.connectorId == "github" || user.connectorId == "ldap" || user.connectorId == "local"
  }

  function BindingName(saName: string, role: string): string {
    saName + "-" + role + "-binding"
  }

  /** An account named after an address has neither `@` nor a dot in its name, and the other characters as they are. */
  lemma AccountNameMeaning(user: User)
    requires user.connectorId != "github"
    ensures var name := AccountName(user);
      && '@' !in name && '.' !in name && |name| == |user.email|
      && forall i :: 0 <= i < |name| ==> name[i] == user.email[i] || (name[i] == '-' && user.email[i] in "@.")
  {
    var name := AccountName(user);
    forall i | 0 <= i < |name| ensures name[i] == user.email[i] || (name[i] == '-' && user.email[i] in "@.") {
      assert "@."[0] == '@' && "@."[1] == '.';
    }
  }

  /** The bindings of an account to different roles have different names. */
  lemma BindingNamesDiffer(saName: string, role: string, other: string)
    requires BindingName(saName, role) == BindingName(saName, other)
    ensures role == other
  {
    var a, b := BindingName(saName, role), BindingName(saName, other);
    assert role == a[|saName| + 1..|a| - |"-binding"|] && other == b[|saName| + 1..|b| - |"-binding"|];
  }

  /** The role is built in or one of these. */
  ghost predicate RoleAvailable(roles: seq<ClusterRole>, role: string) {
    Builtin(role) || exists i :: 0 <= i < |roles| && roles[i].name == role
  }

  /** What the resources must be for the account and the groups. */
  ghost predicate ResourcesRight(r: Resources, config: Config, saName: string, groups: seq<string>,
                                 nameSpaces: seq<string>) {
    && r.saName == saName && r.saLabels == DEFAULT_LABEL
    && (forall i :: 0 <= i < |r.clusterRoles| ==> RoleRight(r.clusterRoles[i], config, groups))
    && (forall i :: 0 <= i < |r.clusterRoleBindings| ==>
          BindingRight(r.clusterRoleBindings[i], r.clusterRoles, config, saName, groups, nameSpaces))
    && (forall g :: g in groups && RoleOf(config, g).Some? ==> BoundTo(r.clusterRoleBindings, RoleOf(config, g).value))
  }

  /** A role to be created is for a group of the user, with the rules configured for it. */
  ghost predicate RoleRight(role: ClusterRole, config: Config, groups: seq<string>) {
    && role.labels == DEFAULT_LABEL && role.rules != []
    && exists g :: g in groups && RoleOf(config, g) == Some(role.name) && role.name == g + "-from-jwt" &&
         role.rules == RulesOf(config.customGroups, g)
  }

  ghost predicate BoundTo(bindings: seq<ClusterRoleBinding>, role: string) {
    exists i :: 0 <= i < |bindings| && bindings[i].roleName == role
  }

  /** A binding is for a group of the user, to a role that is built in or created with it. */
  ghost predicate BindingRight(b: ClusterRoleBinding, roles: seq<ClusterRole>, config: Config,
                               saName: string, groups: seq<string>, nameSpaces: seq<string>) {
    && b.saName == saName && b.labels == DEFAULT_LABEL && b.nameSpaces == nameSpaces
    && b.name == BindingName(saName, b.roleName)
    && RoleAvailable(roles, b.roleName)
    && exists g :: g in groups && RoleOf(config, g) == Some(b.roleName)
  }

  lemma MoreRoles(b: ClusterRoleBinding, roles: seq<ClusterRole>, role: ClusterRole, config: Config,
                  saName: string, groups: seq<string>, more: seq<string>, nameSpaces: seq<string>)
    requires BindingRight(b, roles, config, saName, groups, nameSpaces)
    requires forall g :: g in groups ==> g in more
    ensures BindingRight(b, roles, config, saName, more, nameSpaces)
    ensures BindingRight(b, roles + [role], config, saName, more, nameSpaces)
  {
    if i :| 0 <= i < |roles| && roles[i].name == b.roleName {
      assert (roles + [role])[i] == roles[i];
    }
  }

  /** A role would have to be created for the group. */
  predicate OwnRole(group: string) {
    !Builtin(group) && group != "admins"
  }

  /** The roles to be created: for the groups that have rules configured. */
  function RolesFor(config: Config, groups: seq<string>): seq<ClusterRole> {
    if groups == [] then []
    else
      var g := groups[|groups| - 1];
      RolesFor(config, groups[..|groups| - 1]) +
      if OwnRole(g) && RoleOf(config, g).Some?
      then [ClusterRole(RoleOf(config, g).value, RulesOf(config.customGroups, g), DEFAULT_LABEL)] else []
  }

  function BindingsFor(config: Config, saName: string, groups: seq<string>, nameSpaces: seq<string>)
    : seq<ClusterRoleBinding>
  {
    if groups == [] then []
    else
      BindingsFor(config, saName, groups[..|groups| - 1], nameSpaces) +
      match RoleOf(config, groups[|groups| - 1])
      case Some(role) =>
        [ClusterRoleBinding(BindingName(saName, role), saName, role, nameSpaces, DEFAULT_LABEL)]
      case None => []
  }

  /** What a user is to have. */
  function ResourcesOf(user: User, config: Config, nameSpaces: seq<string>): Resources {
    var saName, groups := AccountName(user), GroupsOf(user, config);
    Resources(RolesFor(config, groups), BindingsFor(config, saName, groups, nameSpaces), saName, DEFAULT_LABEL)
  }

  /**
   The resources of a user: every group with a role, built in or configured, is bound to it, each
   binding's role is built in or among the roles to be created, and nothing else is asked for. They depend
   on the arguments only.
   */
  method GenerateRbacResources(user: User, config: Config, nameSpaces: seq<string>) returns (r: Option<Resources>)
    ensures r == if KnownConnector(user) then Some(ResourcesOf(user, config, nameSpaces)) else None
    ensures r.Some? ==> ResourcesRight(r.value, config, AccountName(user), GroupsOf(user, config), nameSpaces)
  {
    hide ResourcesRight, RulesOf, BindingName;
    if !KnownConnector(user) {
      return None;
    }
    var saName := AccountName(user);
    var groupList := user.groups;
    if user.connectorId == "github" {
      groupList := GithubRoleParser(user.groups, config.githubOrg);
    }
    var roles: seq<ClusterRole>, bindings: seq<ClusterRoleBinding> := [], [];
    var i := 0;
    assert groupList[..0] == [];
    while i < |groupList|
      invariant 0 <= i <= |groupList|
      invariant roles == RolesFor(config, groupList[..i])
      invariant bindings == BindingsFor(config, saName, groupList[..i], nameSpaces)
    {
      var group := groupList[i];
      assert groupList[..i + 1][..i] == groupList[..i];
      var rules := GenerateRules(group, config);
      var own := OwnRole(group);
      if !own || |rules| >= 1 {
        var roleName := if own then group + "-from-jwt" else if Builtin(group) then group else "admin";
        var binding := ClusterRoleBinding(BindingName(saName, roleName), saName, roleName, nameSpaces, DEFAULT_LABEL);
        if own {
          roles := roles + [ClusterRole(roleName, rules, DEFAULT_LABEL)];
        }
        bindings := bindings + [binding];
      }
      i := i + 1;
    }
    assert groupList[..i] == groupList;
    r := Some(Resources(roles, bindings, saName, DEFAULT_LABEL));
    AskedFor(config, saName, groupList, nameSpaces, i);
  }

  lemma {:induction false} AskedFor(config: Config, saName: string, groups: seq<string>, nameSpaces: seq<string>,
                                    i: nat)
    requires i <= |groups|
    ensures var roles, bindings :=
        RolesFor(config, groups[..i]), BindingsFor(config, saName, groups[..i], nameSpaces);
      ResourcesRight(Resources(roles, bindings, saName, DEFAULT_LABEL), config, saName, groups[..i], nameSpaces)
  {
    hide ResourcesRight, RulesOf, BindingName;
    if i == 0 {
      NothingAsked(config, saName, nameSpaces);
      assert groups[..0] == [];
    } else {
      AskedFor(config, saName, groups, nameSpaces, i - 1);
      assert groups[..i][..i - 1] == groups[..i - 1];
      var g := groups[i - 1];
      var roles := RolesFor(config, groups[..i - 1]);
      var bindings := BindingsFor(config, saName, groups[..i - 1], nameSpaces);
      match RoleOf(config, g) {
        case Some(name) =>
          var role := ClusterRole(name, RulesOf(config.customGroups, g), DEFAULT_LABEL);
          var binding := ClusterRoleBinding(BindingName(saName, name), saName, name, nameSpaces, DEFAULT_LABEL);
          OneMoreGroup(roles, bindings, role, binding, OwnRole(g), config, saName, groups, i - 1, nameSpaces);
          assert !OwnRole(g) ==> roles + [] == roles;
        case None =>
          GroupWithoutRole(roles, bindings, config, saName, groups, i - 1, nameSpaces);
          assert roles + [] == roles && bindings + [] == bindings;
      }
    }
  }

  lemma NothingAsked(config: Config, saName: string, nameSpaces: seq<string>)
    ensures ResourcesRight(Resources([], [], saName, DEFAULT_LABEL), config, saName, [], nameSpaces)
  {
  }

  lemma OneMoreGroup(roles: seq<ClusterRole>, bindings: seq<ClusterRoleBinding>,
                     role: ClusterRole, binding: ClusterRoleBinding, own: bool,
                     config: Config, saName: string, groups: seq<string>, i: nat, nameSpaces: seq<string>)
    requires i < |groups|
    requires ResourcesRight(Resources(roles, bindings, saName, DEFAULT_LABEL), config, saName, groups[..i], nameSpaces)
    requires own ==> role.name == groups[i] + "-from-jwt" && role.labels == DEFAULT_LABEL
    requires own ==> role.rules == RulesOf(config.customGroups, groups[i]) != [] && binding.roleName == role.name
    requires !own ==> Builtin(binding.roleName)
    requires RoleOf(config, groups[i]) == Some(binding.roleName)
    requires binding ==
      ClusterRoleBinding(BindingName(saName, binding.roleName), saName, binding.roleName, nameSpaces, DEFAULT_LABEL)
    ensures ResourcesRight(Resources(if own then roles + [role] else roles, bindings + [binding],
                                     saName, DEFAULT_LABEL), config, saName, groups[..i + 1], nameSpaces)
  {
    hide RoleOf, RulesOf, Builtin, BindingName, BindingRight, RoleRight, BoundTo;
    var now, more := groups[..i], groups[..i + 1];
    var roles', bindings' := if own then roles + [role] else roles, bindings + [binding];
    assert more == now + [groups[i]];
    forall k | 0 <= k < |bindings'| ensures BindingRight(bindings'[k], roles', config, saName, more, nameSpaces) {
      if k < |bindings| {
        MoreRoles(bindings[k], roles, role, config, saName, now, more, nameSpaces);
      } else {
        NewBindingRight(binding, roles', own, config, saName, more, i, nameSpaces);
      }
    }
    forall k | 0 <= k < |roles'| ensures RoleRight(roles'[k], config, more) {
      if k < |roles| {
        MoreGroups(roles[k], config, now, more);
      } else {
        assert groups[i] in more;
        NewRoleRight(role, config, more, groups[i]);
      }
    }
    forall g | g in more && RoleOf(config, g).Some? ensures BoundTo(bindings', RoleOf(config, g).value) {
      MoreBound(bindings, binding, RoleOf(config, g).value);
      assert g != groups[i] ==> g in now;
    }
  }

  lemma NewBindingRight(b: ClusterRoleBinding, roles: seq<ClusterRole>, own: bool, config: Config, saName: string,
                        groups: seq<string>, i: nat, nameSpaces: seq<string>)
    requires i < |groups| && RoleOf(config, groups[i]) == Some(b.roleName)
    requires b == ClusterRoleBinding(BindingName(saName, b.roleName), saName, b.roleName, nameSpaces, DEFAULT_LABEL)
    requires if own then roles != [] && roles[|roles| - 1].name == b.roleName else Builtin(b.roleName)
    ensures BindingRight(b, roles, config, saName, groups, nameSpaces)
  {
  }

  lemma NewRoleRight(role: ClusterRole, config: Config, groups: seq<string>, g: string)
    requires g in groups && role.name == g + "-from-jwt" && role.rules == RulesOf(config.customGroups, g) != []
    requires role.labels == DEFAULT_LABEL && RoleOf(config, g) == Some(role.name)
    ensures RoleRight(role, config, groups)
  {
  }

  lemma MoreGroups(role: ClusterRole, config: Config, groups: seq<string>, more: seq<string>)
    requires RoleRight(role, config, groups) && forall g :: g in groups ==> g in more
    ensures RoleRight(role, config, more)
  {
  }

  lemma MoreBound(bindings: seq<ClusterRoleBinding>, binding: ClusterRoleBinding, role: string)
    ensures BoundTo(bindings, role) || binding.roleName == role ==> BoundTo(bindings + [binding], role)
  {
    if k :| 0 <= k < |bindings| && bindings[k].roleName == role {
      assert (bindings + [binding])[k] == bindings[k];
    } else {
      assert (bindings + [binding])[|bindings|] == binding;
    }
  }

  lemma GroupWithoutRole(roles: seq<ClusterRole>, bindings: seq<ClusterRoleBinding>, config: Config,
                         saName: string, groups: seq<string>, i: nat, nameSpaces: seq<string>)
    requires i < |groups| && RoleOf(config, groups[i]).None?
    requires ResourcesRight(Resources(roles, bindings, saName, DEFAULT_LABEL), config, saName, groups[..i], nameSpaces)
    ensures ResourcesRight(Resources(roles, bindings, saName, DEFAULT_LABEL), config, saName,
                           groups[..i + 1], nameSpaces)
  {
    var now, more := groups[..i], groups[..i + 1];
    assert more == now + [groups[i]];
    forall k | 0 <= k < |roles| ensures RoleRight(roles[k], config, more) {
      MoreGroups(roles[k], config, now, more);
    }
    forall k | 0 <= k < |bindings| ensures BindingRight(bindings[k], roles, config, saName, more, nameSpaces) {
      if g :| g in now && RoleOf(config, g) == Some(bindings[k].roleName) {
        assert g in more;
      }
    }
  }
}
