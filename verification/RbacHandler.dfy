/**
 Creating and deleting the resources of a user against the API server. Any call to the server may
 fail, unless it is reliable; a failed call changes nothing. Creating fails on a name that exists.
 */
module RbacHandler {
  import opened Sequences
  import opened RbacResources

  datatype Account = Account(labels: map<string, string>, uid: nat)

  datatype Role = Role(labels: map<string, string>, rules: seq<Rule>)

  datatype Owner = Owner(name: string, uid: nat)

  datatype Binding = Binding(
    labels: map<string, string>, subjects: seq<(string, string)>, roleName: string, owner: Option<Owner>)

  /** The objects of the cluster by name; uids are never given out twice. */
  datatype Cluster = Cluster(
    accounts: map<string, Account>, roles: map<string, Role>, bindings: map<string, Binding>, nextUid: nat)

  predicate Labelled(labels: map<string, string>) {
    LABEL_KEY in labels && labels[LABEL_KEY] == LABEL_VALUE
  }

  ghost predicate UidsRight(c: Cluster) {
    && (forall a :: a in c.accounts ==> c.accounts[a].uid < c.nextUid)
    && (forall a, b :: a in c.accounts && b in c.accounts && c.accounts[a].uid == c.accounts[b].uid ==> a == b)
  }

  /** The binding's role is built in or there with our label, and its owner is a live account with our label. */
  ghost predicate Grounded(c: Cluster, b: Binding) {
    && (Builtin(b.roleName) || (b.roleName in c.roles && Labelled(c.roles[b.roleName].labels)))
    && b.owner.Some?
    && b.owner.value.name in c.accounts
    && c.accounts[b.owner.value.name].uid == b.owner.value.uid
    && Labelled(c.accounts[b.owner.value.name].labels)
  }

  /** The bindings that we created are all grounded. */
  ghost predicate OursGrounded(c: Cluster, ours: set<string>) {
    forall n :: n in ours && n in c.bindings ==> Grounded(c, c.bindings[n])
  }

  /** d has everything that c has, unchanged. */
  ghost predicate Grown(c: Cluster, d: Cluster) {
    && (forall n :: n in c.accounts ==> n in d.accounts && d.accounts[n] == c.accounts[n])
    && (forall n :: n in c.roles ==> n in d.roles && d.roles[n] == c.roles[n])
    && (forall n :: n in c.bindings ==> n in d.bindings && d.bindings[n] == c.bindings[n])
  }

  /** Every name asked for is there with our label. */
  ghost predicate Complete(c: Cluster, r: Resources) {
    && r.saName in c.accounts && Labelled(c.accounts[r.saName].labels)
    && (forall i :: 0 <= i < |r.clusterRoles| ==> RoleThere(c, r.clusterRoles[i].name))
    && (forall i :: 0 <= i < |r.clusterRoleBindings| ==> BindingThere(c, r.clusterRoleBindings[i].name))
  }

  predicate RoleThere(c: Cluster, name: string) {
    name in c.roles && Labelled(c.roles[name].labels)
  }

  predicate BindingThere(c: Cluster, name: string) {
    name in c.bindings && Labelled(c.bindings[name].labels)
  }

  lemma GrownTwice(c: Cluster, d: Cluster, e: Cluster)
    requires Grown(c, d) && Grown(d, e)
    ensures Grown(c, e)
  {
  }

  /** A cluster, the bindings in it that are ours, and the clusters along the way. */
  datatype Progress = Progress(cluster: Cluster, ours: set<string>, history: seq<Cluster>)

  /** What one step or many may do while creating: add, and pass only through grounded states. */
  ghost predicate OnlyAdds(p: Progress, q: Progress) {
    && Grown(p.cluster, q.cluster)
    && p.ours <= q.ours
    && (forall n :: n in q.ours - p.ours ==> n in q.cluster.bindings && n !in p.cluster.bindings)
    && (forall n :: n in q.cluster.bindings && n !in p.cluster.bindings ==> n in q.ours)
    && p.history <= q.history
    && (forall i :: |p.history| <= i < |q.history| ==>
          OursGrounded(q.history[i], q.ours) && Grown(p.cluster, q.history[i]) && Grown(q.history[i], q.cluster))
  }

  lemma NothingAdded(p: Progress)
    ensures OnlyAdds(p, p)
  {
  }

  lemma AddsTwice(p: Progress, q: Progress, r: Progress)
    requires OnlyAdds(p, q) && OnlyAdds(q, r)
    ensures OnlyAdds(p, r)
  {
    GrownTwice(p.cluster, q.cluster, r.cluster);
    forall i | |p.history| <= i < |r.history|
      ensures OursGrounded(r.history[i], r.ours) && Grown(p.cluster, r.history[i]) && Grown(r.history[i], r.cluster)
    {
      if i < |q.history| {
        assert r.history[i] == q.history[i];
        GrownTwice(r.history[i], q.cluster, r.cluster);
        StillGrounded(r.history[i], q.cluster, p.ours, q, r);
      } else {
        GrownTwice(p.cluster, q.cluster, r.history[i]);
      }
    }
  }

  /** An earlier cluster has none of the bindings that became ours later. */
  lemma StillGrounded(h: Cluster, c: Cluster, ours: set<string>, q: Progress, r: Progress)
    requires Grown(h, q.cluster) && OnlyAdds(q, r) && OursGrounded(h, q.ours)
    ensures OursGrounded(h, r.ours)
  {
    forall n | n in r.ours && n in h.bindings ensures Grounded(h, h.bindings[n]) {
      assert n in q.cluster.bindings;
      assert n in q.ours;
    }
  }

  /** The object created for a binding that is asked for: its role, its subjects, and its account as owner. */
  ghost predicate IsBindingFor(made: Binding, b: ClusterRoleBinding) {
    && made.roleName == b.roleName
    && made.subjects == seq(|b.nameSpaces|, i requires 0 <= i < |b.nameSpaces| => (b.saName, b.nameSpaces[i]))
    && made.owner.Some? && made.owner.value.name == b.saName
    && made.labels == b.labels
  }

  /** Whatever is new is asked for. */
  ghost predicate OnlyWanted(c: Cluster, d: Cluster, r: Resources) {
    && (forall n :: n in d.accounts ==> n in c.accounts || n == r.saName)
    && (forall n :: n in d.roles && n !in c.roles ==>
          exists k :: 0 <= k < |r.clusterRoles| && r.clusterRoles[k].name == n &&
                      d.roles[n].rules == r.clusterRoles[k].rules)
    && (forall n :: n in d.bindings && n !in c.bindings ==>
          exists k :: 0 <= k < |r.clusterRoleBindings| && r.clusterRoleBindings[k].name == n &&
                      IsBindingFor(d.bindings[n], r.clusterRoleBindings[k]))
  }

  lemma AccountWanted(c: Cluster, d: Cluster, r: Resources)
    requires d.roles == c.roles && d.bindings == c.bindings
    requires forall n :: n in d.accounts ==> n in c.accounts || n == r.saName
    ensures OnlyWanted(c, d, r)
  {
  }

  lemma RoleWanted(c: Cluster, d: Cluster, e: Cluster, r: Resources, i: nat)
    requires i < |r.clusterRoles| && OnlyWanted(c, d, r) && Grown(d, e)
    requires e.accounts == d.accounts && e.bindings == d.bindings
    requires forall n :: n in e.roles && n !in d.roles ==>
      n == r.clusterRoles[i].name && e.roles[n].rules == r.clusterRoles[i].rules
    ensures OnlyWanted(c, e, r)
  {
  }

  lemma BindingWanted(c: Cluster, d: Cluster, e: Cluster, r: Resources, i: nat)
    requires i < |r.clusterRoleBindings| && OnlyWanted(c, d, r) && Grown(d, e)
    requires e.accounts == d.accounts && e.roles == d.roles
    requires forall n :: n in e.bindings && n !in d.bindings ==>
      n == r.clusterRoleBindings[i].name && IsBindingFor(e.bindings[n], r.clusterRoleBindings[i])
    ensures OnlyWanted(c, e, r)
  {
  }

  lemma AddsGrown(p: Progress, q: Progress)
    requires OnlyAdds(p, q)
    ensures Grown(p.cluster, q.cluster)
  {
  }

  predicate AccountThere(c: Cluster, name: string) {
    name in c.accounts && Labelled(c.accounts[name].labels)
  }

  /** All that is wanted carries our label, and each binding's role is built in or wanted too. */
  lemma WantedLabels(r: Resources, config: Config, saName: string, groups: seq<string>)
    requires ResourcesRight(r, config, saName, groups, ["default"])
    ensures Labelled(r.saLabels) && r.saName == saName
    ensures forall i :: 0 <= i < |r.clusterRoles| ==> Labelled(r.clusterRoles[i].labels)
    ensures forall i :: 0 <= i < |r.clusterRoleBindings| ==>
      && Labelled(r.clusterRoleBindings[i].labels)
      && RoleAvailable(r.clusterRoles, r.clusterRoleBindings[i].roleName)
      && r.clusterRoleBindings[i].saName == saName
  {
    forall i | 0 <= i < |r.clusterRoleBindings|
      ensures Labelled(r.clusterRoleBindings[i].labels) && r.clusterRoleBindings[i].saName == saName
      ensures RoleAvailable(r.clusterRoles, r.clusterRoleBindings[i].roleName)
    {
      assert BindingRight(r.clusterRoleBindings[i], r.clusterRoles, config, saName, groups, ["default"]);
    }
  }

  lemma CompleteParts(c: Cluster, r: Resources)
    ensures Complete(c, r) ==>
      && r.saName in c.accounts
      && (forall i :: 0 <= i < |r.clusterRoles| ==> r.clusterRoles[i].name in c.roles)
      && (forall i :: 0 <= i < |r.clusterRoleBindings| ==> r.clusterRoleBindings[i].name in c.bindings)
  {
  }

  lemma PartsComplete(c: Cluster, r: Resources)
    requires AccountThere(c, r.saName)
    requires forall i :: 0 <= i < |r.clusterRoles| ==> RoleThere(c, r.clusterRoles[i].name)
    requires forall i :: 0 <= i < |r.clusterRoleBindings| ==> BindingThere(c, r.clusterRoleBindings[i].name)
    ensures Complete(c, r)
  {
  }

  lemma StillThere(p: Progress, q: Progress)
    requires OnlyAdds(p, q)
    ensures forall n :: AccountThere(p.cluster, n) ==> AccountThere(q.cluster, n)
    ensures forall n :: RoleThere(p.cluster, n) ==> RoleThere(q.cluster, n)
    ensures forall n :: BindingThere(p.cluster, n) ==> BindingThere(q.cluster, n)
  {
  }

  /** A cluster, and our bindings in it, after a call that added something. */
  ghost function Changed(p: Progress, c: Cluster, ours: set<string>): Progress {
    Progress(c, ours, p.history + [c])
  }

  lemma AccountAdded(p: Progress, name: string, labels: map<string, string>)
    requires UidsRight(p.cluster) && OursGrounded(p.cluster, p.ours) && name !in p.cluster.accounts
    ensures var account := Account(labels, p.cluster.nextUid);
      var c := p.cluster.(accounts := p.cluster.accounts[name := account], nextUid := p.cluster.nextUid + 1);
      UidsRight(c) && OursGrounded(c, p.ours) && OnlyAdds(p, Changed(p, c, p.ours))
  {
  }

  lemma RoleAdded(p: Progress, name: string, role: Role)
    requires UidsRight(p.cluster) && OursGrounded(p.cluster, p.ours) && name !in p.cluster.roles
    ensures var c := p.cluster.(roles := p.cluster.roles[name := role]);
      UidsRight(c) && OursGrounded(c, p.ours) && OnlyAdds(p, Changed(p, c, p.ours))
  {
  }

  lemma BindingAdded(p: Progress, name: string, binding: Binding)
    requires UidsRight(p.cluster) && OursGrounded(p.cluster, p.ours) && name !in p.cluster.bindings
    requires Grounded(p.cluster, binding)
    ensures var c := p.cluster.(bindings := p.cluster.bindings[name := binding]);
      && UidsRight(c) && OursGrounded(c, p.ours + {name})
      && OnlyAdds(p, Changed(p, c, p.ours + {name}))
  {
  }

  // ---------------------------------------------------------------- names that are free

  predicate AccountFree(c: Cluster, name: string) {
    name in c.accounts ==> Labelled(c.accounts[name].labels)
  }

  predicate RoleFree(c: Cluster, name: string) {
    name in c.roles ==> Labelled(c.roles[name].labels)
  }

  predicate BindingFree(c: Cluster, name: string) {
    name in c.bindings ==> Labelled(c.bindings[name].labels)
  }

  ghost predicate RolesFree(c: Cluster, r: Resources) {
    forall i :: 0 <= i < |r.clusterRoles| ==> RoleFree(c, r.clusterRoles[i].name)
  }

  ghost predicate BindingsFree(c: Cluster, r: Resources) {
    forall i :: 0 <= i < |r.clusterRoleBindings| ==> BindingFree(c, r.clusterRoleBindings[i].name)
  }

  /** No object without our label has a name that is wanted. */
  ghost predicate NamesFree(c: Cluster, r: Resources) {
    AccountFree(c, r.saName) && RolesFree(c, r) && BindingsFree(c, r)
  }

  /** The names that are free of foreign objects in c are just those in d. */
  ghost predicate AsFree(c: Cluster, d: Cluster) {
    && (forall n :: AccountFree(c, n) <==> AccountFree(d, n))
    && (forall n :: RoleFree(c, n) <==> RoleFree(d, n))
    && (forall n :: BindingFree(c, n) <==> BindingFree(d, n))
  }

  lemma AsFreeItself(c: Cluster)
    ensures AsFree(c, c)
  {
  }

  lemma AsFreeTwice(c: Cluster, d: Cluster, e: Cluster)
    requires AsFree(c, d) && AsFree(d, e)
    ensures AsFree(c, e)
  {
    hide AccountFree, RoleFree, BindingFree;
  }

  lemma AccountAsFree(c: Cluster, name: string, account: Account, next: nat)
    requires name !in c.accounts && Labelled(account.labels)
    ensures AsFree(c, c.(accounts := c.accounts[name := account], nextUid := next))
  {
  }

  lemma RoleAsFree(c: Cluster, name: string, role: Role)
    requires name !in c.roles && Labelled(role.labels)
    ensures AsFree(c, c.(roles := c.roles[name := role]))
  {
  }

  lemma BindingAsFree(c: Cluster, name: string, binding: Binding)
    requires name !in c.bindings && Labelled(binding.labels)
    ensures AsFree(c, c.(bindings := c.bindings[name := binding]))
  {
  }

  lemma NamesAsFree(c: Cluster, d: Cluster, r: Resources)
    requires AsFree(c, d)
    ensures RolesFree(c, r) <==> RolesFree(d, r)
    ensures BindingsFree(c, r) <==> BindingsFree(d, r)
  {
    hide AccountFree, RoleFree, BindingFree;
  }

  lemma RoleFreeIn(c: Cluster, d: Cluster, name: string)
    requires AsFree(c, d)
    ensures RoleFree(c, name) <==> RoleFree(d, name)
  {
  }

  lemma BindingFreeIn(c: Cluster, d: Cluster, name: string)
    requires AsFree(c, d)
    ensures BindingFree(c, name) <==> BindingFree(d, name)
  {
  }

  class RBACHandler {
    var cluster: Cluster
    /** Every call to the server is answered. */
    const reliable: bool
    /** The names of the bindings that we have created. */
    var ours: set<string>
    /** The cluster after each call that changed it. */
    var history: seq<Cluster>

    ghost predicate Valid()
      reads this
    {
      UidsRight(cluster) && OursGrounded(cluster, ours)
    }

    ghost function Now(): Progress
      reads this
    {
      Progress(cluster, ours, history)
    }

    constructor (cluster: Cluster, reliable: bool)
      requires UidsRight(cluster)
      ensures Valid() && this.cluster == cluster && this.reliable == reliable && ours == {} && history == []
    {
      this.cluster, this.reliable, ours, history := cluster, reliable, {}, [];
    }

    /** The account, when the server answers and the account carries our label. */
    method GetAndCheckSA(name: string) returns (account: Option<Account>)
      ensures account.Some? ==>
        name in cluster.accounts && account.value == cluster.accounts[name] && Labelled(account.value.labels)
      ensures reliable && AccountThere(cluster, name) ==> account.Some?
    {
      var answers: bool := *;
      if (answers || reliable) && name in cluster.accounts && Labelled(cluster.accounts[name].labels) {
        account := Some(cluster.accounts[name]);
      } else {
        account := None;
      }
    }

    method GetAndCheckCRole(name: string) returns (ok: bool)
      ensures ok ==> RoleThere(cluster, name)
      ensures reliable && RoleThere(cluster, name) ==> ok
    {
      var answers: bool := *;
      ok := (answers || reliable) && RoleThere(cluster, name);
    }

    method GetAndCheckCRoleBinding(name: string) returns (ok: bool)
      ensures ok ==> BindingThere(cluster, name)
      ensures reliable && BindingThere(cluster, name) ==> ok
    {
      var answers: bool := *;
      ok := (answers || reliable) && BindingThere(cluster, name);
    }

    method CreateServiceAccount(name: string, labels: map<string, string>) returns (ok: bool)
      requires Valid() && Labelled(labels)
      modifies this
      ensures Valid() && OnlyAdds(old(Now()), Now())
      ensures cluster.roles == old(cluster).roles && cluster.bindings == old(cluster).bindings && ours == old(ours)
      ensures ok ==> AccountThere(cluster, name)
      ensures forall n :: n in cluster.accounts ==> n in old(cluster).accounts || n == name
      ensures name in old(cluster).accounts ==> cluster == old(cluster)
      ensures AsFree(old(cluster), cluster)
      ensures reliable ==> (ok <==> AccountFree(old(cluster), name))
    {
      hide UidsRight, OursGrounded, OnlyAdds, AsFree;
      NothingAdded(Now());
      AsFreeItself(cluster);
      var found := GetAndCheckSA(name);
      if found.Some? {
        return true;
      }
      var answers: bool := *;
      if !(answers || reliable) || name in cluster.accounts {
        return false;
      }
      AccountAdded(Now(), name, labels);
      var account := Account(labels, cluster.nextUid);
      AccountAsFree(cluster, name, account, cluster.nextUid + 1);
      cluster := cluster.(accounts := cluster.accounts[name := account], nextUid := cluster.nextUid + 1);
      history := history + [cluster];
      ok := true;
    }

    method CreateClusterRole(role: ClusterRole) returns (ok: bool)
      requires Valid() && Labelled(role.labels)
      modifies this
      ensures Valid() && OnlyAdds(old(Now()), Now())
      ensures cluster.accounts == old(cluster).accounts && cluster.bindings == old(cluster).bindings
      ensures ours == old(ours)
      ensures ok ==> RoleThere(cluster, role.name)
      ensures forall n :: n in cluster.roles && n !in old(cluster).roles ==>
        n == role.name && cluster.roles[n].rules == role.rules
      ensures role.name in old(cluster).roles ==> cluster == old(cluster)
      ensures AsFree(old(cluster), cluster)
      ensures reliable ==> (ok <==> RoleFree(old(cluster), role.name))
    {
      hide UidsRight, OursGrounded, OnlyAdds, AsFree;
      NothingAdded(Now());
      AsFreeItself(cluster);
      var found := GetAndCheckCRole(role.name);
      if found {
        return true;
      }
      var answers: bool := *;
      if !(answers || reliable) || role.name in cluster.roles {
        return false;
      }
      RoleAdded(Now(), role.name, Role(role.labels, role.rules));
      RoleAsFree(cluster, role.name, Role(role.labels, role.rules));
      cluster := cluster.(roles := cluster.roles[role.name := Role(role.labels, role.rules)]);
      history := history + [cluster];
      ok := true;
    }

    method CreateClusterRoleBinding(b: ClusterRoleBinding) returns (ok: bool)
      requires Valid() && Labelled(b.labels)
      requires Builtin(b.roleName) || RoleThere(cluster, b.roleName)
      modifies this
      ensures Valid() && OnlyAdds(old(Now()), Now())
      ensures cluster.accounts == old(cluster).accounts && cluster.roles == old(cluster).roles
      ensures ok ==> BindingThere(cluster, b.name)
      ensures b.name in old(cluster).bindings ==> cluster == old(cluster)
      ensures forall n :: n in cluster.bindings && n !in old(cluster).bindings ==>
        n == b.name && IsBindingFor(cluster.bindings[n], b)
      ensures AsFree(old(cluster), cluster)
      ensures reliable && AccountThere(old(cluster), b.saName) ==> (ok <==> BindingFree(old(cluster), b.name))
    {
      hide UidsRight, OursGrounded, OnlyAdds, AsFree;
      NothingAdded(Now());
      AsFreeItself(cluster);
      var found := GetAndCheckCRoleBinding(b.name);
      if found {
        return true;
      }
      var subjects: seq<(string, string)> := [];
      for i := 0 to |b.nameSpaces|
        invariant subjects == seq(i, k requires 0 <= k < i => (b.saName, b.nameSpaces[k]))
      {
        subjects := subjects + [(b.saName, b.nameSpaces[i])];
      }
      var account := GetAndCheckSA(b.saName);
      if account.None? {
        return false;
      }
      var answers: bool := *;
      if !(answers || reliable) || b.name in cluster.bindings {
        return false;
      }
      var binding := Binding(b.labels, subjects, b.roleName, Some(Owner(b.saName, account.value.uid)));
      BindingAdded(Now(), b.name, binding);
      BindingAsFree(cluster, b.name, binding);
      cluster := cluster.(bindings := cluster.bindings[b.name := binding]);
      ours := ours + {b.name};
      history := history + [cluster];
      ok := true;
    }

    /**
     Whatever fails on the way: nothing that existed is changed, and every binding created is grounded in
     every state of the cluster from then on. A success leaves everything asked for in place, and a
     repetition finds nothing to do.
     */
    method CreateRBAC(user: User, config: Config) returns (ok: bool)
      requires Valid()
      modifies this
      ensures Valid() && OnlyAdds(old(Now()), Now())
      ensures !KnownConnector(user) ==> !ok && cluster == old(cluster)
      ensures var wanted := ResourcesOf(user, config, ["default"]);
        && (KnownConnector(user) ==> OnlyWanted(old(cluster), cluster, wanted))
        && (ok ==> Complete(cluster, wanted))
        && (Complete(old(cluster), wanted) ==> cluster == old(cluster))
        && (reliable ==> (ok <==> KnownConnector(user) && NamesFree(old(cluster), wanted)))
      ensures AsFree(old(cluster), cluster)
    {
      hide OnlyAdds, OursGrounded, UidsRight, ResourcesRight, Complete, OnlyWanted, ResourcesOf, AsFree;
      hide AccountFree, RolesFree, BindingsFree, KnownConnector;
      ghost var before := Now();
      NothingAdded(before);
      AsFreeItself(before.cluster);
      var generated := GenerateRbacResources(user, config, ["default"]);
      if generated.None? {
        return false;
      }
      var r := generated.value;
      WantedLabels(r, config, AccountName(user), GroupsOf(user, config));
      CompleteParts(before.cluster, r);
      ok := CreateServiceAccount(r.saName, r.saLabels);
      AccountWanted(before.cluster, cluster, r);
      if !ok {
        return;
      }
      ghost var now := Now();
      ok := CreateRoles(r, before.cluster);
      AddsTwice(before, now, Now());
      AsFreeTwice(before.cluster, now.cluster, cluster);
      NamesAsFree(before.cluster, now.cluster, r);
      StillThere(now, Now());
      if !ok {
        return;
      }
      NamesAsFree(before.cluster, cluster, r);
      now := Now();
      ok := CreateBindings(r, before.cluster);
      AddsTwice(before, now, Now());
      AsFreeTwice(before.cluster, now.cluster, cluster);
      StillThere(now, Now());
      if ok {
        PartsComplete(cluster, r);
      }
    }

    /** After a success a second call leaves the cluster as it is, whether or not it succeeds. */
    method CreateTwice(user: User, config: Config) returns (first: bool, second: bool, ghost between: Cluster)
      requires Valid()
      modifies this
      ensures Valid() && OnlyAdds(old(Now()), Now())
      ensures Grown(old(cluster), between) && Grown(between, cluster)
      ensures first ==> cluster == between && Complete(cluster, ResourcesOf(user, config, ["default"]))
    {
      hide OursGrounded, UidsRight, Complete, ResourcesOf, Grown;
      ghost var before := Now();
      first := CreateRBAC(user, config);
      ghost var now := Now();
      between := cluster;
      second := CreateRBAC(user, config);
      AddsTwice(before, now, Now());
    }

    /** The loop over the roles; it stops at the first failure. */
    method CreateRoles(r: Resources, ghost first: Cluster) returns (ok: bool)
      requires Valid() && OnlyWanted(first, cluster, r)
      requires forall i :: 0 <= i < |r.clusterRoles| ==> Labelled(r.clusterRoles[i].labels)
      modifies this
      ensures Valid() && OnlyAdds(old(Now()), Now()) && OnlyWanted(first, cluster, r)
      ensures ok ==> forall k :: 0 <= k < |r.clusterRoles| ==> RoleThere(cluster, r.clusterRoles[k].name)
      ensures (forall k :: 0 <= k < |r.clusterRoles| ==> r.clusterRoles[k].name in old(cluster).roles) ==>
        cluster == old(cluster)
      ensures AsFree(old(cluster), cluster)
      ensures reliable ==> (ok <==> RolesFree(old(cluster), r))
    {
      hide OnlyAdds, OursGrounded, UidsRight, RoleThere, Labelled, OnlyWanted, Grown, AsFree, RoleFree;
      ghost var before := Now();
      NothingAdded(before);
      AsFreeItself(cluster);
      var i := 0;
      ok := true;
      while i < |r.clusterRoles|
        invariant 0 <= i <= |r.clusterRoles| && Valid() && OnlyAdds(before, Now()) && OnlyWanted(first, cluster, r)
        invariant forall k :: 0 <= k < i ==> RoleThere(cluster, r.clusterRoles[k].name)
        invariant (forall k :: 0 <= k < |r.clusterRoles| ==> r.clusterRoles[k].name in before.cluster.roles) ==>
          cluster == before.cluster
        invariant ok && AsFree(before.cluster, cluster)
        invariant reliable ==> forall k :: 0 <= k < i ==> RoleFree(before.cluster, r.clusterRoles[k].name)
      {
        ghost var now := Now();
        ok := CreateClusterRole(r.clusterRoles[i]);
        AddsTwice(before, now, Now());
        AddsGrown(now, Now());
        RoleWanted(first, now.cluster, cluster, r, i);
        RoleFreeIn(before.cluster, now.cluster, r.clusterRoles[i].name);
        AsFreeTwice(before.cluster, now.cluster, cluster);
        StillThere(now, Now());
        if !ok {
          return;
        }
        i := i + 1;
      }
    }

    /** The loop over the bindings; it stops at the first failure. */
    method CreateBindings(r: Resources, ghost first: Cluster) returns (ok: bool)
      requires Valid() && OnlyWanted(first, cluster, r)
      requires forall i :: 0 <= i < |r.clusterRoleBindings| ==>
        && Labelled(r.clusterRoleBindings[i].labels)
        && RoleAvailable(r.clusterRoles, r.clusterRoleBindings[i].roleName)
        && r.clusterRoleBindings[i].saName == r.saName
      requires AccountThere(cluster, r.saName)
      requires forall k :: 0 <= k < |r.clusterRoles| ==> RoleThere(cluster, r.clusterRoles[k].name)
      modifies this
      ensures Valid() && OnlyAdds(old(Now()), Now()) && OnlyWanted(first, cluster, r)
      ensures ok ==>
        forall k :: 0 <= k < |r.clusterRoleBindings| ==> BindingThere(cluster, r.clusterRoleBindings[k].name)
      ensures (forall b :: b in r.clusterRoleBindings ==> b.name in old(cluster).bindings) ==>
        cluster == old(cluster)
      ensures AsFree(old(cluster), cluster)
      ensures reliable ==> (ok <==> BindingsFree(old(cluster), r))
    {
      hide OnlyAdds, OursGrounded, UidsRight, RoleThere, BindingThere, Labelled, OnlyWanted, Grown, IsBindingFor;
      hide AsFree, BindingFree, AccountThere;
      ghost var before := Now();
      NothingAdded(before);
      AsFreeItself(cluster);
      var i := 0;
      ok := true;
      while i < |r.clusterRoleBindings|
        invariant 0 <= i <= |r.clusterRoleBindings| && Valid()
        invariant OnlyAdds(before, Now()) && OnlyWanted(first, cluster, r)
        invariant forall k :: 0 <= k < |r.clusterRoles| ==> RoleThere(cluster, r.clusterRoles[k].name)
        invariant forall k :: 0 <= k < i ==> BindingThere(cluster, r.clusterRoleBindings[k].name)
        invariant (forall b :: b in r.clusterRoleBindings ==> b.name in before.cluster.bindings) ==>
          cluster == before.cluster
        invariant ok && AsFree(before.cluster, cluster) && AccountThere(cluster, r.saName)
        invariant reliable ==> forall k :: 0 <= k < i ==> BindingFree(before.cluster, r.clusterRoleBindings[k].name)
      {
        ghost var now := Now();
        ok := CreateClusterRoleBinding(r.clusterRoleBindings[i]);
        AddsTwice(before, now, Now());
        AddsGrown(now, Now());
        BindingWanted(first, now.cluster, cluster, r, i);
        BindingFreeIn(before.cluster, now.cluster, r.clusterRoleBindings[i].name);
        AsFreeTwice(before.cluster, now.cluster, cluster);
        StillThere(now, Now());
        if !ok {
          return;
        }
        i := i + 1;
      }
    }

    /** Deletes a labelled account; the server collects the bindings that it owns. */
    method RemoveServiceAccount(name: string) returns (ok: bool)
      requires Valid()
      modifies this
      ensures Valid() && ours == old(ours)
      ensures ok ==> name in old(cluster).accounts && Labelled(old(cluster).accounts[name].labels)
      ensures reliable && AccountThere(old(cluster), name) ==> ok
      ensures !ok ==> cluster == old(cluster)
      ensures ok ==>
        && cluster.accounts == old(cluster).accounts - {name}
        && cluster.roles == old(cluster).roles
        && forall n :: n in cluster.bindings <==>
             n in old(cluster).bindings &&
             old(cluster).bindings[n].owner != Some(Owner(name, old(cluster).accounts[name].uid))
      ensures forall n :: n in cluster.bindings ==> cluster.bindings[n] == old(cluster).bindings[n]
    {
      var found := GetAndCheckSA(name);
      var answers: bool := *;
      if found.None? || !(answers || reliable) {
        return false;
      }
      var owner := Owner(name, found.value.uid);
      var kept := map n | n in cluster.bindings && cluster.bindings[n].owner != Some(owner) :: cluster.bindings[n];
      cluster := cluster.(accounts := cluster.accounts - {name}, bindings := kept);
      history := history + [cluster];
      ok := true;
    }
  }
}
