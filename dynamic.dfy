/**
 * An in-memory Ansible inventory: hosts with variables, groups of hosts and
 * child groups, and an inventory of groups and top-level hosts, flattened by
 * `ToJson` into the structure an Ansible dynamic-inventory script prints:
 *
 *   { "ungrouped": [...], "_meta": { "hostvars": {...} },
 *     "<group>": { "hosts": [...], "vars": {...}, "children": [...] }, ... }
 *
 * Hostnames, group names and variable maps are immutable values; the lists
 * that the source appends to in place are the mutable fields.
 */
module Dynamic {
  import opened Lookup

  /** A variable value, as JSON can carry it (floating-point numbers aside). */
  datatype Value =
    | Null
    | Bool(b: bool)
    | Int(i: int)
    | Str(s: string)
    | List(items: seq<Value>)
    | Dict(fields: map<string, Value>)

  /** host_vars / group_vars. */
  type Vars = map<string, Value>

  /** A managed node: a hostname and its variables. */
  class Host {
    const hostname: string
    const variables: Vars

    constructor (hostname: string, variables: Vars)
      ensures this.hostname == hostname && GetVariables() == variables
    {
      this.hostname := hostname;
      this.variables := variables;
    }

    /** A host built without variables gets an empty map of its own. */
    constructor Named(hostname: string)
      ensures this.hostname == hostname && GetVariables() == map[]
    {
      this.hostname := hostname;
      this.variables := map[];
    }

    function GetVariables(): Vars {
      variables
    }
  }

  function Hostname(h: Host): string { h.hostname }

  /** A named group of hosts and child groups, with its own variables. */
  class Group {
    const name: string
    const variables: Vars
    var hosts: seq<Host>
    var children: seq<Group>

    /** The group invariant: no host is a member twice. */
    ghost predicate Valid()
      reads this
    {
      Distinct(hosts)
    }

    constructor (name: string, variables: Vars)
      ensures this.name == name && this.variables == variables
      ensures hosts == [] && children == [] && Valid()
    {
      this.name := name;
      this.variables := variables;
      hosts := [];
      children := [];
    }

    /** A group built without variables gets an empty map of its own. */
    constructor Named(name: string)
      ensures this.name == name && variables == map[]
      ensures hosts == [] && children == [] && Valid()
    {
      this.name := name;
      variables := map[];
      hosts := [];
      children := [];
    }

    predicate HasChildren(group: Group)
      reads this
    {
      group in children
    }

    predicate HasChildrens()
      reads this
    {
      |children| > 0
    }

    /** The children list itself (the source hands out the live list). */
    function GetChildrens(): seq<Group>
      reads this
    {
      children
    }

    /** Appends unconditionally: neither duplicates nor cycles are checked. */
    method AddChildren(group: Group)
      modifies this`children
      ensures hosts == old(hosts)
      ensures children == old(children) + [group]
      ensures HasChildren(group) && HasChildrens()
    {
      children := children + [group];
    }

    predicate HasHost(host: Host)
      reads this
    {
      host in hosts
    }

    predicate HasHosts()
      reads this
    {
      |hosts| > 0
    }

    /** The host list itself (the source hands out the live list). */
    function GetHosts(): seq<Host>
      reads this
    {
      hosts
    }

    /** Adds `host` unless that very object is already a member; reports whether it did. */
    method AddHost(host: Host) returns (added: bool)
      modifies this`hosts
      ensures children == old(children)
      ensures added <==> !old(HasHost(host))
      ensures hosts == if added then old(hosts) + [host] else old(hosts)
      ensures HasHost(host) && HasHosts()
      ensures Valid() <==> old(Valid())
      ensures old(Valid()) ==> multiset(hosts)[host] == 1
    {
      DistinctAppend(hosts, host);
      if !HasHost(host) {
        hosts := hosts + [host];
        added := true;
      } else {
        added := false;
      }
      if old(Valid()) {
        DistinctOccursOnce(hosts, host);
      }
    }

    /** The group's state as a value, for the serialisation specification. */
    function View(): GroupView
      reads this
    {
      GroupView(name, variables, hosts, children)
    }
  }

  function GroupName(g: Group): string { g.name }

  /** The names that a group entry would overwrite in the top-level result. */
  predicate Reserved(name: string) {
    name == "ungrouped" || name == "_meta"
  }

  /** Groups (unique by name) and top-level, ungrouped hosts (unique by hostname). */
  class Inventory {
    const name: string
    var groups: seq<Group>
    var hosts: seq<Host>

    /** The inventory invariant, kept by AddGroup and AddHosts. */
    ghost predicate Valid()
      reads this
    {
      KeysDistinct(groups, GroupName) && KeysDistinct(hosts, Hostname)
    }

    /** No group that ToJson emits is named like a baseline key. */
    ghost predicate NoReservedEntries()
      reads this`groups, groups
    {
      forall i :: 0 <= i < |groups| && (groups[i].hosts != [] || groups[i].children != []) ==>
        !Reserved(groups[i].name)
    }

    constructor (name: string)
      ensures this.name == name && groups == [] && hosts == [] && Valid()
    {
      this.name := name;
      groups := [];
      hosts := [];
    }

    /** One group, with a name of its own, keeps every condition ToJson relies on. */
    lemma SingleGroupEntries()
      requires |groups| == 1 && !Reserved(groups[0].name)
      ensures KeysDistinct(groups, GroupName) && NoReservedEntries()
    {
    }

    /** Linear search, in insertion order, for a group by name. */
    method SearchGroup(groupName: string) returns (r: Option<Group>)
      ensures r == FirstWithKey(groups, GroupName, groupName)
    {
      for i := 0 to |groups|
        invariant forall j :: 0 <= j < i ==> groups[j].name != groupName
      {
        if groups[i].name == groupName {
          FirstWithKeyAt(groups, GroupName, groupName, i);
          return Some(groups[i]);
        }
      }
      return None;
    }

    /** Linear search, in insertion order, for a top-level host by hostname. */
    method SearchHost(hostname: string) returns (r: Option<Host>)
      ensures r == FirstWithKey(hosts, Hostname, hostname)
    {
      for i := 0 to |hosts|
        invariant forall j :: 0 <= j < i ==> hosts[j].hostname != hostname
      {
        if hosts[i].hostname == hostname {
          FirstWithKeyAt(hosts, Hostname, hostname, i);
          return Some(hosts[i]);
        }
      }
      return None;
    }

    /** Appends `group` unless a group of the same name is registered; a duplicate is ignored. */
    method AddGroup(group: Group)
      modifies this`groups
      ensures hosts == old(hosts)
      ensures groups == if old(FirstWithKey(groups, GroupName, group.name)).None?
                        then old(groups) + [group] else old(groups)
      ensures FirstWithKey(groups, GroupName, group.name) ==
                if old(FirstWithKey(groups, GroupName, group.name)).Some?
                then old(FirstWithKey(groups, GroupName, group.name)) else Some(group)
      ensures Valid() <==> old(Valid())
    {
      var found := SearchGroup(group.name);
      KeysDistinctAppend(groups, group, GroupName);
      FirstWithKeyAppend(groups, group, GroupName, group.name);
      if found.None? {
        groups := groups + [group];
      }
    }

    /** Appends `host` to the top-level hosts unless one of the same hostname is there. */
    method AddHosts(host: Host)
      modifies this`hosts
      ensures groups == old(groups)
      ensures hosts == if old(FirstWithKey(hosts, Hostname, host.hostname)).None?
                       then old(hosts) + [host] else old(hosts)
      ensures FirstWithKey(hosts, Hostname, host.hostname) ==
                if old(FirstWithKey(hosts, Hostname, host.hostname)).Some?
                then old(FirstWithKey(hosts, Hostname, host.hostname)) else Some(host)
      ensures Valid() <==> old(Valid())
    {
      var found := SearchHost(host.hostname);
      KeysDistinctAppend(hosts, host, Hostname);
      FirstWithKeyAppend(hosts, host, Hostname, host.hostname);
      if found.None? {
        hosts := hosts + [host];
      }
    }

    /** The baseline every serialisation starts from: what an empty inventory serialises to. */
    static function GetEmptyInventory(): (r: Output)
      ensures r == Serialize([], [])
    {
      Output([], map[], [])
    }

    /** Serialising changes nothing, so serialising again gives the same result. */
    method ToJsonTwice() returns (first: Output, second: Output)
      requires KeysDistinct(groups, GroupName)
      requires NoReservedEntries()
      ensures first == second == Serialize(Views(groups), hosts)
    {
      first := ToJson();
      second := ToJson();
    }

    /**
     * Builds the dynamic-inventory structure: an entry for every group with
     * hosts or children, the top-level hostnames under "ungrouped", and every
     * visited host's variables under "_meta"/"hostvars", the last write winning.
     */
    method ToJson() returns (res: Output)
      requires KeysDistinct(groups, GroupName)
      requires NoReservedEntries()
      ensures res == Serialize(Views(groups), hosts)
    {
      res := GetEmptyInventory();
      var hostvars, entries := VisitGroups(groups);
      var ungrouped;
      ungrouped, hostvars := VisitHosts(hosts, hostvars);
      RecordAppend(map[], GroupHosts(Views(groups)), hosts);
      assert res.ungrouped + ungrouped == ungrouped;
      res := Output(res.ungrouped + ungrouped, hostvars, entries);
    }

    /**
     * The loop over the groups, starting from the empty baseline: an entry
     * for every group with hosts or children, and the hostvars of the
     * groups' hosts, in group order.
     */
    static method VisitGroups(gs: seq<Group>) returns (hostvars: map<string, Vars>, entries: seq<GroupEntry>)
      ensures hostvars == Record(map[], GroupHosts(Views(gs)))
      ensures entries == Entries(Views(gs))
    {
      ghost var vs := Views(gs);
      hostvars, entries := map[], [];
      for i := 0 to |gs|
        invariant hostvars == Record(map[], GroupHosts(vs[..i]))
        invariant entries == Entries(vs[..i])
      {
        var group := gs[i];
        if group.HasHosts() || group.HasChildrens() {
          var hostnames := [];
          if group.HasHosts() {
            hostnames, hostvars := VisitHosts(group.GetHosts(), hostvars);
          }
          var childNames := [];
          if group.HasChildrens() {
            childNames := ChildNames(group.GetChildrens());
          }
          entries := entries + [GroupEntry(group.name, hostnames, group.variables, childNames)];
        }
        SerializeGroupStep(vs, i);
      }
      assert vs[..|gs|] == vs;
    }

    /**
     * The loop over a run of hosts: their hostnames in order, and each host's
     * variables written under its hostname, a later write replacing an earlier one.
     */
    static method VisitHosts(members: seq<Host>, hostvars: map<string, Vars>)
      returns (hostnames: seq<string>, recorded: map<string, Vars>)
      ensures hostnames == KeysOf(members, Hostname)
      ensures recorded == Record(hostvars, members)
    {
      hostnames, recorded := [], hostvars;
      for j := 0 to |members|
        invariant hostnames == KeysOf(members[..j], Hostname)
        invariant recorded == Record(hostvars, members[..j])
      {
        var host := members[j];
        assert members[..j + 1] == members[..j] + [host];
        hostnames := hostnames + [host.hostname];
        recorded := recorded[host.hostname := host.GetVariables()];
      }
      assert members[..|members|] == members;
    }

    /** The loop over a group's children: their names, in order. */
    static method ChildNames(childs: seq<Group>) returns (names: seq<string>)
      ensures names == KeysOf(childs, GroupName)
    {
      names := [];
      for j := 0 to |childs|
        invariant names == KeysOf(childs[..j], GroupName)
      {
        assert childs[..j + 1] == childs[..j] + [childs[j]];
        names := names + [childs[j].name];
      }
      assert childs[..|childs|] == childs;
    }
  }

  // ---------------------------------------------------------------------
  // The serialised structure and its specification
  // ---------------------------------------------------------------------

  /** One group's entry: `{"hosts": [...], "vars": {...}, "children": [...]}` under its name. */
  datatype GroupEntry = GroupEntry(name: string, hosts: seq<string>, vars: Vars, children: seq<string>)

  function EntryName(e: GroupEntry): string { e.name }

  /**
   * The whole result: "ungrouped", "_meta"/"hostvars", then the group
   * entries in the order their keys appear in the result.
   */
  datatype Output = Output(ungrouped: seq<string>, hostvars: map<string, Vars>, groups: seq<GroupEntry>)

  /** A group's state at the time of serialisation. */
  datatype GroupView = GroupView(name: string, variables: Vars, hosts: seq<Host>, children: seq<Group>)

  function ViewName(v: GroupView): string { v.name }

  function Views(gs: seq<Group>): (r: seq<GroupView>)
    reads gs
    ensures |r| == |gs| && forall i :: 0 <= i < |gs| ==> r[i] == gs[i].View()
  {
    if gs == [] then [] else Views(gs[..|gs| - 1]) + [gs[|gs| - 1].View()]
  }

  /** Whether a group appears in the result at all. */
  predicate Emitted(v: GroupView) {
    v.hosts != [] || v.children != []
  }

  function EntryOf(v: GroupView): GroupEntry {
    GroupEntry(v.name, KeysOf(v.hosts, Hostname), v.variables, KeysOf(v.children, GroupName))
  }

  /** The entries of the emitted groups, in group order. */
  function Entries(vs: seq<GroupView>): seq<GroupEntry> {
    if vs == [] then []
    else
      var last := vs[|vs| - 1];
      Entries(vs[..|vs| - 1]) + if Emitted(last) then [EntryOf(last)] else []
  }

  /** The hosts of all groups, group by group, in the order serialisation visits them. */
  function GroupHosts(vs: seq<GroupView>): seq<Host> {
    if vs == [] then [] else GroupHosts(vs[..|vs| - 1]) + vs[|vs| - 1].hosts
  }

  /** Writes every host's variables under its hostname, in order; a later write replaces an earlier one. */
  function Record(hv: map<string, Vars>, hs: seq<Host>): map<string, Vars> {
    if hs == [] then hv
    else
      var last := hs[|hs| - 1];
      Record(hv, hs[..|hs| - 1])[last.hostname := last.variables]
  }

  /** The structure ToJson builds from the groups' state and the top-level hosts. */
  function Serialize(vs: seq<GroupView>, hs: seq<Host>): Output {
    Output(KeysOf(hs, Hostname), Record(map[], GroupHosts(vs) + hs), Entries(vs))
  }

  // ---------------------------------------------------------------------
  // Properties of the specification
  // ---------------------------------------------------------------------

  /** One more group: its entry (if emitted) is appended and its hosts are recorded after the earlier ones. */
  lemma SerializeGroupStep(vs: seq<GroupView>, i: nat)
    requires i < |vs|
    ensures Entries(vs[..i + 1]) == Entries(vs[..i]) + if Emitted(vs[i]) then [EntryOf(vs[i])] else []
    ensures Record(map[], GroupHosts(vs[..i + 1])) == Record(Record(map[], GroupHosts(vs[..i])), vs[i].hosts)
  {
    assert vs[..i + 1][..i] == vs[..i];
    RecordAppend(map[], GroupHosts(vs[..i]), vs[i].hosts);
  }

  /** Recording two runs of hosts one after the other is recording their concatenation. */
  lemma {:induction false} RecordAppend(hv: map<string, Vars>, a: seq<Host>, b: seq<Host>)
    ensures Record(hv, a + b) == Record(Record(hv, a), b)
  {
    if b == [] {
      assert a + b == a;
    } else {
      var n := |b| - 1;
      assert (a + b)[..|a + b| - 1] == a + b[..n];
      RecordAppend(hv, a, b[..n]);
    }
  }

  /** The recorded hostnames are exactly the earlier keys plus the hostnames visited. */
  lemma {:induction false} RecordKeys(hv: map<string, Vars>, hs: seq<Host>)
    ensures forall n :: n in Record(hv, hs) <==> n in hv || n in KeysOf(hs, Hostname)
  {
    if hs != [] {
      var n := |hs| - 1;
      RecordKeys(hv, hs[..n]);
      assert KeysOf(hs, Hostname) == KeysOf(hs[..n], Hostname) + [hs[n].hostname];
    }
  }

  /** A hostname no visited host carries keeps its earlier entry, or stays absent. */
  lemma {:induction false} RecordUntouched(hv: map<string, Vars>, hs: seq<Host>, name: string)
    requires name !in KeysOf(hs, Hostname)
    ensures name in Record(hv, hs) <==> name in hv
    ensures name in hv ==> Record(hv, hs)[name] == hv[name]
  {
    if hs != [] {
      var n := |hs| - 1;
      assert KeysOf(hs, Hostname) == KeysOf(hs[..n], Hostname) + [hs[n].hostname];
      RecordUntouched(hv, hs[..n], name);
    }
  }

  /** Last writer wins: a hostname maps to the variables of the last visited host that carries it. */
  lemma {:induction false} RecordLast(hv: map<string, Vars>, hs: seq<Host>, i: nat)
    requires i < |hs|
    requires forall j :: i < j < |hs| ==> hs[j].hostname != hs[i].hostname
    ensures hs[i].hostname in Record(hv, hs)
    ensures Record(hv, hs)[hs[i].hostname] == hs[i].variables
  {
    var n := |hs| - 1;
    if i < n {
      RecordLast(hv, hs[..n], i);
    }
  }

  lemma {:induction false} GroupHostsAppend(a: seq<GroupView>, b: seq<GroupView>)
    ensures GroupHosts(a + b) == GroupHosts(a) + GroupHosts(b)
  {
    if b == [] {
      assert a + b == a;
    } else {
      var n := |b| - 1;
      assert (a + b)[..|a + b| - 1] == a + b[..n];
      GroupHostsAppend(a, b[..n]);
    }
  }

  /** Where the k-th visited group host comes from: host `j` of group `i`. */
  lemma {:induction false} GroupHostSource(vs: seq<GroupView>, k: nat) returns (i: nat, j: nat)
    requires k < |GroupHosts(vs)|
    ensures i < |vs| && j < |vs[i].hosts| && GroupHosts(vs)[k] == vs[i].hosts[j]
  {
    var n := |vs| - 1;
    var init := GroupHosts(vs[..n]);
    assert GroupHosts(vs) == init + vs[n].hosts;
    if k < |init| {
      i, j := GroupHostSource(vs[..n], k);
    } else {
      i, j := n, k - |init|;
    }
  }

  /** Every host of every group is visited. */
  lemma {:induction false} GroupHostVisited(vs: seq<GroupView>, i: nat, j: nat) returns (k: nat)
    requires i < |vs| && j < |vs[i].hosts|
    ensures k < |GroupHosts(vs)| && GroupHosts(vs)[k] == vs[i].hosts[j]
  {
    var n := |vs| - 1;
    var init := GroupHosts(vs[..n]);
    assert GroupHosts(vs) == init + vs[n].hosts;
    if i < n {
      k := GroupHostVisited(vs[..n], i, j);
    } else {
      k := |init| + j;
    }
  }

  /** The groups before `x`, group `x`, and the groups after it are visited in that order. */
  lemma GroupHostsSplit(before: seq<GroupView>, x: GroupView, after: seq<GroupView>)
    ensures GroupHosts(before + ([x] + after)) == GroupHosts(before) + x.hosts + GroupHosts(after)
  {
    GroupHostsAppend(before, [x] + after);
    GroupHostsFront(x, after);
  }

  lemma {:induction false} GroupHostsFront(x: GroupView, after: seq<GroupView>)
    ensures GroupHosts([x] + after) == x.hosts + GroupHosts(after)
  {
    GroupHostsAppend([x], after);
    assert [x][..0] == [];
  }

  /**
   * The hostvars domain is exactly the hostnames of the groups' hosts plus
   * the top-level hostnames.
   */
  lemma HostvarsDomain(vs: seq<GroupView>, hs: seq<Host>, name: string)
    ensures name in Serialize(vs, hs).hostvars <==>
              (exists i, j :: 0 <= i < |vs| && 0 <= j < |vs[i].hosts| && vs[i].hosts[j].hostname == name) ||
              (exists k :: 0 <= k < |hs| && hs[k].hostname == name)
  {
    var gh := GroupHosts(vs);
    var all := gh + hs;
    var names := KeysOf(all, Hostname);
    RecordKeys(map[], all);
    if name in names {
      var k :| 0 <= k < |names| && names[k] == name;
      if k < |gh| {
        var i, j := GroupHostSource(vs, k);
        assert vs[i].hosts[j].hostname == name;
      } else {
        assert hs[k - |gh|].hostname == name;
      }
    }
    if exists i, j :: 0 <= i < |vs| && 0 <= j < |vs[i].hosts| && vs[i].hosts[j].hostname == name {
      var i, j :| 0 <= i < |vs| && 0 <= j < |vs[i].hosts| && vs[i].hosts[j].hostname == name;
      var k := GroupHostVisited(vs, i, j);
      assert names[k] == name;
    }
    if exists k :: 0 <= k < |hs| && hs[k].hostname == name {
      var k :| 0 <= k < |hs| && hs[k].hostname == name;
      assert names[|gh| + k] == name;
    }
  }

  /** Top-level hosts are written last: the last top-level host of a hostname decides its hostvars. */
  lemma TopLevelHostvars(vs: seq<GroupView>, hs: seq<Host>, k: nat)
    requires k < |hs|
    requires forall j :: k < j < |hs| ==> hs[j].hostname != hs[k].hostname
    ensures hs[k].hostname in Serialize(vs, hs).hostvars
    ensures Serialize(vs, hs).hostvars[hs[k].hostname] == hs[k].variables
  {
    var gh := GroupHosts(vs);
    RecordLast(map[], gh + hs, |gh| + k);
  }

  /**
   * Across groups the last writer wins too: host `j` of group `i` decides the
   * hostvars of its hostname when no later host of that group, no later group
   * and no top-level host carries the same hostname.
   */
  lemma GroupHostvars(vs: seq<GroupView>, hs: seq<Host>, i: nat, j: nat)
    requires i < |vs| && j < |vs[i].hosts|
    requires forall j' :: j < j' < |vs[i].hosts| ==> vs[i].hosts[j'].hostname != vs[i].hosts[j].hostname
    requires forall i', j' :: i < i' < |vs| && 0 <= j' < |vs[i'].hosts| ==>
               vs[i'].hosts[j'].hostname != vs[i].hosts[j].hostname
    requires forall k :: 0 <= k < |hs| ==> hs[k].hostname != vs[i].hosts[j].hostname
    ensures vs[i].hosts[j].hostname in Serialize(vs, hs).hostvars
    ensures Serialize(vs, hs).hostvars[vs[i].hosts[j].hostname] == vs[i].hosts[j].variables
  {
    var h := vs[i].hosts[j];
    var before, after := vs[..i], vs[i + 1..];
    var rest := GroupHosts(after) + hs;
    SplitAt(vs, i);
    GroupHostsSplit(before, vs[i], after);
    assert GroupHosts(vs) + hs == GroupHosts(before) + vs[i].hosts + rest;
    RecordAppend(map[], GroupHosts(before) + vs[i].hosts, rest);
    RecordAppend(map[], GroupHosts(before), vs[i].hosts);
    var m0 := Record(map[], GroupHosts(before));
    RecordLast(m0, vs[i].hosts, j);
    LaterHostsAvoid(vs, hs, i, h.hostname);
    RecordUntouched(Record(m0, vs[i].hosts), rest, h.hostname);
  }

  /** A hostname that no later group and no top-level host carries is not written after group `i`. */
  lemma LaterHostsAvoid(vs: seq<GroupView>, hs: seq<Host>, i: nat, name: string)
    requires i < |vs|
    requires forall i', j' :: i < i' < |vs| && 0 <= j' < |vs[i'].hosts| ==> vs[i'].hosts[j'].hostname != name
    requires forall k :: 0 <= k < |hs| ==> hs[k].hostname != name
    ensures name !in KeysOf(GroupHosts(vs[i + 1..]) + hs, Hostname)
  {
    var after := vs[i + 1..];
    var rest := GroupHosts(after) + hs;
    forall k | 0 <= k < |rest| ensures rest[k].hostname != name {
      if k < |GroupHosts(after)| {
        var i', j' := GroupHostSource(after, k);
        assert after[i'] == vs[i + 1 + i'];
      } else {
        assert rest[k] == hs[k - |GroupHosts(after)|];
      }
    }
  }

  /** Group order is preserved: the entries of a concatenation are the concatenated entries. */
  lemma {:induction false} EntriesAppend(a: seq<GroupView>, b: seq<GroupView>)
    ensures Entries(a + b) == Entries(a) + Entries(b)
  {
    if b == [] {
      assert a + b == a;
    } else {
      var n := |b| - 1;
      assert (a + b)[..|a + b| - 1] == a + b[..n];
      EntriesAppend(a, b[..n]);
    }
  }

  /**
   * Entry `k` is the entry of an emitted group `i`, and exactly `k` entries
   * come from the groups before it.
   */
  lemma {:induction false} EntrySource(vs: seq<GroupView>, k: nat) returns (i: nat)
    requires k < |Entries(vs)|
    ensures i < |vs| && Emitted(vs[i]) && Entries(vs)[k] == EntryOf(vs[i])
    ensures |Entries(vs[..i])| == k
  {
    var n := |vs| - 1;
    var init := Entries(vs[..n]);
    if k < |init| {
      i := EntrySource(vs[..n], k);
      assert vs[..n][..i] == vs[..i];
    } else {
      i := n;
    }
  }

  /** Every emitted group has an entry. */
  lemma {:induction false} EntryOfEmitted(vs: seq<GroupView>, i: nat) returns (k: nat)
    requires i < |vs| && Emitted(vs[i])
    ensures k < |Entries(vs)| && Entries(vs)[k] == EntryOf(vs[i])
  {
    var n := |vs| - 1;
    var init := Entries(vs[..n]);
    if i < n {
      k := EntryOfEmitted(vs[..n], i);
    } else {
      k := |init|;
    }
  }

  /**
   * With distinct group names, a group has an entry under its name iff it has
   * hosts or children, and that entry lists its hostnames, variables and
   * child names.
   */
  lemma EntryPresence(vs: seq<GroupView>, i: nat)
    requires KeysDistinct(vs, ViewName)
    requires i < |vs|
    ensures (exists k :: 0 <= k < |Entries(vs)| && Entries(vs)[k].name == vs[i].name) <==> Emitted(vs[i])
    ensures forall k :: 0 <= k < |Entries(vs)| && Entries(vs)[k].name == vs[i].name ==>
              Entries(vs)[k] == EntryOf(vs[i])
  {
    var es := Entries(vs);
    forall k | 0 <= k < |es| && es[k].name == vs[i].name ensures es[k] == EntryOf(vs[i]) && Emitted(vs[i]) {
      var i' := EntrySource(vs, k);
      assert ViewName(vs[i']) == ViewName(vs[i]);
      assert i' == i;
    }
    if Emitted(vs[i]) {
      var k := EntryOfEmitted(vs, i);
      assert es[k].name == vs[i].name;
    }
  }

  /**
   * The top-level keys of the result do not clash: with distinct group names
   * no entry overwrites another, and no entry is named like a baseline key.
   */
  lemma TopLevelKeysDistinct(vs: seq<GroupView>)
    requires KeysDistinct(vs, ViewName)
    requires forall i :: 0 <= i < |vs| && Emitted(vs[i]) ==> !Reserved(vs[i].name)
    ensures KeysDistinct(Entries(vs), EntryName)
    ensures forall k :: 0 <= k < |Entries(vs)| ==> !Reserved(Entries(vs)[k].name)
  {
    var es := Entries(vs);
    forall a, b | 0 <= a < b < |es| ensures EntryName(es[a]) != EntryName(es[b]) {
      var ia := EntrySource(vs, a);
      var ib := EntrySource(vs, b);
      assert ViewName(vs[ia]) == EntryName(es[a]) && ViewName(vs[ib]) == EntryName(es[b]);
    }
    forall k | 0 <= k < |es| ensures !Reserved(es[k].name) {
      var i := EntrySource(vs, k);
      assert es[k].name == vs[i].name;
    }
  }

  // ---------------------------------------------------------------------
  // A client: the round trip of a small inventory
  // ---------------------------------------------------------------------

  const WebVars: Vars := map["a" := Int(1)]
  const H1Vars: Vars := map["x" := Int(1)]
  const H2Vars: Vars := map["y" := Int(2)]
  /** The entry of group "web" holding h1. */
  const WebEntry := GroupEntry("web", ["h1"], WebVars, [])
  /** The inventory with group "web" holding h1 and no top-level hosts. */
  const FirstOutput := Output([], map["h1" := H1Vars], [WebEntry])
  /** The same after adding top-level host h2. */
  const SecondOutput := Output(["h2"], map["h1" := H1Vars, "h2" := H2Vars], [WebEntry])

  /** Group "web" {"a": 1} holding host "h1" {"x": 1} contributes its entry and visits h1. */
  lemma WebGroup(web: GroupView, h1: Host)
    requires web == GroupView("web", WebVars, [h1], [])
    requires h1.hostname == "h1"
    ensures Entries([web]) == [WebEntry]
    ensures GroupHosts([web]) == [h1]
  {
    assert [web][..0] == [];
    assert KeysOf([h1], Hostname) == ["h1"] by {
      assert [h1][..0] == [];
    }
    var noChildren: seq<Group> := [];
    assert KeysOf(noChildren, GroupName) == [];
  }

  /** That group alone serialises to its entry and h1's hostvars, with nothing ungrouped. */
  lemma WebAlone(web: GroupView, h1: Host)
    requires web == GroupView("web", WebVars, [h1], [])
    requires h1.hostname == "h1" && h1.variables == H1Vars
    ensures Serialize([web], []) == FirstOutput
  {
    WebGroup(web, h1);
    var noHosts: seq<Host> := [];
    assert KeysOf(noHosts, Hostname) == [];
    assert GroupHosts([web]) + noHosts == [h1];
    assert Record(map[], [h1]) == map["h1" := H1Vars] by {
      assert [h1][..0] == [];
    }
  }

  /**
   * Adding top-level host "h2" {"y": 2} adds it under "ungrouped" and
   * "hostvars" and leaves the entry alone.
   */
  lemma WebWithH2(web: GroupView, h1: Host, h2: Host)
    requires web == GroupView("web", WebVars, [h1], [])
    requires h1.hostname == "h1" && h1.variables == H1Vars
    requires h2.hostname == "h2" && h2.variables == H2Vars
    ensures Serialize([web], [h2]) == SecondOutput
  {
    WebGroup(web, h1);
    assert KeysOf([h2], Hostname) == ["h2"] by {
      assert [h2][..0] == [];
    }
    assert GroupHosts([web]) == [h1];
    assert [h1] + [h2] == [h1, h2];
    assert Record(map[], [h1, h2]) == map["h1" := H1Vars, "h2" := H2Vars] by {
      assert [h1, h2][..1] == [h1];
      assert [h1][..0] == [];
      assert Record(map[], [h1]) == map["h1" := H1Vars];
    }
  }

  /** Group "web" holding h1; adding h1 a second time is refused. */
  method NewWebGroup() returns (web: Group, h1: Host, readded: bool)
    ensures fresh(web)
    ensures web.View() == GroupView("web", WebVars, [h1], [])
    ensures h1.hostname == "h1" && h1.variables == H1Vars
    ensures !readded
  {
    web := new Group("web", WebVars);
    h1 := new Host("h1", H1Vars);
    var added := web.AddHost(h1);
    assert web.hosts == [h1];
    readded := web.AddHost(h1);
  }

  /** Registers the "web" group in a new inventory. */
  method NewWebInventory() returns (inventory: Inventory, h1: Host, readded: bool)
    ensures fresh(inventory) && inventory.hosts == [] && |inventory.groups| == 1
    ensures inventory.groups[0].View() == GroupView("web", WebVars, [h1], [])
    ensures h1.hostname == "h1" && h1.variables == H1Vars
    ensures KeysDistinct(inventory.groups, GroupName) && inventory.NoReservedEntries()
    ensures !readded
  {
    var web;
    web, h1, readded := NewWebGroup();
    inventory := new Inventory("example");
    inventory.AddGroup(web);
    assert inventory.groups == [web];
    inventory.SingleGroupEntries();
  }

  /** Adds top-level host h2 to the "web" inventory; the group is untouched. */
  method AddH2(inventory: Inventory) returns (h2: Host)
    requires inventory.hosts == []
    modifies inventory`hosts
    ensures inventory.hosts == [h2] && inventory.groups == old(inventory.groups)
    ensures h2.hostname == "h2" && h2.variables == H2Vars
  {
    h2 := new Host("h2", H2Vars);
    inventory.AddHosts(h2);
  }

  /**
   * Serialises the "web" inventory, adds top-level host h2 and serialises
   * it again: h2 appears under "ungrouped" and "hostvars", the entry is unchanged.
   */
  method WebScenario() returns (readded: bool, first: Output, second: Output)
    ensures !readded
    ensures first == FirstOutput
    ensures second == SecondOutput
  {
    var inventory, h1;
    inventory, h1, readded := NewWebInventory();
    ghost var web := inventory.groups[0];
    ghost var view := web.View();
    assert inventory.groups == [web];
    first := inventory.ToJson();
    var h2 := AddH2(inventory);
    WebAlone(view, h1);
    WebWithH2(view, h1, h2);
    assert inventory.groups == [web] && web.View() == view;
    inventory.SingleGroupEntries();
    assert Views(inventory.groups) == [view];
    second := inventory.ToJson();
  }
}
