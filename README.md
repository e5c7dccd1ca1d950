# Ansible dynamic inventory, modelled in Dafny

This project models `dynamic.py`, a small library for Ansible dynamic-inventory scripts. The library has three classes:

- `Host` is a hostname with its `host_vars`.
- `Group` is a named group with `group_vars`, a list of member hosts and a list of child groups.
- `Inventory` holds the groups, unique by name, and the top-level ("ungrouped") hosts, unique by hostname.

`Inventory.toJSON` flattens an inventory into the structure Ansible expects from a dynamic-inventory script:

    { "ungrouped": [...], "_meta": { "hostvars": {...} },
      "<group>": { "hosts": [...], "vars": {...}, "children": [...] }, ... }

The code is split across two files:

- `lookup.dfy` (module `Lookup`) holds sequence helpers:
  - `KeysOf` projects a key out of every element.
  - `FirstWithKey` is a first-match lookup in insertion order.
  - `KeysDistinct` and `Distinct` are the two "no duplicates" conditions, by key and by identity.
  - Lemmas describe how these behave when one element is appended.
- `dynamic.dfy` (module `Dynamic`) holds the rest:
  - The classes are Dafny classes. Hostnames, group names and variable maps are `const` values. The lists the source appends to in place are mutable `seq` fields, and each mutating method states its new state and what it leaves unchanged.
  - `ToJson` is imperative, like the source's loops. It is proved equal to a specification function `Serialize` of the groups' state (`Views`) and the top-level hosts. The properties of the result are then proved as lemmas about `Serialize`.
  - A small client builds an example inventory through the classes and serialises it. That client is `NewWebGroup`, `NewWebInventory`, `AddH2` and `WebScenario`. Its expected outputs are proved in `WebAlone` and `WebWithH2`.

The result of `toJSON` is modelled by the datatype `Output`:

- `ungrouped` is the list of top-level hostnames.
- `hostvars` is a map from hostname to variables.
- `groups` holds the group entries, in the order their keys first appear in the result dictionary.

Variable values are the datatype `Value` (null, booleans, integers, strings, lists and string-keyed dictionaries).

## Model

| member | source | states |
|---|---|---|
| Lookup.KeysOf | dynamic.py:177-178 | the collected names are the elements' keys, one per element, in order (used for "ungrouped", a group's "hosts" and "children") |
| Lookup.FirstWithKey | dynamic.py:104-124 | the lookup finds nothing iff no element has the key; otherwise it returns an element with that key that no earlier element shares |
| Lookup.FirstWithKeyAt | dynamic.py:110-113 | the search returns the element at the first index whose key matches |
| Lookup.FirstWithKeyAppend | dynamic.py:126-142 | appending an element never changes an existing match; it can only turn a miss on its own key into a hit on itself |
| Lookup.KeysDistinctAppend | dynamic.py:132-133 | appending keeps keys distinct iff they were distinct and the new key is absent |
| Lookup.DistinctAppend | dynamic.py:72-73 | appending keeps a list free of duplicates iff it was and the element is absent |
| Lookup.DistinctOccursOnce | dynamic.py:71-75 | in a duplicate-free list every member occurs exactly once |
| Dynamic.Host.constructor | dynamic.py:11-22 | a host keeps the given hostname, and get_variables returns the given variables |
| Dynamic.Host.Named | dynamic.py:11-19 | a host built without variables has an empty variable map |
| Dynamic.Group.constructor | dynamic.py:35-45 | a new group has the given name and variables, no hosts and no children |
| Dynamic.Group.Named | dynamic.py:35-45 | a group built without variables has an empty map, no hosts and no children |
| Dynamic.Group.AddChildren | dynamic.py:48-60 | the child is always appended, duplicates included, so afterwards has_children holds for it and has_childrens holds; the hosts are unchanged |
| Dynamic.Group.AddHost | dynamic.py:62-75 | appends iff has_host was false for that host object and returns whether it did; afterwards has_host holds for it and has_hosts holds, so toJSON gives the group an entry; the children are unchanged; a duplicate-free host list stays duplicate-free, with the host present exactly once |
| Dynamic.Inventory.constructor | dynamic.py:95-102 | a new inventory has no groups and no hosts, so its invariant holds |
| Dynamic.Inventory.SearchGroup | dynamic.py:104-113 | returns the first group with that name in insertion order, or None (the source's False) iff no group has it |
| Dynamic.Inventory.SearchHost | dynamic.py:115-124 | returns the first top-level host with that hostname, or None iff none has it |
| Dynamic.Inventory.AddGroup | dynamic.py:126-133 | appends iff no group has the name; after a duplicate add the search still finds the original; distinct group names are preserved; the hosts are unchanged |
| Dynamic.Inventory.AddHosts | dynamic.py:135-142 | appends iff no top-level host has the hostname; after a duplicate add the search still finds the original; distinct hostnames are preserved; the groups are unchanged |
| Dynamic.Inventory.GetEmptyInventory | dynamic.py:145-151 | the baseline is what an inventory without groups or hosts serialises to |
| Dynamic.Inventory.ToJson | dynamic.py:154-181 | the result is the serialisation of the groups' current state and the top-level hosts |
| Dynamic.Inventory.VisitGroups | dynamic.py:161-174 | the loop over the groups yields the entries of the groups with hosts or children, in group order, and the hostvars of the groups' hosts written in visiting order |
| Dynamic.Inventory.ToJsonTwice | dynamic.py:154-181 | serialising changes nothing, so two serialisations in a row are equal |
| Dynamic.Inventory.VisitHosts | dynamic.py:169-171 | the loop over hosts collects their hostnames in order and writes each host's variables under its hostname, later writes replacing earlier ones |
| Dynamic.Inventory.ChildNames | dynamic.py:173-174 | the loop over children collects their names in order |
| Dynamic.SerializeGroupStep | dynamic.py:161-174 | one more group appends its entry if it has hosts or children, and its hosts are recorded after the earlier groups' hosts |
| Dynamic.RecordAppend | dynamic.py:171-179 | recording two runs of hosts one after the other equals recording their concatenation |
| Dynamic.RecordKeys | dynamic.py:171-179 | the recorded hostnames are exactly the earlier keys plus the visited hostnames |
| Dynamic.RecordUntouched | dynamic.py:171-179 | a hostname that no visited host carries keeps its earlier entry, or stays absent |
| Dynamic.RecordLast | dynamic.py:171-179 | last writer wins: a hostname maps to the variables of the last visited host carrying it |
| Dynamic.GroupHostsAppend | dynamic.py:161-171 | the hosts of a concatenation of groups are visited as the two runs in order |
| Dynamic.GroupHostSource | dynamic.py:161-171 | every visited group host is host j of some group i |
| Dynamic.GroupHostVisited | dynamic.py:161-171 | every host of every group is visited |
| Dynamic.GroupHostsSplit | dynamic.py:161-171 | the groups before a group, that group, and the groups after it have their hosts visited in that order |
| Dynamic.HostvarsDomain | dynamic.py:168-179 | a hostname is under "hostvars" iff some group host or some top-level host carries it |
| Dynamic.TopLevelHostvars | dynamic.py:177-179 | top-level hosts are written last, so the last top-level host with a hostname decides its hostvars |
| Dynamic.GroupHostvars | dynamic.py:168-179 | host j of group i decides its hostname's hostvars when no later host of that group, no later group and no top-level host carries the hostname |
| Dynamic.LaterHostsAvoid | dynamic.py:168-179 | a hostname carried by no later group and no top-level host is not written after group i |
| Dynamic.EntriesAppend | dynamic.py:161-163 | entries keep group order: the entries of a concatenation are the concatenated entries |
| Dynamic.EntrySource | dynamic.py:161-167 | every entry comes from a group with hosts or children |
| Dynamic.EntryOfEmitted | dynamic.py:161-167 | every group with hosts or children has an entry |
| Dynamic.EntryPresence | dynamic.py:161-174 | with distinct names, a group has an entry iff it has hosts or children, and the entry lists its hostnames and child names in order, with its variables |
| Dynamic.TopLevelKeysDistinct | dynamic.py:159-163 | with distinct group names and no emitted group named "ungrouped" or "_meta", no two entries share a key and no entry clashes with a baseline key |
| Dynamic.WebGroup | dynamic.py:84-87 | group "web" holding h1 yields the entry "web" with hosts ["h1"], and visits h1 |
| Dynamic.WebAlone | dynamic.py:84-90 | the example inventory without top-level hosts serialises to its literal result |
| Dynamic.WebWithH2 | dynamic.py:84-92 | after adding top-level host h2 it serialises to the literal result with h2 under "ungrouped" and "hostvars" |
| Dynamic.NewWebGroup | dynamic.py:29-32 | adding the same host to a group a second time is refused and leaves one copy |
| Dynamic.NewWebInventory | dynamic.py:84-90 | a group registered in a fresh inventory is its only group and meets the serialisation conditions |
| Dynamic.AddH2 | dynamic.py:135-142 | a top-level host added to an inventory without any becomes the only one, and the groups are untouched |
| Dynamic.WebScenario | dynamic.py:84-92 | building, serialising, adding h2 and serialising again yields the two literal results |

## Left out

- The JSON text encoding (`json.dumps`) is not modelled; `Output` is the dictionary before encoding.
- Python dictionary key order is represented by the order of `Output.groups`. With distinct group names this is group order.
- Variable values other than JSON null, booleans, integers, strings, lists and string-keyed dictionaries are not represented in `Value`. That excludes floating-point numbers, tuples and dictionaries with non-string keys. Nothing in the model inspects a value.
- Aliasing is not modelled. Variable maps are immutable values here. In the source, the result shares the very dictionaries held by the hosts and groups. Every host or group built without variables shares one default `{}` object, which is unobservable while nothing mutates it.
- `Dynamic.Inventory.ToJson` requires distinct group names and no emitted group named "ungrouped" or "_meta".
  - `add_group` always keeps the names distinct, so the first condition matches every inventory built through the class.
  - For the second, the source overwrites a baseline key with the group's dictionary. A later `append` or `['hostvars']` then fails, or a malformed result is returned. That error path is not modelled.
- `Dynamic.Inventory.ToJsonTwice` has the same two preconditions as `ToJson`.
- `Dynamic.Group.HasHost`, `Dynamic.Group.HasChildren`, `Dynamic.Group.HasHosts`, `Dynamic.Group.HasChildrens`, `Dynamic.Group.GetHosts` and `Dynamic.Group.GetChildrens` carry no contract of their own. Their bodies are the source's expressions: Python's `in`, `len(...) > 0` and the list itself. `in` compares identity here because neither class defines `__eq__`. Their properties are stated through `AddHost` and `AddChildren`. The getters hand out the live list in the source; here they return the current value of the field.
- `Inventory.name` is stored but never read by the source; it is kept as a `const`.
- The `False` returned by `search_group` and `search_host` is modelled as `None`. A found `Group` or `Host` is always truthy in the source, since neither class defines `__bool__` or `__len__`, so `not search_...(...)` is exactly `None?`.
