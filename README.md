# Yandex Cloud dynamic inventory: resolution engine

A Dafny model of the part of `yc_inventory.py` that turns a list of compute
instances and the `tags` table of the configuration into an Ansible inventory
document. It covers four parts:

- `find_by_labels`, the label filter. It is modelled as an imperative method over
  a sequence (`Labels.FindByLabels`) and proved equal to a reference function.
- `tag_hosts_map`, which gives, for each configured tag, the addresses of the
  instances whose `tags` label names the tag.
- `set_host_as_value` and `extract_var`, which resolve a variable's `hosts`
  reference. These two are closures inside `generate_inventory`. Here they are
  top-level functions that take the tag list and the tag-to-hosts map as
  parameters.
- The loop that fills `tag_host_vars_map` and the loop that fills
  `result_inventory`. Both are methods proved equal to specification functions.
  The properties the source relies on are proved about those functions.

Modules:
- `Wrappers`: `Option` and `Result`.
- `PyInt`: the decimal subset of Python's `int()` and `str()`.
- `Labels`: `find_by_labels`.
- `Resolver`: the JSON value type, the tag-to-hosts map, `str.find`,
  `set_host_as_value` and `extract_var`.
- `Inventory`: the vars loop, the assembly loop and `generate_inventory`.

Python exceptions become `Result.Err` values:
- `KeyError(key)` for an unknown tag or a missing `hosts` key.
- `UnpackMismatch` for the `ValueError` raised when `split('[')` meets more than one `[`.
- `NotAnInteger(text)` for the `ValueError` raised by `int()`.
- `IndexError(i)` for a negative index below `-len`.

Python dictionaries keep insertion order. Wherever output order matters they are
sequences of pairs. Assigning to an existing key keeps that key's position
(`Inventory.Upsert`).

Behaviour of the code worth noting:
- Errors are `KeyError`/`ValueError`/`IndexError`, never a dedicated validation
  error.
- A `value` literal is returned unchanged. It is not resolved, not even element by
  element, and not even when it names a tag.
- `"web[abc"` (no `]` at the end) resolves to `None`, not an error.
- A label filter with an empty accepted list selects nothing. Only an empty
  `labels` mapping returns every instance.
- The first failing variable aborts the whole run, not just its group.
- `vars: {}` yields an empty `vars` entry in the group.

## Model

| member | source | states |
|---|---|---|
| `Labels.FindByLabels` | yc_inventory.py:12-24 | The nested append loops return exactly the reference selection `LabelQuery`; an empty `labels` mapping returns the input list unchanged. |
| `Labels.KeepMatchingSpec` | yc_inventory.py:16-24 | A one-key filter keeps each matching instance as many times as it occurs, drops every non-matching one, and keeps input order (the result is a subsequence). |
| `Labels.SingleKeyQuery` | yc_inventory.py:16-24 | With a single label key, `find_by_labels` is exactly the order-preserving filter on that key. |
| `Labels.SingleKeySelection` | yc_inventory.py:16-24 | With a single key the result is a subsequence of the input, and an instance is in it iff it carries the key with one of the accepted values; an instance lacking the key is never selected. |
| `Labels.SingleIsOneElementList` | yc_inventory.py:19-21 | A bare string filter value selects the same instances as the one-element list holding it. |
| `Labels.EmptyAcceptedSelectsNothing` | yc_inventory.py:22-23 | An empty accepted-values list selects no instance at all. |
| `Labels.QueryMultiplicity` | yc_inventory.py:17-23 | With a non-empty `labels` mapping, each instance appears once per key it matches, times its number of occurrences in the input; duplicates are therefore possible. |
| `Labels.QuerySound` | yc_inventory.py:17-23 | Everything returned is an input instance that matched at least one key of the mapping. |
| `Labels.MatchCountPositive` | yc_inventory.py:18-22 | An instance is counted at least once iff some key of the mapping matches it. |
| `PyInt.Parse` | yc_inventory.py:160 | Definition of `int()` on the index text; its contract: only a string of `-` and digits parses. Properties in `PyInt.ParseIntToString`. |
| `PyInt.ParseIntToString` | yc_inventory.py:160 | `int()` reads back every integer written in decimal, negative ones included. |
| `Resolver.TagHostsMap` | yc_inventory.py:145-151 | Definition of `tag_hosts_map`; its contract: the keys are exactly the configured tags. Properties in `Resolver.TagHostsMapContents`, `Resolver.TagHostsInOrder`, `Resolver.TagHostsNoDuplicates`. |
| `Resolver.TagHostsMapContents` | yc_inventory.py:143-151 | `tag_hosts_map` has exactly the configured tags as keys; each value is the addresses of the instances whose `tags` label equals the tag, and membership in that instance list is exactly "has label `tags` equal to the tag". |
| `Resolver.TagHostsInOrder` | yc_inventory.py:145-151 | Each tag's addresses appear in instance order (a subsequence of all addresses). |
| `Resolver.TagHostsNoDuplicates` | yc_inventory.py:145-151 | When instance addresses are distinct, no tag lists an address twice. |
| `Resolver.Find` | yc_inventory.py:158 | `str.find` for one character: -1 iff the character is absent, otherwise the position of its first occurrence. |
| `Resolver.LooksIndexedIff` | yc_inventory.py:158 | The bracket test holds iff the string contains `[`, ends with `]`, and has no other `]`. |
| `Resolver.IndexedShape` | yc_inventory.py:158-159 | Every string passing the bracket test is `name[text]` with no bracket in `name` and no `]` in `text`. |
| `Resolver.PyIndex` | yc_inventory.py:161-164 | Definition of the bounds check and Python indexing; its contract: `[]` iff the index is at or past the end, an error iff it is below `-len`, and any host returned is one of the tag's hosts. Properties in `Resolver.ResolveIndexRoundTrip`. |
| `Resolver.ResolveName` | yc_inventory.py:156-164 | Definition of `set_host_as_value` on a string; its contract: a tag name yields the tag's host list, and only a string passing the bracket test can fail. Properties in `Resolver.ResolveTagName`, `Resolver.ResolveIndexed`, `Resolver.ResolveFallThrough`. |
| `Resolver.Resolve` | yc_inventory.py:153-164 | Definition of `set_host_as_value`; its contract: a list resolves to a list of the same length. Properties in `Resolver.ResolveAll` and the `ResolveName` rows. |
| `Resolver.ResolveAll` | yc_inventory.py:154-155 | On a list, the result has the same length and its i-th element is the resolution of the i-th input; on failure the error is that of the first element that fails. |
| `Resolver.ResolveTagName` | yc_inventory.py:156-157 | A string equal to a configured tag resolves to that tag's whole host list, before any bracket parsing. |
| `Resolver.ResolveIndexed` | yc_inventory.py:158-164 | For `name[text]`: a second `[` fails the two-way unpack; otherwise a non-integer `text` raises `ValueError`; otherwise an unknown `name` raises `KeyError`; otherwise the host list is indexed. |
| `Resolver.ResolveIndexRoundTrip` | yc_inventory.py:158-164 | `name[i]` for a known tag yields host `i` when `0 <= i < len`, `[]` when `i >= len`, host `len + i` when `-len <= i < 0`, and `IndexError` below `-len`. |
| `Resolver.ResolveFallThrough` | yc_inventory.py:153-164 | A string that is neither a tag nor of the form `...[...]` ending in its first `]` resolves to `None`. |
| `Resolver.ExtractVar` | yc_inventory.py:166-169 | Definition of `extract_var`; its contract: a present `value` never fails, and with neither key the result is `KeyError('hosts')`. Properties in `Resolver.ExtractVarPrecedence`, `Resolver.LiteralTagNameNotResolved`. |
| `Resolver.ExtractVarPrecedence` | yc_inventory.py:166-169 | A present `value` is returned unchanged even if `hosts` is present; otherwise `hosts` is resolved; with neither, `KeyError('hosts')`. |
| `Resolver.LiteralTagNameNotResolved` | yc_inventory.py:166-169 | A tag name given as a `value` literal (alone or inside a list) stays a string; the same name under `hosts` becomes the tag's host list. |
| `Resolver.ExampleUnclosedBracket` | yc_inventory.py:158 | `"web[abc"` resolves to `None` rather than failing. |
| `Resolver.ExampleUnknownTag` | yc_inventory.py:159-161 | `"unknown[0]"` raises `KeyError('unknown')`. |
| `Inventory.ExtractVarTable` | yc_inventory.py:176-178 | Definition of the dict comprehension over one tag's `vars`; its contract: on success the names are kept, in table order. Properties in `Inventory.ExtractVarTableResults`. |
| `Inventory.ExtractVarTableResults` | yc_inventory.py:176-178 | A vars table resolves name by name in table order, each value being `extract_var` of its definition; on failure the error is that of the first failing variable. |
| `Inventory.ExtractVars` | yc_inventory.py:172-178 | The loop filling `tag_host_vars_map` returns exactly the specification `TagVars`, stopping at the first failure. |
| `Inventory.TagVarsOk` | yc_inventory.py:172-178 | Building `tag_host_vars_map` succeeds iff every tag's non-null `vars` table resolves. |
| `Inventory.TagVarsKeys` | yc_inventory.py:173-176 | A tag gets an entry iff its config has a non-null `vars`. |
| `Inventory.TagVarsValues` | yc_inventory.py:176-178 | Each such entry is the tag's own resolved vars table. |
| `Inventory.TagVarsFirstError` | yc_inventory.py:172-178 | A failure is the error of the first tag, in table order, whose vars fail, all earlier tags having resolved. |
| `Inventory.Upsert` | yc_inventory.py:185-187 | Dictionary assignment: an existing key keeps its position and takes the new group, a new key is appended; the key then maps to the group and every other key keeps its group. |
| `Inventory.Assemble` | yc_inventory.py:180-190 | The loop filling `result_inventory` returns exactly the specification `Assembled`. |
| `Inventory.AssembledKeys` | yc_inventory.py:181-187 | The document's keys are exactly the display names (`hostsName` if present, else the tag), each once. |
| `Inventory.AssembledKeyOrder` | yc_inventory.py:181-187 | The document's keys are the display names in order of first occurrence: a later tag with a colliding display name replaces the group but keeps its position. |
| `Inventory.AssembledLastWins` | yc_inventory.py:181-189 | Under a display name sits the group of the last tag using it: hosts `tag_hosts_map[tag]`, `vars` iff the tag has a vars entry. |
| `Inventory.AssembledInOrder` | yc_inventory.py:180-190 | Without display-name collisions, the document lists one group per tag, in table order. |
| `Inventory.GenerateInventory` | yc_inventory.py:134-190 | `generate_inventory` on a fetched instance list computes the specification `GeneratedInventory`. |
| `Inventory.GeneratedInventoryContents` | yc_inventory.py:143-190 | The run succeeds iff every non-null vars table resolves; then keys are the distinct display names, and the last tag under a name contributes the addresses of its labelled instances and a `vars` entry iff its config has non-null `vars`. |
| `Inventory.ExampleInventory` | yc_inventory.py:134-190 | A `web` and a `db` instance with a `db` variable `db[0]` produce `{web: {hosts: [1.1.1.1]}, db: {hosts: [2.2.2.2], vars: {primary: 2.2.2.2}}}`. |

## Left out

- `ConfigFinder`, `ServiceAccount` and `Config` (lines 27-131): file-system probing, file reads and YAML/JSON parsing. The tag table is a parameter, already parsed.
- The SDK client and the `List` call (lines 135-141): a network call. The instance list is a parameter.
- The protobuf chain `network_interfaces[0].primary_v4_address.one_to_one_nat.address` (line 147): it is the opaque `addr` field of an instance. An instance without a network interface, which would raise, is not modelled.
- The module-level `config = Config()`, `generate_inventory(config)` and `print(json.dumps(...))` (lines 131, 193-195): process I/O.
- Non-string, non-list `hosts` leaves, which would raise `AttributeError` on `.find`: `HostSpec` admits only strings and lists.
- Python `int()`'s surrounding whitespace, `_` separators, leading `+`, non-ASCII Unicode decimal digits (`int('３') == 3`), and the `ValueError` Python 3.11+ raises for strings of more than 4300 digits: only an optional `-` followed by ASCII decimal digits parses, at any length.
- A `vars` entry that is not a mapping of mappings, and a tag whose config is `null` (both raise `TypeError`): `TagConfig` is always a record.
- `hostsName: null`, which makes Python use `None` as a dictionary key: `hostsName` is a string or absent.
- `conf` and the global `config` (lines 174, 177, 183) are the same table in the model.
- A missing `vars` key and `vars: null` are both `None`; the code treats them alike.
- Floating-point `value` literals: `Json` has no float case. Literals are returned unchanged, so no property depends on it.
