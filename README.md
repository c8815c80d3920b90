# Kubespray inventory generator, modelled in Dafny

`tools/generate-hosts.py` turns a JSON object that maps each host name to
`{"ip": ..., "role": "control" | "worker"}` into the INI inventory Kubespray
reads. This project models the three parts of that transformation and proves
what they promise:

- **Validation** (`load_nodes` once the JSON is parsed): the input must be a
  non-empty object; every key a non-empty string; every value an object with a
  non-empty string `ip` and a `role` of `control` or `worker`. The first bad
  entry, in document order, is reported; valid input is returned unchanged.
- **Ordering** (`host_sort_key` and `sorted`): a name splits into the text
  before its maximal trailing run of decimal digits and that run's value (0
  when there is none), so `worker-2` sorts before `worker-10`. The sort is
  stable, so hosts with tied keys (`node-01`, `node-1`) keep their input order.
- **Rendering** (`render_inventory`): the sorted hosts are split into control
  and worker lists, rendering fails when either is empty, and the groups
  `[all]`, `[kube_control_plane]`, `[etcd]`, `[kube_node]`, `[calico_rr]` and
  `[k8s_cluster:children]` are written in that order, each followed by a blank
  line, and joined with newlines.

Files, one module each: `wrappers.dfy` (Option, Result), `text.dfy` (join and
split on one character), `json_value.dfy` (a parsed JSON value), `nodes.dfy`
(typed host records), `loader.dfy`, `sort_key.dfy`, `host_sort.dfy`,
`inventory.dfy`, and `inventory_reader.dfy`. The last one is an INI group
reader. The program has no such reader; it is here as the inverse that the
rendered text is proved against.

Modelling choices:

- A JSON object is a sequence of members in document order, which is the
  order a Python dict keeps. Keys are JSON values, so that the "key is not a
  string" check can be stated. A lookup `v["ip"]` finds the member with that
  key.
- `render_inventory` receives the validated object as typed records
  (`Loader.NodesOf`): name, address, and role, where `control` is a control
  host and anything else is a worker, as in the source's `else` branch.
- The source sorts the names and looks each record up by name. The model
  sorts the records by the key of their names. `HostSort.SortHostsNames`
  proves that the names of the sorted records are exactly the sorted names.
  The source sorts twice with the same
  deterministic key; the model sorts once and uses the result in both loops.
- `sorted` is modelled as an insertion sort over any key function.
  `HostSort.StableSortIsSortHosts` proves that every arrangement that is
  ordered by key and stable equals its result. Python's sort is stable, so
  the model gives the same order.
- The regular expression `(\d+)$` is modelled as a backwards scan over the
  ASCII digits `0`-`9`. `$` matches at the end of the name and also just
  before a final newline, and the model keeps that: `SortKey.MatchEnd`, and
  `SortKey.NewlineAfterNumberIgnored` shows its effect.
- String order is Python's: code point by code point, and a proper prefix
  is smaller. Key order is the order of the tuple `(prefix, number)`.
- `render_inventory` decides the `etcd_member_name` token with the list test
  `host in controls`. The model does the same.
  `Inventory.EtcdTokenMarksControlHosts` proves that, for distinct names,
  this test holds exactly for the control hosts.

## Model

| member | source | states |
|---|---|---|
| `JsonValue.Get` | tools/generate-hosts.py:78-82 | a dictionary lookup gives nothing exactly when no member has the key, and otherwise gives the value of a member with that key |
| `Loader.ValidEntry` | tools/generate-hosts.py:73-83 | no contract of its own: the conjunction of the five checks of one entry; `Loader.EntryError` and `Loader.LoadNodes` state that validation accepts exactly what it describes |
| `Loader.ValidKey` | tools/generate-hosts.py:74 | no contract of its own: the key is a non-empty string; `Loader.EntryError` ties it to the hostname-key error |
| `Loader.ValidRole` | tools/generate-hosts.py:82 | no contract of its own: the role is `control` or `worker`; `Loader.EntryError` ties it to the role error |
| `Loader.HasIpAndRole` | tools/generate-hosts.py:78 | no contract of its own: both `ip` and `role` are present; `Loader.EntryError` ties it to the missing-field error |
| `Loader.ValidIp` | tools/generate-hosts.py:80 | no contract of its own: `ip` is a non-empty string; `Loader.EntryError` ties it to the address error |
| `Loader.ValidNodes` | tools/generate-hosts.py:69-83 | no contract of its own: a non-empty object whose every entry is valid; `Loader.LoadNodes` succeeds exactly on it |
| `Loader.EntryError` | tools/generate-hosts.py:73-83 | the checks of one entry report no error exactly when the entry is valid; otherwise the first failing check, in the loop body's order, decides the error: a bad key gives the key error; with a good key, a non-object value gives the value error, then a missing `ip` or `role` gives the missing-field error, then a bad `ip` the address error, then a bad `role` the role error; every error after the key check carries the host name |
| `Loader.LoadNodes` | tools/generate-hosts.py:69-85 | validation succeeds exactly on valid input and then returns the data unchanged; a value that is not a non-empty object gets the top-level error; otherwise the error is that of the first bad entry, and every entry before it is valid |
| `Loader.RoleOf` | tools/generate-hosts.py:109-113 | a validated role string reads back as the role it names |
| `Loader.NodesOf` | tools/generate-hosts.py:109-125 | the typed records are the validated entries in document order; each has the entry's key as its name, and its `ip` and `role`; names and addresses are non-empty |
| `Loader.NodesOfDistinct` | tools/generate-hosts.py:73 | distinct object keys give distinct host names |
| `Text.Join` | tools/generate-hosts.py:144 | no contract of its own: `str.join` with a one-character separator; `Text.SplitJoin` and `Text.JoinSplit` give its round trip, `Text.JoinStartsWithFirst`, `Text.JoinAvoids` and `Text.JoinTrailingEmpty` its shape |
| `Text.SplitJoin` | tools/generate-hosts.py:174 | splitting the joined parts on the separator gives back the parts when none of them contains it |
| `Text.JoinSplit` | tools/generate-hosts.py:174 | joining the pieces of a split gives back the text |
| `Text.JoinTrailingEmpty` | tools/generate-hosts.py:172-174 | when the last of at least two lines is empty, the joined text is the other lines joined, followed by the separator |
| `Text.JoinStartsWithFirst` | tools/generate-hosts.py:144 | the joined text begins with the first part |
| `Text.JoinAvoids` | tools/generate-hosts.py:144 | joining adds no character other than the separator |
| `SortKey.MatchEnd` | tools/generate-hosts.py:93 | `$` matches just before the last character exactly when that character is a newline, and otherwise at the very end; it is never earlier than one before the end |
| `SortKey.IsDigit` | tools/generate-hosts.py:93 | no contract of its own: `\d`, restricted to the ASCII digits `0`-`9`; `SortKey.DigitRunStart` and `SortKey.HostSortKeySpec` are stated with it |
| `SortKey.DigitRunStart` | tools/generate-hosts.py:93 | the backwards scan stops at the start of the maximal digit run that ends at the given position: everything from there on is digits, and the character before it is not |
| `SortKey.HostSortKey` | tools/generate-hosts.py:88-96 | no contract of its own: `host_sort_key`; specified by `SortKey.HostSortKeySpec` and `SortKey.KeyOfNumberedName` |
| `SortKey.DecimalValue` | tools/generate-hosts.py:94 | no contract of its own: `int()` of a digit run; `SortKey.LeadingZero` shows leading zeros add nothing |
| `SortKey.HostSortKeySpec` | tools/generate-hosts.py:88-96 | when a digit ends where `$` matches, the prefix is the name up to the maximal trailing digit run, it does not end in a digit, and the number is the run's decimal value; otherwise the key is the whole name with 0 |
| `SortKey.KeyOfNumberedName` | tools/generate-hosts.py:93-96 | a prefix that does not end in a digit, followed by a digit run, has as its key exactly that prefix and the run's value |
| `SortKey.LeadingZero` | tools/generate-hosts.py:94 | a leading zero does not change a digit run's integer value |
| `SortKey.LeadingZerosShareKey` | tools/generate-hosts.py:93-96 | `node-01` and `node-1` both get the key `("node-", 1)`, so the key is not injective |
| `SortKey.NewlineAfterNumberIgnored` | tools/generate-hosts.py:93-96 | a newline after a trailing number does not change the key |
| `SortKey.NumericSuffixOrder` | tools/generate-hosts.py:88-96 | `worker-2` gets `("worker-", 2)` and `worker-10` gets `("worker-", 10)`; the first key is smaller, although plain string order puts `worker-10` first |
| `SortKey.DigitRunStartPrefix` | tools/generate-hosts.py:93 | the scan reads nothing after its starting position |
| `SortKey.StrLess` | tools/generate-hosts.py:96 | no contract of its own: Python's `<` on strings; the `StrLess` lemmas below prove it a strict total order |
| `SortKey.KeyLess` | tools/generate-hosts.py:96 | no contract of its own: Python's `<` on `(prefix, number)`; the `KeyLess` lemmas below prove it a strict total order |
| `SortKey.StrLessIrreflexive` | tools/generate-hosts.py:96 | no string is less than itself |
| `SortKey.StrLessTransitive` | tools/generate-hosts.py:96 | string order is transitive |
| `SortKey.StrLessTotal` | tools/generate-hosts.py:96 | of two different strings, one is less than the other |
| `SortKey.StrLessCommonPrefix` | tools/generate-hosts.py:96 | a shared prefix does not change string order |
| `SortKey.KeyLessIrreflexive` | tools/generate-hosts.py:96 | no key is less than itself |
| `SortKey.KeyLessTransitive` | tools/generate-hosts.py:96 | key order is transitive |
| `SortKey.KeyLessTotal` | tools/generate-hosts.py:96 | of two different keys, one is less than the other |
| `SortKey.KeyLessLe` | tools/generate-hosts.py:96 | `a < b <= c` gives `a < c` |
| `SortKey.KeyLeTransitive` | tools/generate-hosts.py:96 | `a <= b <= c` gives `a <= c` |
| `HostSort.Insert` | tools/generate-hosts.py:108 | inserting adds exactly the one element |
| `HostSort.SortBy` | tools/generate-hosts.py:108 | the sort's output is a permutation of its input |
| `HostSort.InsertSorted` | tools/generate-hosts.py:108 | inserting into a key-ordered sequence keeps it key-ordered |
| `HostSort.SortBySorted` | tools/generate-hosts.py:108 | the sort's output is ordered by key |
| `HostSort.InsertStable` | tools/generate-hosts.py:108 | inserting into a key-ordered sequence places the new element after every element with the same key |
| `HostSort.SortByStable` | tools/generate-hosts.py:108 | for every key, the elements with that key appear in the output in their input order |
| `HostSort.SortedByUnique` | tools/generate-hosts.py:108 | two key-ordered sequences that list the elements of every key in the same order are equal |
| `HostSort.KeyOf` | tools/generate-hosts.py:108 | no contract of its own: `key=host_sort_key` applied to a host's name; `HostSort.NamesInsert` and `HostSort.SortHostsNames` show that sorting by it sorts the names by `host_sort_key` |
| `HostSort.SortHosts` | tools/generate-hosts.py:108 | no contract of its own: `sorted(..., key=host_sort_key)` on the hosts; specified by `HostSort.SortHostsCorrect` and `HostSort.StableSortIsSortHosts` |
| `HostSort.SortHostsCorrect` | tools/generate-hosts.py:108 | the sorted hosts are the input hosts rearranged, ordered by key, and stable for tied keys |
| `HostSort.NamesInsert` | tools/generate-hosts.py:108 | inserting a host by the key of its name inserts its name into the names by the same key |
| `HostSort.SortHostsNames` | tools/generate-hosts.py:108 | the names of the sorted hosts are exactly the host names sorted by `host_sort_key`, as `sorted(nodes.keys(), key=host_sort_key)` lists them |
| `HostSort.StableSortIsSortHosts` | tools/generate-hosts.py:108 | every key-ordered, stable arrangement of the hosts equals the model's sort, so any stable sort gives the same order |
| `HostSort.WorkersSortNumerically` | tools/generate-hosts.py:88-108 | for any prefix that does not end in a digit (such as `worker-`), hosts named with the suffixes 2, 10, 1 sort to the suffixes 1, 2, 10, whatever their addresses |
| `HostSort.NamesWithRoleSortedBy` | tools/generate-hosts.py:108-113 | when a host's key is the key of its name, filtering a key-ordered host list by role gives names in key order |
| `HostSort.NamesWithRoleSorted` | tools/generate-hosts.py:108-113 | filtering a key-ordered host list by role keeps the names in key order |
| `HostSort.InsertPosition` | tools/generate-hosts.py:108 | insertion puts the new element at one position and keeps the other elements in their order |
| `HostSort.InsertNamesWithRole` | tools/generate-hosts.py:108-113 | inserting a host adds its name to its own role's list and to no other |
| `HostSort.SortHostsNamesWithRole` | tools/generate-hosts.py:108-113 | sorting changes neither which names have a role nor how often they occur |
| `Nodes.NamesWithRole` | tools/generate-hosts.py:108-113 | no contract of its own: the names of the hosts with one role, in order; `Inventory.PartitionByRole` builds it and `Nodes.InNamesWithRole` characterises it |
| `Nodes.Names` | tools/generate-hosts.py:108 | no contract of its own: the host names in order, `nodes.keys()`; characterised by `Nodes.NamesAreHostNames` and `Nodes.NamesAppend`, and `HostSort.SortHostsNames` states the sorted order with it |
| `Nodes.NamesAppend` | tools/generate-hosts.py:108 | the names of two host lists put together are their names put together |
| `Nodes.NamesWithRoleAppend` | tools/generate-hosts.py:108-113 | the per-role lists of two host lists put one after the other are the two lists' per-role lists concatenated |
| `Nodes.InNamesWithRole` | tools/generate-hosts.py:109-113 | a name is in a role's list exactly when some host has that name and that role |
| `Nodes.RolesPartitionNames` | tools/generate-hosts.py:105-113 | the control and worker lists together hold every host name exactly as often as the hosts do |
| `Nodes.DistinctNamesOccurOnce` | tools/generate-hosts.py:73 | distinct host names each occur once |
| `Nodes.NamesAreHostNames` | tools/generate-hosts.py:108 | a name is listed exactly when some host carries it |
| `Inventory.HostParts` | tools/generate-hosts.py:129-142 | a host line has the name, `ansible_host=<ip>`, `ip=<ip>` and `ansible_port=<port>` first; `ansible_user=<user>` follows exactly when the user is non-empty, and `ansible_become=true` exactly when become is set; the last token is `etcd_member_name=<name>` exactly for a control host |
| `Inventory.HostLine` | tools/generate-hosts.py:129-144 | no contract of its own: the tokens of `Inventory.HostParts` joined by spaces; `InventoryReader.HostLineTokens` splits it back into them, `InventoryReader.HostLinePlain` shows it starts with the name |
| `Inventory.Group` | tools/generate-hosts.py:149-151 | no contract of its own: a header, its body lines, and a blank line, the shape of each of the six groups; `InventoryReader.ParseGroup` reads it back |
| `Inventory.InventoryLines` | tools/generate-hosts.py:121-172 | no contract of its own: the six groups in order; `InventoryReader.ReadJoinedGroups` reads them back |
| `Inventory.Controls` | tools/generate-hosts.py:105-113 | no contract of its own: the control names in key order; specified by `Inventory.RoleListsPartition` and `Inventory.ControlsAreControlHosts` |
| `Inventory.Workers` | tools/generate-hosts.py:105-113 | no contract of its own: the worker names in key order; specified by `Inventory.RoleListsPartition` and `Inventory.EachHostListedOnce` |
| `Inventory.Render` | tools/generate-hosts.py:99-174 | no contract of its own: what `render_inventory` returns or raises; specified by `Inventory.RenderFailsIff`, `Inventory.RenderedTextEndsWithNewline` and `InventoryReader.ReadBackRendered` |
| `Inventory.AllLines` | tools/generate-hosts.py:124-144 | `[all]` has one line per host |
| `Inventory.PartitionByRole` | tools/generate-hosts.py:105-113 | the first loop puts the names of the control hosts, in order, in the control list, and all the other names in the worker list |
| `Inventory.HostLines` | tools/generate-hosts.py:123-144 | the second loop produces the `[all]` lines of the hosts, in order |
| `Inventory.RenderInventory` | tools/generate-hosts.py:99-174 | the step-by-step rendering returns exactly the specified result: the error, or the text made of the six groups joined by newlines |
| `Inventory.RoleListEmpty` | tools/generate-hosts.py:115-118 | a sorted role list is empty exactly when no input host has that role |
| `Inventory.RenderFailsIff` | tools/generate-hosts.py:115-118 | rendering fails with "no control nodes" exactly when no host has role control; it fails with "no worker nodes" exactly when there is a control host and no worker; otherwise it succeeds |
| `Inventory.RoleListsPartition` | tools/generate-hosts.py:105-113 | the control list is the input's control names rearranged, and the worker list is the input's worker names rearranged; together they hold every name as often as the input does, and both are in key order |
| `Inventory.ControlsAreControlHosts` | tools/generate-hosts.py:108-113 | a name is in the control list exactly when an input host with that name has role control |
| `Inventory.EachHostListedOnce` | tools/generate-hosts.py:105-113 | with distinct names, every host name is in exactly one of the two lists, once, and no other name is in either |
| `Inventory.EtcdTokenMarksControlHosts` | tools/generate-hosts.py:141-142 | with distinct names, the test `host in controls` holds exactly for control hosts |
| `Inventory.RenderedTextEndsWithNewline` | tools/generate-hosts.py:172-174 | successful output is non-empty and ends with a newline |
| `InventoryReader.ParseHeaderAndBody` | tools/generate-hosts.py:149-150 | a header followed by body lines reads back as one group that holds exactly those lines |
| `InventoryReader.ParseGroup` | tools/generate-hosts.py:149-151 | a group and its blank line read back as one group |
| `InventoryReader.ParseSixGroups` | tools/generate-hosts.py:146-172 | six groups, one after the other, read back as six groups with those headers and bodies |
| `InventoryReader.ReadSixGroups` | tools/generate-hosts.py:146-174 | six groups joined by newlines read back as those groups, when no header or body line contains a newline and no body line is blank or a header |
| `InventoryReader.ReadJoinedGroups` | tools/generate-hosts.py:146-174 | the six groups joined by newlines read back as those groups, when no body line is blank, is a header, or contains a newline |
| `InventoryReader.ReadBackRendered` | tools/generate-hosts.py:120-174 | reading back a rendered inventory gives `[all]` with one line per host in key order, then `[kube_control_plane]` with the control names, `[etcd]` with the same names in the same order, `[kube_node]` with the worker names, an empty `[calico_rr]`, and `[k8s_cluster:children]` with `kube_control_plane`, `kube_node` and `calico_rr`; this holds when host names are non-empty and do not start with `[`, and no field contains a newline |
| `InventoryReader.SplitSixGroups` | tools/generate-hosts.py:120-174 | six groups joined with newlines split back into exactly their lines, blank separators included, when no header or body line holds a newline |
| `InventoryReader.InventoryLinesSplit` | tools/generate-hosts.py:120-174 | the inventory's lines split back out of their joined text when no host line or listed name holds a newline |
| `InventoryReader.RenderedLines` | tools/generate-hosts.py:120-174 | when every host name is non-empty and does not start with `[`, and no host name, address, user or port contains a newline: the rendered text splits on newlines into exactly the inventory's lines, each group's header, its body, and the blank line written after it |
| `InventoryReader.HostLineTokens` | tools/generate-hosts.py:129-144 | a host line splits on spaces back into its tokens when no field contains a space |
| `InventoryReader.HostLinePlain` | tools/generate-hosts.py:129-144 | a host's line starts with its name; it is non-blank, not a header and contains no newline when the name is non-empty, does not start with `[`, and no field contains a newline |
| `InventoryReader.HostLinesPlain` | tools/generate-hosts.py:124-144 | when every host name is non-empty and does not start with `[`, and no host name, address, user or port contains a newline: no `[all]` line is blank, a header, or multi-line |
| `InventoryReader.RoleListLinesPlain` | tools/generate-hosts.py:150-160 | when every host name is non-empty and does not start with `[` and contains no newline: no line of the control or worker body is blank, a header, or multi-line |
| `InventoryReader.SortedHostIsInput` | tools/generate-hosts.py:108 | every sorted host is an input host |
| `InventoryReader.ListedNameIsInputName` | tools/generate-hosts.py:108-113 | every listed control or worker name is an input host's name |

## Left out

- `parse_args` (tools/generate-hosts.py:31-62): command-line parsing only supplies the user, port and become flag, which the model takes as parameters.
- Reading the file and `json.load` (tools/generate-hosts.py:66-67): the model starts from an already-parsed JSON value. Parse errors, and how duplicate keys are resolved, belong to the JSON library, which is not part of this model. JSON numbers are represented as integers, because the program never looks at them.
- `main` and the `__main__` block (tools/generate-hosts.py:177-207): creating the directory, writing the output file and `.gitignore`, printing, and exit codes are file-system and process I/O.
- Error messages: each `ValueError` is one error constructor, carrying the host name where the message names it. The message text is not modelled.
- `SortKey.HostSortKey`: recognises only the ASCII digits `0`-`9`. Python's `\d` and `int()` also accept other Unicode decimal digits.
- `SortKey.DecimalValue`: gives a value for a digit run of any length. CPython's `int()` on a decimal string longer than 4300 digits raises `ValueError` (the default integer string conversion limit of Python 3.11 and later releases of 3.7-3.10). On such a host name the program stops with an error at tools/generate-hosts.py:94, while the model's key, and so `Inventory.RenderFailsIff`'s success case, does not capture that failure.
- `JsonValue.Get` and `Loader.LoadNodes`: a JSON object is a member sequence, which can repeat a key. A Python dict cannot, so such a sequence stands for no dict the program sees. `Get` returns the first member with the key, while Python's `json` keeps the last, and `LoadNodes` checks each repeated entry on its own. The results are only claimed for objects with distinct keys.
- `Inventory.RenderInventory`: takes the validated entries as typed records from `Loader.NodesOf`, not the raw dictionary. It is only ever called on input that `load_nodes` has accepted.
