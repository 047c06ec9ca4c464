# Dynamic inventory builder

A model of `dynamicInventory.py`, a script that lists the compute instances of a
cloud account and builds the JSON "dynamic inventory" document a configuration
management tool reads to find its hosts.

The document has four parts: `_meta.hostvars` maps each instance id to its
connection variables, `webservers.hosts` lists the instance ids, `otherHosts.hosts`
is an empty list, and `otherHosts.vars` holds static connection variables.
A run goes through these steps:

- it keeps the regions whose name contains `"us-"`;
- for every instance of those regions, in the order listed, it scans the tags for a
  `Name` tag, whose value is never used;
- it then writes the host record and appends the id (`getHostDetails`);
- finally it attaches the static `otherHosts.vars` block.

The model has two modules:

- `InventoryModel` (`inventory_model.dfy`) holds the values and the specification
  functions. The cloud provider is replaced by its answers: a `seq<Region>`, each
  `Region` a name with the `Instance`s listed in it. An instance has an id, an
  optional public address and an optional tag list. `Enumerated` gives the
  instances a run visits. `HostIds` gives their ids. `Recorded` gives the host
  records after they are written in order. `LastNameTag` gives the result of the
  tag scan. The lemmas state the properties of these functions.
- `DynamicInventory` (`dynamic_inventory.dfy`) holds the document as a class,
  `InventoryDocument`, whose fields the methods update in place, as the script
  updates its module-level dictionary. `GetHostDetails` and `ListEC2Hosts` are
  proved against the specification functions. `Valid()` holds in every reachable
  state and is preserved by every method:
  - the keys of `hostvars` are exactly the ids in `webservers`;
  - every record has the fixed three-variable shape;
  - `otherHosts` is empty;
  - `otherVars` is absent or the static block.

Modelling decisions:

- `str(instance.id)` is the identity, because ids are strings.
- `str(instance.public_ip_address)` is `Address`. It yields the text `"None"` for an
  instance without an address.
- A host record is a `map<string, string>`, as the script's dictionary is.
  `getHostDetails` replaces the whole record. It does not merge with an older one.
- The tag scan inside the instance loop (lines 36-44) is the method `NameTag`.
  The instance loop of one region (lines 35-46) is the method `RecordInstances`.
  `ListEC2Hosts` calls `RecordInstances` for each region it keeps. The statements,
  branches and order are those of the script.
- `if instance.tags:` is false both for no tag list and for an empty one. Both give
  `""`.

Three behaviours of the script that a reader might not expect:

- An instance without an address gets the host variable `"None"` (from `str(None)`),
  not an empty string.
- An id listed twice appears twice in `webservers.hosts` and has one `hostvars`
  entry, which holds the later instance's address.
- Tags are a list of `{Key, Value}` entries scanned in order, so the last `Name`
  tag wins.

## Model

| member | source | states |
|---|---|---|
| `InventoryModel.ContainsIff` | dynamicInventory.py:31 | the region test `'us-' in region` holds exactly when `"us-"` occurs at some position of the name, not only at the start |
| `InventoryModel.QueriedRegionsIff` | dynamicInventory.py:30-31 | a region is queried exactly when it is among the given regions and its name contains `"us-"` (both directions) |
| `InventoryModel.QueriedRegionsAppend` | dynamicInventory.py:30-31 | the filter keeps the given order: the regions kept from `a + b` are those kept from `a` followed by those kept from `b` |
| `InventoryModel.QueriedRegionsOfThree` | dynamicInventory.py:30-31 | a non-matching region between two matching ones drops out and the other two stay in order |
| `InventoryModel.RegionFilterCases` | dynamicInventory.py:30-31 | of `us-east-1`, `eu-west-1`, `us-west-2` exactly `us-east-1` and `us-west-2` are queried, in that order |
| `InventoryModel.NoUsDash` | dynamicInventory.py:31 | a name in which no `u` is directly followed by `s` and `-` does not contain `"us-"` |
| `InventoryModel.NotQueriedNames` | dynamicInventory.py:31 | neither `eu-west-1` nor `usa-1` contains `"us-"`: all three characters must match, in order |
| `InventoryModel.InfixMatch` | dynamicInventory.py:31 | `eu-us-1` contains `"us-"`: a match past the start of the name counts |
| `InventoryModel.EnumeratedAppend` | dynamicInventory.py:30-35 | regions are processed in order: the instances visited for `a + b` are those for `a` followed by those for `b` |
| `InventoryModel.EnumeratedPrefix` | dynamicInventory.py:30-35 | after region `i` the visited instances are those of the earlier regions followed by region `i`'s own, when its name contains `"us-"`, and nothing more otherwise |
| `InventoryModel.EnumeratedIff` | dynamicInventory.py:30-35 | an instance is visited exactly when some given region whose name contains `"us-"` lists it (both directions) |
| `InventoryModel.NoQueriedRegion` | dynamicInventory.py:30-31 | when no region name contains `"us-"` no instance is visited, so the document gets no host |
| `InventoryModel.LastNameTagAbsent` | dynamicInventory.py:36-44 | with no tag list, an empty one, or no tag keyed `Name`, the scan leaves `tagName` as `""` |
| `InventoryModel.LastNameTagIsLast` | dynamicInventory.py:36-44 | when a tag keyed `Name` exists, the scan leaves `tagName` equal to the value of the last such tag |
| `DynamicInventory.NameTag` | dynamicInventory.py:36-44 | the loop over the tags computes exactly `LastNameTag` of the tag list, absent and empty lists giving `""` |
| `InventoryModel.HostIdsShape` | dynamicInventory.py:26 | the id list has one entry per visited instance, the `k`-th entry being the `k`-th instance's id, repeats included |
| `InventoryModel.HostIdsAppend` | dynamicInventory.py:26 | appending the ids of `a + b` is appending those of `a` and then those of `b` |
| `InventoryModel.RecordedAppend` | dynamicInventory.py:19-24 | writing the records of `a + b` is writing those of `a` and then those of `b` |
| `InventoryModel.RecordedKeys` | dynamicInventory.py:19-20 | after recording, the `hostvars` keys are the old keys plus exactly the recorded ids |
| `InventoryModel.RecordedShape` | dynamicInventory.py:20-24 | every record holds exactly `ansible_host`, `ansible_ssh_private_key_file = "~/.ssh/id_rsa"` and `ansible_ssh_user = "ubuntu"` |
| `InventoryModel.RecordedLastWins` | dynamicInventory.py:20-22 | a recorded id's `ansible_host` is the address of the last instance with that id: a later record replaces an earlier one |
| `InventoryModel.RecordedUntouched` | dynamicInventory.py:19-20 | a key that no recorded instance carries keeps its previous record, or stays absent |
| `InventoryModel.OutputIgnoresTags` | dynamicInventory.py:36-46 | two region lists that differ only in tags yield the same host list and the same host records: the `Name` tag scan has no effect |
| `InventoryModel.MissingAddressCase` | dynamicInventory.py:46 | an instance without a public address is still recorded, with `ansible_host` equal to the text `"None"` |
| `DynamicInventory.InventoryDocument.constructor` | dynamicInventory.py:10 | the document starts with no host records, no webservers host, no otherHosts host and no otherHosts vars |
| `DynamicInventory.InventoryDocument.GetHostDetails` | dynamicInventory.py:17-26 | `hostvars[id]` becomes exactly the three-variable record for the address, replacing any earlier one; `id` is appended to `webservers`; other keys, `otherHosts` and its vars are unchanged; the document invariant is kept |
| `DynamicInventory.InventoryDocument.RecordInstances` | dynamicInventory.py:35-46 | one region's instances are recorded in order: their ids are appended to `webservers` and their records written, nothing else changes |
| `DynamicInventory.InventoryDocument.ListEC2Hosts` | dynamicInventory.py:28-52 | `webservers` gains the ids of the visited instances in order; `hostvars` is the old map with their records written in order; `otherHosts` is unchanged; `otherVars` is exactly `{ansible_ssh_user: "ubuntu", ansible_ssh_private_key_file: "~/.ssh/id_rsa"}` |
| `DynamicInventory.BuildInventory` | dynamicInventory.py:10-52 | starting from the empty document, a run produces the visited ids in order as `webservers` and their records as `hostvars`, whose keys are exactly those ids; `otherHosts` is empty and `otherVars` is the static block |

## Left out

- Provider session, credential profile and region discovery (lines 12, 14): foreign SDK calls. The regions are an input sequence.
- `session.resource(...)`, `ec2.instances.all()` and the truthiness test on the returned collection (lines 32-34): network I/O through a library. Each region's instances are a given sequence, and an empty one is the same as the test failing.
- Errors raised by the provider: they come only from uncaught exceptions in the SDK, with no local handling.
- Command-line parsing and the `--list` gate (lines 54-61), JSON serialisation and printing (line 62): the model stops at the in-memory document.
- Tag entries without a `Key` or, for a `Name` tag, without a `Value`: the script would raise on `tag["Key"]` (line 40) or `tag["Value"]` (line 41). The model's tags always carry a key and a value.
- The order of the `hostvars` keys: the script's dictionary keeps insertion order (a re-recorded id keeps its first position) and `json.dumps` prints in that order. The model's `hostvars` is an unordered `map`, so it drops that order; the order of `webservers.hosts` is modelled.
