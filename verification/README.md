# pyupdate version reconciliation, in Dafny

This project models the core of pyupdate's three add-on updaters: custom
cards (`CustomCards`), custom components and python scripts. The last two are
the same code over a different catalog, so one module (`Packages`) models
both, with a `Kind` parameter.

Each updater does three things:
- It fetches one or more JSON manifests and merges them into a catalog.
- It works out what is installed: from the Lovelace resource list and the
  card store for cards, and from a version line in each package's file for
  components and scripts.
- It reports the packages that have an update, and upgrades them by
  downloading their files again.

All I/O is an input to the model:
- the manifests as fetched, with `None` for a failed request;
- the files as sequences of lines;
- the card store file;
- the resource URLs.

Every operation is a pure function. It returns its result, with the Python
exception that escapes as an `Err`, together with the new state and the
ordered trace of its outside effects: catalog fetches, downloads and package
installs.

Modules, leaves first:

- `Wrappers`: `Option` and `Result`.
- `Effects`: the escaping exceptions (`KeyError`, `TypeError`,
  `AttributeError`) and the actions.
- `Text`: Python's `str.split`, `join`, `replace`, negative slices and `\s`,
  with Python semantics.
- `Catalog`: manifest entries, and the merge into an insertion-ordered dict.
- `CardStore`: `local_data`, the JSON file of per-card records.
- `CardResources`: local card names and directories derived from resource
  URLs, and the companion-script URLs.
- `Sensor`: the sensor dict all three `get_sensor_data` loops build. Package
  names share the dict's key space with `domain` and `has_update`.
- `VersionLine`: the `VERSION`/`__version__` and `REQUIREMENTS` line
  matchers, stated as string functions.
- `CustomCards`: the cards updater. It carries its cached catalog and its
  local card list as state.
- `Packages`: the components and python scripts updaters.

Behaviour of the code worth noting, which the model reproduces:
- **Loops stop at the first exception.** An upgrade loop stops at the first
  exception rather than skipping a failed package.
- **Companion downloads are unconditional.** A card's companion downloads are
  emitted every time, not as optional steps.
- **The version line is not rewritten.** `update_resource_version` only
  writes the card store.
- **Local version uses the last match.** `get_local_version` reports the last
  matching line.
- **Cards with no directory are never listed.** A card whose directory is
  unknown gets no status entry, so a listed card never has `not_local` set.
- **A missing component file still counts as `has_update`.** For such a
  component `has_update` is true, and `not_local` is also true.
- **`update_all` on cards can write to the store.** Even with nothing to
  upgrade, `get_card_dir` may store directories while the sensor data is
  computed.

## Model

| member | source | states |
|---|---|---|
| Catalog.ParseEntry | pyupdate/ha_custom/custom_components.py:19-32 | a manifest item becomes an entry exactly when every required key is present (cards need no `local_location`), and the entry carries the item's name, version, locations, repository link and changelog |
| Catalog.PutNames | pyupdate/ha_custom/custom_cards.py:79 | assigning a key already in the dict keeps every name in place; a new key goes last |
| Catalog.PutLookup | pyupdate/ha_custom/custom_cards.py:79 | after `remote_info[name] = entry` the name maps to the new entry and every other name to its old one |
| Catalog.PutValid | pyupdate/ha_custom/custom_cards.py:79 | assigning a key keeps the names of the dict distinct |
| Catalog.MergeValid | pyupdate/ha_custom/custom_cards.py:65-84 | the merged catalog never holds a name twice |
| Catalog.MergeLookup | pyupdate/ha_custom/custom_cards.py:67-83 | last writer wins: the entry stored under a name is the last complete entry with that name over all sources, in fetch order |
| Catalog.MergeNames | pyupdate/ha_custom/custom_cards.py:67-83 | the catalog's names are the fetched names in order of first appearance, each once |
| Catalog.MergeKeepsPositions | pyupdate/ha_custom/custom_cards.py:67-83 | assigning further entries never moves a name already in the dict |
| Catalog.FailedSourceContributesNothing | pyupdate/ha_custom/custom_cards.py:68-83 | a source whose request failed leaves the catalog exactly as if it had not been listed |
| Catalog.IncompleteEntrySkipped | pyupdate/ha_custom/custom_cards.py:72-81 | an item missing a required key is skipped, and the rest of its manifest and the later manifests are still read |
| Catalog.LaterSourceWins | pyupdate/ha_custom/custom_components.py:15-34 | a name defined by later sources takes their data; any other name keeps the data from the earlier sources |
| Catalog.EarlierNamesKeepPositions | pyupdate/ha_custom/python_scripts.py:15-34 | names fetched from earlier sources keep their positions when later sources redefine them |
| CardStore.Set | pyupdate/ha_custom/custom_cards.py:297-305 | a `set` writes only the fields given as non-`None`, keeps the card's other field, changes no other card, and leaves a readable store even when the file was missing or corrupt |
| CardStore.SetIdempotent | pyupdate/ha_custom/custom_cards.py:297-305 | writing the same fields twice is the same as writing them once |
| CardStore.SetCommutes | pyupdate/ha_custom/custom_cards.py:297-305 | writes to different cards commute |
| CardStore.SetNothing | pyupdate/ha_custom/custom_cards.py:298-303 | a `set` with neither field given changes no card as read back |
| CardResources.Head | pyupdate/ha_custom/custom_cards.py:234 | `s[:n]` is a prefix of `s` of length `n`, or all of `s` when shorter |
| CardResources.IsRemoteIsPrefix | pyupdate/ha_custom/custom_cards.py:234 | the `url[:4] == 'http'` test is exactly "the URL starts with `http`" |
| CardResources.ResourceName | pyupdate/ha_custom/custom_cards.py:236 | a resource's name is its last path segment up to the first `.js`, or the whole segment when it has none; it contains no `.js` |
| CardResources.ResourceNameOf | pyupdate/ha_custom/custom_cards.py:353 | a local URL `prefix/name.js…` whose name has no `/` or `.js` names the card `name` |
| CardResources.FindCardUrl | pyupdate/ha_custom/custom_cards.py:233-239 | the URL found is the first local resource whose name is the card's, and none is found only when no local resource has that name |
| CardResources.FindCardUrlLocal | pyupdate/ha_custom/custom_cards.py:233-239 | `get_card_dir` finds a resource exactly when the card is among the names `localcards` lists |
| CardResources.WwwPathUnguarded | pyupdate/ha_custom/custom_cards.py:244-247 | the two `in` guards change nothing: the path is two plain `replace` calls |
| CardResources.CardDirFile | pyupdate/ha_custom/custom_cards.py:249-250 | the stored directory followed by `name.js` starts the rewritten path, and the directory contains no `name.js` |
| CardResources.CompanionUrls | pyupdate/ha_custom/custom_cards.py:189-199 | for a script `stem.js` the companions are `stem.lib.js` and `stem-editor.js`; for a URL shorter than three characters the slice leaves only the suffix |
| Text.BeforeFirst | pyupdate/ha_custom/custom_cards.py:250 | `s.split(pat)[0]` is the prefix of `s` that ends at the first `pat`, or all of `s` when there is none |
| Text.AfterLast | pyupdate/ha_custom/custom_cards.py:236 | `s.split(sep)[-1]` is the suffix of `s` after the last `sep`, or all of `s` |
| Text.JoinSplit | pyupdate/ha_custom/custom_components.py:135 | joining the pieces of `split(' ')` with single spaces gives the string back |
| Text.ReplaceCharDeletes | pyupdate/ha_custom/custom_components.py:128-131 | `replace(c, '')` deletes every copy of `c` and nothing else |
| Text.DropLast | pyupdate/ha_custom/custom_cards.py:189 | `s[:-n]` drops the last `n` characters, leaving nothing when `s` is shorter |
| Text.SkipSpace | pyupdate/ha_custom/custom_components.py:110 | `\s*` removes a run of whitespace and stops at the first other character |
| Text.SkipSpacePrefix | pyupdate/ha_custom/custom_components.py:110 | `\s*` in front of whitespace followed by a non-space consumes exactly that whitespace |
| CustomCards.GetInfoAllCards | pyupdate/ha_custom/custom_cards.py:58-86 | without `force` a cached catalog is returned with no fetch; otherwise one fetch, whose merged result is cached |
| CustomCards.GetInfoCached | pyupdate/ha_custom/custom_cards.py:62-64 | after any call, asking again without `force` returns the same catalog and fetches nothing |
| CustomCards.EnsureLocalCardsStable | pyupdate/ha_custom/custom_cards.py:113-114 | listing the local cards a second time changes nothing; the list stays empty only when no resource is local; a freshly listed card is exactly one whose directory `get_card_dir` can find |
| CustomCards.GetCardDir | pyupdate/ha_custom/custom_cards.py:218-253 | the stored directory is returned unless forced; otherwise one is found exactly for a local card, and it is the first matching resource URL rewritten to `www`, after the configuration directory, cut before `name.js`; it is then stored, with no write when none is found; no version and no other card changes |
| CustomCards.GetCardDirCached | pyupdate/ha_custom/custom_cards.py:223-227 | once a directory has been found, asking again without forcing returns it and writes nothing |
| CustomCards.GetRemoteVersion | pyupdate/ha_custom/custom_cards.py:263-269 | the remote version is present exactly for a catalog card, and is that card's version |
| CustomCards.CountedCards | pyupdate/ha_custom/custom_cards.py:123-136 | the counted cards are exactly the installed cards with a known directory whose remote version is non-empty and differs from the stored one, in catalog order; no listed card has `not_local` set |
| CustomCards.SensorLoopRows | pyupdate/ha_custom/custom_cards.py:122-144 | the loop equals the sensor fold over rows computed from the store as it was before the loop, although `get_card_dir` writes to it on the way |
| CustomCards.SensorLoopStore | pyupdate/ha_custom/custom_cards.py:131 | the sensor loop never changes a stored version |
| CustomCards.SensorLoopOthers | pyupdate/ha_custom/custom_cards.py:123-125 | the sensor loop writes no card that is not installed or not in the catalog |
| CustomCards.GetSensorDataSpec | pyupdate/ha_custom/custom_cards.py:110-146 | the sensor data is the fold over the installed cards' rows in catalog order; at most one fetch; the catalog is cached and no stored version changes |
| CustomCards.RowsDistinct | pyupdate/ha_custom/custom_cards.py:123-137 | the status entries of a catalog are for distinct names |
| CustomCards.UpgradeSingleSpec | pyupdate/ha_custom/custom_cards.py:169-181 | an upgrade raises `KeyError` without a catalog entry and `TypeError` without a directory, changing nothing else. Otherwise it downloads the script, library and editor in that order, records the catalog version and the directory, and changes no other card |
| CustomCards.UpgradeSingleOk | pyupdate/ha_custom/custom_cards.py:173-180 | the upgrade of a catalog card with a known directory is its three downloads, with the version written to the store the directory lookup left |
| CustomCards.CompanionsOk | pyupdate/ha_custom/custom_cards.py:183-216 | `upgrade_lib`, `upgrade_editor` and `update_resource_version` download the two companions and set only the version |
| CustomCards.ScriptCached | pyupdate/ha_custom/custom_cards.py:187-191 | with the catalog cached and the directory stored, a download step fetches nothing and writes nothing |
| CustomCards.UpgradeAllVersions | pyupdate/ha_custom/custom_cards.py:155-156 | when the loop succeeds, each listed card holds its catalog version; other cards keep their versions; the cached catalog is reused throughout |
| CustomCards.UpdatableMembers | pyupdate/ha_custom/custom_cards.py:123-136 | a counted card is installed, in the catalog and has a known directory |
| CustomCards.SensorLoopDirs | pyupdate/ha_custom/custom_cards.py:126-128 | when the sensor loop completes, every installed catalog card has stored the directory a lookup before the loop finds |
| CustomCards.UpgradeAllCached | pyupdate/ha_custom/custom_cards.py:155-156 | with the catalog cached and every listed card in it with a stored directory, the upgrade loop cannot fail and performs exactly each card's three downloads, in list order |
| CustomCards.SensorReady | pyupdate/ha_custom/custom_cards.py:110-152 | after the sensor data, `has_update` lists the counted cards, each in the cached catalog with its directory stored |
| CustomCards.UpdateFromSpec | pyupdate/ha_custom/custom_cards.py:152-157 | after the sensor data, the listed cards are upgraded and the catalog is then fetched afresh; an empty list costs exactly that one fetch |
| CustomCards.UpdateFromCached | pyupdate/ha_custom/custom_cards.py:152-157 | when every listed card is in the cached catalog with a stored directory, the rest of `update_all` cannot fail and its trace is their downloads in order, then the fetch |
| CustomCards.UpdateAllSpec | pyupdate/ha_custom/custom_cards.py:148-159 | without an installed card called `has_update`, `update_all` succeeds; its trace is the sensor's fetch if any, the three downloads of each counted card in catalog order, then a fresh fetch; the counted cards hold their catalog versions and other cards keep theirs |
| CustomCards.ForceReloadSpec | pyupdate/ha_custom/custom_cards.py:161-167 | a reload fetches exactly once, caches the fresh catalog and changes no stored version |
| CustomCards.InitLoopOthers | pyupdate/ha_custom/custom_cards.py:96-97 | the `init_local_data` loop writes no card that is not installed or not in the catalog |
| CustomCards.CarryFrame | pyupdate/ha_custom/custom_cards.py:95-103 | the loop variable depends on the store only through the records of the cards it visits |
| CustomCards.InitLoopVersions | pyupdate/ha_custom/custom_cards.py:95-108 | every installed card gets the version chosen from its own stored record and the loop variable left by the cards before it |
| CustomCards.InitLoopDirs | pyupdate/ha_custom/custom_cards.py:104-108 | every installed card gets the directory a forced lookup finds, keeping the stored one when none is found |
| CustomCards.CarryAppend | pyupdate/ha_custom/custom_cards.py:95-102 | the loop variable over two stretches of cards is the one over the second, started from its value after the first |
| CustomCards.CarryKept | pyupdate/ha_custom/custom_cards.py:95-102 | as written, the loop variable survives every installed card that already has a stored version |
| CustomCards.InitLocalDataSpec | pyupdate/ha_custom/custom_cards.py:88-108 | an installed card with no stored version gets its own remote version, a stored version is never erased, and the directory is the one a forced lookup finds. Nothing else changes and at most one fetch happens |
| CustomCards.InitVersionCarries | pyupdate/ha_custom/custom_cards.py:95-108 | as written, an installed card with a stored version receives the remote version of the last earlier installed card that had none, when every installed card between them has one |
| CustomCards.CarryFrom | pyupdate/ha_custom/custom_cards.py:95-102 | the loop variable before card `b` is the remote version of the last earlier installed card `a` without a stored version |
| CustomCards.InitIntendedKeepsVersions | pyupdate/ha_custom/custom_cards.py:96-108 | in the corrected loop a stored version is kept, and a missing one becomes the card's own remote version |
| CustomCards.InitCarryExample | pyupdate/ha_custom/custom_cards.py:95-108 | card `a` (remote 2, nothing stored) followed by card `b` (1 stored): as written `b` ends at 2, as intended at 1 |
| Sensor.FoldList | pyupdate/ha_custom/custom_components.py:54-58 | while `has_update` holds a list, the loop cannot fail; it appends exactly the counted names in order and counts them |
| Sensor.AddRowList | pyupdate/ha_custom/custom_components.py:56-66 | one iteration on an intact list appends the name of a counted row and nothing else |
| Sensor.FoldKeys | pyupdate/ha_custom/custom_components.py:59 | the keys after the loop are those before it plus every listed name |
| Sensor.FoldValues | pyupdate/ha_custom/custom_components.py:59-66 | each listed name maps to its status, and every other key except `has_update` keeps its value |
| Sensor.BuildShape | pyupdate/ha_custom/python_scripts.py:42-66 | without a package called `has_update`: the list holds the counted names in order, the count is their number, the keys are `domain`, `has_update` and the listed names, and each maps to its status |
| Sensor.FoldFails | pyupdate/ha_custom/python_scripts.py:56-59 | from any intermediate dict, the loop raises exactly when a counted package comes after the list was replaced |
| Sensor.BuildFails | pyupdate/ha_custom/python_scripts.py:42-59 | `get_sensor_data` raises exactly when a counted package follows a listed package called `has_update` |
| VersionLine.LineRest | pyupdate/ha_custom/custom_components.py:110 | `.` matches up to the first newline |
| VersionLine.LastQuote | pyupdate/ha_custom/custom_components.py:110 | the greedy `(.*)['"]` stops at the last quote, with no quote after it |
| VersionLine.LastQuoteAt | pyupdate/ha_custom/custom_components.py:110 | a quote followed by quote-free text is the last quote |
| VersionLine.CaptureParts | pyupdate/ha_custom/custom_components.py:110 | a capture is followed by a closing quote and quote-free text |
| VersionLine.MatchVersionComplete | pyupdate/ha_custom/custom_components.py:110-114 | every line `VERSION`/`__version__`, spaces, `=`, spaces, quote, value, quote, then no quote on that line, matches and captures the value |
| VersionLine.MatchVersionSound | pyupdate/ha_custom/custom_components.py:110-114 | every match comes from a line of that shape |
| VersionLine.ScanVersionLastMatch | pyupdate/ha_custom/custom_components.py:111-114 | the last matching line wins |
| VersionLine.ScanVersionNoMatch | pyupdate/ha_custom/python_scripts.py:105-108 | without a matching line the result is what it was |
| VersionLine.LocalVersionSpec | pyupdate/ha_custom/python_scripts.py:99-109 | `''` for a missing file or one with no match, otherwise the capture of the last matching line |
| VersionLine.CleanRequirementsDeletes | pyupdate/ha_custom/custom_components.py:128-131 | cleaning deletes exactly the characters `[`, `]`, `,` and `'` |
| VersionLine.ScanRequirementsLastMatch | pyupdate/ha_custom/custom_components.py:124-132 | the last `REQUIREMENTS` line wins, cleaned |
| VersionLine.ScanRequirementsNoMatch | pyupdate/ha_custom/custom_components.py:124-132 | without a `REQUIREMENTS` line nothing is recorded |
| VersionLine.RequirementsSpec | pyupdate/ha_custom/custom_components.py:118-137 | no file or no matching line installs nothing; otherwise the last line, cleaned, is cut at every single space: no piece holds a space and the pieces join back to it |
| VersionLine.RequirementsLast | pyupdate/ha_custom/custom_components.py:134-137 | the pieces installed for the last matching line hold no space and join back with single spaces to its cleaned value |
| Packages.Remote | pyupdate/ha_custom/custom_components.py:12-36 | the catalog fetched has distinct names |
| Packages.Rows | pyupdate/ha_custom/custom_components.py:47-66 | one status row per catalog entry, in catalog order, each from the package's own file |
| Packages.CountedUpdatable | pyupdate/ha_custom/custom_components.py:51-58 | the counted packages are exactly the installed ones whose remote version is non-empty and differs from the installed one, in catalog order, whatever `show_installable` is |
| Packages.VisibleShown | pyupdate/ha_custom/custom_components.py:54-55 | a package is listed exactly when its remote version is non-empty and it is installed or installable packages are shown |
| Packages.RowsDistinct | pyupdate/ha_custom/python_scripts.py:47-59 | the rows of a catalog have distinct names |
| Packages.GetSensorDataSpec | pyupdate/ha_custom/custom_components.py:39-68 | without a listed `has_update` package: the list and count are the updatable packages, the keys are `domain`, `has_update` and the listed packages, and each maps to its status as stated. One fetch and no file change |
| Packages.BuildRows | pyupdate/ha_custom/python_scripts.py:39-68 | the same for any catalog with distinct names |
| Packages.ShownEntry | pyupdate/ha_custom/python_scripts.py:54-55 | in a catalog, a listed name is listed because of its own entry |
| Packages.UpgradeSpec | pyupdate/ha_custom/custom_components.py:83-91 | a name missing from the catalog raises `KeyError` after the fetch and changes nothing. Otherwise the one download comes right after the fetch and replaces only the package's file; a script installs nothing; a component installs the requirements read from the file now at that path |
| Packages.ComponentRequirements | pyupdate/ha_custom/custom_components.py:118-137 | the packages installed after a component download are the downloaded file's last `REQUIREMENTS` line, cleaned, cut at every single space (no package holds a space, and they join back to the line); none without such a line |
| Packages.ServedInstalls | pyupdate/ha_custom/custom_components.py:88-90 | a component's requirements are read from the file its URL serves |
| Packages.UpgradeEntry | pyupdate/ha_custom/python_scripts.py:83-90 | upgrading a catalog entry succeeds and downloads its file once |
| Packages.UpgradeAllDownloads | pyupdate/ha_custom/custom_components.py:77-78 | upgrading a list of catalog entries succeeds and downloads exactly their files, in list order |
| Packages.UpgradeOutcome | pyupdate/ha_custom/custom_components.py:86 | an upgrade fails exactly for a name missing from the catalog, with `KeyError` |
| Packages.UpgradeAllSucceeds | pyupdate/ha_custom/python_scripts.py:77-78 | the loop succeeds exactly when every listed name is in the catalog |
| Packages.UpgradeAllFails | pyupdate/ha_custom/custom_components.py:77-78 | otherwise it raises `KeyError` for the first name missing from the catalog |
| Packages.ScriptsInstallNothing | pyupdate/ha_custom/python_scripts.py:83-90 | script upgrades never install a package |
| Packages.UpdatableIn | pyupdate/ha_custom/custom_components.py:51-58 | every updatable package is a catalog entry |
| Packages.UpdateAllSpec | pyupdate/ha_custom/custom_components.py:71-80 | without a listed `has_update` package, `update_all` succeeds and downloads exactly the updatable packages' files in catalog order, after one fetch; with none updatable it only fetches |
| Packages.ScriptsUpdateInstallsNothing | pyupdate/ha_custom/python_scripts.py:71-80 | `update_all` on scripts installs nothing |
| Packages.InstallKey | pyupdate/ha_custom/python_scripts.py:93-96 | without a listed `has_update` package, the sensor dict `install` consults succeeds after one fetch and has `name` as a key exactly for `domain`, `has_update` and catalog packages with a non-empty remote version |
| Packages.InstallSpec | pyupdate/ha_custom/python_scripts.py:93-96 | `install` upgrades exactly the catalog packages with a non-empty remote version, plus the names `domain` and `has_update`; any other name only costs the fetch |
| Packages.ShownAll | pyupdate/ha_custom/custom_components.py:96 | with installable packages shown, every name with a non-empty remote version is listed |

## Left out

- HTTP requests, file reads and writes, and JSON parsing are not modelled as code. The model takes their results as inputs: the manifests as fetched, file contents as lines, the card store as read. Downloads and package installs are actions in the trace.
- The YAML `Loader` and its `!include` constructor, and the parsing in `storage_resources`/`yaml_resources`, are not part of this model. The model takes the resource list as a list of URLs per Lovelace mode.
- `common.py` only supplies the manifest URLs, which are an input here.
- `common.download_file` is modelled by the `served` map: the file becomes what its URL serves, or stays as it was. A failing download is not modelled.
- `common.normalize_path` is not part of this model. `local_location` holds its result.
- `common.update` is the `InstallPackage` action.
- The cards `install` is left out. Its `await self.get_sensor_data()[0]` subscripts a coroutine, so it always raises `TypeError` before doing anything.
- Packages.InstallSpec: assumes the directory creation in the components `install` succeeds. When `os.mkdir` raises (the parent directory is missing, or the path exists as a file), the code stops before any download; that error path is not modelled, and the model downloads regardless.
- Async scheduling and logging are left out: the code is sequential.
- `self.py` (a pip call) and `setup.py` (packaging) are left out.
- General regular expressions are not modelled. The two line patterns are stated directly as string functions, with `\s` as `str.isspace` and `.` stopping at a newline.
- Remote JSON values are taken to be strings. A `version` of JSON `null` or a number is not modelled.
- For cards, an absent stored `version` and one stored as JSON `null` both read as `None`.
- `has_update` is a boolean. In Python, `remote and remote != local` evaluates to `''` when the remote version is empty. Such rows are never listed, so no status dict stores that value.
- CustomCards.UpdateAllSpec: stated only when no installed card is called `has_update`. The other case is covered by Sensor.BuildFails.
- Packages.GetSensorDataSpec: stated only when no listed package is called `has_update`. The other case is covered by Sensor.BuildFails.
- Packages.UpdateAllSpec: stated only when no listed package is called `has_update`. The other case is covered by Sensor.BuildFails.
- Packages.UpdateAllSpec: every fetch within one operation returns the same manifests. The code fetches again in each `upgrade_single`; if a manifest fails, or drops a name, between the sensor's fetch and that one, the code raises `KeyError`, which the model does not show. Packages.UpgradeAllSucceeds rests on the same assumption.
- Packages.InstallSpec: stated only when no listed package is called `has_update`. The other case is covered by Sensor.BuildFails.
- CustomCards.InitLocalDataSpec: says only that a stored version stays present, not what it becomes. The value is given by CustomCards.InitVersionCarries and CustomCards.InitIntendedKeepsVersions.

## Findings

| source | as written | input that shows it | evidently intended | confidence | as-written member | corrected member |
|---|---|---|---|---|---|---|
| pyupdate/ha_custom/custom_cards.py:95-108 | `version` is set to `None` once, before the loop, and only reassigned for cards with no stored version. A card that already has a stored version is written with whatever the loop variable holds. | catalog `a` (version 2), `b` (version 1), both installed; store holds version 1 for `b` only. `b` is written with version 2. | each card writes only its own remote version, and only when none is stored | not executed | CustomCards.InitLocalData (CustomCards.InitVersionCarries, CustomCards.InitCarryExample) | CustomCards.InitLocalDataIntended (CustomCards.InitIntendedKeepsVersions) |
