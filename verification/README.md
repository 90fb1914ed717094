# TEKSI Module Management Tool — module registry, modules and module versions

This project models the data layer of the TEKSI Module Management Tool plugin: the in-memory
`ModulesRegistry` that maps module names to `Module` records in insertion order, the `Module`
record with its constructor and `__repr__`, and `ModuleVersion`, built from a release object of
the source-hosting API, with its `display_name`.

Layout (one Dafny module per source file, plus helpers):

- `wrappers.dfy` — `Wrappers`: `Option`, `Result` and `Outcome`, used instead of Python exceptions.
- `json.dfy` — `Json`: decoded JSON values, the `Payload` dict, and Python truthiness on them.
- `module_version.dfy` — `ModuleVersions`: `ModuleVersion`, its construction from a payload, the
  inverse `ToPayload`, `DisplayName` and its inverse `SplitDisplayName`.
- `module.dfy` — `ModuleRecords`: `Module`, its constructor, `Repr` and the inverse `ParseRepr`.
- `modules_registry.dfy` — `ModulesRegistry`: the registry as a sequence of modules with one
  entry per name, and its four operations.
- `registry_properties.dfy` — `RegistryProperties`: the registry proved against a plain dict
  (`View`, a ghost map built by inserting each entry under its name) and the properties clients
  rely on.

The Python registry mutates a dict and raises. Here a registry is an immutable value. A mutating
call returns an `Effect`: the registry after the call, and `Pass` or `Fail(error)`. A call that
fails returns the registry it was given. `AlreadyRegistered` stands for the `ValueError` raised by
`register_module`. `NotRegistered` stands for the `KeyError` raised by `unregister_module` and
`get_module`. `Raised` gives the exception and its message text. `get_module` and `modules()` are
pure functions of the registry, so they never change it. `Run` applies a client's calls in turn,
and a call that raises leaves the registry as it was, as when the client catches the exception.

The `Module` record holds what the class's constructor sets: a name, a URL and a version list.

## Model

| member | source | states |
|---|---|---|
| `ModuleVersions.FromPayload` | plugin/teksi_module_management_tool/core/module_version.py:5-10 | succeeds exactly when no check fails: the four keys are present, the date is text or `null`, name and URL are text; then name, date and URL are the payload's own values and the flag is the truthiness of `prerelease`; on failure the error is the first failing check in the order the constructor makes them (`name`, `created_at` and its type, `prerelease`, `html_url`, then the types of name and URL) |
| `ModuleVersions.PayloadRoundTrip` | plugin/teksi_module_management_tool/core/module_version.py:5-10 | constructing from the release object a version is written to gives back that version |
| `ModuleVersions.FromPayloadIgnoresOtherKeys` | plugin/teksi_module_management_tool/core/module_version.py:5-10 | payloads that agree on the four keys the constructor reads build the same version or fail alike |
| `ModuleVersions.DisplayName` | plugin/teksi_module_management_tool/core/module_version.py:12-16 | the name is a prefix of the display name; the two differ exactly when the version is a prerelease, and then the rest is ` (prerelease)` |
| `ModuleVersions.SplitDisplayName` | plugin/teksi_module_management_tool/core/module_version.py:12-16 | every string is the display name of the name and flag it splits into; the flag is set exactly when the string ends in the marker |
| `ModuleVersions.DisplayNameRoundTrip` | plugin/teksi_module_management_tool/core/module_version.py:12-16 | a display name gives back name and flag, for prereleases and for names that do not end in the marker |
| `ModuleVersions.DisplayNameInjective` | plugin/teksi_module_management_tool/core/module_version.py:12-16 | two versions whose names do not end in the marker share a display name only when name and flag agree |
| `ModuleVersions.DisplayNameCollision` | plugin/teksi_module_management_tool/core/module_version.py:12-16 | a release named `n (prerelease)` and a prerelease named `n` have the same display name |
| `ModuleRecords.NewModule` | plugin/teksi_module_management_tool/core/module.py:2-5 | a new module has the first argument as name, the second (`version`) as URL, and no versions |
| `ModuleRecords.Repr` | plugin/teksi_module_management_tool/core/module.py:7-8 | the text starts with `Module(name=`, ends with `)`, shows the name right after the prefix, then `, url=`, and the URL right before the closing parenthesis, and is 19 characters longer than name and URL together |
| `ModuleRecords.ReprIgnoresVersions` | plugin/teksi_module_management_tool/core/module.py:7-8 | the representation does not depend on the version list |
| `ModuleRecords.ParseReprRoundTrip` | plugin/teksi_module_management_tool/core/module.py:7-8 | parsing a module's representation gives back its name and URL when the name holds no comma |
| `ModuleRecords.ReprOfParsed` | plugin/teksi_module_management_tool/core/module.py:2-8 | any text the parser accepts is the representation of a new module with the comma-free name and URL it read |
| `ModuleRecords.ReprInjective` | plugin/teksi_module_management_tool/core/module.py:7-8 | modules with comma-free names have the same representation only when name and URL agree |
| `ModuleRecords.ReprCollision` | plugin/teksi_module_management_tool/core/module.py:7-8 | with `, url=` inside a name, two different name and URL pairs have the same representation |
| `ModulesRegistry.IndexOf` | plugin/teksi_module_management_tool/core/modules_registry.py:19-22 | finds no position exactly when no module has the name; otherwise the position holds that name and no earlier one does |
| `ModulesRegistry.Empty` | plugin/teksi_module_management_tool/core/modules_registry.py:6-7 | a new registry is valid, has no entries and has no name registered |
| `ModulesRegistry.RegisterModule` | plugin/teksi_module_management_tool/core/modules_registry.py:9-12 | fails exactly when the name is taken, with `AlreadyRegistered(name)` and the registry unchanged; otherwise the module is appended; the name is registered afterwards and one-entry-per-name is kept |
| `ModulesRegistry.UnregisterModule` | plugin/teksi_module_management_tool/core/modules_registry.py:14-17 | fails exactly when the name is unknown, with `NotRegistered(name)` and the registry unchanged; otherwise the entry holding the name is removed; on a valid registry the result is valid and the name is gone |
| `ModulesRegistry.GetModule` | plugin/teksi_module_management_tool/core/modules_registry.py:19-22 | fails exactly when the name is unknown, with `NotRegistered(name)`; otherwise returns a registered module with that name |
| `ModulesRegistry.Modules` | plugin/teksi_module_management_tool/core/modules_registry.py:24-25 | one module per entry; every listed module's name is registered and every registered name is listed |
| `ModulesRegistry.Raised` | plugin/teksi_module_management_tool/core/modules_registry.py:9-21 | a duplicate raises `ValueError`, an unknown name `KeyError`; the message is `Module '`, the name, then `' is already registered.` for a duplicate or `' is not registered.` for an unknown name |
| `RegistryProperties.RaisedIdentifiesError` | plugin/teksi_module_management_tool/core/modules_registry.py:9-21 | different errors never raise the same exception with the same message |
| `RegistryProperties.GetMatchesView` | plugin/teksi_module_management_tool/core/modules_registry.py:19-22 | on a valid registry, `get_module` returns the dict's value for a key and `NotRegistered` for a name that is not a key |
| `RegistryProperties.RegisterUpdatesView` | plugin/teksi_module_management_tool/core/modules_registry.py:12 | a successful registration inserts the module into the dict under its name |
| `RegistryProperties.UnregisterRemovesFromView` | plugin/teksi_module_management_tool/core/modules_registry.py:17 | on a valid registry, a successful unregistration deletes exactly that key from the dict |
| `RegistryProperties.ModulesOnePerName` | plugin/teksi_module_management_tool/core/modules_registry.py:24-25 | `modules()` has as many modules as the dict has keys, no two with the same name, and each is what `get_module` returns for its name |
| `RegistryProperties.RegisterThenGet` | plugin/teksi_module_management_tool/core/modules_registry.py:9-22 | registering under an unused name succeeds and `get_module` then returns that module |
| `RegistryProperties.UnregisterThenGet` | plugin/teksi_module_management_tool/core/modules_registry.py:14-21 | unregistering a registered name succeeds and `get_module` then fails with `NotRegistered` |
| `RegistryProperties.RegisterFrame` | plugin/teksi_module_management_tool/core/modules_registry.py:9-22 | registering a module leaves `get_module` of every other name as it was |
| `RegistryProperties.UnregisterFrame` | plugin/teksi_module_management_tool/core/modules_registry.py:14-22 | unregistering a name leaves `get_module` of every other name as it was |
| `RegistryProperties.UnregisterKeepsOrder` | plugin/teksi_module_management_tool/core/modules_registry.py:14-25 | after unregistering, `modules()` is the earlier list with that module taken out and the rest in order |
| `RegistryProperties.ReRegisterGoesLast` | plugin/teksi_module_management_tool/core/modules_registry.py:9-25 | a name unregistered can be registered again; its module is then last in `modules()` and returned by `get_module` |
| `RegistryProperties.RunRefinesDict` | plugin/teksi_module_management_tool/core/modules_registry.py:6-25 | any sequence of calls keeps one entry per name and leaves the same dict as the same calls on a Python dict |
| `RegistryProperties.ReachableIsValid` | plugin/teksi_module_management_tool/core/modules_registry.py:6-17 | every registry reached from a new one by any calls has one entry per name |

## Left out

- ModuleVersions.FromPayload: refuses a `name` or `html_url` that is not a JSON string with `WrongType`. The Python constructor stores any value there: a `"name": null`, for example, is kept as `None`, and `display_name` returns it unchanged for a release. The model's fields are text, so such payloads are outside it. These two checks are the last in `Checks`, so every error the source raises is reported before them. A `created_at` that is neither text nor `null` is refused as well, because Qt's string conversion raises `TypeError` on it; `null` is accepted and stored as `None`.
- ModuleVersions.FromPayload: stores the truthiness of `prerelease`, not the raw value; the class only ever tests it with `if`.
- ModuleVersions.FromPayload: keeps `created_at` as its raw ISO-8601 text, or `None` for `null`. The call to `QDateTime.fromString` is a Qt library call and is not modelled.
- ModuleRecords.ParseRepr: splits at the first comma, so it refuses the representation of a name that holds a comma but no `, url=` (such as `a,b`), although that text has only one reading; the round-trip and injectivity lemmas therefore require comma-free names.
- JSON numbers are integers here. A payload with a fractional number, such as `"prerelease": 0.5`, which Python accepts and treats as true, is outside the model.
- Object identity: the Python registry holds references, and renaming a `Module` after it is registered would leave it under its old key. The model's modules are immutable values.
- `Module.versions` stays empty: no code among the modelled files fills it. `load_versions` and `latest_version`, used by the main dialog, are not defined in the `Module` class and are not modelled.
- The schema-migration engine (`PumConfig`, `SchemaMigrations`, `Upgrader`) comes from a vendored library that is not part of this model.
- `PackagePrepareTask` (download, zip extraction, cancellation on a worker thread), the dialogs, and the path, temp-directory, cursor and database-connection utilities are I/O, concurrency and GUI code, and are not modelled.
