# wimporter, modelled in Dafny

This project models the import pipeline of the TiddlyWeb plugin
`tiddlywebplugins.wimporter`. A user posts a TiddlyWiki by URL or by file
upload. The plugin creates a staging bag named `import-tmp-<uuid>` and puts
the wiki's tiddlers into it. The staging bag is restricted to the importing
user, unless that user is GUEST: a guest's bag keeps the open default
policy. It then shows a chooser listing the
staged titles and the bags the user may write to. When the user submits the
choice, the plugin copies the selected tiddlers, or all of them when none
are selected, into an existing or a newly created bag. Finally it deletes
the staging bag and redirects to the target's tiddler list.

Files:

- `wrappers.dfy`: `Option` and `Result`.
- `sorting.dfy`: Python's string order (code point by code point), an
  insertion sort standing for `sorted`, and duplicate-freedom.
- `policies.dfy`: a bag policy is an owner plus one allow-list per action.
  An empty list admits everyone, which is the default policy of a new bag.
  `Allows` is the write check. `Restricted` and `SetRestrictedPolicy` model
  `_set_restricted_policy`.
- `stores.dfy`: the store is a `Store` class. It holds a map from bag name
  to policy and a map from (bag name, title) to tiddler text. `Valid()` says
  every tiddler's bag exists. It also provides the store calls the plugin
  makes: put/get bag, put/get tiddler, list bags, list a bag's tiddlers, and
  delete bag (which also deletes the bag's tiddlers).
- `wimporter.dfy`: the plugin itself.
  - `MakeBag`, the ingestion methods `Ingest`, `ProcessFile` and
    `ProcessUrl`, the chooser (`ShowChooser`, `GetBags`), the commit
    (`CopySelected`, `CopyAll`, `ProcessChoices`) and the handler `Wimport`.
  - Specification functions used in the contracts: `Ingested` (the puts of
    one ingestion), `UrlTiddlers` (the fallback order), `Submitted` (the
    import branch), `Moved` (the copy into the target), `Resolve` and
    `Committed` (the whole commit as a function of the store's state).
  - Lemmas about those functions.

The imperative operations change the `Store` object in place. Each is
proved against a specification function of the old state. The properties
the plugin promises are then proved as lemmas about those functions.

Foreign calls become function-valued parameters:

- `importOne` for `import_one`
- `fetch` for `get_url_handle` plus reading the handle
- `parse` for `wiki_string_to_tiddlers`
- `bagUrl` for `bag_url`

The UUID drawn by `uuid4` is the `uuid` parameter. A precondition says the
generated name is not yet a bag.

Exceptions the handler catches become the upload form with the source's
message. Uncaught exceptions become `ServerError`, together with the state
the source leaves behind at that point. These are:

- any exception of a foreign call other than AttributeError, ValueError,
  OSError and URLError (the `Uncaught` error kind)
- a `KeyError` for a missing form field
- a `NoTiddlerError` for a selected title that is not staged
- a `NoBagError` when listing a staging bag that does not exist

Points worth knowing about the code:

- The redirect goes to the bag URL followed by `/tiddlers`.
- An empty `new_bag` also gets a generated `import-tmp-` name.
- The destination list leaves out every name starting with `import-tmp`,
  without the dash.
- A bag created through `new_bag` is created before the write check.
  `CreatedTargetIsWritable` shows the check then always passes. If a bag
  with that name already existed, no permission on it was checked. Its old
  policy has been replaced by one restricted to the user or, for GUEST, by
  the open default policy. `GuestNewBagOpensBag` shows that a guest can
  open any existing bag to everyone this way.

## Model

| member | source | states |
|---|---|---|
| Policies.Policy.WithConstraint | tiddlywebplugins/wimporter.py:175 | setting one constraint's allow-list changes that constraint only; the owner and the other constraints are kept |
| Policies.SetRestrictedPolicy | tiddlywebplugins/wimporter.py:163-176 | the loop over read/write/create/delete/manage yields exactly `Restricted(user, p)`: unchanged for GUEST; otherwise owner = user, each of the five = `[user]`, accept kept |
| Policies.RestrictedOwnership | tiddlywebplugins/wimporter.py:172-175 | for a non-guest user: owner is the user, each restricted action's list is exactly `[user]`, `accept` is untouched |
| Policies.RestrictedAllowsOnlyOwner | tiddlywebplugins/wimporter.py:163-176 | for a non-guest user, a restricted action is allowed to a user if and only if it is the owner |
| Policies.GuestUnrestricted | tiddlywebplugins/wimporter.py:169-171 | for GUEST the policy is left exactly as it was |
| Policies.CreatorMayWrite | tiddlywebplugins/wimporter.py:97-100 | a bag created by the importer always lets its creator write (guest or not) |
| Stores.Store.PutBag | tiddlywebplugins/wimporter.py:159 | the bag is created or its policy replaced; tiddlers untouched |
| Stores.Store.GetBag | tiddlywebplugins/wimporter.py:88-94 | the skinny get yields the bag's policy exactly when the bag exists |
| Stores.Store.PutTiddler | tiddlywebplugins/wimporter.py:151 | the tiddler is stored under (bag, title), overwriting; nothing else changes |
| Stores.Store.GetTiddler | tiddlywebplugins/wimporter.py:108-109 | the tiddler is found exactly when (bag, title) is stored, with its stored text |
| Stores.Store.ListBags | tiddlywebplugins/wimporter.py:189 | every bag name, each exactly once |
| Stores.Store.ListBagTiddlers | tiddlywebplugins/wimporter.py:113 | nothing for a missing bag; otherwise each stored tiddler of the bag exactly once, with its text |
| Stores.Store.DeleteBag | tiddlywebplugins/wimporter.py:116 | the bag and all of its tiddlers are gone; every other bag and tiddler is kept |
| Stores.Dropped | tiddlywebplugins/wimporter.py:116 | exactly the tiddlers of other bags remain, with their texts |
| Sorting.Sort | tiddlywebplugins/wimporter.py:201 | the result is sorted in Python's string order and is a permutation of the input |
| Sorting.SortedUnique | tiddlywebplugins/wimporter.py:201 | two sorted permutations of one list are equal, so `Sort` gives exactly what any correct `sorted` gives |
| Sorting.PermutationKeepsDistinct | tiddlywebplugins/wimporter.py:201 | sorting a duplicate-free list leaves it duplicate-free |
| Wimporter.ErrorMessage | tiddlywebplugins/wimporter.py:66-73 | definition; the caught kind's fixed prefix followed by the exception's text |
| Wimporter.ErrorMessageInjective | tiddlywebplugins/wimporter.py:65-73 | the form message of a caught import error determines both the exception kind and its text |
| Wimporter.MakeBag | tiddlywebplugins/wimporter.py:154-160 | the name is the requested one if non-empty, else `import-tmp-` + uuid, which was not a bag before; the bag is stored with `Restricted(user, default)`; tiddlers unchanged |
| Wimporter.StagingNamesAreMarked | tiddlywebplugins/wimporter.py:195 | every generated name starts with `import-tmp`, so staging bags never appear as destinations |
| Wimporter.FreshStagingBagIsEmpty | tiddlywebplugins/wimporter.py:155-159 | a newly generated staging bag starts with no tiddlers |
| Wimporter.Ingest | tiddlywebplugins/wimporter.py:149-151 | each tiddler is re-homed to the bag and put in order: the store becomes `Ingested(old, bag, ts)`; bags unchanged |
| Wimporter.IngestedKeys | tiddlywebplugins/wimporter.py:149-151 | after ingestion the bag holds its old titles plus exactly the parsed titles |
| Wimporter.IngestedElsewhereUnchanged | tiddlywebplugins/wimporter.py:149-151 | tiddlers of other bags, and unparsed titles, are unchanged |
| Wimporter.IngestedLastWins | tiddlywebplugins/wimporter.py:149-151 | of several parsed tiddlers with one title, the last one's text is stored |
| Wimporter.IngestedAppend | tiddlywebplugins/wimporter.py:59-62 | ingesting the URL's tiddlers and then the file's equals ingesting their concatenation |
| Wimporter.IngestionCompleteness | tiddlywebplugins/wimporter.py:144-151 | into an empty staging bag, the staged titles are exactly the distinct parsed titles |
| Wimporter.ProcessFile | tiddlywebplugins/wimporter.py:144-151 | a parse error is returned and stores nothing; otherwise all parsed tiddlers are ingested into the bag |
| Wimporter.StructuredImportFirst | tiddlywebplugins/wimporter.py:135-136 | when the structured import succeeds, its tiddlers are used and the raw fetch is never consulted |
| Wimporter.FallbackOnValueError | tiddlywebplugins/wimporter.py:137-141 | a ValueError from the structured import falls back to parsing the raw text fetched from the URL |
| Wimporter.OtherImportErrorsPropagate | tiddlywebplugins/wimporter.py:134-141 | any other structured-import error is raised without a fallback |
| Wimporter.ProcessUrl | tiddlywebplugins/wimporter.py:134-141 | the bag receives exactly `UrlTiddlers(...)` on success; on error that error is returned and nothing is stored |
| Wimporter.GetBags | tiddlywebplugins/wimporter.py:186-201 | exactly the bags the user may write to whose names do not start with `import-tmp`, each once, sorted by name |
| Wimporter.ShowChooser | tiddlywebplugins/wimporter.py:121-131 | the staging bag's titles, each once, sorted ascending, with the staging name, the fixed bag and the destination list |
| Wimporter.MovedStep | tiddlywebplugins/wimporter.py:110-111 | one more get-rehome-put of a staged title extends the copied set by that title |
| Wimporter.MovedKeepsSource | tiddlywebplugins/wimporter.py:107-111 | copying never changes which titles the staging bag holds nor their texts, even when the target is the staging bag |
| Wimporter.FirstMissing | tiddlywebplugins/wimporter.py:107-109 | the index of the first selected title not in the staging bag (or the count): all before it are staged, it is not |
| Wimporter.CopySelected | tiddlywebplugins/wimporter.py:105-111 | the selected titles up to the first unstaged one are copied into the target; success exactly when all are staged |
| Wimporter.CopyAll | tiddlywebplugins/wimporter.py:112-115 | every staged tiddler is copied into the target; fails, copying nothing, exactly when the staging bag does not exist |
| Policies.Allows | tiddlywebplugins/wimporter.py:100 | definition; the write check as an allow-list: an empty list admits anyone, otherwise the user must be listed |
| Policies.Restricted | tiddlywebplugins/wimporter.py:163-176 | definition; GUEST keeps the policy, anyone else becomes owner and sole member of the five restricted lists, `accept` kept |
| Wimporter.BagName | tiddlywebplugins/wimporter.py:155 | definition; the requested name if it is present and non-empty, else `import-tmp-` + uuid |
| Wimporter.Ingested | tiddlywebplugins/wimporter.py:149-151 | definition; the tiddler map after putting each parsed tiddler, in order, under the bag and its title |
| Wimporter.UrlTiddlers | tiddlywebplugins/wimporter.py:134-141 | definition; `import_one` first, and only on its ValueError the fetched raw text parsed as a wiki; other errors propagate |
| Wimporter.Submitted | tiddlywebplugins/wimporter.py:59-62 | definition; the `url` field is read, then ingested when non-empty, then the `file` field is read and parsed when it has a file name; a missing field stops with a KeyError |
| Wimporter.ImportFailure | tiddlywebplugins/wimporter.py:65-73 | definition; a caught exception gives the upload form with its message, any other one a server error |
| Wimporter.Moved | tiddlywebplugins/wimporter.py:107-115 | definition; each given title read from the staging bag and put under the same title into the target, other entries kept |
| Wimporter.Resolve | tiddlywebplugins/wimporter.py:86-97 | definition; a non-empty `target_bag` must exist, else `new_bag` must be present and names (or generates) a bag created with the restricted policy |
| Wimporter.Committed | tiddlywebplugins/wimporter.py:81-118 | definition; the whole commit: KeyError on `tmp_bag`, target resolution, write check, copy stopping at the first unstaged title, staging bag deleted, redirect to bag URL + `/tiddlers` |
| Wimporter.ProcessChoices | tiddlywebplugins/wimporter.py:81-118 | response and new store equal `Committed(old state, ...)`: resolve target, write check, copy, delete staging bag, redirect to bag URL + `/tiddlers` |
| Wimporter.FailedCommitChangesNothing | tiddlywebplugins/wimporter.py:87-103 | whenever a commit answers with the form (missing target or write denied), neither bags nor tiddlers have changed |
| Wimporter.CommitMissingTarget | tiddlywebplugins/wimporter.py:87-94 | a non-empty target that is not a bag gives "chosen bag does not exist" and an unchanged store |
| Wimporter.CommitWriteDenied | tiddlywebplugins/wimporter.py:99-103 | a resolved target whose policy denies write gives "you may not write to that bag"; staging bag, its tiddlers and the target are unchanged |
| Wimporter.CreatedTargetIsWritable | tiddlywebplugins/wimporter.py:95-103 | a target created from `new_bag` always passes the write check and carries the restricted policy, even if that bag existed |
| Wimporter.GuestNewBagOpensBag | tiddlywebplugins/wimporter.py:95-100 | a guest naming an existing bag in `new_bag` passes the write check, and that bag's policy becomes the open default policy, which allows every user every action |
| Wimporter.SelectiveCommit | tiddlywebplugins/wimporter.py:105-118 | with a staged selection: redirect; the bag map is the resolved one minus the staging bag (target kept, other policies kept); each selected tiddler is in the target under its title; target's other titles and other bags' tiddlers unchanged; staging bag and all its tiddlers gone |
| Wimporter.FullCommit | tiddlywebplugins/wimporter.py:112-118 | with no selection: redirect; the bag map is the resolved one minus the staging bag (target kept, other policies kept); every staged tiddler is in the target; target's other titles and other bags' tiddlers unchanged; staging bag gone |
| Wimporter.CommitStopsAtMissingTitle | tiddlywebplugins/wimporter.py:107-111 | an unstaged selected title ends in a server error with the earlier titles copied and the staging bag and its tiddlers still present |
| Wimporter.Wimport | tiddlywebplugins/wimporter.py:54-78 | `url`/`file` wins over `target_bag`: the staging bag exists afterwards whatever ingestion does; the response is the chooser, the caught error's message or a server error; otherwise commit; otherwise "missing field info" |

## Left out

- WSGI and `cgi.FieldStorage` parsing are not modelled: the form arrives as already-parsed optional fields.
- The `entitle`/`do_html` decorators, templates and `init`'s route registration are web plumbing and are not modelled. The `interface` GET handler only renders the form and is left out for the same reason. `_send_wimport` becomes the `FormPage` value, carrying the query's `bag` and the message.
- Network access and file handles (`urllib2`, `get_url_handle`, `read`, `close`) are I/O. A fetch is the `fetch` parameter, and an upload is its decoded text.
- The internals of `import_one` and `wiki_string_to_tiddlers` are foreign code and become parameters. `import_one` is taken to store all the tiddlers it returns, or none when it raises.
- UTF-8 decoding with `replace` or `ignore` is a codec detail. Names, titles and texts are already-decoded strings.
- `uuid4` is randomness. It is the `uuid` parameter, with the precondition that the generated name is not already a bag.
- `Policy.allows` is reduced to an allow-list: an empty list admits anyone, otherwise the user must be listed. Roles, `ANY` and `NONE` are left out. `ForbiddenError` and `UserRequiredError` both lead to the same branch.
- `bag_url` and its URL encoding belong to tiddlyweb and are the `bagUrl` parameter.
- `filter_tiddlers(..., 'sort=title')` belongs to tiddlyweb and is not part of this model. The chooser's order is taken as case-sensitive code-point order.
- Tiddlers carry only title, bag and text. Other tiddler fields are copied along by the source and are not modelled.
- `list_bag_tiddlers` is assumed to return the stored tiddlers with their texts. tiddlyweb's store is not part of this model; if it listed title-only tiddlers, the full commit would copy them without their texts, which the model does not capture.
- Wimporter.ShowChooser: requires the staging bag to exist. Its only caller has just created it. The source's refreshing `store.get` would raise otherwise.
- Wimporter.ProcessUrl: store failures inside `import_one` part-way through are not modelled.
- Concurrent submissions on the same staging bag, and store failures other than the missing bag or tiddler cases above, are left out.
