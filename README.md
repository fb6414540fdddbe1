# Translation tooling, locale routing and auth cookies: a Dafny model

This project models the parts of the web application that can be stated as
sequential logic:

- **Translation-file tools** (`frontend/messages/tools`):
  - `merge_json.py` merges a new translation file `xx.json` into its base
    copy and sorts the result by key.
  - `prune_copies.py` cuts every other `copy_??.json` down to the groups and
    items of a chosen base copy.
  - `copy_json_files.py` snapshots `xx.json` to `copy_xx.json` and restores
    it back.
- **Locale handling in the front end**:
  - the language selectors read the locale from the path and swap it
    (`LanguageSelector.tsx`, `LanguageSelector3.tsx`);
  - the locale switcher rewrites the path (`LocaleSwitcher.tsx`);
  - the middleware resolves the request locale (`proxy.ts`);
  - the server-side locale detection (`i18n/request.ts`).
- **Backend account rules**:
  - the user manager's defaults and validation (`backend/users/models.py`);
  - the JWT views that move tokens between response bodies and HTTP-only
    cookies (`backend/users/views.py`).

## Modules

Each source file is one module. The shared helpers are:

- `Text`: an `Option` type, ASCII case mapping, JavaScript string length
  in UTF-16 code units, and the code-point order
  Python uses to sort strings.
- `Segments`: JavaScript's `split`/`join` on one character, with their
  round-trip lemmas.
- `JsonModel`: JSON values whose objects are ordered member lists, because
  a Python `dict` keeps insertion order and `sort_json` sorts it.
- `Routing`: the next-intl configuration (mode, locales, default locale),
  taken as parameters, plus the Accept-Language parsing shared by the
  middleware and the request detection.

How each kind of source code is modelled:

- Code that changes state is written as methods:
  - the merge loops;
  - the directory loops of the three tools;
  - the middleware and request locale chains;
  - the user-creation keyword defaults;
  - the response cookie jar.
- Each of these methods is proved against a specification predicate or
  function. Examples: `GroupsMerged` for `merge_json`, `Processed` for the
  prune loop, `WithToken` for the cookie views.
- Code that is pure is written as functions with lemmas: `sort_json`,
  `prune_to_base`, the file-name mappings, and the path functions.
- The selectors' component state is a class whose methods update its fields:
  `LanguageSelector.Selector`, `LanguageSelector3.DropDownMenu`,
  `UserViews.Response`.

`inferCurrentLocale`, `swapLocaleInPath` and the flag and label tables are
identical in `LanguageSelector.tsx` and `LanguageSelector3.tsx`. They are
defined once, in module `LanguageSelector`, and `LanguageSelector3` imports
them.

## Model

| member | source | states |
|---|---|---|
| JsonModel.Lookup | frontend/messages/tools/merge_json.py:119 | a key is found exactly when it is one of the object's keys |
| JsonModel.Assign | frontend/messages/tools/merge_json.py:121 | `d[k] = v`: the key then holds `v`; every other key keeps its value; existing keys keep their positions; a new key is appended; keys stay unique |
| MergeJson.MergeItems | frontend/messages/tools/merge_json.py:131-134 | the items of one new group go into a dict base group: nothing is lost or moved; new items are added; a shared item takes the new value only with `overwrite` |
| MergeJson.Merge | frontend/messages/tools/merge_json.py:104-136 | the result follows `GroupsMerged`. Base groups keep their places, and the keys are base ∪ dict keys of `new_data`. Per group: a non-dict offer is skipped; an absent group is added whole; a non-dict base group is kept, or replaced with `overwrite`; a dict base group has its items merged |
| MergeJson.MergeRemovesNothing | frontend/messages/tools/merge_json.py:114-136 | the merged keys are the base keys plus the dict keys of `new_data`, and base groups keep their positions |
| MergeJson.MergeSkipsNonDictGroups | frontend/messages/tools/merge_json.py:116-117 | a group not offered as a dict keeps its base entry |
| MergeJson.MergeNonDictBaseGroup | frontend/messages/tools/merge_json.py:124-129 | a non-dict base group is kept without `overwrite` and replaced by the new dict with it |
| MergeJson.MergeKeepsExistingItems | frontend/messages/tools/merge_json.py:131-134 | without `overwrite`, every item already in a dict base group keeps its base value |
| MergeJson.MergeOverwriteTakesNewItems | frontend/messages/tools/merge_json.py:119-134 | with `overwrite`, every item of every dict group of `new_data` ends up with its new value, whatever the base group was |
| MergeJson.InsertByKey | frontend/messages/tools/merge_json.py:142 | inserting into a key-sorted list keeps it sorted, with the same multiset of members plus the new one |
| MergeJson.SortByKey | frontend/messages/tools/merge_json.py:142 | `sorted(items)` is sorted by key and is a permutation of the members |
| MergeJson.SortByKeyLookup | frontend/messages/tools/merge_json.py:142 | with unique keys, sorting preserves every key's value and keeps keys unique |
| MergeJson.SortJson | frontend/messages/tools/merge_json.py:139-146 | objects stay objects with the same keys; a list stays a list of the same length whose every element is that element sorted, in the same order; scalars are unchanged |
| MergeJson.SortJsonSorted | frontend/messages/tools/merge_json.py:139-146 | every object at every level of the result has ascending keys |
| MergeJson.SortJsonKeepsMembers | frontend/messages/tools/merge_json.py:142 | every key keeps its value, itself sorted |
| MergeJson.SortJsonIdempotent | frontend/messages/tools/merge_json.py:139-146 | sorting twice equals sorting once |
| MergeJson.BaseFileFor | frontend/messages/tools/merge_json.py:183-193 | the base file exists and is a candidate; `copy_xx.json` wins over `xx_copy.json`; None exactly when neither exists |
| MergeJson.FindBaseFile | frontend/messages/tools/merge_json.py:183-193 | the loop over the candidates returns `BaseFileFor` |
| MergeJson.NewFileNames | frontend/messages/tools/merge_json.py:97 | a new-data file name is exactly two letters followed by a lower-case `.json`, the name `process_pair` looks for |
| MergeJson.CollectTwoLetterPairs | frontend/messages/tools/merge_json.py:246-263 | the pairs are the lowercased letters of the `xx.json` names that have a base file under the lowercased letters; every pair is two lowercase letters |
| MergeJson.DiscoveredPairWithoutNewFile | frontend/messages/tools/merge_json.py:256-261 | `AB.json` next to `copy_ab.json` yields the pair `ab`, whose new-data file `ab.json` does not exist |
| MergeJson.CollectMergeablePairs | frontend/messages/tools/merge_json.py:246-263 | with the letters kept as spelled, every reported pair has both its new-data file and a base file |
| MergeJson.ProcessPair | frontend/messages/tools/merge_json.py:208-242 | skips exactly when the base or the new-data file is missing. It writes exactly when both exist and hold objects; otherwise it stops naming the first of the two that is not an object. The written data is the sorted `GroupsMerged` result of the two objects. The target is the base file with `--in-place`, else `--out`, else `merged_xx.json` in `--out-dir` or the directory |
| MergeJson.ValidateArgs | frontend/messages/tools/merge_json.py:281-294 | proceeds exactly with `--all` and no `--out`, or with exactly two ASCII letters and no `--all`; `--out` with `--all` is refused; without `--all`, missing letters and malformed letters are each reported exactly in their own case |
| Text.TwoLettersIgnoresCase | frontend/messages/tools/merge_json.py:96 | whether a string is exactly two ASCII letters does not depend on its case |
| PruneCopies.KeepItems | frontend/messages/tools/prune_copies.py:129 | the kept items are those of the target whose key the base group has, with the target's values |
| PruneCopies.KeepItemsIdempotent | frontend/messages/tools/prune_copies.py:129 | filtering twice by the same base equals filtering once |
| PruneCopies.PruneToBase | frontend/messages/tools/prune_copies.py:110-133 | the result's groups are base groups with unique keys |
| PruneCopies.PruneToBaseLookup | frontend/messages/tools/prune_copies.py:117-133 | a group is kept exactly when it is a dict in both files and keeps some item, and then it holds the target's items that the base group has |
| PruneCopies.PruneToBaseProperties | frontend/messages/tools/prune_copies.py:118-131 | kept groups are dicts in base and target and never empty; kept items are in the base group and carry the target's value; every item both share is kept |
| PruneCopies.PruneToBaseLooksOnlyAtBaseKeys | frontend/messages/tools/prune_copies.py:123 | target entries under keys the base lacks never affect the result |
| PruneCopies.PruneToBaseIdempotent | frontend/messages/tools/prune_copies.py:110-133 | pruning a pruned copy returns it unchanged |
| PruneCopies.DictGroupCount | frontend/messages/tools/prune_copies.py:200 | at most the number of groups, and equal to it exactly when every group is a dict |
| PruneCopies.DictItemCount | frontend/messages/tools/prune_copies.py:201-203 | zero exactly when every dict group is empty |
| PruneCopies.Report | frontend/messages/tools/prune_copies.py:192-221 | a non-object file is skipped, and only a non-object file. A removal report has a positive count and says the file is written exactly when it is not a dry run. An object reports no changes exactly when pruning lowers neither the dict-group count nor the item count |
| PruneCopies.ReportCounts | frontend/messages/tools/prune_copies.py:200-213 | for a target with unique keys, the groups removed are the target's dict groups that the pruned copy no longer has, the items removed are, summed over the target's dict groups, the items each holds less those the same group keeps after pruning, and "no changes" holds exactly when neither is lost |
| PruneCopies.GroupsRemovedCount | frontend/messages/tools/prune_copies.py:200-210 | pruning never raises the group count above the target's dict-group count, and the difference is the number of the target's dict groups missing from the pruned copy |
| PruneCopies.ItemsRemovedCount | frontend/messages/tools/prune_copies.py:201-211 | pruning never adds items, and the item count drops by the items pruning drops from the target's dict groups, counted group by group on the target's side |
| PruneCopies.ReportWritesOnlyChanges | frontend/messages/tools/prune_copies.py:200-221 | the counts are never negative. A file is written only when one count is positive, and exactly when it is not a dry run. An already pruned copy reports no changes |
| PruneCopies.NonDictSurplusGoesUnreported | frontend/messages/tools/prune_copies.py:200-214 | a copy whose only surplus is a non-dict group reports no changes and is left as it is, although pruning would drop that group |
| PruneCopies.ReportCountingAllGroups | frontend/messages/tools/prune_copies.py:50-52 | the report with groups counted over the whole target: a non-object file is skipped and only it; a removal has a positive count and is written exactly outside dry runs; a target with unique keys and any non-dict group is always reported as a removal of at least one group, so it is written back without that group outside dry runs |
| PruneCopies.NonDictGroupShrinks | frontend/messages/tools/prune_copies.py:205-207 | a pruned copy holds dict groups only, and a target with unique keys and a non-dict group has more groups than its pruned copy |
| PruneCopies.Targets | frontend/messages/tools/prune_copies.py:179-183 | the targets are exactly the directory's `copy_??.json` names (case-insensitive) other than the base name, also compared case-insensitively: every such name is a target and nothing else is |
| PruneCopies.BaseIsNeverATarget | frontend/messages/tools/prune_copies.py:182 | the base file is not pruned, whatever the case of its name |
| PruneCopies.CopyNamesAreBaseFileNames | frontend/messages/tools/prune_copies.py:72 | the base file name of two letters is itself a copy name, and every copy name is the base file name of its own letters up to case |
| PruneCopies.DictGroupsOf | frontend/messages/tools/prune_copies.py:176 | the base reference keeps exactly the groups whose value is a dict, each with its value, with unique keys; every other group is dropped |
| PruneCopies.Processed | frontend/messages/tools/prune_copies.py:213-221 | a file changes only when it is an object, something is removed and it is not a dry run |
| PruneCopies.PruneTargets | frontend/messages/tools/prune_copies.py:192-221 | every target gets its `Report`, and the directory afterwards holds `Processed` for targets and the old content elsewhere |
| PruneCopies.PruneDirectory | frontend/messages/tools/prune_copies.py:159-221 | bad letters, a missing base, a non-object base, or no other copy file stop with the directory untouched, each exactly in its own case. Otherwise every target is reported and processed against the dict groups of `copy_xx.json` |
| CopyJsonFiles.Destination | frontend/messages/tools/copy_json_files.py:78-91 | copy mode maps `xx.json` (case-insensitive) to `copy_` + the name. Restore maps `copy_xx.json` (case-insensitive) to its two letters + `.json`. Names outside the mode's pattern get no destination, and a destination is never its source |
| CopyJsonFiles.CopyNamesArePrefixedBaseNames | frontend/messages/tools/copy_json_files.py:78-79 | a name matches the base pattern exactly when `copy_` in front of it matches the copy pattern, and a copy name without its prefix matches the base pattern |
| CopyJsonFiles.DestinationIsNotASource | frontend/messages/tools/copy_json_files.py:78-79 | a destination never matches the active pattern, so copy mode never yields `copy_copy_…` and no file is overwritten before it is read |
| CopyJsonFiles.RestoreUndoesCopy | frontend/messages/tools/copy_json_files.py:85-91 | restoring the copy-name of `XY.json` with a lowercase extension gives back `XY.json` |
| CopyJsonFiles.CopyUndoesRestore | frontend/messages/tools/copy_json_files.py:85-91 | copying the restore-name of a lowercase `copy_XY.json` gives it back |
| CopyJsonFiles.RoundTripLosesExtensionCase | frontend/messages/tools/copy_json_files.py:86-91 | `ab.JSON` copies to `copy_ab.JSON`, which restores to `ab.json` |
| CopyJsonFiles.CopyDestinationsDistinct | frontend/messages/tools/copy_json_files.py:86-87 | in copy mode distinct sources have distinct destinations |
| CopyJsonFiles.CopyFiles | frontend/messages/tools/copy_json_files.py:81-95 | the directory gains exactly the destinations. Each destination holds the content of one of its sources; every other file is unchanged |
| CopyJsonFiles.CopyModeSnapshots | frontend/messages/tools/copy_json_files.py:85-94 | after copy mode, `copy_` + name holds exactly the content of each base file |
| CopyJsonFiles.ParseCommand | frontend/messages/tools/copy_json_files.py:102-109 | work runs exactly when the first argument is `--copy` or `--restore`, with that mode; with exactly three arguments the third is the directory, otherwise the default directory is used |
| LanguageSelector.LocaleTablesTotal | frontend/components/common/LanguageSelector.tsx:38-58 | every supported locale has a flag and a label and holds no `/` |
| LanguageSelector.FirstNonEmpty | frontend/components/common/LanguageSelector.tsx:64 | the result is a non-empty piece, and None exactly when every piece is empty |
| LanguageSelector.FirstNonEmptyAt | frontend/components/common/LanguageSelector.tsx:64 | the result is the piece at the first non-empty index, every piece before it being empty |
| LanguageSelector.InferCurrentLocale | frontend/components/common/LanguageSelector.tsx:63-67 | always a supported locale; anything but `en` is a segment of the path; a path without a non-empty segment gives `en` |
| LanguageSelector.InferCurrentLocaleRule | frontend/components/common/LanguageSelector.tsx:63-67 | the locale is the first non-empty segment when it is supported, and `en` when it is not |
| LanguageSelector.InferSingleSegment | frontend/components/common/LanguageSelector.tsx:63-67 | a path of one non-empty segment after the leading `/` reads as that segment when it is supported, and as `en` otherwise |
| LanguageSelector.SwapLocaleInPath | frontend/components/common/LanguageSelector.tsx:69-80 | when the second piece is a supported locale, the new path has the same pieces except that one, which is `next`. Otherwise its pieces are `""`, `next`, then every segment of the old path in order |
| LanguageSelector.SwapReplacing | frontend/components/common/LanguageSelector.tsx:72-74 | the replacing branch is the first piece, `/`, the locale and the rest of the path unchanged |
| LanguageSelector.InferAfterSwap | frontend/components/common/LanguageSelector.tsx:63-80 | reading the locale after a swap gives the swapped-in locale, for paths starting with `/` and for all paths of the prefixing branch |
| LanguageSelector.InferAfterSwapRelativePath | frontend/components/common/LanguageSelector.tsx:69-74 | `x/de` swaps to `x/fr`, whose inferred locale is `en` |
| LanguageSelector.SwapTwice | frontend/components/common/LanguageSelector.tsx:69-80 | swapping twice equals swapping once with the last locale |
| LanguageSelector.Options | frontend/components/common/LanguageSelector.tsx:167-176 | one option per supported locale, in order, with its flag and label. An option is disabled, with a title, exactly when it is the selected value |
| LanguageSelector.ExactlyOneOptionDisabled | frontend/components/common/LanguageSelector.tsx:167-175 | exactly one option is disabled when the value is supported |
| LanguageSelector.Selector.constructor | frontend/components/common/LanguageSelector.tsx:112-114 | the selection starts as the locale of the path |
| LanguageSelector.Selector.Navigate | frontend/components/common/LanguageSelector.tsx:113-116 | a render for a new path changes the selection to the path's locale only when that locale differs from the previous path's; otherwise the selection is kept. The stored preference is kept |
| LanguageSelector.Selector.OnChange | frontend/components/common/LanguageSelector.tsx:123-129 | choosing the selected locale changes nothing; otherwise it becomes the selection and the preferred locale, and the path stays |
| LanguageSelector.Selector.RenderedOptions | frontend/components/common/LanguageSelector.tsx:167-176 | the disabled option is the one of the current selection |
| LanguageSelector.ChoiceSurvivesSameLocaleNavigation | frontend/components/common/LanguageSelector.tsx:113-129 | mounted on one path, choosing any supported locale and then moving to a path that reads as the same locale leaves that choice selected |
| LanguageSelector.SameLocalePaths | frontend/components/common/LanguageSelector.tsx:63-67 | the distinct paths `/x` and `/y` both read as `en`, so the navigation above happens between real, different paths |
| LanguageSelector3.MenuItems | frontend/components/common/LanguageSelector3.tsx:98-117 | one item per supported locale, in order. It is bold with the `Check` marker exactly when it is the locale inferred from the path |
| LanguageSelector3.ExactlyOneItemSelected | frontend/components/common/LanguageSelector3.tsx:98-117 | exactly one item is selected for every path |
| LanguageSelector3.DropDownMenu.constructor | frontend/components/common/LanguageSelector3.tsx:70-77 | the menu starts closed, with the path's locale as value |
| LanguageSelector3.DropDownMenu.Navigate | frontend/components/common/LanguageSelector3.tsx:75-79 | a render for a new path keeps the menu open or closed and the value equal to the path's locale |
| LanguageSelector3.DropDownMenu.HandleToggle | frontend/components/common/LanguageSelector3.tsx:70-73 | `open` flips and nothing else changes |
| LanguageSelector3.DropDownMenu.ToggleTwice | frontend/components/common/LanguageSelector3.tsx:70-73 | two toggles restore the original state |
| LanguageSelector3.DropDownMenu.Button | frontend/components/common/LanguageSelector3.tsx:81-90 | the button shows the flag and the label of the one item the list marks as selected |
| LanguageSelector3.DropDownMenu.Shown | frontend/components/common/LanguageSelector3.tsx:95-123 | nothing is listed while the menu is closed; when open, every locale is listed and the marked item is the locale whose label the button shows |
| LocaleSwitcher.SetLocale | frontend/components/common/LocaleSwitcher.tsx:21-38 | the current locale changes nothing; otherwise `next` is stored. In pathname mode the pushed path's second segment is `next`: a `parts[1]` of JavaScript length two (UTF-16 code units) is overwritten, else `next` is inserted at index 1 with the other segments in order. Other modes only refresh |
| LocaleSwitcher.AstralSegmentIsReplaced | frontend/components/common/LocaleSwitcher.tsx:30-34 | a path whose second piece is one character beyond the Basic Multilingual Plane is taken to hold a locale: `/😀` switched to `de` pushes `/de` |
| Text.Utf16Length | frontend/components/common/LocaleSwitcher.tsx:31 | JavaScript's `length`: at least the number of characters, at most twice it, and equal to it for text in the Basic Multilingual Plane |
| Routing.DefaultLocaleFromEnv | frontend/i18n/routing.ts:4 | never empty; a set, non-empty variable is used as it is; an unset variable gives the text `undefined`; a variable set to the empty string gives `en`, and `en` comes out exactly when the variable is empty or `en` |
| Routing.PrimaryLanguage | frontend/proxy.ts:42 | present exactly when the header is: the longest prefix of the header without `,` or `-`, so it is the whole header or is followed by one of them |
| Routing.PrimaryLanguageOfHeader | frontend/proxy.ts:42 | a header `tag-…` gives `tag` |
| Proxy.Middleware | frontend/proxy.ts:11-55 | cookie mode and asset paths pass through. Otherwise the initial candidate is the next-intl locale or the default. The cookie, then Accept-Language, are adopted only while no usable locale has been found, and only when usable. With no usable source the initial candidate stands. Pathname mode sets the cookie to the result |
| I18nRequest.DetectLocale | frontend/i18n/request.ts:6-30 | always a listed locale or the default. In cookie mode a listed cookie is returned, else the default. Outside cookie mode the default is always returned |
| I18nRequest.DetectLocaleIntended | frontend/i18n/request.ts:6-30 | with the guard on the detected value, Accept-Language's primary subtag is used when no cookie locale was detected, if listed |
| I18nRequest.AcceptLanguageIgnored | frontend/i18n/request.ts:17-22 | for `de-DE` on a pathname-mode site with default `en`, the code as written answers `en`; the intended guard gives `de` |
| UserModels.CreateAccount | backend/users/models.py:6-21 | a missing or empty email raises ValueError and builds nothing. Otherwise the email is the lowercased normalised one and the fields are the keyword arguments |
| UserModels.CreateUser | backend/users/models.py:23-28 | `is_staff`, `is_superuser` and `is_active` default to False; caller values are kept |
| UserModels.CreateSuperuser | backend/users/models.py:30-41 | the three flags default to True; caller values are kept; anything but `is_staff=True` raises before the email is checked; `is_superuser` is unchecked |
| UserViews.WithToken | backend/users/views.py:38-47 | a non-empty token is set as a cookie with the configured attributes; a missing or empty one leaves the jar unchanged |
| UserViews.Response.SetCookie | backend/users/views.py:39-47 | only the one cookie changes |
| UserViews.Response.DeleteCookie | backend/users/views.py:157-158 | the cookie is expired and nothing else changes |
| UserViews.SetCookieInternal | backend/users/views.py:18-49 | None gives None. The access key stores `data['access']` with the access max-age; the refresh key stores `data['refresh']` with the refresh max-age. Any other key raises TokenError. Status and body are unchanged |
| UserViews.ObtainPost | backend/users/views.py:85-114 | on 200 both token cookies are set; other statuses pass through untouched |
| UserViews.RefreshPost | backend/users/views.py:117-140 | a non-empty refresh cookie is copied into the body as `refresh`; on 200 only the access cookie is set |
| UserViews.VerifyPost | backend/users/views.py:143-150 | the refresh cookie, not the access cookie, is copied into the body as `token`; the answer is returned unchanged |
| UserViews.LogoutPost | backend/users/views.py:153-160 | always 204, with both auth cookies expired |
| Segments.JoinSplit | frontend/components/common/LanguageSelector.tsx:70-74 | joining the pieces of a split gives the string back |
| Segments.SplitJoin | frontend/components/common/LanguageSelector.tsx:70-74 | splitting a join of separator-free pieces gives the pieces back |

## Left out

- The token-refresh wrapper in `frontend/redux/services/apiSlice.ts` is not part of this model. It is concurrency behind a mutex around a foreign HTTP client.
- React rendering, hooks, toasts and the router are not modelled; only the computed values and paths are. This covers cookie and localStorage writes and `router.push`/`router.refresh`.
- File I/O is not modelled: `load_json`, `save_json`, JSON formatting, `os.listdir`, `makedirs`, `shutil.copy2` (timestamps), printing and exit codes.
  - A directory is a set of names, or a map from names to parsed JSON or bytes.
  - `default_messages_dir` is left out: the default directory is the `None` of a directory option.
- JSON numbers are kept as their literal text. There is no floating-point semantics.
- Case handling is modelled for ASCII only: `str.lower`, case-insensitive regular expressions, and `normalize_email`'s result lowercased.
  - Python's case-insensitive `[A-Za-z]` also matches the Kelvin sign, the dotless `ı` and the long `ſ`; the model's name patterns do not.
- The regular expressions are matched as full matches. Python's `$` also accepts one trailing newline, so a file name ending in a newline is not modelled.
- MergeJson.Merge: value semantics. A new group is added as a copy, where the source inserts the `new_data` dict by reference. Later mutation through that alias is not modelled.
- merge_json's `main` and prune's `sorted(targets)` order are not modelled.
  - The `--all` loop just calls `process_pair` per pair.
  - Files are processed in an unspecified order; the results do not depend on it, because each target is read before it is written and only once.
- CopyJsonFiles.CopyFiles: when two copy files restore to the same name (they differ only in the case of `copy_` or `.json`), the model says the destination holds one of them. The source writes the one listed last, and the listing order is not modelled.
- UserModels: password hashing (`set_password`), the database save, and the `normalize_email` function itself are not modelled. `normalize_email` is a parameter. The model's `ValueError` result stands for the raised exception.
- UserViews: the simplejwt `super().post` (token issuing, refresh and verification) is not modelled. Its response is a parameter, and for the refresh and verify views that response is taken as given after the request body is updated.
- LanguageSelector.Selector.Navigate and LanguageSelector3.DropDownMenu.Navigate take the render for the new path and the effect that follows it as one step; the single render in between, which still shows the old selection, is not modelled.
- `LanguageSelector2.tsx`, the navbar, sidebar, forms, pages and `useTypedTranslation.ts` are not part of this model.
- Routing: `JSON.parse` of the locale list is not modelled; the parsed list is a parameter.

## Findings

| source | as written | input that shows it | evidently intended | confidence | as-written member | corrected member |
|---|---|---|---|---|---|---|
| frontend/i18n/request.ts:17 | the Accept-Language fallback is guarded by `!detectLocale`, the function, which is always truthy, so the fallback never runs | pathname mode, locales `en`, `de`, default `en`, header `de-DE,de;q=0.9`: the result is `en` | guard on `!detectedLocale`, so the browser language is used when no cookie locale was detected | high (not executed) | I18nRequest.DetectLocale | I18nRequest.DetectLocaleIntended |
| frontend/messages/tools/merge_json.py:259 | `collect_two_letter_pairs` lowercases the letters of `xx.json` before looking for the base file, and reports them lowercased | directory `AB.json`, `copy_ab.json` on a case-sensitive file system: the pair `ab` is reported, and `process_pair` then skips it because `ab.json` does not exist | every discovered pair has both its new-data file and a base file | medium (not executed) | MergeJson.DiscoveredPairWithoutNewFile | MergeJson.CollectMergeablePairs |
| frontend/messages/tools/prune_copies.py:200 | `before_groups` counts only the dict groups of a target, so a non-dict group that pruning drops does not raise the group count, and a copy whose only surplus is non-dict groups reports "no changes" and is never rewritten, although the documentation at lines 50-52 says such groups are dropped | base `copy_en.json` = `{}`, target holding `{"note": "x"}`: the report is "no changes" and the file keeps `note` | count the groups over the whole target (or compare the pruned dict with the target), so a non-dict group is reported and dropped | medium (not executed) | PruneCopies.NonDictSurplusGoesUnreported | PruneCopies.ReportCountingAllGroups |
