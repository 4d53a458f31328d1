# Noita mod manager: record handling

This project models the record handling in `NoitaModManager.py`, a Tk desktop tool. The tool
keeps the game's `mod_config.xml` in step with the installed mods, and it lets the user
tag, search, enable, disable and reorder them. The window code is not modelled. The logic
below it is, and it works on plain lists and dictionaries. The model covers that logic
and proves what it promises:

- **Records** (`records.dfy`). A mod is a Python dict, so a record is a
  `map<string, Value>`. A value is a string, a boolean flag or a list of strings. The keys
  used are the config attributes (`name`, `enabled`, `workshop_item_id`, ...) and the
  manager's own keys (`_display_name`, `_is_link`, `user_tags`, `workshop_tags`). The
  filtered view `filtered_data` is held as ascending row numbers into `mods_data`. The
  source's views share dicts with the list, and this stands in for that sharing: an edit
  through the view changes the record in the list.
- **Config export** (`config_export.dfy`). `generate_xml_content` as a sequence of
  attribute maps, one per record, in order.
- **Workshop index** (`workshop.dfy`). `build_workshop_map` over a listing of the
  subscription cache.
- **Reconciler** (`reconcile.dfy`). `load_data`:
  - the config records, in file order;
  - then one disabled record per unmatched local directory;
  - a config record that owns a directory is overlaid by that directory;
  - the subscription id policy;
  - tags attached from the tag store.

  Each loop is a method proved equal to a reference function. Lemmas state the
  properties.
- **Tags** (`tags.dfy`):
  - cleaning and attaching stored tags;
  - the three tag-list editors (`delete_tag`, `finish_edit`, `finish_add`);
  - the union merge after a workshop fetch;
  - the sorted, duplicate-free tag cloud.
- **Query** (`query.dfy`). `on_search`, with AND over terms, `-` negation, `|`
  alternatives, and `#tag`, `@name` and plain sub-terms. It also covers
  `add_tag_to_search`.
- **Find bar** (`find.dfy`). The matching and the wrap-around navigation of `_find`.
- **Mutations** (`mutations.dfy`):
  - the drag-and-drop reorder;
  - the enabled toggle;
  - `set_all_enabled`.
- **Manager** (`manager.dfy`). A `ModManager` class holds `mods_data`, `filtered_data`,
  the tag store `TAGS_DATA` and the last written config. Its methods update these fields
  the way the window's handlers do, and the tag-fetch loop merges downloaded workshop tags.

Inputs that the source reads from disk or the network are parameters:

- the config's `<Mod>` attributes;
- the subscription cache listing, including each entry's `mod_id.txt` text;
- the local `mods` listing, including each entry's link flag and `mod.xml` name;
- the tag store;
- preset contents;
- the tags downloaded for each subscription id.

Python string operations (`lower`, `strip`, `split`, `in`, `isdigit`, `<`) are modelled
on ASCII in `text.dfy`.

## Model

| member | source | states |
|---|---|---|
| Text.Lower | NoitaModManager.py:475 | `lower()` keeps the length and lower-cases each character (ASCII) |
| Text.Strip | NoitaModManager.py:501 | the result of `strip()` neither starts nor ends with whitespace |
| Text.StripIsStripped | NoitaModManager.py:501 | `strip()` is idempotent |
| Text.StripIsSlice | NoitaModManager.py:501 | `strip()` returns a contiguous piece of its argument |
| Text.StripEmptyIffBlank | NoitaModManager.py:475-476 | `strip()` gives the empty string exactly when every character is whitespace |
| Text.Words | NoitaModManager.py:484 | `split()` yields only non-empty, whitespace-free words |
| Text.WordsEmptyIffBlank | NoitaModManager.py:484 | `split()` yields no words exactly when every character is whitespace |
| Text.WordsSplitAtSpace | NoitaModManager.py:484 | `split()` cuts at every whitespace character: the words of `a + c + b`, for whitespace `c`, are the words of `a` followed by those of `b` |
| Text.WordsOfOneWord | NoitaModManager.py:484 | a non-empty string without whitespace splits into itself alone |
| Text.SplitOn | NoitaModManager.py:497 | `split` on a separator yields at least one piece, and no piece contains the separator |
| Text.JoinSplitOn | NoitaModManager.py:497 | joining the pieces of `split(sep)` with `sep` gives back the string |
| Text.SplitOnOnlySeparators | NoitaModManager.py:497 | a string made only of separators splits into empty pieces |
| Text.SplitOnWithoutSeparator | NoitaModManager.py:497 | a string without the separator is one piece |
| Text.ContainsEmpty | NoitaModManager.py:516 | every string contains the empty string |
| Text.ContainsSuffix | NoitaModManager.py:578 | a string contains its own suffix |
| Text.ContainsStripped | NoitaModManager.py:578 | whatever the stripped string contains, the string contains |
| Text.IndexOf | NoitaModManager.py:853 | `list.index(x)` is the first position holding `x`; the find bar's `matches.index` at line 464 is the same helper |
| Text.BelowTotal | NoitaModManager.py:559 | Python's string `<` is total |
| Text.BelowTransitive | NoitaModManager.py:559 | Python's string `<` is transitive |
| Text.BelowIrreflexive | NoitaModManager.py:559 | no string is below itself |
| Records.SetTags | NoitaModManager.py:950 | `mod[key] = tags` sets that list, keeps every other key, and keeps the name and well-formedness |
| Records.FromAttrs | NoitaModManager.py:615 | `mod.attrib` holds the element's attributes as strings, key for key |
| Records.AllRows | NoitaModManager.py:667 | `list(mods_data)` as a view shows every row in order |
| Records.RowsWhereMembers | NoitaModManager.py:545-546 | a row is kept exactly when its verdict is true |
| ConfigExport.ExportRecord | NoitaModManager.py:94-99 | a key is written iff it is in the record and does not start with `_`; values pass through except a present `workshop_item_id`, which becomes `'0'` |
| ConfigExport.Export | NoitaModManager.py:91-101 | one attribute set per record in record order; `_` keys dropped, `workshop_item_id` forced to `'0'` only where present, everything else (tag lists too) unchanged |
| ConfigExport.ExportedValue | NoitaModManager.py:94 | a kept attribute other than `workshop_item_id` is read back from the written config |
| Workshop.LastProvider | NoitaModManager.py:586-600 | finds the last cache entry filed under a key, and no later entry is filed there |
| Workshop.WorkshopIndexLookup | NoitaModManager.py:582-602 | a key is in the index iff some digit-named directory with a non-blank `mod_id.txt` is filed under it, and it maps to the last such directory |
| Workshop.BuildWorkshopMap | NoitaModManager.py:582-602 | the scan loop builds exactly that index |
| Tags.Clean | NoitaModManager.py:661 | the cleaned list has only non-empty, trimmed entries |
| Tags.CleanMembers | NoitaModManager.py:661 | a tag survives cleaning iff it is the non-empty trimmed form of an input tag |
| Tags.WithTags | NoitaModManager.py:658-665 | both tag lists become the cleaned store entry under the exact name (empty when absent); other keys are kept |
| Tags.StoredTagsAttached | NoitaModManager.py:658-665 | a tag is attached iff it is the trimmed form of a non-blank tag stored under the record's exact name; a name missing from the store gets no tags |
| Tags.AttachTags | NoitaModManager.py:1076-1083 | the tag-merge loop gives every record, in order, its stored tags |
| Tags.DeleteTag | NoitaModManager.py:806-811 | an in-range index removes exactly that entry, the entries before it staying in place and those after it moving up by one, and saves; an out-of-range index changes nothing; distinctness and cleanliness are kept |
| Tags.FinishEdit | NoitaModManager.py:842-859 | an index past the end changes nothing; blank text deletes the entry; other text is saved iff it is absent from the list or first occurs at `index`, and then replaces entry `index` alone; distinctness and cleanliness are kept |
| Tags.FinishAdd | NoitaModManager.py:885-896 | saves iff the trimmed text is non-blank and absent, and then appends it; distinctness and cleanliness are kept |
| Tags.MergedTags | NoitaModManager.py:947-950 | the merge holds each tag once, trimmed and non-empty, and holds exactly the cleaned stored tags plus the cleaned fetched tags |
| Tags.AllTags | NoitaModManager.py:553-557 | the collected tags are all non-empty and trimmed |
| Tags.AllTagsSource | NoitaModManager.py:553-557 | every collected tag is a cleaned user or workshop tag of some record |
| Tags.AllTagsComplete | NoitaModManager.py:553-557 | every cleaned user or workshop tag of every record is collected |
| Tags.AllTagsMembers | NoitaModManager.py:553-557 | a tag is collected iff it is non-blank and the trimmed form of a user or workshop tag of some record |
| Tags.InsertSorted | NoitaModManager.py:559 | inserting keeps a list strictly ascending and adds exactly the new tag |
| Tags.SortedDistinct | NoitaModManager.py:559 | `sorted(set(ts))` is strictly ascending and has exactly the tags of `ts` |
| Tags.TagCloud | NoitaModManager.py:553-559 | the cloud is strictly ascending, clean, and has exactly the tags of all records |
| Tags.TagCloudMembers | NoitaModManager.py:553-559 | the cloud shows a tag iff it is non-blank and the trimmed form of a user or workshop tag of some record |
| Tags.SortedUnique | NoitaModManager.py:559 | two strictly ascending lists with the same tags are equal, so the cloud is `sorted(set(...))` whatever the collection order |
| Reconciler.LastMatch | NoitaModManager.py:624-647 | finds the last listed directory matching a name, and no later one matches |
| Reconciler.LastNamed | NoitaModManager.py:622 | finds the last config record with a lower-cased name, and no later one has it |
| Reconciler.Owners | NoitaModManager.py:622 | `existing_map` files names only under existing record positions |
| Reconciler.OwnersLookup | NoitaModManager.py:622 | `existing_map` has a name iff some record carries it, and files it under the last such record |
| Reconciler.OwnerSlot | NoitaModManager.py:622 | a record is filed under its own name iff it is the last with that name, and under no other name |
| Reconciler.Overlay | NoitaModManager.py:641-647 | a matched record gets the display name and link flag; all other attributes but the id are kept, the name too |
| Reconciler.OverlayTwice | NoitaModManager.py:641-647 | two matching directories leave the record as the later one alone would |
| Reconciler.NewRecord | NoitaModManager.py:649-655 | an appended record is named after its directory and has `enabled='0'` |
| Reconciler.Scan | NoitaModManager.py:624-655 | the scan only appends and keeps every record named |
| Reconciler.NewEntries | NoitaModManager.py:648 | every appended directory is a listed directory whose lower-cased name is not in `existing_map` |
| Reconciler.NewEntriesComplete | NoitaModManager.py:641-655 | every listed directory not in `existing_map` is appended |
| Reconciler.NewRecords | NoitaModManager.py:649-655 | one new record per appended directory, with the id the workshop index gives it |
| Reconciler.ScanAppends | NoitaModManager.py:624-655 | the scan leaves the config records in place and appends exactly the new records, in listing order |
| Reconciler.ScanUnowned | NoitaModManager.py:641-647 | a record no name is filed under is left alone by the scan |
| Reconciler.ScanOwned | NoitaModManager.py:641-647 | the record filed under a name is overlaid by the last matching directory, or unchanged when none matches |
| Reconciler.Parsed | NoitaModManager.py:614-615 | one record per `<Mod>` element, in file order; all named iff every element has a `name` |
| Reconciler.Tagged | NoitaModManager.py:658-665 | every record, in order, gets its stored tags |
| Reconciler.Reconciled | NoitaModManager.py:604-669 | loading never yields fewer records than the config has |
| Reconciler.ReconciledShape | NoitaModManager.py:659 | loading fails exactly when a config record has no `name`; otherwise every record has a name and both tag lists |
| Reconciler.BuildOwners | NoitaModManager.py:622 | the dict comprehension fails iff a record has no name, and otherwise builds `existing_map` |
| Reconciler.ScanListing | NoitaModManager.py:624-655 | the directory loop computes the scan |
| Reconciler.TagAll | NoitaModManager.py:657-665 | the tag-merge loop fails iff a record has no name, and otherwise attaches tags to all |
| Reconciler.Reconcile | NoitaModManager.py:604-669 | `load_data` without I/O computes the reference result |
| Reconciler.ReconciledConfigRecord | NoitaModManager.py:614-665 | config record `i` stays at position `i`: overlaid by the last matching directory when it is the last record with its name, otherwise as parsed; tags attached either way |
| Reconciler.ConfigAttributesKept | NoitaModManager.py:641-665 | every config attribute the manager does not set itself survives loading unchanged |
| Reconciler.WorkshopIdAdopted | NoitaModManager.py:639-647 | a non-`'0'` config id is never overwritten; a missing or `'0'` id takes the workshop index's id iff the record owns a matching directory and that id is not `'0'`, and stays unset otherwise |
| Reconciler.IdPolicy | NoitaModManager.py:646-647 | the id update rule for one record |
| Reconciler.NewEntriesExactly | NoitaModManager.py:641-655 | a listed directory is appended iff it is a directory and no config record has its name up to case |
| Reconciler.DirectoriesAppended | NoitaModManager.py:648-655 | after the config records come exactly the unmatched directories in listing order, each disabled, named after its directory and tagged; nothing when `mods` is missing |
| Reconciler.AppendedCount | NoitaModManager.py:648-655 | the list is as long as the config plus the unmatched directories |
| Reconciler.NameKept | NoitaModManager.py:615 | config record `i` keeps its name |
| Reconciler.AppendedRecord | NoitaModManager.py:649-655 | the record at a position past the config is the tagged new record of its directory, disabled |
| Reconciler.ListedAt | NoitaModManager.py:641-655 | some record carries the name of a given listed directory, up to case |
| Reconciler.UnmatchedListed | NoitaModManager.py:648-655 | an unmatched directory gets a record under its exact name |
| Reconciler.EveryDirectoryListed | NoitaModManager.py:624-655 | every listed directory is represented by some record |
| Reconciler.SaveAfterLoad | NoitaModManager.py:604-669 | saving after loading writes every config attribute the manager does not set with its original value |
| Reconciler.SavedNewDisabled | NoitaModManager.py:651 | every appended directory is written to the config with `enabled='0'` |
| Query.SearchTags | NoitaModManager.py:508 | the search tags are the user then workshop tags, lower-cased and trimmed |
| Query.Verdicts | NoitaModManager.py:487-546 | one verdict per record: whether every term accepts it |
| Query.MatchingRowsSpec | NoitaModManager.py:487-546 | the result is an order-preserving subsequence, and a row is kept iff every term accepts its record |
| Query.AnyTagContains | NoitaModManager.py:509 | the `any(...)` generator is true iff some tag contains the text |
| Query.SubTermMatch | NoitaModManager.py:503-531 | one alternative is tested as `#x`, `@x` or plain |
| Query.TermMatch | NoitaModManager.py:497-531 | the alternatives loop stops at the first match and finds one iff some non-blank trimmed alternative matches |
| Query.RecordMatches | NoitaModManager.py:488-543 | the terms loop stops at the first failing term and is true iff every term accepts the record |
| Query.Search | NoitaModManager.py:474-549 | `on_search` keeps exactly the matching rows |
| Query.KeepMatching | NoitaModManager.py:487-546 | the loop over the records keeps exactly the matching rows |
| Query.BlankMatchesAll | NoitaModManager.py:475-477 | an empty or whitespace-only query shows every record in order |
| Query.EmptyAlternatives | NoitaModManager.py:500-502 | empty alternatives never match |
| Query.SingleAlternative | NoitaModManager.py:497-502 | a trimmed term without the bar separator is its own single alternative |
| Query.PipeOnlyTerm | NoitaModManager.py:497-543 | a term made only of bar separators rejects every record, and negated it keeps every record |
| Query.BareAtAcceptsAll | NoitaModManager.py:512-518 | a bare `@` matches every record |
| Query.HashAloneNeedsSomeTag | NoitaModManager.py:503-511 | a bare `#` keeps exactly the records with at least one tag |
| Query.AddTagToSearch | NoitaModManager.py:575-580 | after a cloud click the search text contains `#tag`; when the trimmed text already contains it the text stays exactly as typed; otherwise the text becomes the trimmed text, then one space if that is non-empty, then `#tag` |
| Query.AddTagTwice | NoitaModManager.py:575-580 | clicking the same tag twice changes the text once |
| Query.AppendedTagStripped | NoitaModManager.py:576-580 | the new search text has no surrounding whitespace |
| Query.OneWordQuery | NoitaModManager.py:475-484 | a one-word query is a single term |
| Query.CarriedTagFound | NoitaModManager.py:508-509 | a carried tag, lower-cased and trimmed, is found among the record's search tags |
| Query.HashTermMatchesTag | NoitaModManager.py:503-511 | the term `#tag` accepts every record carrying `tag` |
| Query.HashQueryKeepsTagged | NoitaModManager.py:503-510 | the query `#tag` of a single-word, bar-free tag keeps every record carrying that tag |
| Query.CloudClickKeepsTagged | NoitaModManager.py:575-580 | clicking a cloud tag into an empty search keeps every record carrying that tag |
| Find.Hits | NoitaModManager.py:443-446 | each row's hit flag is whether its find text contains the query |
| Find.FindHitsSpec | NoitaModManager.py:442-446 | the matches are ascending shown rows, and a row is a match iff its text contains the query |
| Find.FindMatches | NoitaModManager.py:442-446 | the loop collects exactly those matches |
| Find.PositionInRows | NoitaModManager.py:472 | in ascending matches a position is its own index |
| Find.Navigate | NoitaModManager.py:460-472 | the focus lands on a match, and the counter shows its 1-based position out of the match count |
| Find.Find | NoitaModManager.py:424-472 | shows `0/0` iff the query is empty or nothing matches; is unchanged iff nothing is shown; otherwise focuses a matching row |
| Find.NavigateFromNothing | NoitaModManager.py:467-468 | without a focused match, forward starts at the first match and back at the last |
| Find.NavigateAt | NoitaModManager.py:463-466 | from match `k` the focus moves to match `(k + direction) % count` |
| Find.NavigateNext | NoitaModManager.py:465 | forward goes to the next match, wrapping from the last to the first |
| Find.NavigateForwardThenBack | NoitaModManager.py:463-466 | forward then back returns to the starting match |
| Mutations.ReorderTarget | NoitaModManager.py:189-190 | the insertion index after the below and shift adjustments |
| Mutations.Move | NoitaModManager.py:191-192 | pop/insert is a permutation of the same length that puts the item at the target index |
| Mutations.MoveKeepsOrder | NoitaModManager.py:191-192 | all other records keep their relative order |
| Mutations.DropLandsNextToTarget | NoitaModManager.py:186-192 | the dropped record ends right above the target record, or right below it when dropped on the target's lower half |
| Mutations.Drop | NoitaModManager.py:186-193 | the drop at whole-list row ids is a permutation of the same length |
| Mutations.Toggled | NoitaModManager.py:966-969 | `'0'` (or no value) becomes `'1'`, anything else becomes `'0'`, and every other key is kept |
| Mutations.ToggleTwice | NoitaModManager.py:966-969 | toggling twice restores a `'0'`/`'1'` record |
| Mutations.EnableRows | NoitaModManager.py:980-982 | the shown records get the new `enabled` value and every other record is untouched |
| Manager.StoreWrite | NoitaModManager.py:767-770 | `TAGS_DATA[name][key] = tags` creates a missing entry and leaves the other keys and names alone |
| Manager.FetchStep | NoitaModManager.py:921-951 | one fetch step touches only its own record; it counts iff the record fetched tags, changes nothing otherwise, and keeps every stored tag |
| Manager.MergeKeepsStored | NoitaModManager.py:943-949 | writing a merge back keeps every workshop tag the store held, for every name |
| Manager.Fetching | NoitaModManager.py:921-953 | the fetch loop so far keeps the length, leaves later records alone and loses no stored tag |
| Manager.FetchStepRecord | NoitaModManager.py:942-951 | a record that fetched tags gets distinct, clean workshop tags that include the fetched and stored ones, with other keys kept |
| Manager.FetchedRecord | NoitaModManager.py:921-953 | after the loop the same holds for every fetching record, and every other record is unchanged |
| Manager.FetchingWellFormed | NoitaModManager.py:921-953 | the fetch keeps every record well formed |
| Manager.FetchCount | NoitaModManager.py:918-951 | the update count is the number of records that fetched tags |
| Manager.ModManager.Reload | NoitaModManager.py:604-669 | the list becomes the reconciled list, with every row shown; on a missing `name` nothing changes |
| Manager.ModManager.SaveConfig | NoitaModManager.py:986-997 | the saved config is the export of the list |
| Manager.ModManager.LoadPreset | NoitaModManager.py:1067-1090 | a preset replaces the list with its records, tagged from the store, all shown and saved; otherwise nothing changes |
| Manager.ModManager.OnSearch | NoitaModManager.py:474-549 | the view becomes exactly the matching rows, and nothing else changes |
| Manager.ModManager.FindStep | NoitaModManager.py:424-472 | the find bar's result over the shown records |
| Manager.ModManager.Toggle | NoitaModManager.py:965-971 | the clicked shown record is toggled in the list and the config is saved |
| Manager.ModManager.SetAllEnabled | NoitaModManager.py:980-984 | every shown record is set to `'1'`/`'0'`, the others are untouched, and the config is saved |
| Manager.ModManager.Reorder | NoitaModManager.py:125-196 | a drop, which only happens while every row is shown, applies Drop to the list at the tree's row ids, keeps every row shown and saves the config |
| Manager.ModManager.ApplyEdit | NoitaModManager.py:767-771 | a saved edit writes the new list to the record and to the store under its name |
| Manager.ModManager.DeleteTagAt | NoitaModManager.py:806-811 | `delete_tag` on a shown record, written through to the store |
| Manager.ModManager.FinishEditAt | NoitaModManager.py:842-859 | `finish_edit` on a shown record, written through to the store |
| Manager.ModManager.FinishAddAt | NoitaModManager.py:885-896 | `finish_add` on a shown record, written through to the store |
| Manager.ModManager.FetchRecord | NoitaModManager.py:921-951 | the loop body updates the record, the store and the count as one fetch step |
| Manager.ModManager.FetchTags | NoitaModManager.py:911-959 | the loop's final records, store and count are those of the reference fetch |

## Left out

- Tk interface code is not modelled:
  - widgets and styling;
  - the ghost and line windows of a drag;
  - pixel hit-testing (`is_below` is a boolean input);
  - `populate_tree`;
  - the find bar's highlight tags;
  - tag-cloud and editor rendering;
  - status texts and message boxes.
- Windows glue, junction syncing, shortcut generation, game launch and the single-instance
  lock: OS services outside the record logic.
- File I/O is not modelled. This covers:
  - reading and writing the config XML (`save_config` keeps the attribute maps it would
    write);
  - the JSON tag and settings files, including `save_tags`;
  - preset files and path dialogs.

  Their contents are parameters or fields.
- Reading and parsing `mod_config.xml` is not modelled. A config that is missing or
  cannot be read or parsed yields no records (the whole file is parsed before the first
  record is kept); the model's config input is then the empty list.
- The network fetch, the `requiredtags` regex and URL decoding are out. The tags
  downloaded for each subscription id are an input map: a missing id is a failed
  download, and an empty list is a page without tags.
- `str.lower`, `strip`, `isspace` and `isdigit` are modelled on ASCII only. The model
  has no Unicode case folding or Unicode whitespace.
- The XML text produced by `ET.tostring` (escaping, list-valued attributes) is not
  modelled. Export yields attribute maps.
- Tags.MergedTags: states membership, distinctness and cleanliness but not the order of
  `list(existing)`, because Python's set order is unspecified. The model uses
  first-occurrence order.
- Manager.ModManager.Reload: when a record has no `name`, the source raises `KeyError`
  after `mods_data` is partly rebuilt. The model leaves the previous state in place.
- Manager.ModManager.LoadPreset: a preset record without `name` makes the source raise
  after `mods_data` was replaced. The model leaves the previous state in place.
- Query.Search: requires every record to have a `name`. The source reads `mod['name']`
  only for `@` and plain sub-terms, but a nameless record exists only after `load_data`
  or `load_preset` has raised, and the model keeps its previous state instead.
- Query.CloudClickKeepsTagged: proved only for single-word tags without `|`. A tag with
  spaces becomes several terms when searched.
- The drag gesture itself (press, the 5-pixel threshold, the ghost and line windows) is
  not modelled. `Manager.ModManager.Reorder` takes the row ids of a finished drop and
  requires every row to be shown. That always holds at a drop: `on_motion` starts no
  drag while the search box has text, and an empty search shows every record.
