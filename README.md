# Locale updater model

A Dafny model of the locale-file updater in `scripts/auto-i18n.py`. The updater
writes one translated text per language under a dotted i18n key such as
`settings.mcp.sync.title` into the JSON locale file of that language
(`en-us.json`, `zh-cn.json`, ...). The model has three parts.

- **Key normalisation** (`KeyPath`). The dotted key is split on `.` the way
  `str.split(".")` does, and `"translation"` is put in front unless the first
  segment already is `"translation"`.
- **`set_nested_value`** (`JsonTree`, `JsonHeap`). This is the in-place
  recursive write into a dictionary tree. `JsonTree.SetPath` is its reference
  definition on JSON values. `JsonHeap.JsonObject` holds a document as mutable
  dictionaries, the way `json.load` gives it, and `SetNestedValue` walks and
  updates those dictionaries. It is proved to produce exactly `SetPath`'s tree,
  and to fail with nothing changed exactly where `SetPath` fails.
- **`set_i18n`** (`I18n`). The locale directory is a `LocaleDir` object whose
  `files` map each language to what `json.load` makes of that language's
  file:
  - a parsed document;
  - `Malformed`, for text that is not JSON (the updater reads it as `{}`);
  - `Unreadable`, for a file that cannot be opened or decoded.

  `Loaded` is the loading step of `UpdateLocale` (lines 94-98): the write
  starts from the parsed document, from `{}` for content that does not parse,
  and an unreadable file gives nothing to write into. `Languages` is the
  fixed list of supported language codes (line 30).

  `SetI18n` first creates missing locale files as `{}`. It then updates the
  supported requested languages one by one and reports `Updated` or `Failed`
  for each. It is proved equal to the specification function `SetI18nSpec`,
  and the lemmas beside `SetI18nSpec` state what a run promises.

A write fails in two cases:
- the key list is empty, which is an `IndexError` in the source;
- a value that is not a dictionary lies where the walk has to index into it,
  which is a `TypeError` in the source.

In both cases the source has not yet mutated anything. A failed language's file
is not rewritten, and the source's `except` clause turns the exception into an
error entry.

## Model

| member | source | states |
|---|---|---|
| JsonTree.SetPath | scripts/auto-i18n.py:47-57 | the reference definition of the write: it succeeds only on an object root with a non-empty key list, and the result is an object whose member names are the old ones plus the first key; the lemma rows below state the rest of what it promises |
| JsonTree.Nest | scripts/auto-i18n.py:53-57 | the chain of objects built below a missing key leads along the remaining keys to the written value |
| JsonTree.SetThenGet | scripts/auto-i18n.py:47-57 | after a successful write, following the keys from the root yields exactly the written value |
| JsonTree.SetKeepsRootMembers | scripts/auto-i18n.py:49-57 | a successful write needs an object root and a non-empty key list; it adds at most the first key, and every other root member keeps its value |
| JsonTree.SetLeavesOtherPaths | scripts/auto-i18n.py:49-57 | every path that parts ways with the written path, at any depth, reads the same before and after the write |
| JsonTree.SetCreatesMissing | scripts/auto-i18n.py:53-57 | when the first key is missing, the result is the old object with that key bound to fresh nested objects that hold only the written path |
| JsonTree.SetIdempotent | scripts/auto-i18n.py:47-57 | writing the same value at the same path a second time leaves the tree as the first write left it |
| JsonTree.SetFailsIffBlocked | scripts/auto-i18n.py:47-57 | a write fails exactly when the key list is empty or a value that is not an object lies on the path before the last key |
| KeyPath.Split | scripts/auto-i18n.py:83 | splitting gives at least one segment and no segment holds a dot; joining the segments with dots gives back the key |
| KeyPath.SplitJoin | scripts/auto-i18n.py:83 | splitting undoes joining for segments without dots, so the segments keep their order |
| KeyPath.NormalizeKey | scripts/auto-i18n.py:83-85 | the normalised key list is never empty, starts with "translation", and has no dot in any segment |
| KeyPath.FirstSegmentIsPrefix | scripts/auto-i18n.py:84 | the first segment is "translation" exactly when the key is "translation" or starts with "translation." |
| KeyPath.NormalizeKeyJoin | scripts/auto-i18n.py:83-85 | the normalised list read back as a dotted key is the key with "translation." in front, or the key itself when it already had the prefix |
| KeyPath.NormalizeKeyAddsPrefix | scripts/auto-i18n.py:84-85 | a key without the prefix becomes "translation" followed by all of its segments, in order |
| KeyPath.NormalizeKeyKeepsPrefix | scripts/auto-i18n.py:84-85 | a key that starts with "translation." gets no second prefix |
| KeyPath.NormalizeKeyIdempotent | scripts/auto-i18n.py:83-85 | normalising the dotted form of a normalised key gives the same key list |
| JsonHeap.JsonObject.ToJson | scripts/auto-i18n.py:105 | the in-memory tree reads back as an object with the same member names |
| JsonHeap.JsonObject.Empty | scripts/auto-i18n.py:55 | a new dictionary is empty, owns only fresh memory and reads back as `{}` |
| JsonHeap.JsonObject.Bind | scripts/auto-i18n.py:50 | assigning a member replaces that member only; the tree stays well formed and reads back with just that member changed |
| JsonHeap.JsonObject.SetNestedValue | scripts/auto-i18n.py:47-57 | the write succeeds exactly when `SetPath` does, and the tree then reads back as `SetPath`'s result; on failure nothing in memory changes; one key overwrites that member; an existing first member is reused, and a missing one is bound to a new object |
| JsonHeap.JsonObject.Walk | scripts/auto-i18n.py:53-57 | the same promises for two keys or more, stopping with nothing changed at a member that is not a dictionary |
| JsonHeap.JsonObject.Vivify | scripts/auto-i18n.py:54-55 | the missing key is bound to a new empty dictionary, so the tree reads back with that key bound to `{}` and nothing else changed; this does not change the outcome of the write that follows, which then cannot fail |
| JsonHeap.JsonObject.Step | scripts/auto-i18n.py:57 | writing inside an existing child gives the parent exactly `SetPath`'s result and keeps the same child objects |
| JsonHeap.JsonObject.Descend | scripts/auto-i18n.py:57 | the recursive call changes only the child it goes into; every sibling reads back as before |
| JsonHeap.JsonObject.Load | scripts/auto-i18n.py:96 | a parsed object becomes a fresh, well-formed dictionary tree that reads back as that object |
| JsonHeap.JsonObject.Put | scripts/auto-i18n.py:96 | one parsed member is added as fresh memory, and the tree reads back with that member bound |
| I18n.Languages | scripts/auto-i18n.py:30 | the five supported language codes, in the source's order |
| I18n.UpdateLocale | scripts/auto-i18n.py:92-109 | a failed update leaves the file as it was; an updated file is a document holding the text at the key path |
| I18n.UpdateLocaleIdempotent | scripts/auto-i18n.py:101-105 | updating a file a second time with the same key and text changes nothing |
| I18n.UpdateLocaleFailsIff | scripts/auto-i18n.py:92-109 | an update fails exactly when the file cannot be read or its document blocks the key path |
| I18n.MalformedStartsOver | scripts/auto-i18n.py:95-98 | content that does not parse is replaced by a document holding only the written path |
| I18n.BarePrefixReplacesAll | scripts/auto-i18n.py:83-85 | the key "translation" alone normalises to one segment and replaces the whole "translation" member with the text |
| I18n.WithDefaults | scripts/auto-i18n.py:40-44 | afterwards every language has a file; existing files are kept as they are, and only missing locale files are added, as `{}` |
| I18n.RunOver | scripts/auto-i18n.py:87-109 | after handling some of the requests, results exist exactly for the handled supported languages, and the directory has the same files |
| I18n.SetI18nSpec | scripts/auto-i18n.py:79-111 | the results hold exactly one entry for each requested supported language, and the directory afterwards holds the old files plus every locale file |
| I18n.RunOverStep | scripts/auto-i18n.py:87-109 | handling one more request adds that language's result and updated file, or changes nothing when the language is not supported |
| I18n.OthersUntouched | scripts/auto-i18n.py:87-89 | a language that is unsupported or not requested gets no result, and its file is unchanged; missing locale files appear as `{}` |
| I18n.UpdatedHoldsText | scripts/auto-i18n.py:101-107 | an updated language's file holds its text at the normalised key |
| I18n.UpdatedKeepsOtherPaths | scripts/auto-i18n.py:101-105 | in an updated file, every path that parts ways with the normalised key reads as in the document the update started from |
| I18n.FailedKeepsFile | scripts/auto-i18n.py:108-109 | a failed language's file is not rewritten; failure happens exactly when the file is unreadable or its document blocks the key path |
| I18n.FreshFileForMissingOrMalformed | scripts/auto-i18n.py:94-98 | a requested supported language whose file was missing or did not parse is updated to a document holding only the written path |
| I18n.SetI18nIdempotent | scripts/auto-i18n.py:87-109 | running the same update on its own output gives the same results and the same directory |
| I18n.ApplyToFile | scripts/auto-i18n.py:92-109 | loading the file into dictionaries, writing with `SetNestedValue` and saving gives exactly `UpdateLocale`'s outcome and file |
| I18n.LocaleDir.EnsureFilesExist | scripts/auto-i18n.py:40-44 | the directory becomes `WithDefaults` of what it was |
| I18n.LocaleDir.SetI18n | scripts/auto-i18n.py:79-111 | the results and the directory afterwards are those of `SetI18nSpec` on the directory before |

## Left out

- The file system is reduced to the `files` map of one directory:
  - `output_dir`, paths and directory creation (lines 35-38, 80, 91) are not modelled;
  - a failure of `mkdir` escapes `set_i18n` and is not modelled;
  - other processes changing the files at the same time are not modelled.
- JSON text is not modelled. A file is what `json.load` makes of it, and `json.dump` is `ToJson`; the `indent` and `ensure_ascii` settings (lines 44, 105) are serialiser formatting.
- Failures when opening a file for writing or while `json.dump` runs (lines 104-105) are not modelled: a write that succeeds in memory always gives `Updated`.
- `ensure_json_files_exist` failing to create a file (line 43) is not modelled. The call at line 79 is outside the `try`, so in the source the exception escapes `set_i18n` and no results are returned. `WithDefaults` and `LocaleDir.EnsureFilesExist` always succeed.
- Python's recursion limit is not modelled. `set_nested_value` recurses once per key segment (line 57), so a key of about a thousand segments raises `RecursionError`. Line 108 catches it, and that language gets an error entry with its file not rewritten. The model has no depth bound and reports `Updated`.
- The result strings (lines 107, 109) are reduced to the tags `Updated` and `Failed`.
- Orders are not modelled:
  - the order of members inside an object;
  - the order of the `translations` dictionary, which the model handles in an arbitrary order. Each language touches only its own file, so the order does not change the outcome.
- JSON numbers are integers; no operation here looks at a number.
- JsonHeap.JsonObject.SetNestedValue: the value written is a string, the only kind `set_i18n` passes.
- JsonHeap.JsonObject.SetNestedValue: the dictionaries of a tree are required not to share memory, as in a tree fresh from `json.load`. Writes into a dictionary reachable along two paths are not modelled.
- The `@tool` decorator, the agent, the model client, argument parsing and `main` (lines 60, 114-157) are LLM and command-line plumbing.
