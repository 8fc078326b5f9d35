# configur — the merge bookkeeping, in Dafny

`configur` builds one JSON document per directory of an `ev2` tree. It lists
the `.yml` files below `ev2/environments` and groups them by directory. For
each directory it merges, in order:

- the flags of the directory and its ancestors, read from `ev2/flags.yml`,
  root first;
- the `.yml` files of the directory and its ancestors, root first.

It writes the result to `scratch/<dir>/dump2.json`. One input cache is
shared by all directories, so no `.yml` file is read and parsed twice.

This project models the bookkeeping in `src/main.rs` that decides what is
merged, in which order, and how often a file is read:

- `group_yml_files_by_dir` (module `Grouping`);
- the inversion and coercion part of `load_flags` (module `Flags`);
- the per-directory loop of `main` (module `Assembly`).

Supporting modules:

- `Paths` holds relative paths as component sequences, with `parent`,
  `ancestors` and the root-first reversal.
- `JsonValues` holds the JSON value.
- `Wrappers` holds `Option` and `Result`.
- `Seqs` holds sequence helpers.

Three things are parameters of the model:

- Reading and parsing a file: `load`, a function from path to `Result`.
- The recursive JSON merge of `serde_json_merge`: `merge`, an uninterpreted
  function.
- The order of the directories: `dirs`.

The contracts state the order in which `load` and `merge` are applied. They
say nothing about what the merge computes.

The code follows the same imperative shape as the Rust:

- Grouping, flag inversion, the flag overlay loop, the input-list loop and
  the cached merge loop are `while` loops.
- Each of them is proved against a specification function: `FilesIn`,
  `Table`/`Visits`, `FlagOverlays`/`Fold`, `InputList` and `LoadAll`.
- Lemmas then state what those functions mean.

A JSON object is an association list in the order in which `serde_json::Map`
iterates it. So "the value visited last wins" in `load_flags` is stated
about the document order that the loops actually see.

The template resolver with dependency-ordered evaluation and IP-network
filters is not present in the code. `src/jinga.rs` holds only a stub filter
that appends its argument to the value, and nothing in `src/main.rs` calls
it. The model follows the code and covers neither.

## Model

| member | source | states |
|---|---|---|
| Paths.Parent | src/main.rs:42-43 | Only the empty path has no parent; otherwise the parent followed by the last component gives back the path (`"app.yml"` has parent `""`). |
| Paths.AncestorsAt | src/main.rs:92 | `ancestors()` yields \|p\|+1 paths; the k-th is the path with its last k components removed (the path itself first, the empty root last). |
| Paths.RootFirstIsPrefixes | src/main.rs:92-93 | After the reversal the ancestors are every prefix of the directory by increasing depth: the root first and the directory itself last. |
| Grouping.GroupByDir | src/main.rs:39-52 | A directory is a key exactly when some file has it as parent. Its list is exactly the files with that parent in input order (the filter `FilesIn`), and is never empty. Files without a parent are skipped. |
| Grouping.FilesInCount | src/main.rs:41-49 | A directory's group holds each file whose parent is that directory exactly as often as the input does, and holds no other file. |
| Grouping.FilesInAppend | src/main.rs:44-47 | Grouping keeps relative input order: the group of a concatenation is the concatenation of the groups. |
| Grouping.EachFileInItsParentGroup | src/main.rs:41-49 | Every file filed under a key has that key as parent, so it is in no other group. Every file that has a parent is in its parent's group as often as in the input. |
| Flags.Insert | src/main.rs:150-156 | `BTreeMap::insert`: the key now maps to the new value (overwriting), every other key keeps its value, and the key set grows by exactly that key. |
| Flags.InsertSorted | src/main.rs:152 | Inserting into a key-sorted map keeps the keys strictly increasing. |
| Flags.TableSorted | src/main.rs:150-157 | Every per-path map of the inverted table has strictly increasing keys. |
| Flags.TableMeaning | src/main.rs:150-157 | The inverted table has a path exactly when some visit names it; under it, each key holds the value of the last visit of that path for that key. |
| Flags.LastValueIsLastVisit | src/main.rs:150-152 | The last value for (path, key) is `v` exactly when some visit sets that key of that path to `v` and no later visit sets it again. |
| Flags.PathVisitsMembers | src/main.rs:148-149 | The innermost loop visits (path, key, value) exactly for the paths listed in the array. |
| Flags.ValueVisitsMembers | src/main.rs:147-149 | The middle loop visits (path, key, value) exactly when some value's array lists the path under that value. |
| Flags.VisitsMembers | src/main.rs:146-149 | A (path, key, value) is visited exactly when the document lists the path in the array under that value in the table under that key. |
| Flags.Coerce | src/main.rs:167-171 | `"true"` becomes `true`, `"false"` becomes `false`, and every other text stays the same string. |
| Flags.CoercePairs | src/main.rs:165-173 | One path's map becomes an object with the same keys in the same order; each member is the coerced value of that key. |
| Flags.Convert | src/main.rs:162-176 | Every path keeps its entry, which becomes an object with as many members as the map had keys, each the coerced value. |
| Flags.RecordPaths | src/main.rs:148-157 | The innermost loop leaves the table it would have after recording each listed path in order: the path's map is created on first use, then the key is set. |
| Flags.RecordValues | src/main.rs:147-159 | The middle loop leaves the table after all of one flag's values, each with its path list, in order. |
| Flags.LoadFlags | src/main.rs:146-176 | `load_flags` after the parse returns the conversion of the table built by all visits in document order. Its precondition is the shape that the `unwrap` calls demand. |
| Flags.LoadFlagsMeaning | src/main.rs:146-176 | A path is a key exactly when some visit names it. Its entry is an object whose member `key` is the coerced value of the last listing of the path under `key`, and is absent when no value of `key` lists it. |
| Flags.LoadFlagsKeys | src/main.rs:146-157 | A path is a key of the result exactly when some flag's value array lists it. |
| Flags.LoadFlagsSorted | src/main.rs:151-152 | Each path's object lists its flags in strictly increasing key order, the iteration order of the BTreeMap behind it. |
| Assembly.OverlayFlags | src/main.rs:95-104 | Starting from `{}`, the flag object of each ancestor that has one is merged in, in the ancestors' order. |
| Assembly.OverlaysRootFirst | src/main.rs:92-104 | With the root-first ancestors, the root's flags (when present) are merged first and the directory's own flags (when present) last. |
| Assembly.CollectInputs | src/main.rs:106-112 | The input list is the files of each ancestor that has some, ancestor by ancestor, each in its own order. |
| Assembly.InputListMembers | src/main.rs:106-112 | A file is an input exactly when it is filed under one of the ancestors. |
| Assembly.InputListDepthOrdered | src/main.rs:106-112 | When the ancestors get strictly deeper and files are keyed by their parent, the inputs never get shallower along the list. |
| Assembly.InputsShallowFirst | src/main.rs:92-112 | A directory's inputs are exactly the files of its ancestors (itself included), and every shallower directory's files come before any deeper directory's files. |
| Assembly.LoadAllMeaning | src/main.rs:115-126 | Loading all inputs succeeds exactly when every file loads, and gives the documents in order. Otherwise it fails with the error of the first file that does not load. |
| Assembly.Fetch | src/main.rs:116-126 | A cached path is not read again and yields its cached document. Any other path is read once, logged, and cached when it loads. Either way the result is what loading the path gives. |
| Assembly.MergeInputs | src/main.rs:114-127 | The inputs are merged in order, each fetched through the cache. On success the result is the fold of `merge` over all loaded documents, and every input is cached. The first load error ends the loop with that error. No path is read twice, and only inputs are read. |
| Assembly.DirDumpIsOneFold | src/main.rs:89-127 | The single `dump_json` accumulator: when every input loads, a directory's document is one fold of `merge` from `{}` over its root-first flag overlays followed by its loaded inputs; otherwise it is the first load error. |
| Assembly.AssembleDir | src/main.rs:86-127 | One directory's document is its root-first flag overlays followed by its inputs in order, or the first load error. The cache keeps its invariant, and only the directory's inputs are newly read. |
| Assembly.Run | src/main.rs:83-138 | The loop over directories produces each directory's document in order and stops at the first load error. Across the whole run no file is read twice and only inputs are read. On success every input of every directory has been read. |

## Left out

- `list_yml_paths` (the glob walk and its UTF-8 conversion) is file-system I/O. The file list is an input of `Grouping.GroupByDir`.
- Stripping the `environments` prefix from each globbed path, and its error, are camino path handling. Paths are relative component sequences from the start.
- Reading `flags.yml` and the `.yml` inputs and parsing YAML are I/O. The flags document is an input of `Flags.LoadFlags`, and reading plus parsing an input is the parameter `load`.
- `create_dir_all`, `serde_json::to_string_pretty` and writing `dump2.json` are I/O, and so are the `println!` calls.
- CLI parsing with clap and the camino joins of `ev2`, `environments` and `scratch` are library wrappers.
- `Assembly.FlagKey`: the flag key of an ancestor is the `environments` path joined with the ancestor's components. This assumes `strip_prefix(ev2)` succeeds, as it does for a relative `environments` argument; its failure is not modelled.
- `merged_recursive::<Dfs>` is the uninterpreted parameter `merge`. Only the order and number of merges are stated, not the merged content.
- `Assembly.AssembleDir`: describes the document before `sort_keys`, which is foreign library behaviour and is not modelled.
- `Assembly.Run`: the directory order is a parameter `dirs` and the contract holds for every order. The particular order of `BTreeMap<&Utf8Path, _>` keys (path component order) is not modelled. `dirs` is not required to be the keys of the grouped map.
- `Flags.LoadFlags`: the `unwrap` panics on a malformed flags document are excluded by the precondition `IsFlagsDocument`, not modelled as an error path.
- Whether `serde_json::Map` keeps insertion order or sorts its keys depends on a crate feature. The model takes the document's members in whatever order the map iterates them.
- The representation of JSON numbers is not modelled: a number keeps its literal text.
- `src/jinga.rs` (a placeholder filter and a rendering demo), `configur.js` and `main.js` (WASI launchers) are process plumbing outside the merge bookkeeping. The template resolver and the IP-network filters are not part of this model because the code does not implement them.
