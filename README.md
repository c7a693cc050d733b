# Minecraft Lang Manager, modelled in Dafny

`lang_manager.py` keeps a folder of Minecraft `.lang` translation files in
step with a model language. Each file is a list of `key=value` lines mixed
with comments and blank lines. The tool does three things:

- it parses every file into its records and a `key -> value` dict;
- it builds an index of all keys, recording for each key the files that
  have it;
- it shows a file with its invalid lines flagged and the keys it lacks
  listed.

Its central operation, applying a model file to a target file, rewrites the
target:

- the target follows the model's line order;
- the target's own translations win;
- keys the target lacks are filled from the model, optionally marked
  ` TOTRANSLATE`;
- keys only the target has come after the model's keys;
- the target's own comments move to the bottom, under a blank separator.

The project has one module per concern:

- `Text` covers `str.strip()` with Python's whitespace set,
  `startswith("#")` and the first index of a character.
- `Lines` covers the record type, the line parser, `readlines()` followed by
  `rstrip("\n")`, the writer, and both round trips between text and records.
- `Entries` models the parser's dict with its insertion order (`Dict`). The
  last entry for a key wins.
- `LangFiles` holds `parse_lang_file` and `write_lang_file` as loop
  methods, proved against the spec functions.
- `Reconcile` is the specification of the lines `apply_model_to_file`
  builds (`Reconciled`), with lemmas about where each line lands and which
  value each key gets.
- `Reapply` covers the dict of the new lines, applying a model twice, and
  the fact that the new lines survive being written and read back.
- `Ordering` covers `sorted()` on strings: code-point lexicographic order,
  and the unique sorted listing of a set.
- `Display` is the text that `display_file` shows, together with the
  missing-keys report.
- `Tool` holds the class `LangTool`, with the fields `files` (`lang_files`),
  `allKeys` (`all_keys`) and `keySources` (`key_sources`). Its methods are
  `LoadFolder`, `ScanAll` and its loop, `DisplayFile` and
  `ApplyModelToFile`. This module also holds the key-index invariant and
  the lemmas linking the missing-keys report to the loaded files.

A file is represented by its text. That is what `open(path, "r")` yields
after newline translation. Writing a file replaces that text. A folder is
represented by a map from file names to texts.

Behaviours of the code that the model keeps as written:

- `scan_all` returns at once when no file is loaded. The index of an
  earlier folder then stays as it was (`ScanAll`, `LoadFolder`).
- `apply_model_to_file` reparses the target but does not rebuild the key
  index (`ApplyModelToFile`).
- A model may be applied to itself. Nothing forbids `model == target`.
- Applying the same model again repeats the previous result exactly, except
  in one case: some target line moved to the bottom, and the model has no
  empty line. In that case the previous blank separator is itself a target
  raw line the model does not carry, so it moves down too. Each further
  application then adds one more empty line (`Reapply`). The dict is never
  changed by a second application (`ReapplyKeepsDict`).

## Model

| member | source | states |
|---|---|---|
| Lines.ParseLine | lang_manager.py:17-22 | A line is an entry exactly when it contains `=` and its stripped form does not start with `#`. An entry's key has no `=`, and key, `=` and value put back together give the line. Any other line is kept verbatim. |
| Lines.ReadLines | lang_manager.py:15-16 | The lines read from a text contain no line break, and putting a line break after each gives the text back, with one added after a last line that had none (so such a line is kept, and an empty tail is not a line). |
| Lines.SerializeParsed | lang_manager.py:15-32 | Writing the records parsed from some lines puts back each line followed by a line break. |
| Lines.CommentOrBlankMeaning | lang_manager.py:201 | A raw line counts as a comment or blank exactly when it is all whitespace, or its first non-whitespace character is `#`. |
| Text.StripEmptyIffBlank | lang_manager.py:245 | `not raw.strip()` holds exactly when every character is whitespace. |
| Lines.ParsedWellFormed | lang_manager.py:11-23 | Every record the parser produces is one that the writer and the parser give back unchanged. |
| Lines.ReparseWritten | lang_manager.py:26-32 | Parsing what the writer wrote for well-formed records gives back the same records, in order. |
| Lines.WriteParsed | lang_manager.py:11-32 | Writing the parsed records of any text reproduces it exactly when it is empty or ends in a line break, and otherwise reproduces it with a line break added at the end. |
| Lines.EntryWithValue | lang_manager.py:252-256 | Replacing the value of a well-formed entry keeps it well formed, provided the new value has no line break. Appending the marker is one such replacement. |
| Entries.Dict.Put | lang_manager.py:19 | `entries[key] = val` maps the key to the value and leaves the other keys as they were. Existing keys keep their place in the order; a new key goes last. |
| Entries.EntriesOfValid | lang_manager.py:12-20 | The parser's dict lists each key once, and the listed keys are exactly its keys. |
| Entries.EntriesOfDomain | lang_manager.py:17-20 | The dict's keys are exactly the keys of the entry records. |
| Entries.EntriesOfLastWins | lang_manager.py:19 | A key maps to the value of its last entry record. |
| Entries.EntriesOfWitness | lang_manager.py:19 | Every key-value pair of the dict comes from some entry record. |
| LangFiles.ParseLangFile | lang_manager.py:11-23 | The loop returns the records of the text and the dict of those records. |
| LangFiles.WriteLangFile | lang_manager.py:26-32 | The loop returns the writer's text for the records, which `ReparseWritten` reads back. |
| Reconcile.FilterOut | lang_manager.py:259-262 | Exactly the target keys the model walk did not use; the result is duplicate-free when the input is. Their order is stated by `Reconcile.TargetOnlyLandsAt`. |
| Reconcile.PropagatedMeaning | lang_manager.py:241-247 | A text is in `model_raw_lines` exactly when some model raw line has it and is a comment or blank. |
| Reconcile.ModelPartLines | lang_manager.py:240-257 | Every line of the model walk is one of two things. It is a model comment or blank line that was carried over, or it is an entry for a model key holding the target's value if there is one and otherwise the model's. |
| Reconcile.ModelLineLandsAt | lang_manager.py:240-257 | The model walk keeps the model's order: each kept model line lands right after the output of the lines before it. An invalid raw line produces nothing. |
| Reconcile.TargetOnlyLandsAt | lang_manager.py:259-262 | A target key the model lacks lands right after the target-only entries before it, with the target's value. |
| Reconcile.TargetOnlyLines | lang_manager.py:259-262 | The target-only entries are exactly the target keys the model lacks, once each, each with the target's value. |
| Reconcile.MovedLines | lang_manager.py:264-270 | The moved lines are target raw lines whose text the model did not carry over. |
| Reconcile.MovedLandsAt | lang_manager.py:264-274 | Every target raw line whose text was not carried over is moved, and moving keeps the target's order. |
| Reconcile.HeadLines | lang_manager.py:240-262 | Before the separator, raw lines are model comments or blank lines. A model key holds the chosen value; any other key holds the target's value. |
| Reconcile.TargetWins | lang_manager.py:250-251 | In the new lines, a key the target has always carries the target's value. |
| Reconcile.ModelFills | lang_manager.py:252-256 | In the new lines, a key the target lacks is a model key. It carries the model's value, followed by ` TOTRANSLATE` exactly when the flag is set. |
| Reapply.ReconciledDict | lang_manager.py:240-262 | The new dict has the model's keys in the model's order, then the target-only keys in the target's order. It loses no key of either file. A key the target has keeps the target's value; any other key gets the model's value, filled. |
| Reapply.Reapply | lang_manager.py:220-278 | Applying the model a second time gives the same lines, unless lines moved and the model has no empty line. In that case it gives one more empty line before the moved lines. |
| Reapply.ReapplyKeepsDict | lang_manager.py:220-278 | A second application leaves the dict unchanged. |
| Reapply.ReconciledWellFormed | lang_manager.py:272-277 | The new lines of parsed files are well formed, so writing them and parsing them again gives them back. |
| Ordering.SortedList | lang_manager.py:209 | `sorted()` of a set lists each element once, in increasing code-point order. |
| Ordering.SortedUnique | lang_manager.py:215 | A set has exactly one strictly increasing listing. |
| Display.ShownFlagsInvalid | lang_manager.py:197-207 | A record is shown as written. A raw line whose first non-whitespace character exists and is not `#` additionally gets `  # INVALID`, and this happens only for such lines. |
| Display.MissingLine | lang_manager.py:213-218 | A missing key is shown as `key=` when it has no sources, and otherwise as `key=  # from: ` followed by its sources joined with `, `. |
| Display.JoinLayout | lang_manager.py:215 | The joined text holds every part at its offset, the separator right after each part but the last, and ends with the last part. |
| Display.MissingLineSources | lang_manager.py:215-216 | After `key=  # from: ` the line lists every source at its offset, consecutive sources separated by `, `, and ends with the last source. |
| Display.MissingSorted | lang_manager.py:209 | The report lists the missing keys in increasing order. |
| Display.MissingExactly | lang_manager.py:209-210 | The report lists exactly the indexed keys the file lacks. |
| Display.MissingSources | lang_manager.py:213-215 | Each missing key comes with the files the index records for it, sorted. |
| Display.RenderLines | lang_manager.py:197-207 | The loop over the records shows each record in turn. |
| Display.RenderMissing | lang_manager.py:209-211 | The missing-keys part of the view is empty when no key is missing. Otherwise it is an empty line, the header, and one line per missing key. |
| Display.RenderRows | lang_manager.py:212-218 | The loop over the missing keys writes one row per key of the report, in order, each with the key's sources when it has some. |
| Display.Render | lang_manager.py:195-218 | The view is the shown records followed by the missing-keys report. |
| Tool.AllKeysOfIndex | lang_manager.py:164 | Under the index invariant, `all_keys` is the union of the loaded files' keys. |
| Tool.SourcesFromIndex | lang_manager.py:165-169 | Under the index invariant, `key_sources.get(k, set())` is the set of files whose dict has `k`. |
| Tool.MissingFromIndex | lang_manager.py:209 | With the index in place, the report of a file lists exactly the keys that some loaded file has and this file lacks. |
| Tool.MissingSourcesFromIndex | lang_manager.py:212-215 | With the index in place, each reported key lists exactly the loaded files that have it. |
| Tool.AddSourceMeaning | lang_manager.py:165-169 | The setdefault-and-add loop adds the file to the sources of each of its keys and changes nothing else. |
| Tool.IndexAdd | lang_manager.py:164-169 | Adding a file's keys to the index of the files visited so far gives the index of those files plus this one. |
| Tool.WalkModel | lang_manager.py:240-257 | The loop over the model's lines returns the model walk, the used keys (the model's keys) and `model_raw_lines`. |
| Tool.AppendTargetOnly | lang_manager.py:259-262 | The loop over the target dict appends the target-only entries. |
| Tool.CollectMoved | lang_manager.py:264-270 | The loop over the target's lines collects the raw lines the model did not carry over. |
| Tool.BuildNewLines | lang_manager.py:227-274 | The three loops and the separator build exactly `Reconciled` of the two files' records. |
| Tool.LangTool.constructor | lang_manager.py:45-49 | The tool starts with no files, no keys and no sources, and its invariants hold. |
| Tool.LangTool.LoadFolder | lang_manager.py:108-124 | The loaded files are the folder's `.lang` files, each parsed from its text. When some file is loaded, the index is that of these files. When none is, the old index stays. |
| Tool.LangTool.ScanAll | lang_manager.py:153-169 | With files loaded, every file is parsed again from its text and the index is rebuilt to match them. With none loaded, nothing changes. |
| Tool.LangTool.ScanEach | lang_manager.py:160-169 | Starting from an empty index, visiting the files in any order leaves every file reparsed and the index complete. |
| Tool.LangTool.ScanFile | lang_manager.py:160-169 | One round reparses one file and extends the index of the visited files to include it. |
| Tool.LangTool.IndexFile | lang_manager.py:164-169 | Adding one file's keys extends `all_keys` and `key_sources` from the visited files to those files plus this one. |
| Tool.LangTool.AddSources | lang_manager.py:166-169 | The loop over one file's keys turns `key_sources` into `AddSource` of the old index, whose meaning `AddSourceMeaning` states. Files and `all_keys` are untouched. |
| Tool.LangTool.DisplayFile | lang_manager.py:179-218 | An empty or unknown name shows nothing. Otherwise a file with no records yet is parsed first, and the view is its records and its missing-keys report. The index is left unchanged. |
| Tool.LangTool.ApplyModelToFile | lang_manager.py:220-278 | The operation succeeds exactly when both files are loaded. On success, the target's text becomes the written `Reconciled` lines, its records become those lines and its dict becomes theirs. Nothing else changes, including the index. |

## Left out

- The tkinter window, the widgets, colour tags and message boxes are not modelled. Neither are the `hasattr` guards that only update labels and combo boxes.
- `display_file` is not modelled as being called at the end of `scan_all` and `load_folder`. That call only refreshes the widget. Its one state change, parsing a file with no records, is modelled by `DisplayFile`.
- The file system is not modelled. Folder listing, `os.path.isdir`, opening files and the encoding are outside the model. `LoadFolder` takes the listing and the texts as a parameter, so the `False` result for a missing folder is not modelled. A file's text is its content after newline translation.
- `select_folder`, `apply_model`, `apply_model_to_all` and the command-line entry points are not modelled. They are wrappers that pick names from widgets or arguments and call the operations modelled here.
- `run_headless` and its `HeadlessTool` class are not modelled. They repeat `load_folder`, `scan_all` and `apply_model_to_file` without the widgets.
- Tool.LangTool.ScanEach: visits the files in an order it chooses. The Python dict visits them in insertion order, and the result does not depend on the order.
- `key_sources[key].add(fname)` mutates a set in place. It is modelled as an update of the map's value.
