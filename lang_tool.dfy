/** The tool's state and the operations that change it: the loaded files,
    the key index built over them, showing a file and applying a model file
    to a target file. A file's content is given as text; listing a folder and
    the widgets are not modelled. */
module Tool {
  import opened Text
  import opened Lines
  import opened Entries
  import opened LangFiles
  import opened Reconcile
  import opened Reapply
  import opened Display

  datatype Option<T> = None | Some(value: T)

  /** `fname.endswith(".lang")` */
  predicate IsLangName(name: string) {
    |name| >= 5 && name[|name| - 5..] == ".lang"
  }

  /** A file just parsed from its text. */
  function Loaded(text: string): (f: LangFile)
    ensures f.text == text && f.Consistent()
  {
    ParsedWellFormed(text);
    var ls := ParseText(text);
    LangFile(text, ls, EntriesOf(ls))
  }

  /** The key index of the files `names`: `key_sources` has an entry, never
      empty, for each key of `all_keys`, and `n` is in `key_sources[k]`
      exactly when `n` is one of `names` whose dict has `k`. */
  ghost predicate IndexOver(files: map<string, LangFile>, names: set<string>, allKeys: set<string>, keySources: map<string, set<string>>) {
    && keySources.Keys == allKeys
    && (forall k :: k in keySources ==> keySources[k] != {})
    && (forall k, n :: k in keySources && n in keySources[k] ==> n in names && n in files && k in files[n].entries.values)
    && (forall k, n :: n in names && n in files && k in files[n].entries.values ==> k in keySources && n in keySources[k])
  }

  /** The key index of all loaded files. */
  ghost predicate IsIndex(files: map<string, LangFile>, allKeys: set<string>, keySources: map<string, set<string>>) {
    IndexOver(files, files.Keys, allKeys, keySources)
  }

  /** `all_keys` is the union of the loaded files' keys. */
  lemma AllKeysOfIndex(files: map<string, LangFile>, allKeys: set<string>, keySources: map<string, set<string>>, k: string)
    requires IsIndex(files, allKeys, keySources)
    ensures k in allKeys <==> exists n :: n in files && k in files[n].entries.values
  {
    if k in allKeys {
      assert keySources[k] != {};
      var n :| n in keySources[k];
      assert n in files && k in files[n].entries.values;
    }
  }

  /** Replacing a file outside `names` leaves the index of `names` as it is. */
  lemma IndexOverFrame(files: map<string, LangFile>, names: set<string>, name: string, f: LangFile,
                       allKeys: set<string>, keySources: map<string, set<string>>)
    requires name !in names
    requires IndexOver(files, names, allKeys, keySources)
    ensures IndexOver(files[name := f], names, allKeys, keySources)
  {
  }

  /** With the index in place, the report of a file lists exactly the keys
      some loaded file has and this one lacks. */
  lemma MissingFromIndex(files: map<string, LangFile>, allKeys: set<string>, keySources: map<string, set<string>>, name: string, k: string)
    requires IsIndex(files, allKeys, keySources) && name in files
    ensures var r := MissingSpec(allKeys, keySources, files[name].entries.values.Keys);
            (exists i :: 0 <= i < |r| && r[i].key == k) <==>
              (exists n :: n in files && k in files[n].entries.values) && k !in files[name].entries.values
  {
    MissingExactly(allKeys, keySources, files[name].entries.values.Keys, k);
    AllKeysOfIndex(files, allKeys, keySources, k);
  }

  /** `key_sources.get(k, set())` is the set of files that have `k`. */
  lemma SourcesFromIndex(files: map<string, LangFile>, allKeys: set<string>, keySources: map<string, set<string>>, k: string)
    requires IsIndex(files, allKeys, keySources)
    ensures forall n :: n in SourcesOf(keySources, k) <==> n in files && k in files[n].entries.values
  {
  }

  /** ... and each with exactly the files that have it. */
  lemma MissingSourcesFromIndex(files: map<string, LangFile>, allKeys: set<string>, keySources: map<string, set<string>>, name: string, i: nat)
    requires IsIndex(files, allKeys, keySources) && name in files
    requires i < |MissingSpec(allKeys, keySources, files[name].entries.values.Keys)|
    ensures var m := MissingSpec(allKeys, keySources, files[name].entries.values.Keys)[i];
            forall n :: n in m.sources <==> n in files && m.key in files[n].entries.values
  {
    var m := MissingSpec(allKeys, keySources, files[name].entries.values.Keys)[i];
    MissingSources(allKeys, keySources, files[name].entries.values.Keys, i);
    SourcesFromIndex(files, allKeys, keySources, m.key);
  }

  /** The new lines of `apply_model_to_file`, built by its three loops. */
  method BuildNewLines(model: LangFile, target: LangFile, addMarker: bool) returns (newLines: seq<Line>)
    requires model.entries == EntriesOf(model.lines) && target.entries == EntriesOf(target.lines)
    ensures newLines == Reconciled(model.lines, target.lines, addMarker)
  {
    EntriesOfDomain(model.lines);
    EntriesOfValid(target.lines);
    var usedKeys, modelRawLines;
    newLines, usedKeys, modelRawLines := WalkModel(model.lines, model.entries.values, target.entries.values, addMarker);
    newLines := AppendTargetOnly(newLines, target.entries.keys, usedKeys, target.entries.values);
    ghost var head := newLines;
    assert head == Head(model.lines, target.lines, addMarker);
    var targetComments := CollectMoved(target.lines, modelRawLines);
    if targetComments != [] {
      newLines := newLines + [Raw("")];
      newLines := newLines + targetComments;
      assert newLines == head + ([Raw("")] + targetComments);
    }
  }

  /** The loop over the model's lines: comment and blank lines are kept and
      remembered, invalid raw lines dropped, and each entry takes the
      target's value, or else the model's, marked when asked. */
  method WalkModel(modelLines: seq<Line>, modelValues: map<string, string>, targetValues: map<string, string>, addMarker: bool)
    returns (newLines: seq<Line>, usedKeys: set<string>, modelRawLines: set<string>)
    requires EntryKeys(modelLines) <= modelValues.Keys
    ensures newLines == ModelPart(modelLines, modelValues, targetValues, addMarker)
    ensures usedKeys == EntryKeys(modelLines)
    ensures modelRawLines == Propagated(modelLines)
  {
    newLines, usedKeys, modelRawLines := [], {}, {};
    var i := 0;
    while i < |modelLines|
      invariant 0 <= i <= |modelLines|
      invariant EntryKeys(modelLines[..i]) <= modelValues.Keys
      invariant newLines == ModelPart(modelLines[..i], modelValues, targetValues, addMarker)
      invariant usedKeys == EntryKeys(modelLines[..i])
      invariant modelRawLines == Propagated(modelLines[..i])
    {
      var item := modelLines[i];
      ghost var before := newLines;
      WalkStep(modelLines, modelValues, targetValues, addMarker, i);
      match item {
        case Raw(rawLine) =>
          if StartsWithHash(Strip(rawLine)) || Strip(rawLine) == [] {
            modelRawLines := modelRawLines + {rawLine};
            newLines := newLines + [item];
          }
        case Entry(key, _) =>
          if key in targetValues {
            newLines := newLines + [Entry(key, targetValues[key])];
          } else {
            var val := modelValues[key];
            if addMarker {
              val := val + Marker;
            }
            newLines := newLines + [Entry(key, val)];
          }
          usedKeys := usedKeys + {key};
      }
      assert newLines == before + Emit(item, modelValues, targetValues, addMarker);
      i := i + 1;
    }
    assert modelLines[..i] == modelLines;
  }

  /** One model line more: what the walk, the used keys and the carried
      texts gain. */
  lemma WalkStep(mLines: seq<Line>, modelValues: map<string, string>, targetValues: map<string, string>, addMarker: bool, i: nat)
    requires EntryKeys(mLines) <= modelValues.Keys && i < |mLines|
    ensures EntryKeys(mLines[..i]) <= modelValues.Keys && EntryKeys(mLines[..i + 1]) <= modelValues.Keys
    ensures mLines[i].Entry? ==> mLines[i].key in modelValues
    ensures ModelPart(mLines[..i + 1], modelValues, targetValues, addMarker)
         == ModelPart(mLines[..i], modelValues, targetValues, addMarker) + Emit(mLines[i], modelValues, targetValues, addMarker)
    ensures EntryKeys(mLines[..i + 1]) == EntryKeys(mLines[..i]) + (if mLines[i].Entry? then {mLines[i].key} else {})
    ensures Propagated(mLines[..i + 1])
         == Propagated(mLines[..i]) + (if mLines[i].Raw? && IsCommentOrBlank(mLines[i].text) then {mLines[i].text} else {})
  {
    ModelPartPrefix(mLines, modelValues, targetValues, addMarker, i + 1);
    assert mLines[..i + 1][..i] == mLines[..i];
  }

  /** The loop over the target's dict: each key the model lacks is appended
      with the target's value, in the dict's order. */
  method AppendTargetOnly(newLines: seq<Line>, keys: seq<string>, usedKeys: set<string>, targetValues: map<string, string>)
    returns (newLines': seq<Line>)
    requires forall k :: k in keys ==> k in targetValues
    ensures newLines' == newLines + TargetOnly(keys, usedKeys, targetValues)
  {
    newLines' := newLines;
    ghost var added := [];
    var j := 0;
    while j < |keys|
      invariant 0 <= j <= |keys|
      invariant newLines' == newLines + added
      invariant added == TargetOnly(keys[..j], usedKeys, targetValues)
    {
      var key := keys[j];
      if key !in usedKeys {
        newLines' := newLines' + [Entry(key, targetValues[key])];
        added := added + [Entry(key, targetValues[key])];
      }
      TargetOnlySnoc(keys, usedKeys, targetValues, j);
      j := j + 1;
    }
    assert keys[..j] == keys;
  }

  /** The loop over the target's lines: the raw lines whose text the model
      did not carry, in order. */
  method CollectMoved(targetLines: seq<Line>, modelRawLines: set<string>) returns (targetComments: seq<Line>)
    ensures targetComments == Moved(targetLines, modelRawLines)
  {
    targetComments := [];
    var k := 0;
    while k < |targetLines|
      invariant 0 <= k <= |targetLines|
      invariant targetComments == Moved(targetLines[..k], modelRawLines)
    {
      var item := targetLines[k];
      if item.Raw? && item.text !in modelRawLines {
        targetComments := targetComments + [item];
      }
      assert targetLines[..k + 1][..k] == targetLines[..k];
      k := k + 1;
    }
    assert targetLines[..k] == targetLines;
  }

  /** One more target key: the target-only entries grow by its entry when
      the model lacks it. */
  lemma TargetOnlySnoc(keys: seq<string>, used: set<string>, values: map<string, string>, j: nat)
    requires forall k :: k in keys ==> k in values
    requires j < |keys|
    ensures TargetOnly(keys[..j + 1], used, values)
         == TargetOnly(keys[..j], used, values) + (if keys[j] in used then [] else [Entry(keys[j], values[keys[j]])])
  {
    assert keys[..j + 1][..j] == keys[..j];
  }

  /** `key_sources` after `key_sources.setdefault(key, set()).add(name)`
      for each key of `keys`, in order. */
  function AddSource(keySources: map<string, set<string>>, keys: seq<string>, name: string): map<string, set<string>>
    decreases |keys|
  {
    if keys == [] then keySources
    else
      var p := AddSource(keySources, keys[..|keys| - 1], name);
      var key := keys[|keys| - 1];
      p[key := (if key in p then p[key] else {}) + {name}]
  }

  lemma AddSourceSnoc(keySources: map<string, set<string>>, keys: seq<string>, name: string, j: nat)
    requires j < |keys|
    ensures var p := AddSource(keySources, keys[..j], name);
            AddSource(keySources, keys[..j + 1], name) == p[keys[j] := (if keys[j] in p then p[keys[j]] else {}) + {name}]
  {
    assert keys[..j + 1][..j] == keys[..j];
  }

  /** Adding `name` as a source of `keys`: the keys gain an entry if they
      had none, `name` joins the sources of exactly those keys, and nothing
      else changes. */
  lemma {:induction false} AddSourceMeaning(keySources: map<string, set<string>>, keys: seq<string>, name: string)
    ensures var r := AddSource(keySources, keys, name);
            && (forall k :: k in r <==> k in keySources || k in keys)
            && (forall k, n :: k in r && n in r[k] <==> (k in keySources && n in keySources[k]) || (n == name && k in keys))
    decreases |keys|
  {
    if keys != [] {
      var m := |keys| - 1;
      AddSourceMeaning(keySources, keys[..m], name);
      assert forall k :: k in keys <==> k in keys[..m] || k == keys[m];
    }
  }

  /** The index of `done` with the file `name` indexed as well. */
  lemma IndexAdd(files: map<string, LangFile>, done: set<string>, name: string,
                 allKeys: set<string>, keySources: map<string, set<string>>)
    requires name in files && files[name].entries.Valid()
    requires IndexOver(files, done, allKeys, keySources)
    ensures var entries := files[name].entries;
            IndexOver(files, done + {name}, allKeys + entries.values.Keys, AddSource(keySources, entries.keys, name))
  {
    var entries := files[name].entries;
    var r := AddSource(keySources, entries.keys, name);
    AddSourceMeaning(keySources, entries.keys, name);
    forall k | k in r
      ensures r[k] != {}
    {
      if k in entries.keys {
        assert name in r[k];
      } else {
        assert keySources[k] != {};
        var n :| n in keySources[k];
        assert n in r[k];
      }
    }
    forall k, n | n in done + {name} && n in files && k in files[n].entries.values
      ensures k in r && n in r[k]
    {
      if n == name {
        assert k in entries.keys;
      }
    }
  }

  /** The files `start` with those among `done` parsed again. */
  ghost function Rescanned(start: map<string, LangFile>, done: set<string>): map<string, LangFile> {
    map n | n in start :: if n in done then Loaded(start[n].text) else start[n]
  }

  lemma RescannedKeys(start: map<string, LangFile>, done: set<string>)
    ensures Rescanned(start, done).Keys == start.Keys
  {
  }

  /** Once every file is done, the files are all parsed again and indexed. */
  lemma ScannedAll(start: map<string, LangFile>, done: set<string>, files: map<string, LangFile>,
                   allKeys: set<string>, keySources: map<string, set<string>>)
    requires done == start.Keys
    requires Scanned(start, done, files, allKeys, keySources)
    ensures files == Rescanned(start, start.Keys) && IsIndex(files, allKeys, keySources)
  {
    RescannedKeys(start, done);
  }

  lemma RescannedStep(start: map<string, LangFile>, done: set<string>, name: string)
    requires name in start
    ensures Rescanned(start, done + {name}) == Rescanned(start, done)[name := Loaded(start[name].text)]
  {
  }

  /** Midway through `scan_all`: the files `done` are parsed again and indexed. */
  ghost predicate Scanned(start: map<string, LangFile>, done: set<string>, files: map<string, LangFile>,
                          allKeys: set<string>, keySources: map<string, set<string>>) {
    files == Rescanned(start, done) && IndexOver(files, done, allKeys, keySources)
  }

  /** Moving one name from the names to visit to the names visited. */
  lemma DoneStep(all: set<string>, todo: set<string>, done: set<string>, name: string)
    requires name in todo && todo <= all && done == all - todo
    ensures todo - {name} <= all && done + {name} == all - (todo - {name}) && name !in done
  {
  }

  class LangTool {
    /** `lang_files`: each loaded file by name. */
    var files: map<string, LangFile>
    /** `all_keys` */
    var allKeys: set<string>
    /** `key_sources` */
    var keySources: map<string, set<string>>

    /** Every file's records and dict agree. */
    ghost predicate Valid()
      reads this
    {
      forall n :: n in files ==> files[n].Consistent()
    }

    ghost predicate Indexed()
      reads this
    {
      IsIndex(files, allKeys, keySources)
    }

    /** The state before any folder is loaded. */
    constructor()
      ensures Valid() && Indexed()
      ensures files == map[] && allKeys == {} && keySources == map[]
    {
      files, allKeys, keySources := map[], {}, map[];
    }

    /** `load_folder` once the folder has been listed: `listing` gives the
        content of each file in it. The `.lang` files replace the loaded
        ones, unparsed, and are then scanned. */
    method LoadFolder(listing: map<string, string>)
      modifies this
      ensures Valid()
      ensures files.Keys == set n | n in listing && IsLangName(n)
      ensures forall n :: n in files ==> files[n] == Loaded(listing[n])
      ensures files != map[] ==> Indexed()
      ensures files == map[] ==> allKeys == old(allKeys) && keySources == old(keySources)
    {
      files := map n | n in listing && IsLangName(n) :: LangFile(listing[n], [], Empty);
      ScanAll();
    }

    /** `scan_all`: every file parsed again from its text, and the key index
        rebuilt from scratch. With no file loaded it does nothing at all, so
        the index of an earlier folder stays. */
    method ScanAll()
      modifies this
      ensures Valid()
      ensures old(files) == map[] ==> files == old(files) && allKeys == old(allKeys) && keySources == old(keySources)
      ensures files.Keys == old(files).Keys
      ensures forall n :: n in files ==> files[n] == Loaded(old(files)[n].text)
      ensures old(files) != map[] ==> Indexed()
    {
      if files == map[] {
        return;
      }
      allKeys := {};
      keySources := map[];
      ScanEach();
    }

    /** The loop of `scan_all`, which visits the files in some order. */
    method ScanEach()
      requires allKeys == {} && keySources == map[]
      modifies this
      ensures files == Rescanned(old(files), old(files).Keys)
      ensures Indexed()
    {
      ghost var start := files;
      var todo := files.Keys;
      ghost var done: set<string> := {};
      while todo != {}
        invariant todo <= start.Keys
        invariant done == start.Keys - todo
        invariant Scanned(start, done, files, allKeys, keySources)
        decreases todo
      {
        var name :| name in todo;
        ScanFile(name, start, done);
        DoneStep(start.Keys, todo, done, name);
        todo := todo - {name};
        done := done + {name};
      }
      ScannedAll(start, done, files, allKeys, keySources);
    }

    /** One round of the loop of `scan_all`: the file `name` parsed again,
        and its keys added to the index of the files `done`. */
    method ScanFile(name: string, ghost start: map<string, LangFile>, ghost done: set<string>)
      requires name in start && name !in done
      requires Scanned(start, done, files, allKeys, keySources)
      modifies this
      ensures Scanned(start, done + {name}, files, allKeys, keySources)
    {
      var text := files[name].text;
      var lines, entries := ParseLangFile(text);
      assert LangFile(text, lines, entries) == Loaded(text);
      EntriesOfValid(lines);
      IndexOverFrame(files, done, name, LangFile(text, lines, entries), allKeys, keySources);
      RescannedStep(start, done, name);
      files := files[name := LangFile(text, lines, entries)];
      IndexFile(name, entries, done);
    }

    /** The index updates of `scan_all` for one file `name` with dict
        `entries`, after the files `done`. */
    method IndexFile(name: string, entries: Dict, ghost done: set<string>)
      requires name in files && files[name].entries == entries && entries.Valid()
      requires IndexOver(files, done, allKeys, keySources)
      modifies this
      ensures files == old(files)
      ensures IndexOver(files, done + {name}, allKeys, keySources)
    {
      allKeys := allKeys + entries.values.Keys;
      AddSources(entries.keys, name);
      IndexAdd(files, done, name, old(allKeys), old(keySources));
    }

    /** The loop of `scan_all` over one file's keys: `name` is added to the
        sources of each, a key seen for the first time getting a new set. */
    method AddSources(keys: seq<string>, name: string)
      modifies this
      ensures files == old(files) && allKeys == old(allKeys)
      ensures keySources == AddSource(old(keySources), keys, name)
    {
      var j := 0;
      while j < |keys|
        invariant 0 <= j <= |keys|
        invariant files == old(files) && allKeys == old(allKeys)
        invariant keySources == AddSource(old(keySources), keys[..j], name)
      {
        var key := keys[j];
        ghost var prev := keySources;
        if key !in keySources {
          keySources := keySources[key := {}];
        }
        keySources := keySources[key := keySources[key] + {name}];
        assert keySources == prev[key := (if key in prev then prev[key] else {}) + {name}];
        AddSourceSnoc(old(keySources), keys, name, j);
        j := j + 1;
      }
      assert keys[..j] == keys;
    }

    /** `display_file`: nothing for an empty or unknown name; otherwise the
        file is parsed if it has no records yet, and its view is its records
        and the report of the keys it lacks. */
    method DisplayFile(name: string) returns (view: Option<seq<string>>)
      requires Valid()
      modifies this
      ensures Valid()
      ensures allKeys == old(allKeys) && keySources == old(keySources)
      ensures name == "" || name !in old(files) ==> view == None && files == old(files)
      ensures name != "" && name in old(files) ==>
                var f := if old(files)[name].lines == [] then Loaded(old(files)[name].text) else old(files)[name];
                && files == old(files)[name := f]
                && view == Some(View(f.lines, MissingSpec(allKeys, keySources, f.entries.values.Keys)))
    {
      if name == "" || name !in files {
        return None;
      }
      var data := files[name];
      if data.lines == [] {
        var lines, entries := ParseLangFile(data.text);
        data := LangFile(data.text, lines, entries);
        assert data == Loaded(data.text);
        files := files[name := data];
      }
      var shown := Render(data.lines, allKeys, keySources, data.entries.values.Keys);
      view := Some(shown);
    }

    /** `apply_model_to_file`: fails, changing nothing, unless both names
        are loaded; otherwise the target's new lines are written to its file
        and read back, and nothing else changes (the key index is not
        rebuilt). */
    method ApplyModelToFile(modelName: string, targetName: string, addMarker: bool) returns (ok: bool)
      requires Valid()
      modifies this
      ensures Valid()
      ensures ok <==> modelName in old(files) && targetName in old(files)
      ensures allKeys == old(allKeys) && keySources == old(keySources)
      ensures !ok ==> files == old(files)
      ensures ok ==>
                var r := Reconciled(old(files)[modelName].lines, old(files)[targetName].lines, addMarker);
                files == old(files)[targetName := LangFile(Serialize(r), r, EntriesOf(r))]
    {
      if modelName !in files || targetName !in files {
        return false;
      }
      var model, target := files[modelName], files[targetName];
      var newLines := BuildNewLines(model, target, addMarker);
      var text := WriteLangFile(newLines);
      var lines, entries := ParseLangFile(text);
      ReconciledWellFormed(model.lines, target.lines, addMarker);
      ReparseWritten(newLines);
      files := files[targetName := LangFile(text, lines, entries)];
      return true;
    }
  }
}
