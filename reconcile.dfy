/** What `apply_model_to_file` computes: the target's new line list, built in
    the model's line order, with target values winning, model values filling
    the keys the target lacks, target-only keys after them and the target's
    own raw lines moved to the bottom. Files are given by their parsed lines;
    their dicts are the parser's `EntriesOf` of those lines. */
module Reconcile {
  import opened Text
  import opened Lines
  import opened Entries

  /** The suffix that flags a value copied from the model as untranslated. */
  const Marker := " TOTRANSLATE"

  /** The value a target receives for a key of the model it lacks. */
  function Filled(v: string, addMarker: bool): string {
    if addMarker then v + Marker else v
  }

  /** The value written for model key `k`: the target's if it has one. */
  function Chosen(k: string, modelValues: map<string, string>, targetValues: map<string, string>, addMarker: bool): string
    requires k in modelValues
  {
    if k in targetValues then targetValues[k] else Filled(modelValues[k], addMarker)
  }

  /** A model line that survives the walk: an entry, or a comment or blank. */
  predicate Kept(l: Line) {
    l.Entry? || IsCommentOrBlank(l.text)
  }

  /** What one model line contributes to the new lines. */
  function Emit(l: Line, modelValues: map<string, string>, targetValues: map<string, string>, addMarker: bool): seq<Line>
    requires l.Entry? ==> l.key in modelValues
  {
    match l
    case Raw(t) => if IsCommentOrBlank(t) then [l] else []
    case Entry(k, _) => [Entry(k, Chosen(k, modelValues, targetValues, addMarker))]
  }

  /** The walk over the model's lines, in order. */
  function ModelPart(mLines: seq<Line>, modelValues: map<string, string>, targetValues: map<string, string>, addMarker: bool): seq<Line>
    requires EntryKeys(mLines) <= modelValues.Keys
    decreases |mLines|
  {
    if mLines == [] then []
    else
      var n := |mLines| - 1;
      ModelPart(mLines[..n], modelValues, targetValues, addMarker) + Emit(mLines[n], modelValues, targetValues, addMarker)
  }

  /** `model_raw_lines`: the texts of the model raw lines carried over. */
  function Propagated(mLines: seq<Line>): set<string>
    decreases |mLines|
  {
    if mLines == [] then {}
    else
      var n := |mLines| - 1;
      var l := mLines[n];
      Propagated(mLines[..n]) + (if l.Raw? && IsCommentOrBlank(l.text) then {l.text} else {})
  }

  /** The keys of `keys` not in `used`, in their order. */
  function FilterOut(keys: seq<string>, used: set<string>): (r: seq<string>)
    ensures forall k :: k in r <==> k in keys && k !in used
    ensures (forall i, j :: 0 <= i < j < |keys| ==> keys[i] != keys[j]) ==>
            (forall i, j :: 0 <= i < j < |r| ==> r[i] != r[j])
    decreases |keys|
  {
    if keys == [] then []
    else
      var n := |keys| - 1;
      assert forall k :: k in keys <==> k in keys[..n] || k == keys[n];
      FilterOut(keys[..n], used) + (if keys[n] in used then [] else [keys[n]])
  }

  /** One entry record per key, with the key's value in `values`. */
  function EntriesFor(ks: seq<string>, values: map<string, string>): seq<Line>
    requires forall k :: k in ks ==> k in values
  {
    seq(|ks|, i requires 0 <= i < |ks| => Entry(ks[i], values[ks[i]]))
  }

  /** The target entries whose key the model lacks, in the target dict's order. */
  function TargetOnly(keys: seq<string>, used: set<string>, targetValues: map<string, string>): seq<Line>
    requires forall k :: k in keys ==> k in targetValues
  {
    EntriesFor(FilterOut(keys, used), targetValues)
  }

  /** `target_comments`: the target raw lines whose text was not carried
      over from the model, in order. */
  function Moved(tLines: seq<Line>, propagated: set<string>): seq<Line>
    decreases |tLines|
  {
    if tLines == [] then []
    else
      var n := |tLines| - 1;
      var l := tLines[n];
      Moved(tLines[..n], propagated) + (if l.Raw? && l.text !in propagated then [l] else [])
  }

  /** The new lines before the moved comments: the model walk, then the
      target-only entries. */
  function Head(mLines: seq<Line>, tLines: seq<Line>, addMarker: bool): seq<Line> {
    var model := EntriesOf(mLines);
    var target := EntriesOf(tLines);
    EntriesOfDomain(mLines);
    EntriesOfValid(tLines);
    ModelPart(mLines, model.values, target.values, addMarker)
      + TargetOnly(target.keys, EntryKeys(mLines), target.values)
  }

  /** A blank separator and the moved comments, or nothing when none moved. */
  function Bottom(moved: seq<Line>): seq<Line> {
    if moved == [] then [] else [Raw("")] + moved
  }

  /** The target's new lines, as `apply_model_to_file` builds `new_lines`. */
  function Reconciled(mLines: seq<Line>, tLines: seq<Line>, addMarker: bool): seq<Line> {
    Head(mLines, tLines, addMarker) + Bottom(Moved(tLines, Propagated(mLines)))
  }

  // ---------------------------------------------------------------------
  // The pieces, one at a time
  // ---------------------------------------------------------------------

  /** A text is carried over from the model exactly when some model raw
      line has it and is a comment or blank. */
  lemma {:induction false} PropagatedMeaning(mLines: seq<Line>, t: string)
    ensures t in Propagated(mLines) <==>
            exists i :: 0 <= i < |mLines| && mLines[i] == Raw(t) && IsCommentOrBlank(t)
    decreases |mLines|
  {
    if mLines != [] {
      var n := |mLines| - 1;
      PropagatedMeaning(mLines[..n], t);
      if exists i :: 0 <= i < |mLines| && mLines[i] == Raw(t) && IsCommentOrBlank(t) {
        var i :| 0 <= i < |mLines| && mLines[i] == Raw(t) && IsCommentOrBlank(t);
        if i < n {
          assert mLines[..n][i] == mLines[i];
        }
      }
      if exists i :: 0 <= i < n && mLines[..n][i] == Raw(t) && IsCommentOrBlank(t) {
        var i :| 0 <= i < n && mLines[..n][i] == Raw(t) && IsCommentOrBlank(t);
        assert mLines[i] == mLines[..n][i];
      }
    }
  }

  /** Every line of the model walk is either a carried-over comment or blank
      line of the model, or an entry for a model key holding the chosen value. */
  lemma {:induction false} ModelPartLines(mLines: seq<Line>, modelValues: map<string, string>, targetValues: map<string, string>, addMarker: bool)
    requires EntryKeys(mLines) <= modelValues.Keys
    ensures forall p :: 0 <= p < |ModelPart(mLines, modelValues, targetValues, addMarker)| ==>
      var l := ModelPart(mLines, modelValues, targetValues, addMarker)[p];
      && (l.Raw? ==> IsCommentOrBlank(l.text) && l.text in Propagated(mLines)
                     && exists i :: 0 <= i < |mLines| && mLines[i] == l)
      && (l.Entry? ==> l.key in EntryKeys(mLines)
                       && l.val == Chosen(l.key, modelValues, targetValues, addMarker))
    decreases |mLines|
  {
    if mLines != [] {
      var n := |mLines| - 1;
      var pre := ModelPart(mLines[..n], modelValues, targetValues, addMarker);
      var all := ModelPart(mLines, modelValues, targetValues, addMarker);
      ModelPartLines(mLines[..n], modelValues, targetValues, addMarker);
      forall p | 0 <= p < |all|
        ensures var l := all[p];
          && (l.Raw? ==> IsCommentOrBlank(l.text) && l.text in Propagated(mLines)
                         && exists i :: 0 <= i < |mLines| && mLines[i] == l)
          && (l.Entry? ==> l.key in EntryKeys(mLines)
                           && l.val == Chosen(l.key, modelValues, targetValues, addMarker))
      {
        if p < |pre| {
          assert all[p] == pre[p];
          if all[p].Raw? {
            var i :| 0 <= i < n && mLines[..n][i] == pre[p];
            assert mLines[i] == all[p];
          }
        } else {
          assert all[p] == mLines[n] || all[p].Entry?;
        }
      }
    }
  }

  /** The walk over a prefix of the model is a prefix of the whole walk. */
  lemma {:induction false} ModelPartPrefix(mLines: seq<Line>, modelValues: map<string, string>, targetValues: map<string, string>, addMarker: bool, j: nat)
    requires EntryKeys(mLines) <= modelValues.Keys && j <= |mLines|
    ensures EntryKeys(mLines[..j]) <= modelValues.Keys
    ensures ModelPart(mLines[..j], modelValues, targetValues, addMarker) <= ModelPart(mLines, modelValues, targetValues, addMarker)
    decreases |mLines|
  {
    if j < |mLines| {
      var n := |mLines| - 1;
      assert mLines[..n][..j] == mLines[..j];
      ModelPartPrefix(mLines[..n], modelValues, targetValues, addMarker, j);
    } else {
      assert mLines[..j] == mLines;
    }
  }

  /** Model lines keep their order: the model line `i`, when kept, is found
      right after what the lines before it produced, and an invalid raw line
      produces nothing. */
  lemma ModelLineLandsAt(mLines: seq<Line>, modelValues: map<string, string>, targetValues: map<string, string>, addMarker: bool, i: nat)
    requires EntryKeys(mLines) <= modelValues.Keys
    requires i < |mLines|
    ensures EntryKeys(mLines[..i]) <= modelValues.Keys && EntryKeys(mLines[..i + 1]) <= modelValues.Keys
    ensures var before := |ModelPart(mLines[..i], modelValues, targetValues, addMarker)|;
            var all := ModelPart(mLines, modelValues, targetValues, addMarker);
            && (Kept(mLines[i]) ==> |ModelPart(mLines[..i + 1], modelValues, targetValues, addMarker)| == before + 1 && before < |all|)
            && (!Kept(mLines[i]) ==> ModelPart(mLines[..i + 1], modelValues, targetValues, addMarker) == ModelPart(mLines[..i], modelValues, targetValues, addMarker))
            && (mLines[i].Raw? && Kept(mLines[i]) ==> all[before] == mLines[i])
            && (mLines[i].Entry? ==> all[before] == Entry(mLines[i].key, Chosen(mLines[i].key, modelValues, targetValues, addMarker)))
  {
    ModelPartPrefix(mLines, modelValues, targetValues, addMarker, i + 1);
    assert mLines[..i + 1][..i] == mLines[..i];
    var pre := ModelPart(mLines[..i], modelValues, targetValues, addMarker);
    var e := Emit(mLines[i], modelValues, targetValues, addMarker);
    var all := ModelPart(mLines, modelValues, targetValues, addMarker);
    if |e| > 0 {
      assert all[|pre|] == (pre + e)[|pre|];
    }
  }

  lemma {:induction false} FilterOutAppend(a: seq<string>, b: seq<string>, used: set<string>)
    ensures FilterOut(a + b, used) == FilterOut(a, used) + FilterOut(b, used)
    decreases |b|
  {
    if b == [] {
      assert a + b == a;
    } else {
      var n := |b| - 1;
      assert (a + b)[..|a + b| - 1] == a + b[..n];
      FilterOutAppend(a, b[..n], used);
    }
  }

  lemma {:induction false} FilterOutNoneUsed(keys: seq<string>, used: set<string>)
    requires forall i :: 0 <= i < |keys| ==> keys[i] !in used
    ensures FilterOut(keys, used) == keys
    decreases |keys|
  {
    if keys != [] {
      FilterOutNoneUsed(keys[..|keys| - 1], used);
    }
  }

  lemma {:induction false} FilterOutAllUsed(keys: seq<string>, used: set<string>)
    requires forall i :: 0 <= i < |keys| ==> keys[i] in used
    ensures FilterOut(keys, used) == []
    decreases |keys|
  {
    if keys != [] {
      FilterOutAllUsed(keys[..|keys| - 1], used);
    }
  }

  /** Target-only entries, in the target dict's order and once each: the
      key at place `j` of the dict, when the model lacks it, lands right after
      the target-only entries of the keys before it, with the target's value. */
  lemma TargetOnlyLandsAt(keys: seq<string>, used: set<string>, targetValues: map<string, string>, j: nat)
    requires forall k :: k in keys ==> k in targetValues
    requires j < |keys| && keys[j] !in used
    ensures var before := |TargetOnly(keys[..j], used, targetValues)|;
            && before < |TargetOnly(keys, used, targetValues)|
            && TargetOnly(keys, used, targetValues)[before] == Entry(keys[j], targetValues[keys[j]])
  {
    var k := keys[j];
    var rest := keys[j + 1..];
    assert keys == keys[..j] + ([k] + rest);
    FilterOutAppend(keys[..j], [k] + rest, used);
    FilterOutAppend([k], rest, used);
    assert FilterOut([k], used) == [k] by {
      assert [k][..0] == [];
    }
    var pre := FilterOut(keys[..j], used);
    var f := FilterOut(keys, used);
    assert f == pre + ([k] + FilterOut(rest, used));
    assert f[|pre|] == k;
  }

  /** What the target-only entries are: distinct keys, exactly the target's
      keys the model lacks, each with the target's value. */
  lemma TargetOnlyLines(keys: seq<string>, used: set<string>, targetValues: map<string, string>)
    requires forall k :: k in keys ==> k in targetValues
    requires forall i, j :: 0 <= i < j < |keys| ==> keys[i] != keys[j]
    ensures var r := TargetOnly(keys, used, targetValues);
            && (forall p :: 0 <= p < |r| ==>
                  (r[p].Entry? && r[p].key in keys && r[p].key !in used && r[p].val == targetValues[r[p].key]))
            && (forall p, q :: 0 <= p < q < |r| ==> r[p].key != r[q].key)
            && (forall k :: k in keys && k !in used ==> exists p :: 0 <= p < |r| && r[p].key == k)
  {
    var r := TargetOnly(keys, used, targetValues);
    var f := FilterOut(keys, used);
    forall k | k in keys && k !in used ensures exists p :: 0 <= p < |r| && r[p].key == k {
      assert k in f;
      var p :| 0 <= p < |f| && f[p] == k;
      assert r[p].key == k;
    }
  }

  lemma {:induction false} MovedAppend(a: seq<Line>, b: seq<Line>, propagated: set<string>)
    ensures Moved(a + b, propagated) == Moved(a, propagated) + Moved(b, propagated)
    decreases |b|
  {
    if b == [] {
      assert a + b == a;
    } else {
      var n := |b| - 1;
      assert (a + b)[..|a + b| - 1] == a + b[..n];
      MovedAppend(a, b[..n], propagated);
    }
  }

  /** The moved lines are target raw lines whose text was not carried over. */
  lemma {:induction false} MovedLines(tLines: seq<Line>, propagated: set<string>)
    ensures forall p :: 0 <= p < |Moved(tLines, propagated)| ==>
      var l := Moved(tLines, propagated)[p];
      l.Raw? && l.text !in propagated && exists i :: 0 <= i < |tLines| && tLines[i] == l
    decreases |tLines|
  {
    if tLines != [] {
      var n := |tLines| - 1;
      var pre := Moved(tLines[..n], propagated);
      var all := Moved(tLines, propagated);
      MovedLines(tLines[..n], propagated);
      forall p | 0 <= p < |all|
        ensures all[p].Raw? && all[p].text !in propagated && exists i :: 0 <= i < |tLines| && tLines[i] == all[p]
      {
        if p < |pre| {
          assert all[p] == pre[p];
          var i :| 0 <= i < n && tLines[..n][i] == pre[p];
          assert tLines[i] == all[p];
        } else {
          assert all[p] == tLines[n];
        }
      }
    }
  }

  /** Moving keeps the target's order: a target raw line whose text was not
      carried over lands right after the moved lines before it. */
  lemma MovedLandsAt(tLines: seq<Line>, propagated: set<string>, i: nat)
    requires i < |tLines| && tLines[i].Raw? && tLines[i].text !in propagated
    ensures var before := |Moved(tLines[..i], propagated)|;
            before < |Moved(tLines, propagated)| && Moved(tLines, propagated)[before] == tLines[i]
  {
    assert tLines == tLines[..i + 1] + tLines[i + 1..];
    MovedAppend(tLines[..i + 1], tLines[i + 1..], propagated);
    assert tLines[..i + 1][..i] == tLines[..i];
  }

  /** Lines already filtered stay as they are when filtered again. */
  lemma {:induction false} MovedOfMoved(ls: seq<Line>, propagated: set<string>)
    requires forall p :: 0 <= p < |ls| ==> ls[p].Raw? && ls[p].text !in propagated
    ensures Moved(ls, propagated) == ls
    decreases |ls|
  {
    if ls != [] {
      MovedOfMoved(ls[..|ls| - 1], propagated);
    }
  }

  // ---------------------------------------------------------------------
  // Properties of the new lines
  // ---------------------------------------------------------------------

  /** Where the parts of the new lines lie. */
  lemma HeadLines(mLines: seq<Line>, tLines: seq<Line>, addMarker: bool)
    ensures var model := EntriesOf(mLines);
            var target := EntriesOf(tLines);
            var h := Head(mLines, tLines, addMarker);
            && (forall p :: 0 <= p < |h| && h[p].Raw? ==>
                  IsCommentOrBlank(h[p].text) && h[p].text in Propagated(mLines)
                  && exists i :: 0 <= i < |mLines| && mLines[i] == h[p])
            && (forall p :: 0 <= p < |h| && h[p].Entry? ==>
                  (h[p].key in EntryKeys(mLines) ==> h[p].key in model.values && h[p].val == Chosen(h[p].key, model.values, target.values, addMarker))
                  && (h[p].key !in EntryKeys(mLines) ==> h[p].key in target.values && h[p].val == target.values[h[p].key]))
  {
    var model := EntriesOf(mLines);
    var target := EntriesOf(tLines);
    EntriesOfDomain(mLines);
    EntriesOfValid(tLines);
    var mp := ModelPart(mLines, model.values, target.values, addMarker);
    var to := TargetOnly(target.keys, EntryKeys(mLines), target.values);
    ModelPartLines(mLines, model.values, target.values, addMarker);
    TargetOnlyLines(target.keys, EntryKeys(mLines), target.values);
    var h := Head(mLines, tLines, addMarker);
    assert h == mp + to;
    forall p | 0 <= p < |h| && h[p].Entry?
      ensures (h[p].key in EntryKeys(mLines) ==> h[p].key in model.values && h[p].val == Chosen(h[p].key, model.values, target.values, addMarker))
           && (h[p].key !in EntryKeys(mLines) ==> h[p].key in target.values && h[p].val == target.values[h[p].key])
    {
      if p < |mp| {
        assert h[p] == mp[p];
      } else {
        assert h[p] == to[p - |mp|];
      }
    }
  }

  /** Target wins: every new entry whose key the target has carries the
      target's value, never the model's. */
  lemma TargetWins(mLines: seq<Line>, tLines: seq<Line>, addMarker: bool)
    ensures var r := Reconciled(mLines, tLines, addMarker);
            var target := EntriesOf(tLines);
            forall p :: 0 <= p < |r| && r[p].Entry? && r[p].key in target.values ==>
              r[p].val == target.values[r[p].key]
  {
    HeadLines(mLines, tLines, addMarker);
    var h := Head(mLines, tLines, addMarker);
    var moved := Moved(tLines, Propagated(mLines));
    var r := Reconciled(mLines, tLines, addMarker);
    MovedLines(tLines, Propagated(mLines));
    forall p | 0 <= p < |r| && r[p].Entry? && r[p].key in EntriesOf(tLines).values
      ensures r[p].val == EntriesOf(tLines).values[r[p].key]
    {
      if p < |h| {
        assert r[p] == h[p];
      }
    }
  }

  /** Model fill: a new entry whose key the target lacks is a model key and
      carries the model's (last) value, with " TOTRANSLATE" appended exactly
      when `addMarker` is set. */
  lemma ModelFills(mLines: seq<Line>, tLines: seq<Line>, addMarker: bool)
    ensures var r := Reconciled(mLines, tLines, addMarker);
            var model := EntriesOf(mLines);
            var target := EntriesOf(tLines);
            forall p :: 0 <= p < |r| && r[p].Entry? && r[p].key !in target.values ==>
              && r[p].key in model.values
              && r[p].val == (if addMarker then model.values[r[p].key] + " TOTRANSLATE" else model.values[r[p].key])
  {
    HeadLines(mLines, tLines, addMarker);
    EntriesOfDomain(mLines);
    var h := Head(mLines, tLines, addMarker);
    var moved := Moved(tLines, Propagated(mLines));
    var r := Reconciled(mLines, tLines, addMarker);
    MovedLines(tLines, Propagated(mLines));
    forall p | 0 <= p < |r| && r[p].Entry? && r[p].key !in EntriesOf(tLines).values
      ensures r[p].key in EntriesOf(mLines).values
      ensures r[p].val == Filled(EntriesOf(mLines).values[r[p].key], addMarker)
    {
      if p < |h| {
        assert r[p] == h[p];
      }
    }
  }
}
