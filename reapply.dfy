/** What the new lines of `apply_model_to_file` hold once they are parsed
    again, and what applying the same model a second time does. */
module Reapply {
  import opened Text
  import opened Lines
  import opened Entries
  import opened Reconcile

  lemma {:induction false} EntryKeysOfRaws(ls: seq<Line>)
    requires forall p :: 0 <= p < |ls| ==> ls[p].Raw?
    ensures EntryKeys(ls) == {}
    decreases |ls|
  {
    if ls != [] {
      EntryKeysOfRaws(ls[..|ls| - 1]);
    }
  }

  /** The model walk has exactly the model's entry keys. */
  lemma {:induction false} ModelPartKeys(mLines: seq<Line>, modelValues: map<string, string>, targetValues: map<string, string>, addMarker: bool)
    requires EntryKeys(mLines) <= modelValues.Keys
    ensures EntryKeys(ModelPart(mLines, modelValues, targetValues, addMarker)) == EntryKeys(mLines)
    decreases |mLines|
  {
    if mLines != [] {
      var n := |mLines| - 1;
      var l := mLines[n];
      ModelPartKeys(mLines[..n], modelValues, targetValues, addMarker);
      var e := Emit(l, modelValues, targetValues, addMarker);
      EntryKeysAppend(ModelPart(mLines[..n], modelValues, targetValues, addMarker), e);
      assert EntryKeys(e) == if l.Entry? then {l.key} else {} by {
        if e != [] {
          assert e[..0] == [];
        }
      }
    }
  }

  /** The model walk's dict lists its keys in the order of the model's dict. */
  lemma {:induction false} ModelPartKeyOrder(mLines: seq<Line>, modelValues: map<string, string>, targetValues: map<string, string>, addMarker: bool)
    requires EntryKeys(mLines) <= modelValues.Keys
    ensures EntriesOf(ModelPart(mLines, modelValues, targetValues, addMarker)).keys == EntriesOf(mLines).keys
    ensures EntriesOf(ModelPart(mLines, modelValues, targetValues, addMarker)).values.Keys == EntriesOf(mLines).values.Keys
    decreases |mLines|
  {
    if mLines != [] {
      var n := |mLines| - 1;
      var l := mLines[n];
      var pre := ModelPart(mLines[..n], modelValues, targetValues, addMarker);
      var e := Emit(l, modelValues, targetValues, addMarker);
      ModelPartKeyOrder(mLines[..n], modelValues, targetValues, addMarker);
      if e == [] {
        assert pre + e == pre;
      } else {
        assert e == [e[0]];
        EntriesOfSnoc(pre, e[0]);
      }
    }
  }

  /** The dict of the model walk maps each model key to its chosen value. */
  lemma ModelPartDict(mLines: seq<Line>, modelValues: map<string, string>, targetValues: map<string, string>, addMarker: bool)
    requires EntryKeys(mLines) <= modelValues.Keys
    ensures var d := EntriesOf(ModelPart(mLines, modelValues, targetValues, addMarker));
            && d.Valid()
            && (forall k :: k in d.values <==> k in EntryKeys(mLines))
            && (forall k :: k in d.values ==> d.values[k] == Chosen(k, modelValues, targetValues, addMarker))
  {
    var mp := ModelPart(mLines, modelValues, targetValues, addMarker);
    ModelPartKeys(mLines, modelValues, targetValues, addMarker);
    ModelPartLines(mLines, modelValues, targetValues, addMarker);
    EntriesOfDomain(mp);
    EntriesOfValid(mp);
    var d := EntriesOf(mp);
    forall k | k in d.values
      ensures d.values[k] == Chosen(k, modelValues, targetValues, addMarker)
    {
      EntriesOfWitness(mp, k);
      var i :| 0 <= i < |mp| && mp[i] == Entry(k, d.values[k]);
    }
  }

  /** Absorbing entries for distinct keys the dict lacks adds those keys
      with their values and leaves the other keys alone. */
  lemma {:induction false} AbsorbFreshValues(d: Dict, ks: seq<string>, values: map<string, string>)
    requires forall k :: k in ks ==> k in values
    ensures var r := Absorb(d, EntriesFor(ks, values));
            && (forall k :: k in r.values <==> k in d.values || k in ks)
            && (forall k :: k in r.values ==> r.values[k] == if k in ks then values[k] else d.values[k])
    decreases |ks|
  {
    if ks != [] {
      var n := |ks| - 1;
      var es := EntriesFor(ks, values);
      assert es[..n] == EntriesFor(ks[..n], values);
      AbsorbFreshValues(d, ks[..n], values);
      assert ks == ks[..n] + [ks[n]];
    }
  }

  /** Absorbing entries for `ks` puts the last key's entry last. */
  lemma AbsorbEntriesSnoc(d: Dict, ks: seq<string>, values: map<string, string>)
    requires forall k :: k in ks ==> k in values
    requires ks != []
    ensures var n := |ks| - 1;
            Absorb(d, EntriesFor(ks, values)) == Absorb(d, EntriesFor(ks[..n], values)).Put(ks[n], values[ks[n]])
  {
    var n := |ks| - 1;
    var pre := EntriesFor(ks[..n], values);
    var e := Entry(ks[n], values[ks[n]]);
    assert EntriesFor(ks, values) == pre + [e];
    AbsorbAppend(d, pre, [e]);
    assert [e][..0] == [];
  }

  /** A key is in the dict after absorbing entries for `ks` exactly when it
      was in it before or is one of `ks`. */
  lemma {:induction false} AbsorbFreshDomain(d: Dict, ks: seq<string>, values: map<string, string>, k: string)
    requires forall k :: k in ks ==> k in values
    ensures k in Absorb(d, EntriesFor(ks, values)).values <==> k in d.values || k in ks
    decreases |ks|
  {
    if ks != [] {
      var n := |ks| - 1;
      AbsorbEntriesSnoc(d, ks, values);
      AbsorbFreshDomain(d, ks[..n], values, k);
      assert k in ks <==> k in ks[..n] || k == ks[n] by {
        if k in ks {
          var i :| 0 <= i < |ks| && ks[i] == k;
          assert i == n || ks[..n][i] == k;
        }
      }
    }
  }

  /** ... and appends the keys, in their order, to the dict's key list. */
  lemma {:induction false} AbsorbFreshKeys(d: Dict, ks: seq<string>, values: map<string, string>)
    requires forall k :: k in ks ==> k in values
    requires forall i, j :: 0 <= i < j < |ks| ==> ks[i] != ks[j]
    requires forall k :: k in ks ==> k !in d.values
    ensures Absorb(d, EntriesFor(ks, values)).keys == d.keys + ks
    decreases |ks|
  {
    if ks != [] {
      var n := |ks| - 1;
      var k, pre := ks[n], ks[..n];
      AbsorbEntriesSnoc(d, ks, values);
      AbsorbFreshKeys(d, pre, values);
      AbsorbFreshDomain(d, pre, values, k);
      assert k !in pre;
      AppendSnoc(d.keys, ks);
    }
  }

  lemma AppendSnoc(a: seq<string>, ks: seq<string>)
    requires ks != []
    ensures a + ks == (a + ks[..|ks| - 1]) + [ks[|ks| - 1]]
  {
    assert ks == ks[..|ks| - 1] + [ks[|ks| - 1]];
  }

  /** The dict parsed from the new lines: the model's keys in the model's
      order, then the target-only keys in the target's order. It holds every
      key of either file; a key the target has keeps the target's value, any
      other has the model's value, with the marker when asked for. */
  lemma ReconciledDict(mLines: seq<Line>, tLines: seq<Line>, addMarker: bool)
    ensures var model := EntriesOf(mLines);
            var target := EntriesOf(tLines);
            var r := EntriesOf(Reconciled(mLines, tLines, addMarker));
            && r.keys == model.keys + FilterOut(target.keys, model.values.Keys)
            && (forall k :: k in r.values <==> k in model.values || k in target.values)
            && (forall k :: k in r.values ==>
                  r.values[k] == if k in target.values then target.values[k] else Filled(model.values[k], addMarker))
  {
    var model := EntriesOf(mLines);
    var target := EntriesOf(tLines);
    var used := EntryKeys(mLines);
    EntriesOfDomain(mLines);
    EntriesOfValid(tLines);
    var mp := ModelPart(mLines, model.values, target.values, addMarker);
    var ks := FilterOut(target.keys, used);
    var to := EntriesFor(ks, target.values);
    var moved := Moved(tLines, Propagated(mLines));
    MovedAllRaw(tLines, Propagated(mLines));
    BottomDropsOut(mp + to, moved);
    AbsorbAppend(Empty, mp, to);
    ModelPartDict(mLines, model.values, target.values, addMarker);
    ModelPartKeyOrder(mLines, model.values, target.values, addMarker);
    AbsorbFreshValues(EntriesOf(mp), ks, target.values);
    AbsorbFreshKeys(EntriesOf(mp), ks, target.values);
  }

  /** The model walk only looks up the values of the model's keys, so two
      target dicts that give those keys the same chosen values give the same walk. */
  lemma {:induction false} ModelPartAgree(mLines: seq<Line>, modelValues: map<string, string>, targetValues: map<string, string>, targetValues': map<string, string>, addMarker: bool, addMarker': bool)
    requires EntryKeys(mLines) <= modelValues.Keys
    requires forall k :: k in EntryKeys(mLines) ==>
               k in targetValues' && targetValues'[k] == Chosen(k, modelValues, targetValues, addMarker)
    ensures ModelPart(mLines, modelValues, targetValues', addMarker') == ModelPart(mLines, modelValues, targetValues, addMarker)
    decreases |mLines|
  {
    if mLines != [] {
      ModelPartAgree(mLines[..|mLines| - 1], modelValues, targetValues, targetValues', addMarker, addMarker');
    }
  }

  lemma {:induction false} MovedNone(ls: seq<Line>, propagated: set<string>)
    requires forall p :: 0 <= p < |ls| && ls[p].Raw? ==> ls[p].text in propagated
    ensures Moved(ls, propagated) == []
    decreases |ls|
  {
    if ls != [] {
      MovedNone(ls[..|ls| - 1], propagated);
    }
  }

  /** Applying the model again, with or without the marker, rebuilds the
      same entries and model comments: every model key now has a value in
      the target, and the target-only keys are the same, in the same order. */
  lemma ReapplyHead(mLines: seq<Line>, tLines: seq<Line>, addMarker: bool, addMarker': bool)
    ensures Head(mLines, Reconciled(mLines, tLines, addMarker), addMarker') == Head(mLines, tLines, addMarker)
  {
    var r1 := Reconciled(mLines, tLines, addMarker);
    var model := EntriesOf(mLines);
    var target := EntriesOf(tLines);
    var d1 := EntriesOf(r1);
    var used := EntryKeys(mLines);
    EntriesOfDomain(mLines);
    EntriesOfValid(mLines);
    EntriesOfValid(tLines);
    EntriesOfValid(r1);
    ReconciledDict(mLines, tLines, addMarker);
    ModelPartAgree(mLines, model.values, target.values, d1.values, addMarker, addMarker');
    assert forall i :: 0 <= i < |model.keys| ==> model.keys[i] in used;
    TargetOnlyAgain(target.keys, model.keys, used, target.values, d1.keys, d1.values);
  }

  /** The target-only entries of a dict whose keys are some used keys followed
      by the target-only keys of another, with the same values for those. */
  lemma TargetOnlyAgain(keys: seq<string>, usedKeys: seq<string>, used: set<string>, values: map<string, string>,
                        keys': seq<string>, values': map<string, string>)
    requires forall k :: k in keys ==> k in values
    requires forall i :: 0 <= i < |usedKeys| ==> usedKeys[i] in used
    requires keys' == usedKeys + FilterOut(keys, used)
    requires forall k :: k in keys' ==> k in values'
    requires forall k :: k in keys && k !in used ==> values'[k] == values[k]
    ensures TargetOnly(keys', used, values') == TargetOnly(keys, used, values)
  {
    var ks := FilterOut(keys, used);
    FilterOutAppend(usedKeys, ks, used);
    FilterOutAllUsed(usedKeys, used);
    FilterOutNoneUsed(ks, used);
    assert FilterOut(keys', used) == ks;
    EntriesForAgree(ks, values, values');
  }

  lemma EntriesForAgree(ks: seq<string>, values: map<string, string>, values': map<string, string>)
    requires forall k :: k in ks ==> k in values && k in values' && values'[k] == values[k]
    ensures EntriesFor(ks, values') == EntriesFor(ks, values)
  {
  }

  /** Applying the same model to the file it produced. When nothing was moved
      to the bottom, or the model itself has an empty raw line, the lines are
      rebuilt exactly. Otherwise the previous separator is now an unmatched
      target raw line and moves down with the comments under a new
      separator: each further application adds one more empty line. */
  lemma Reapply(mLines: seq<Line>, tLines: seq<Line>, addMarker: bool, addMarker': bool)
    ensures var r1 := Reconciled(mLines, tLines, addMarker);
            var r2 := Reconciled(mLines, r1, addMarker');
            var moved := Moved(tLines, Propagated(mLines));
            var blankInModel := exists i :: 0 <= i < |mLines| && mLines[i] == Raw("");
            && (moved == [] || blankInModel ==> r2 == r1)
            && (moved != [] && !blankInModel ==> r2 == Head(mLines, tLines, addMarker) + [Raw(""), Raw("")] + moved)
  {
    var P := Propagated(mLines);
    var h := Head(mLines, tLines, addMarker);
    var moved := Moved(tLines, P);
    var r1 := Reconciled(mLines, tLines, addMarker);
    assert "" in P <==> exists i :: 0 <= i < |mLines| && mLines[i] == Raw("") by {
      StripEmptyIffBlank("");
      PropagatedMeaning(mLines, "");
    }
    ReapplyHead(mLines, tLines, addMarker, addMarker');
    MovedOfReconciled(mLines, tLines, addMarker);
    assert Reconciled(mLines, r1, addMarker') == h + Bottom(Moved(r1, P));
    if moved != [] && "" !in P {
      SecondSeparator(h, moved);
    }
  }

  lemma SecondSeparator(h: seq<Line>, moved: seq<Line>)
    requires moved != []
    ensures h + Bottom([Raw("")] + moved) == h + [Raw(""), Raw("")] + moved
  {
    assert [Raw("")] + ([Raw("")] + moved) == [Raw(""), Raw("")] + moved;
  }

  /** A second application leaves the dict as the first one made it. */
  lemma ReapplyKeepsDict(mLines: seq<Line>, tLines: seq<Line>, addMarker: bool, addMarker': bool)
    ensures var r1 := Reconciled(mLines, tLines, addMarker);
            EntriesOf(Reconciled(mLines, r1, addMarker')) == EntriesOf(r1)
  {
    var P := Propagated(mLines);
    var h := Head(mLines, tLines, addMarker);
    var r1 := Reconciled(mLines, tLines, addMarker);
    ReapplyHead(mLines, tLines, addMarker, addMarker');
    MovedAllRaw(tLines, P);
    MovedAllRaw(r1, P);
    BottomDropsOut(h, Moved(tLines, P));
    BottomDropsOut(h, Moved(r1, P));
  }

  lemma {:induction false} MovedAllRaw(ls: seq<Line>, propagated: set<string>)
    ensures forall p :: 0 <= p < |Moved(ls, propagated)| ==> Moved(ls, propagated)[p].Raw?
    decreases |ls|
  {
    if ls != [] {
      MovedAllRaw(ls[..|ls| - 1], propagated);
    }
  }

  /** What a second application moves to the bottom: the moved lines again,
      behind the old separator unless the model carries an empty line. */
  lemma MovedOfReconciled(mLines: seq<Line>, tLines: seq<Line>, addMarker: bool)
    ensures var P := Propagated(mLines);
            var moved := Moved(tLines, P);
            Moved(Reconciled(mLines, tLines, addMarker), P)
              == if moved == [] || "" in P then moved else [Raw("")] + moved
  {
    var P := Propagated(mLines);
    var h := Head(mLines, tLines, addMarker);
    var moved := Moved(tLines, P);
    assert Moved(h, P) == [] by {
      HeadLines(mLines, tLines, addMarker);
      MovedNone(h, P);
    }
    assert Moved(moved, P) == moved by {
      MovedLines(tLines, P);
      MovedOfMoved(moved, P);
    }
    MovedAppend(h, Bottom(moved), P);
    if moved != [] {
      MovedAppend([Raw("")], moved, P);
      assert Moved([Raw("")], P) == (if "" in P then [] else [Raw("")]) by {
        assert [Raw("")][..0] == [];
      }
    }
  }

  /** Raw lines below the entries leave the dict alone. */
  lemma BottomDropsOut(h: seq<Line>, moved: seq<Line>)
    requires forall p :: 0 <= p < |moved| ==> moved[p].Raw?
    ensures EntriesOf(h + Bottom(moved)) == EntriesOf(h)
  {
    var b := Bottom(moved);
    assert forall p :: 0 <= p < |b| ==> b[p].Raw? by {
      if moved != [] {
        assert forall p :: 1 <= p < |b| ==> b[p] == moved[p - 1];
      }
    }
    AbsorbAppend(Empty, h, b);
    AbsorbRaws(EntriesOf(h), b);
  }

  /** In the dict of well-formed lines, every key and its value form a
      well-formed entry. */
  lemma DictEntryWellFormed(ls: seq<Line>, k: string)
    requires AllWellFormed(ls)
    requires k in EntriesOf(ls).values
    ensures WellFormed(Entry(k, EntriesOf(ls).values[k]))
    ensures '\n' !in EntriesOf(ls).values[k]
  {
    EntriesOfWitness(ls, k);
    var i :| 0 <= i < |ls| && ls[i] == Entry(k, EntriesOf(ls).values[k]);
    WellFormedValue(k, EntriesOf(ls).values[k]);
  }

  /** An entry of the new lines' head is well formed. */
  lemma HeadEntryWellFormed(mLines: seq<Line>, tLines: seq<Line>, addMarker: bool, p: nat)
    requires AllWellFormed(mLines) && AllWellFormed(tLines)
    requires p < |Head(mLines, tLines, addMarker)|
    ensures WellFormed(Head(mLines, tLines, addMarker)[p])
  {
    var model := EntriesOf(mLines);
    var target := EntriesOf(tLines);
    var l := Head(mLines, tLines, addMarker)[p];
    assert && (l.Raw? ==> exists i :: 0 <= i < |mLines| && mLines[i] == l)
           && (l.Entry? && l.key in EntryKeys(mLines) ==>
                 l.key in model.values && l.val == Chosen(l.key, model.values, target.values, addMarker))
           && (l.Entry? && l.key !in EntryKeys(mLines) ==>
                 l.key in target.values && l.val == target.values[l.key]) by {
      HeadLines(mLines, tLines, addMarker);
    }
    EntriesOfDomain(mLines);
    if l.Entry? && l.key in EntryKeys(mLines) {
      DictEntryWellFormed(mLines, l.key);
      if l.key in target.values {
        DictEntryWellFormed(tLines, l.key);
      } else {
        FilledNoBreak(model.values[l.key], addMarker);
      }
      EntryWithValue(l.key, model.values[l.key], l.val);
    } else if l.Entry? {
      DictEntryWellFormed(tLines, l.key);
    } else {
      var i :| 0 <= i < |mLines| && mLines[i] == l;
    }
  }

  /** The marker brings no line break into a value. */
  lemma FilledNoBreak(v: string, addMarker: bool)
    requires '\n' !in v
    ensures '\n' !in Filled(v, addMarker)
  {
    assert forall i :: 0 <= i < |Marker| ==> Marker[i] != '\n';
  }

  /** The new lines of well-formed files are well formed, so writing them
      and parsing the result gives them back. */
  lemma ReconciledWellFormed(mLines: seq<Line>, tLines: seq<Line>, addMarker: bool)
    requires AllWellFormed(mLines) && AllWellFormed(tLines)
    ensures AllWellFormed(Reconciled(mLines, tLines, addMarker))
  {
    var h := Head(mLines, tLines, addMarker);
    var moved := Moved(tLines, Propagated(mLines));
    var r := Reconciled(mLines, tLines, addMarker);
    assert r == h + Bottom(moved);
    MovedLines(tLines, Propagated(mLines));
    forall p | 0 <= p < |r| ensures WellFormed(r[p]) {
      if p < |h| {
        HeadEntryWellFormed(mLines, tLines, addMarker, p);
        assert r[p] == h[p];
      } else if p == |h| {
        assert r[p] == Raw("");
      } else {
        assert r[p] == moved[p - |h| - 1];
        var i :| 0 <= i < |tLines| && tLines[i] == r[p];
      }
    }
  }
}
