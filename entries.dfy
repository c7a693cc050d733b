/** The `entries` dict of a parsed file. A Python dict remembers the order in
    which its keys were first inserted, and assigning to a key it already has
    changes the value but not that order. */
module Entries {
  import opened Lines

  /** A dict from keys to values: the map, and its keys in insertion order. */
  datatype Dict = Dict(keys: seq<string>, values: map<string, string>)
  {
    /** Every key is listed once, and the listed keys are those of the map. */
    ghost predicate Valid() {
      && (forall i, j :: 0 <= i < j < |keys| ==> keys[i] != keys[j])
      && (forall k :: k in values <==> k in keys)
    }

    /** `d[k] = v`: the key now maps to `v`, every other key keeps its
        value, keys already present keep their places and a new key goes last. */
    function Put(k: string, v: string): (d: Dict)
      ensures Valid() ==> d.Valid()
      ensures k in d.values && d.values[k] == v
      ensures forall k' :: k' != k ==> (k' in d.values <==> k' in values)
      ensures forall k' :: k' != k && k' in values ==> d.values[k'] == values[k']
      ensures keys <= d.keys && |d.keys| <= |keys| + 1
    {
      if k in values then Dict(keys, values[k := v]) else Dict(keys + [k], values[k := v])
    }
  }

  /** `{}` */
  const Empty := Dict([], map[])

  /** The keys of the entry records of `ls`. */
  function EntryKeys(ls: seq<Line>): set<string>
    decreases |ls|
  {
    if ls == [] then {}
    else
      var l := ls[|ls| - 1];
      EntryKeys(ls[..|ls| - 1]) + (if l.Entry? then {l.key} else {})
  }

  /** `d` after `d[key] = val` for each entry record of `ls`, left to right. */
  function Absorb(d: Dict, ls: seq<Line>): Dict
    decreases |ls|
  {
    if ls == [] then d
    else
      var l := ls[|ls| - 1];
      var p := Absorb(d, ls[..|ls| - 1]);
      if l.Entry? then p.Put(l.key, l.val) else p
  }

  /** The `entries` dict the parser builds beside the records `ls`. */
  function EntriesOf(ls: seq<Line>): Dict {
    Absorb(Empty, ls)
  }

  lemma EntriesOfSnoc(ls: seq<Line>, l: Line)
    ensures EntriesOf(ls + [l]) == if l.Entry? then EntriesOf(ls).Put(l.key, l.val) else EntriesOf(ls)
  {
    assert (ls + [l])[..|ls|] == ls;
  }

  lemma {:induction false} AbsorbValid(d: Dict, ls: seq<Line>)
    requires d.Valid()
    ensures Absorb(d, ls).Valid()
    decreases |ls|
  {
    if ls != [] {
      AbsorbValid(d, ls[..|ls| - 1]);
    }
  }

  /** The parser's dict is a well-formed dict. */
  lemma EntriesOfValid(ls: seq<Line>)
    ensures EntriesOf(ls).Valid()
  {
    AbsorbValid(Empty, ls);
  }

  /** A key is an entry key of `ls` exactly when some entry record has it. */
  lemma {:induction false} EntryKeysMeaning(ls: seq<Line>, k: string)
    ensures k in EntryKeys(ls) <==> exists i :: 0 <= i < |ls| && ls[i].Entry? && ls[i].key == k
    decreases |ls|
  {
    if ls != [] {
      var n := |ls| - 1;
      EntryKeysMeaning(ls[..n], k);
      if exists i :: 0 <= i < |ls| && ls[i].Entry? && ls[i].key == k {
        var i :| 0 <= i < |ls| && ls[i].Entry? && ls[i].key == k;
        if i < n {
          assert ls[..n][i] == ls[i];
        }
      }
      if exists i :: 0 <= i < n && ls[..n][i].Entry? && ls[..n][i].key == k {
        var i :| 0 <= i < n && ls[..n][i].Entry? && ls[..n][i].key == k;
        assert ls[i] == ls[..n][i];
      }
    }
  }

  /** The dict holds exactly the keys of the entry records. */
  lemma {:induction false} EntriesOfDomain(ls: seq<Line>)
    ensures EntriesOf(ls).values.Keys == EntryKeys(ls)
    decreases |ls|
  {
    if ls != [] {
      EntriesOfDomain(ls[..|ls| - 1]);
    }
  }

  /** Last occurrence wins: the value of a key is the value of the last
      entry record with that key. */
  lemma {:induction false} EntriesOfLastWins(ls: seq<Line>, i: nat)
    requires i < |ls| && ls[i].Entry?
    requires forall j :: i < j < |ls| ==> !(ls[j].Entry? && ls[j].key == ls[i].key)
    ensures ls[i].key in EntriesOf(ls).values
    ensures EntriesOf(ls).values[ls[i].key] == ls[i].val
    decreases |ls|
  {
    var n := |ls| - 1;
    if i < n {
      EntriesOfLastWins(ls[..n], i);
    }
  }

  /** Every value in the dict was written by some entry record. */
  lemma {:induction false} EntriesOfWitness(ls: seq<Line>, k: string)
    requires k in EntriesOf(ls).values
    ensures exists i :: 0 <= i < |ls| && ls[i] == Entry(k, EntriesOf(ls).values[k])
    decreases |ls|
  {
    var n := |ls| - 1;
    var l := ls[n];
    if l.Entry? && l.key == k {
      assert ls[n] == Entry(k, EntriesOf(ls).values[k]);
    } else {
      EntriesOfWitness(ls[..n], k);
      var i :| 0 <= i < n && ls[..n][i] == Entry(k, EntriesOf(ls[..n]).values[k]);
      assert ls[i] == ls[..n][i];
    }
  }

  lemma {:induction false} EntryKeysAppend(a: seq<Line>, b: seq<Line>)
    ensures EntryKeys(a + b) == EntryKeys(a) + EntryKeys(b)
    decreases |b|
  {
    if b == [] {
      assert a + b == a;
    } else {
      var n := |b| - 1;
      assert (a + b)[..|a + b| - 1] == a + b[..n];
      EntryKeysAppend(a, b[..n]);
    }
  }

  /** Absorbing two runs of records one after the other. */
  lemma {:induction false} AbsorbAppend(d: Dict, a: seq<Line>, b: seq<Line>)
    ensures Absorb(d, a + b) == Absorb(Absorb(d, a), b)
    decreases |b|
  {
    if b == [] {
      assert a + b == a;
    } else {
      var n := |b| - 1;
      assert (a + b)[..|a + b| - 1] == a + b[..n];
      AbsorbAppend(d, a, b[..n]);
    }
  }

  /** Raw records leave the dict alone. */
  lemma {:induction false} AbsorbRaws(d: Dict, b: seq<Line>)
    requires forall i :: 0 <= i < |b| ==> b[i].Raw?
    ensures Absorb(d, b) == d
    decreases |b|
  {
    if b != [] {
      AbsorbRaws(d, b[..|b| - 1]);
    }
  }
}
