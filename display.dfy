/** What `display_file` shows for a file: each record, with invalid raw lines
    flagged, then the keys that other files have and this one lacks. The view
    is given as its text lines, each of which the widget ends with a line
    break; colour tags are not modelled. */
module Display {
  import opened Text
  import opened Lines
  import opened Ordering

  /** Appended to a raw line that is neither a comment nor blank. */
  const InvalidMark := "  # INVALID"
  const MissingHeader := "# Missing entries:"

  /** How one record is shown. */
  function Shown(l: Line): string {
    match l
    case Raw(t) => if IsCommentOrBlank(t) then t else t + InvalidMark
    case Entry(k, v) => k + "=" + v
  }

  /** A record is shown as written, except that a raw line whose first
      character other than whitespace exists and is not `#` is flagged. */
  lemma ShownFlagsInvalid(l: Line)
    ensures Shown(l) == LineText(l) || Shown(l) == LineText(l) + InvalidMark
    ensures Shown(l) != LineText(l) <==>
              l.Raw? && exists i :: 0 <= i < |l.text| && l.text[i] != '#' && !IsSpace(l.text[i])
                                   && forall j :: 0 <= j < i ==> IsSpace(l.text[j])
  {
    if l.Raw? {
      var t := l.text;
      CommentOrBlankMeaning(t);
      TrimLeftMeaning(t);
      var i := |t| - |TrimLeft(t)|;
      if !IsCommentOrBlank(t) {
        assert i < |t| && t[i] == TrimLeft(t)[0];
      }
      if exists i :: 0 <= i < |t| && t[i] != '#' && !IsSpace(t[i]) && forall j :: 0 <= j < i ==> IsSpace(t[j]) {
        var i :| 0 <= i < |t| && t[i] != '#' && !IsSpace(t[i]) && forall j :: 0 <= j < i ==> IsSpace(t[j]);
        forall k | 0 <= k < |t| && t[k] == '#'
          ensures exists j :: 0 <= j < k && !IsSpace(t[j])
        {
          assert !IsSpace(t[k]);
          assert k != i;
        }
      }
    }
  }

  /** `", ".join(parts)` with any separator. */
  function Join(parts: seq<string>, sep: string): string {
    if parts == [] then ""
    else if |parts| == 1 then parts[0]
    else parts[0] + sep + Join(parts[1..], sep)
  }

  /** Where part `i` starts in the joined text: after each earlier part and
      the separator that follows it. */
  function Offset(parts: seq<string>, sep: string, i: nat): nat
    requires i <= |parts|
    decreases i
  {
    if i == 0 then 0 else |parts[0]| + |sep| + Offset(parts[1..], sep, i - 1)
  }

  /** `part` sits in `r` at offset `o`, followed by `sep` when `more`, and
      ends `r` when `last`. */
  ghost predicate PlacedIn(r: string, o: nat, part: string, sep: string, more: bool, last: bool) {
    && o + |part| <= |r|
    && r[o..o + |part|] == part
    && (more ==> o + |part| + |sep| <= |r| && r[o + |part|..o + |part| + |sep|] == sep)
    && (last ==> o + |part| == |r|)
  }

  /** The joined text holds every part at its offset, the separator right
      after each part but the last, and ends with the last part. */
  lemma {:induction false} JoinLayout(parts: seq<string>, sep: string, i: nat)
    requires i < |parts|
    ensures PlacedIn(Join(parts, sep), Offset(parts, sep, i), parts[i], sep, i + 1 < |parts|, i + 1 == |parts|)
    decreases i
  {
    if |parts| == 1 {
      assert Join(parts, sep) == parts[0];
    } else if i == 0 {
      JoinFirst(parts, sep);
    } else {
      var a := parts[0] + sep;
      var t := Join(parts[1..], sep);
      var o := Offset(parts[1..], sep, i - 1);
      JoinLayout(parts[1..], sep, i - 1);
      assert PlacedIn(t, o, parts[i], sep, i + 1 < |parts|, i + 1 == |parts|) by {
        assert parts[1..][i - 1] == parts[i];
      }
      PlacedAfter(a, t, o, parts[i], sep, i + 1 < |parts|, i + 1 == |parts|);
      assert Join(parts, sep) == a + t;
      assert Offset(parts, sep, i) == |a| + o;
    }
  }

  lemma JoinFirst(parts: seq<string>, sep: string)
    requires |parts| > 1
    ensures PlacedIn(Join(parts, sep), 0, parts[0], sep, true, false)
  {
    var r := Join(parts, sep);
    assert r == parts[0] + sep + Join(parts[1..], sep);
  }

  /** A part placed in `t` stays placed when `a` comes before `t`. */
  lemma PlacedAfter(a: string, t: string, o: nat, part: string, sep: string, more: bool, last: bool)
    requires PlacedIn(t, o, part, sep, more, last)
    ensures PlacedIn(a + t, |a| + o, part, sep, more, last)
  {
    SliceAfter(a, t, o, o + |part|);
    if more {
      SliceAfter(a, t, o + |part|, o + |part| + |sep|);
    }
  }

  lemma SliceAfter(a: string, t: string, x: nat, y: nat)
    requires x <= y <= |t|
    ensures (a + t)[|a| + x..|a| + y] == t[x..y]
  {
  }

  /** A missing key and the files that have it, sorted. */
  datatype Missing = Missing(key: string, sources: seq<string>)

  /** `key_sources.get(key, set())` */
  function SourcesOf(keySources: map<string, set<string>>, key: string): set<string> {
    if key in keySources then keySources[key] else {}
  }

  /** The missing-entries report: the keys of `allKeys` the file lacks, in
      `sorted()` order, each with its sorted sources. */
  function MissingSpec(allKeys: set<string>, keySources: map<string, set<string>>, fileKeys: set<string>): seq<Missing> {
    var missing := SortedList(allKeys - fileKeys);
    seq(|missing|, i requires 0 <= i < |missing| => Missing(missing[i], SortedList(SourcesOf(keySources, missing[i]))))
  }

  /** The report lists the missing keys in increasing order, so each once. */
  lemma MissingSorted(allKeys: set<string>, keySources: map<string, set<string>>, fileKeys: set<string>)
    ensures var r := MissingSpec(allKeys, keySources, fileKeys);
            forall i, j :: 0 <= i < j < |r| ==> Below(r[i].key, r[j].key)
  {
    MissingSpecShape(allKeys, keySources, fileKeys);
  }

  /** The report lists exactly the keys of the index that the file lacks. */
  lemma MissingExactly(allKeys: set<string>, keySources: map<string, set<string>>, fileKeys: set<string>, k: string)
    ensures var r := MissingSpec(allKeys, keySources, fileKeys);
            k in allKeys && k !in fileKeys <==> exists i :: 0 <= i < |r| && r[i].key == k
  {
    var missing := SortedList(allKeys - fileKeys);
    var r := MissingSpec(allKeys, keySources, fileKeys);
    MissingSpecShape(allKeys, keySources, fileKeys);
    if k in allKeys && k !in fileKeys {
      assert k in missing;
      var i :| 0 <= i < |missing| && missing[i] == k;
      assert r[i].key == k;
    }
    if exists i :: 0 <= i < |r| && r[i].key == k {
      var i :| 0 <= i < |r| && r[i].key == k;
      assert missing[i] in missing;
    }
  }

  /** The sources of a missing key are, in increasing order, the files the
      index records for it, and none when it records none. */
  lemma MissingSources(allKeys: set<string>, keySources: map<string, set<string>>, fileKeys: set<string>, i: nat)
    requires i < |MissingSpec(allKeys, keySources, fileKeys)|
    ensures var m := MissingSpec(allKeys, keySources, fileKeys)[i];
            && StrictlySorted(m.sources)
            && forall n :: n in m.sources <==> m.key in keySources && n in keySources[m.key]
  {
    MissingSpecShape(allKeys, keySources, fileKeys);
  }

  lemma MissingSpecShape(allKeys: set<string>, keySources: map<string, set<string>>, fileKeys: set<string>)
    ensures var missing := SortedList(allKeys - fileKeys);
            var r := MissingSpec(allKeys, keySources, fileKeys);
            && |r| == |missing|
            && forall i :: 0 <= i < |r| ==>
                 r[i].key == missing[i] && r[i].sources == SortedList(SourcesOf(keySources, missing[i]))
  {
  }

  /** One line of the report: `key=  # from: a, b` when some file has the
      key, `key=` when none does. */
  function MissingLine(m: Missing): (s: string)
    ensures |s| > |m.key| && s[..|m.key| + 1] == m.key + "="
    ensures m.sources == [] <==> s == m.key + "="
    ensures m.sources != [] ==> s == m.key + "=  # from: " + Join(m.sources, ", ")
  {
    if m.sources != [] then m.key + "=  # from: " + Join(m.sources, ", ") else m.key + "="
  }

  /** After `key=  # from: ` the line lists every source at its offset, the
      sources separated by `, `, and ends with the last one. */
  lemma MissingLineSources(m: Missing, i: nat)
    requires i < |m.sources|
    ensures MissingLine(m)[..|m.key| + 11] == m.key + "=  # from: "
    ensures PlacedIn(MissingLine(m), |m.key| + 11 + Offset(m.sources, ", ", i), m.sources[i], ", ",
                     i + 1 < |m.sources|, i + 1 == |m.sources|)
  {
    var p := m.key + "=  # from: ";
    JoinLayout(m.sources, ", ", i);
    assert |p| == |m.key| + 11;
    PlacedAfter(p, Join(m.sources, ", "), Offset(m.sources, ", ", i), m.sources[i], ", ",
                i + 1 < |m.sources|, i + 1 == |m.sources|);
  }

  function ShownLines(ls: seq<Line>): seq<string> {
    seq(|ls|, i requires 0 <= i < |ls| => Shown(ls[i]))
  }

  function MissingLines(report: seq<Missing>): seq<string> {
    seq(|report|, i requires 0 <= i < |report| => MissingLine(report[i]))
  }

  /** The whole view: the records, then, when some key is missing, an empty
      line, the header and one line per missing key. */
  function View(lines: seq<Line>, report: seq<Missing>): seq<string> {
    ShownLines(lines) + (if report == [] then [] else ["", MissingHeader] + MissingLines(report))
  }

  /** The text `display_file` puts in the view for a file with records
      `lines` and keys `fileKeys`, given the key index. */
  method Render(lines: seq<Line>, allKeys: set<string>, keySources: map<string, set<string>>, fileKeys: set<string>)
    returns (view: seq<string>)
    ensures view == View(lines, MissingSpec(allKeys, keySources, fileKeys))
  {
    var shown := RenderLines(lines);
    var missing := RenderMissing(allKeys, keySources, fileKeys);
    view := shown + missing;
  }

  /** The loop over the records. */
  method RenderLines(lines: seq<Line>) returns (view: seq<string>)
    ensures view == ShownLines(lines)
  {
    view := [];
    var i := 0;
    while i < |lines|
      invariant 0 <= i <= |lines|
      invariant view == ShownLines(lines[..i])
    {
      var item := lines[i];
      ghost var before := view;
      match item {
        case Raw(rawLine) =>
          var s := Strip(rawLine);
          if StartsWithHash(s) || s == [] {
            view := view + [rawLine];
          } else {
            view := view + [rawLine + InvalidMark];
          }
        case Entry(k, v) =>
          view := view + [k + "=" + v];
      }
      assert view == before + [Shown(item)];
      ShownLinesSnoc(lines, i);
      i := i + 1;
    }
    assert lines[..i] == lines;
  }

  lemma ShownLinesSnoc(ls: seq<Line>, i: nat)
    requires i < |ls|
    ensures ShownLines(ls[..i + 1]) == ShownLines(ls[..i]) + [Shown(ls[i])]
  {
  }

  lemma MissingLinesSnoc(rs: seq<Missing>, j: nat)
    requires j < |rs|
    ensures MissingLines(rs[..j + 1]) == MissingLines(rs[..j]) + [MissingLine(rs[j])]
  {
  }

  /** The missing-keys part of the view: nothing, or the header and the rows. */
  method RenderMissing(allKeys: set<string>, keySources: map<string, set<string>>, fileKeys: set<string>)
    returns (view: seq<string>)
    ensures var report := MissingSpec(allKeys, keySources, fileKeys);
            view == if report == [] then [] else ["", MissingHeader] + MissingLines(report)
  {
    var missing := SortedList(allKeys - fileKeys);
    assert |MissingSpec(allKeys, keySources, fileKeys)| == |missing| by {
      MissingSpecShape(allKeys, keySources, fileKeys);
    }
    view := [];
    if missing != [] {
      var rows := RenderRows(allKeys, keySources, fileKeys, missing);
      view := ["", MissingHeader] + rows;
    }
  }

  /** The loop over the missing keys, after the header. */
  method RenderRows(allKeys: set<string>, keySources: map<string, set<string>>, fileKeys: set<string>, missing: seq<string>)
    returns (rows: seq<string>)
    requires missing == SortedList(allKeys - fileKeys)
    ensures rows == MissingLines(MissingSpec(allKeys, keySources, fileKeys))
  {
    ghost var report := MissingSpec(allKeys, keySources, fileKeys);
    assert |report| == |missing| by {
      MissingSpecShape(allKeys, keySources, fileKeys);
    }
    rows := [];
    var j := 0;
    while j < |missing|
      invariant 0 <= j <= |missing| == |report|
      invariant rows == MissingLines(report[..j])
    {
      var key := missing[j];
      var sources := SourcesOf(keySources, key);
      var row;
      if sources != {} {
        var sourceList := Join(SortedList(sources), ", ");
        row := key + "=  # from: " + sourceList;
      } else {
        row := key + "=";
      }
      MissingRow(allKeys, keySources, fileKeys, j);
      MissingLinesSnoc(report, j);
      rows := rows + [row];
      j := j + 1;
    }
    assert report[..j] == report;
  }

  /** Row `j` of the report, as the loop writes it. */
  lemma MissingRow(allKeys: set<string>, keySources: map<string, set<string>>, fileKeys: set<string>, j: nat)
    requires j < |SortedList(allKeys - fileKeys)|
    ensures var key := SortedList(allKeys - fileKeys)[j];
            var sources := SourcesOf(keySources, key);
            var report := MissingSpec(allKeys, keySources, fileKeys);
            && j < |report|
            && MissingLine(report[j]) == if sources != {} then key + "=  # from: " + Join(SortedList(sources), ", ") else key + "="
  {
    MissingSpecShape(allKeys, keySources, fileKeys);
  }
}
