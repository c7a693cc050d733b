/** The line format of a `.lang` file: each text line is either a
    `key=value` entry or a raw line kept verbatim, and the writer puts the
    records back as text, one per line. */
module Lines {
  import opened Text

  /** One record of a parsed file: `("raw", text)` or `("entry", key, val)`. */
  datatype Line = Raw(text: string) | Entry(key: string, val: string)

  /** The test applied to raw lines before they are shown or propagated:
      blank after stripping, or a comment. Anything else is an invalid line. */
  predicate IsCommentOrBlank(raw: string) {
    StartsWithHash(Strip(raw)) || Strip(raw) == []
  }

  /** A raw line is a comment or blank exactly when it is all whitespace or
      its first non-whitespace character is `#`. */
  lemma CommentOrBlankMeaning(raw: string)
    ensures IsCommentOrBlank(raw) <==>
      (forall i :: 0 <= i < |raw| ==> IsSpace(raw[i])) ||
      (exists i :: 0 <= i < |raw| && raw[i] == '#' && forall j :: 0 <= j < i ==> IsSpace(raw[j]))
  {
    StripEmptyIffBlank(raw);
    StripStartsWithHash(raw);
    TrimLeftMeaning(raw);
    var l := TrimLeft(raw);
    var n := |raw| - |l|;
    if l != [] && l[0] == '#' {
      assert raw[n] == '#';
    }
    if exists i :: 0 <= i < |raw| && raw[i] == '#' && forall j :: 0 <= j < i ==> IsSpace(raw[j]) {
      var i :| 0 <= i < |raw| && raw[i] == '#' && forall j :: 0 <= j < i ==> IsSpace(raw[j]);
      assert !IsSpace(raw[i]);
      assert n == i;
      assert l[0] == raw[i];
    }
  }

  /** One text line, without its line terminator, parsed: it is an entry when
      it holds a `=` and its stripped form does not start with `#`, and is
      then split at the first `=`; otherwise it is kept verbatim. */
  function ParseLine(raw: string): (l: Line)
    ensures l.Entry? <==> '=' in raw && !StartsWithHash(Strip(raw))
    ensures l.Entry? ==> '=' !in l.key && l.key + "=" + l.val == raw
    ensures l.Raw? ==> l.text == raw
  {
    if '=' in raw && !StartsWithHash(Strip(raw)) then
      var i := IndexOf(raw, '=');
      assert raw == raw[..i] + "=" + raw[i + 1..];
      Entry(raw[..i], raw[i + 1..])
    else
      Raw(raw)
  }

  /** The text a record is written as, without the line terminator. */
  function LineText(l: Line): string {
    match l
    case Raw(t) => t
    case Entry(k, v) => k + "=" + v
  }

  /** Each line followed by a line break: the text the lines were cut from,
      with a line break added after a last line that had none. */
  function Unlines(raws: seq<string>): string {
    if raws == [] then "" else raws[0] + "\n" + Unlines(raws[1..])
  }

  /** `f.readlines()` followed by `rstrip("\n")` on each line: the text cut at
      every `\n`; a last piece without `\n` is a line, an empty one is not. */
  function ReadLines(text: string): (raws: seq<string>)
    ensures forall i :: 0 <= i < |raws| ==> '\n' !in raws[i]
    ensures Unlines(raws) == if text == [] || text[|text| - 1] == '\n' then text else text + "\n"
    decreases |text|
  {
    if text == [] then []
    else if '\n' !in text then
      assert text[|text| - 1] in text;
      assert [text][1..] == [];
      [text]
    else
      var i := IndexOf(text, '\n');
      var rest := text[i + 1..];
      assert text == text[..i] + "\n" + rest;
      assert rest != [] ==> rest[|rest| - 1] == text[|text| - 1];
      assert ([text[..i]] + ReadLines(rest))[1..] == ReadLines(rest);
      [text[..i]] + ReadLines(rest)
  }

  /** Every text line parsed, in order. */
  function ParseLines(raws: seq<string>): seq<Line> {
    seq(|raws|, i requires 0 <= i < |raws| => ParseLine(raws[i]))
  }

  lemma ParseLinesSnoc(raws: seq<string>, i: nat)
    requires i < |raws|
    ensures ParseLines(raws[..i + 1]) == ParseLines(raws[..i]) + [ParseLine(raws[i])]
  {
  }

  /** The records of a file whose content is `text`. */
  function ParseText(text: string): seq<Line> {
    ParseLines(ReadLines(text))
  }

  /** What the writer puts in the file: each record's text and a `\n`. */
  function Serialize(ls: seq<Line>): string {
    if ls == [] then "" else LineText(ls[0]) + "\n" + Serialize(ls[1..])
  }

  /** A record the parser gives back unchanged after it has been written. */
  predicate WellFormed(l: Line) {
    '\n' !in LineText(l) && ParseLine(LineText(l)) == l
  }

  predicate AllWellFormed(ls: seq<Line>) {
    forall i :: 0 <= i < |ls| ==> WellFormed(ls[i])
  }

  /** Every record is the parse of its own text. */
  lemma ParseLineText(raw: string)
    ensures LineText(ParseLine(raw)) == raw
  {
  }

  lemma {:induction false} SerializeAppend(a: seq<Line>, b: seq<Line>)
    ensures Serialize(a + b) == Serialize(a) + Serialize(b)
    decreases |a|
  {
    if a == [] {
      assert a + b == b;
    } else {
      assert (a + b)[1..] == a[1..] + b;
      SerializeAppend(a[1..], b);
    }
  }

  lemma SerializeSnoc(ls: seq<Line>, i: nat)
    requires i < |ls|
    ensures Serialize(ls[..i + 1]) == Serialize(ls[..i]) + (LineText(ls[i]) + "\n")
  {
    assert ls[..i + 1] == ls[..i] + [ls[i]];
    SerializeAppend(ls[..i], [ls[i]]);
    assert Serialize([ls[i]]) == LineText(ls[i]) + "\n";
  }

  /** Reading back what the writer produced gives one text line per record. */
  lemma {:induction false} ReadSerialized(ls: seq<Line>)
    requires forall i :: 0 <= i < |ls| ==> '\n' !in LineText(ls[i])
    ensures |ReadLines(Serialize(ls))| == |ls|
    ensures forall i :: 0 <= i < |ls| ==> ReadLines(Serialize(ls))[i] == LineText(ls[i])
    decreases |ls|
  {
    if ls != [] {
      var t := LineText(ls[0]);
      var rest := Serialize(ls[1..]);
      var s := Serialize(ls);
      assert s == t + "\n" + rest;
      assert s[|t|] == '\n';
      var i := IndexOf(s, '\n');
      assert i == |t|;
      assert s[..i] == t;
      assert s[i + 1..] == rest;
      ReadSerialized(ls[1..]);
    }
  }

  /** Round trip, records first: re-parsing the writer's output of
      well-formed records yields the same records. */
  lemma ReparseWritten(ls: seq<Line>)
    requires AllWellFormed(ls)
    ensures ParseText(Serialize(ls)) == ls
  {
    ReadSerialized(ls);
  }

  /** Round trip, text first: writing the parsed records of any text gives
      the text back, with a line break added after a last line that had none. */
  lemma WriteParsed(text: string)
    ensures Serialize(ParseText(text)) ==
            if text == [] || text[|text| - 1] == '\n' then text else text + "\n"
  {
    SerializeParsed(ReadLines(text));
  }

  /** Writing the records parsed from some lines puts back each line and a
      line break after it. */
  lemma {:induction false} SerializeParsed(raws: seq<string>)
    ensures Serialize(ParseLines(raws)) == Unlines(raws)
    decreases |raws|
  {
    if raws != [] {
      assert raws == [raws[0]] + raws[1..];
      ParseLinesCons(raws[0], raws[1..]);
      ParseLineText(raws[0]);
      SerializeParsed(raws[1..]);
      assert ([ParseLine(raws[0])] + ParseLines(raws[1..]))[1..] == ParseLines(raws[1..]);
    }
  }

  lemma ParseLinesCons(raw: string, raws: seq<string>)
    ensures ParseLines([raw] + raws) == [ParseLine(raw)] + ParseLines(raws)
  {
  }

  /** Everything the parser produces is well formed. */
  lemma ParsedWellFormed(text: string)
    ensures AllWellFormed(ParseText(text))
  {
    var raws := ReadLines(text);
    forall i | 0 <= i < |raws| ensures WellFormed(ParseText(text)[i]) {
      ParseLineText(raws[i]);
    }
  }

  /** The value of a well-formed entry has no line break. */
  lemma WellFormedValue(key: string, val: string)
    requires WellFormed(Entry(key, val))
    ensures '\n' !in val
  {
    var raw := key + "=" + val;
    assert val == raw[|key| + 1..];
  }

  /** Whether `key=value` parses back as an entry with that key depends on
      the key alone, so a well-formed entry stays well formed under any
      value without a line break. */
  lemma EntryWithValue(key: string, val: string, val': string)
    requires WellFormed(Entry(key, val))
    requires '\n' !in val'
    ensures WellFormed(Entry(key, val'))
  {
    HashLeadOfEntry(key, val);
    HashLeadOfEntry(key, val');
    var raw := key + "=" + val';
    assert raw[|key|] == '=';
    assert '=' !in key;
    assert raw[..|key|] == key;
    assert raw[|key| + 1..] == val';
    assert IndexOf(raw, '=') == |key|;
    assert '\n' !in raw by {
      assert raw == key + "=" + val';
      assert '\n' !in key by {
        assert key == LineText(Entry(key, val))[..|key|];
      }
    }
  }
}
