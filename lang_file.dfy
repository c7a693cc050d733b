/** Reading and writing one `.lang` file. The file system is not modelled:
    a file's content is its text after the newline translation of text-mode
    reading, and writing it means producing the new text. */
module LangFiles {
  import opened Text
  import opened Lines
  import opened Entries

  /** One loaded file: `text` is what is stored at its path, `lines` and
      `entries` are what the tool last parsed. */
  datatype LangFile = LangFile(text: string, lines: seq<Line>, entries: Dict)
  {
    /** `entries` is derived from `lines`, and `lines` came from the parser. */
    ghost predicate Consistent() {
      AllWellFormed(lines) && entries == EntriesOf(lines)
    }
  }

  /** `parse_lang_file`: the records of the text in order, and the dict in
      which the last entry for a key wins. */
  method ParseLangFile(text: string) returns (lines: seq<Line>, entries: Dict)
    ensures lines == ParseText(text)
    ensures entries == EntriesOf(lines)
  {
    var raws := ReadLines(text);
    lines, entries := [], Empty;
    var i := 0;
    while i < |raws|
      invariant 0 <= i <= |raws|
      invariant lines == ParseLines(raws[..i])
      invariant entries == EntriesOf(lines)
    {
      var raw := raws[i];
      var line;
      if '=' in raw && !StartsWithHash(Strip(raw)) {
        var j := IndexOf(raw, '=');
        var key, val := raw[..j], raw[j + 1..];
        entries := entries.Put(key, val);
        line := Entry(key, val);
        assert line == ParseLine(raw);
      } else {
        line := Raw(raw);
        assert line == ParseLine(raw);
      }
      ParseLinesSnoc(raws, i);
      EntriesOfSnoc(lines, line);
      lines := lines + [line];
      i := i + 1;
    }
    assert raws[..i] == raws;
  }

  /** `write_lang_file`: each record's text followed by a line terminator
      (`ReparseWritten` reads it back). */
  method WriteLangFile(lines: seq<Line>) returns (text: string)
    ensures text == Serialize(lines)
  {
    text := "";
    var i := 0;
    while i < |lines|
      invariant 0 <= i <= |lines|
      invariant text == Serialize(lines[..i])
    {
      var item := lines[i];
      ghost var before := text;
      match item {
        case Raw(t) =>
          text := text + (t + "\n");
        case Entry(k, v) =>
          text := text + (k + "=" + v + "\n");
      }
      assert text == before + (LineText(item) + "\n");
      SerializeSnoc(lines, i);
      i := i + 1;
    }
    assert lines[..i] == lines;
  }
}
