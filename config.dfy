/**
 * The configuration reader of bot.js (`readConfig`, lines 13-31) once the file
 * has been read: flat `key=value` text becomes a map from trimmed key to
 * trimmed value, or an error that makes the program exit.
 */
module Config {
  import opened Wrappers
  import opened Text

  /** Why a configuration text is refused; bot.js turns both into `process.exit(1)`. */
  datatype ConfigError =
    | NoAssignment    // the text holds no `=` at all (bot.js:16-18)
    | MalformedLine   // some line has an empty key piece or no non-empty value piece (bot.js:21-23)

  /** One accepted line: the trimmed first and second `=`-pieces. */
  datatype Entry = Entry(key: string, value: string)

  /**
   * `line.split('=')`, keep pieces 0 and 1, refuse either one empty before
   * trimming. So a line is accepted exactly when it has an `=` and its first `=`
   * is neither its first character nor its last one and is not directly
   * followed by another `=`; the key is then the trimmed text before that `=`.
   */
  function ParseLine(line: string): (r: Result<Entry, ConfigError>)
    ensures r.Ok? <==>
      '=' in line && var p := IndexOf(line, '='); 0 < p < |line| - 1 && line[p + 1] != '='
    ensures r.Ok? ==> r.value.key == Trim(line[..IndexOf(line, '=')])
    ensures r.Err? ==> r.error == MalformedLine
  {
    LineShape(line);
    var pieces := Split(line, '=');
    if pieces[0] == [] || |pieces| < 2 || pieces[1] == [] then Err(MalformedLine)
    else Ok(Entry(Trim(pieces[0]), Trim(pieces[1])))
  }

  /** How `split('=')` cuts a line: at its first `=`, if it has one. */
  lemma LineShape(line: string)
    ensures '=' !in line ==> Split(line, '=') == [line]
    ensures '=' in line ==>
      var p := IndexOf(line, '=');
      && Split(line, '=') == [line[..p]] + Split(line[p + 1..], '=')
      && (Split(line[p + 1..], '=')[0] == [] <==> p + 1 == |line| || line[p + 1] == '=')
  {
    if '=' in line {
      var p := IndexOf(line, '=');
      SplitAtIndexOf(line, '=');
      SplitHeadEmpty(line[p + 1..], '=');
    } else {
      SplitNoSeparator(line, '=');
    }
  }

  /** Every line of the text is accepted by `ParseLine`. */
  predicate LinesAccepted(lines: seq<string>)
  {
    forall i :: 0 <= i < |lines| ==> ParseLine(lines[i]).Ok?
  }

  /**
   * The `reduce` over the lines: each line in turn is parsed and written into
   * the accumulator, a later line overwriting an earlier one with the same key;
   * the first bad line aborts.
   */
  function Collect(lines: seq<string>, acc: map<string, string>): (r: Result<map<string, string>, ConfigError>)
    ensures r.Ok? <==> LinesAccepted(lines)
    ensures r.Err? ==> r.error == MalformedLine
    ensures r.Ok? ==> acc.Keys <= r.value.Keys
    decreases |lines|
  {
    if lines == [] then Ok(acc)
    else
      match ParseLine(lines[0])
      case Err(e) => Err(e)
      case Ok(entry) =>
        var r := Collect(lines[1..], acc[entry.key := entry.value]);
        assert forall i :: 1 <= i < |lines| ==> lines[i] == lines[1..][i - 1];
        r
  }

  /** `readConfig` after the file read: the whole text, split into lines on `'\n'`. */
  function ParseConfig(text: string): (r: Result<map<string, string>, ConfigError>)
    ensures r == Err(NoAssignment) <==> '=' !in text
    ensures r.Ok? <==> LinesAccepted(Split(text, '\n'))
  {
    if '=' !in text then
      assert !ParseLine(Split(text, '\n')[0]).Ok? by {
        JoinSplit(text, '\n');
        JoinPrefix(Split(text, '\n'), '\n');
        ParseLineNeedsEquals(Split(text, '\n')[0]);
      }
      Err(NoAssignment)
    else Collect(Split(text, '\n'), map[])
  }

  lemma JoinPrefix(pieces: seq<string>, sep: char)
    requires |pieces| >= 1
    ensures Join(pieces, sep)[..|pieces[0]|] == pieces[0]
  {
  }

  /** An accepted line contains `=`. */
  lemma ParseLineNeedsEquals(line: string)
    ensures ParseLine(line).Ok? ==> '=' in line
  {
    var pieces := Split(line, '=');
    JoinSplit(line, '=');
    if |pieces| >= 2 {
      assert Join(pieces, '=')[|pieces[0]|] == '=';
    }
  }

  /** A line `key=value` (neither holding `=`) yields the trimmed pair unless a piece is empty before trimming. */
  lemma ParseLineSplitsAtFirstEquals(key: string, value: string)
    requires '=' !in key && '=' !in value
    ensures ParseLine(key + ['='] + value) ==
      if key == [] || value == [] then Err(MalformedLine) else Ok(Entry(Trim(key), Trim(value)))
  {
    SplitAtFirst(key, '=', value);
    SplitNoSeparator(value, '=');
  }

  /** Whatever follows a second `=` on a line is dropped. */
  lemma ParseLineDropsAfterSecondEquals(key: string, value: string, rest: string)
    requires '=' !in key && '=' !in value
    ensures ParseLine(key + ['='] + value + ['='] + rest) == ParseLine(key + ['='] + value)
  {
    assert key + ['='] + value + ['='] + rest == key + ['='] + (value + ['='] + rest);
    SplitAtFirst(key, '=', value + ['='] + rest);
    SplitAtFirst(value, '=', rest);
    SplitAtFirst(key, '=', value);
    SplitNoSeparator(value, '=');
  }

  lemma OneLineText(line: string)
    requires '\n' !in line && ParseLine(line).Ok?
    ensures ParseConfig(line) == Collect([line], map[])
  {
    ParseLineNeedsEquals(line);
    SplitNoSeparator(line, '\n');
  }

  lemma CollectOneLine(line: string, entry: Entry)
    requires ParseLine(line) == Ok(entry)
    ensures Collect([line], map[]) == Ok(map[entry.key := entry.value])
  {
    var lines: seq<string> := [line];
    assert lines[1..] == [];
  }

  /** A text of one accepted line stores exactly that line's entry. */
  lemma SingleLine(line: string, entry: Entry)
    requires '\n' !in line && ParseLine(line) == Ok(entry)
    ensures ParseConfig(line) == Ok(map[entry.key := entry.value])
  {
    OneLineText(line);
    CollectOneLine(line, entry);
  }

  /**
   * A key piece made only of whitespace passes the emptiness check, which looks
   * before trimming, and stores the empty key (as `" =x"` does).
   */
  lemma BlankKeyIsStored(pad: string, value: string)
    requires pad != [] && AllSpace(pad) && '\n' !in pad
    requires value != [] && '=' !in value && '\n' !in value
    ensures ParseConfig(pad + ['='] + value) == Ok(map["" := Trim(value)])
  {
    assert '=' !in pad by { assert !IsSpace('='); }
    ParseLineSplitsAtFirstEquals(pad, value);
    TrimEmptyIffAllSpace(pad);
    SingleLine(pad + ['='] + value, Entry("", Trim(value)));
  }

  /** On a one-line text, whatever follows a second `=` is lost (`"a=b=c"` stores `a -> b`). */
  lemma SecondEqualsDropsText(key: string, value: string, rest: string)
    requires key != [] && value != []
    requires '=' !in key && '=' !in value
    requires '\n' !in key && '\n' !in value && '\n' !in rest
    ensures ParseConfig(key + ['='] + value + ['='] + rest) == Ok(map[Trim(key) := Trim(value)])
  {
    var line := key + ['='] + value + ['='] + rest;
    assert '\n' !in line by {
      assert line == key + (['='] + value + ['='] + rest);
      assert '\n' !in ['='] + value + ['='] + rest;
    }
    ParseLineDropsAfterSecondEquals(key, value, rest);
    ParseLineSplitsAtFirstEquals(key, value);
    SingleLine(line, Entry(Trim(key), Trim(value)));
  }

  /** An empty line anywhere in the text makes the whole text fail. */
  lemma EmptyLineRejected(text: string, i: nat)
    requires i < |Split(text, '\n')| && Split(text, '\n')[i] == []
    ensures ParseConfig(text).Err?
  {
    assert !ParseLine([]).Ok?;
  }

  /** A text ending in a newline has an empty last line and is refused. */
  lemma TrailingNewlineRejected(text: string)
    requires |text| > 0 && text[|text| - 1] == '\n'
    ensures ParseConfig(text).Err?
  {
    var body := text[..|text| - 1];
    assert text == body + ['\n'];
    SplitTrailingSeparator(body, '\n');
    EmptyLineRejected(text, |Split(text, '\n')| - 1);
  }

  /** The entries of a text whose every line is accepted, one per line, in file order. */
  function Entries(lines: seq<string>): (es: seq<Entry>)
    requires LinesAccepted(lines)
    ensures |es| == |lines|
    ensures forall i :: 0 <= i < |lines| ==> es[i] == ParseLine(lines[i]).value
  {
    seq(|lines|, i requires 0 <= i < |lines| => ParseLine(lines[i]).value)
  }

  /**
   * Reference meaning of "last line wins": the value of the last entry with
   * this key, reading the entries from the front.
   */
  function Lookup(entries: seq<Entry>, key: string): Option<string>
    decreases |entries|
  {
    if entries == [] then None
    else match Lookup(entries[1..], key)
      case Some(v) => Some(v)
      case None => if entries[0].key == key then Some(entries[0].value) else None
  }

  function Get(m: map<string, string>, key: string): Option<string>
  {
    if key in m then Some(m[key]) else None
  }

  /** `Lookup` finds some entry with the key, and no later entry has that key. */
  lemma {:induction false} LookupIsLastOccurrence(entries: seq<Entry>, key: string)
    ensures Lookup(entries, key).None? <==> forall i :: 0 <= i < |entries| ==> entries[i].key != key
    ensures Lookup(entries, key).Some? ==>
      exists i :: 0 <= i < |entries| && entries[i] == Entry(key, Lookup(entries, key).value) &&
        forall j :: i < j < |entries| ==> entries[j].key != key
    decreases |entries|
  {
    if entries != [] {
      var tail := entries[1..];
      LookupIsLastOccurrence(tail, key);
      assert forall i :: 1 <= i < |entries| ==> entries[i] == tail[i - 1];
      if Lookup(tail, key).Some? {
        var i :| 0 <= i < |tail| && tail[i] == Entry(key, Lookup(tail, key).value) &&
          forall j :: i < j < |tail| ==> tail[j].key != key;
        assert entries[i + 1] == tail[i];
      }
    }
  }

  /** What the fold leaves for each key: the last line's value, else what the accumulator had. */
  lemma {:induction false} CollectKeepsLastValue(lines: seq<string>, acc: map<string, string>, key: string)
    requires Collect(lines, acc).Ok?
    ensures Get(Collect(lines, acc).value, key) ==
      match Lookup(Entries(lines), key)
      case Some(v) => Some(v)
      case None => Get(acc, key)
    decreases |lines|
  {
    if lines != [] {
      var entry := ParseLine(lines[0]).value;
      assert ParseLine(lines[0]).Ok? by { assert ParseLine(lines[0 + 0]).Ok?; }
      CollectKeepsLastValue(lines[1..], acc[entry.key := entry.value], key);
      assert Entries(lines)[1..] == Entries(lines[1..]);
    }
  }

  /**
   * On success, a key is stored exactly when some line has it (after trimming),
   * and it maps to the trimmed value of the last such line.
   */
  lemma ParseConfigLastLineWins(text: string, key: string)
    requires ParseConfig(text).Ok?
    ensures Get(ParseConfig(text).value, key) == Lookup(Entries(Split(text, '\n')), key)
  {
    CollectKeepsLastValue(Split(text, '\n'), map[], key);
  }

  /** The entries of the lines of a text that parsed, in file order. */
  function TextEntries(text: string): seq<Entry>
    requires ParseConfig(text).Ok?
  {
    Entries(Split(text, '\n'))
  }

  /** On success, the stored keys are exactly the trimmed keys of the lines. */
  lemma ParseConfigKeys(text: string)
    requires ParseConfig(text).Ok?
    ensures ParseConfig(text).value.Keys == set i | 0 <= i < |TextEntries(text)| :: TextEntries(text)[i].key
  {
    var m := ParseConfig(text).value;
    var es := TextEntries(text);
    var keys := set i | 0 <= i < |es| :: es[i].key;
    forall k | true ensures k in m.Keys <==> k in keys {
      KeyStoredIffSomeLine(text, k);
    }
    assert m.Keys == keys;
  }

  lemma KeyStoredIffSomeLine(text: string, key: string)
    requires ParseConfig(text).Ok?
    ensures key in ParseConfig(text).value <==>
      exists i :: 0 <= i < |TextEntries(text)| && TextEntries(text)[i].key == key
  {
    ParseConfigLastLineWins(text, key);
    LookupIsLastOccurrence(TextEntries(text), key);
  }

  /**
   * On success, each stored pair is the trimmed first and second `=`-piece of
   * some line, and no later line has the same trimmed key.
   */
  lemma StoredEntryComesFromLine(text: string, key: string)
    requires ParseConfig(text).Ok? && key in ParseConfig(text).value
    ensures var lines := Split(text, '\n');
      exists i ::
        && 0 <= i < |lines|
        && LineYields(lines[i], Entry(key, ParseConfig(text).value[key]))
        && forall j :: i < j < |lines| ==> ParseLine(lines[j]).value.key != key
  {
    var lines := Split(text, '\n');
    var es := TextEntries(text);
    ParseConfigLastLineWins(text, key);
    LookupIsLastOccurrence(es, key);
    var i :| 0 <= i < |es| && es[i] == Entry(key, ParseConfig(text).value[key]) &&
      forall j :: i < j < |es| ==> es[j].key != key;
    ParseLineYields(lines[i]);
  }

  /** The line's key and value pieces are non-empty, and the entry is their trimmed forms. */
  predicate LineYields(line: string, e: Entry)
  {
    var pieces := Split(line, '=');
    pieces[0] != [] && |pieces| >= 2 && pieces[1] != [] && e == Entry(Trim(pieces[0]), Trim(pieces[1]))
  }

  lemma ParseLineYields(line: string)
    ensures ParseLine(line).Ok? ==> LineYields(line, ParseLine(line).value)
  {
  }

  /** The `includes('=')` test only picks the error: without it the same texts would be accepted. */
  lemma EqualsCheckOnlyPicksError(text: string)
    ensures ParseConfig(text).Ok? <==> Collect(Split(text, '\n'), map[]).Ok?
    ensures ParseConfig(text).Ok? ==> ParseConfig(text) == Collect(Split(text, '\n'), map[])
  {
  }

  /** An entry written out by `Format` comes back unchanged: non-empty, already trimmed, one line, no `=`. */
  predicate Canonical(e: Entry)
  {
    e.key != [] && e.value != [] &&
    '=' !in e.key && '=' !in e.value && '\n' !in e.key && '\n' !in e.value &&
    Trim(e.key) == e.key && Trim(e.value) == e.value
  }

  function FormatLine(e: Entry): string
  {
    e.key + ['='] + e.value
  }

  function FormatLines(entries: seq<Entry>): (lines: seq<string>)
    ensures |lines| == |entries|
  {
    seq(|entries|, i requires 0 <= i < |entries| => FormatLine(entries[i]))
  }

  /** The configuration text with one `key=value` line per entry and no trailing newline. */
  function Format(entries: seq<Entry>): string
  {
    Join(FormatLines(entries), '\n')
  }

  lemma FormatLineHasNoNewline(e: Entry)
    requires Canonical(e)
    ensures '\n' !in FormatLine(e)
  {
  }

  lemma FormatLineParses(e: Entry)
    requires Canonical(e)
    ensures ParseLine(FormatLine(e)) == Ok(e)
  {
    ParseLineSplitsAtFirstEquals(e.key, e.value);
  }

  lemma FormatReadsBackLines(entries: seq<Entry>)
    requires |entries| >= 1
    requires forall i :: 0 <= i < |entries| ==> Canonical(entries[i])
    ensures Split(Format(entries), '\n') == FormatLines(entries)
    ensures forall i :: 0 <= i < |entries| ==> ParseLine(FormatLines(entries)[i]) == Ok(entries[i])
  {
    var lines := FormatLines(entries);
    forall i | 0 <= i < |lines|
      ensures '\n' !in lines[i] && ParseLine(lines[i]) == Ok(entries[i])
    {
      FormatLineHasNoNewline(entries[i]);
      FormatLineParses(entries[i]);
    }
    SplitIsUnique(lines, Format(entries), '\n');
  }

  lemma FormatReadsBackEntries(entries: seq<Entry>)
    requires |entries| >= 1
    requires forall i :: 0 <= i < |entries| ==> Canonical(entries[i])
    ensures ParseConfig(Format(entries)).Ok?
    ensures Entries(Split(Format(entries), '\n')) == entries
  {
    FormatReadsBackLines(entries);
    EntriesOfLines(FormatLines(entries), entries);
  }

  lemma EntriesOfLines(lines: seq<string>, entries: seq<Entry>)
    requires |lines| == |entries|
    requires forall i :: 0 <= i < |lines| ==> ParseLine(lines[i]) == Ok(entries[i])
    ensures Entries(lines) == entries
  {
    var es := Entries(lines);
    assert forall i :: 0 <= i < |es| ==> es[i] == entries[i];
  }

  /** Writing entries out and reading them back gives the last value of each key. */
  lemma FormatThenParse(entries: seq<Entry>, key: string)
    requires |entries| >= 1
    requires forall i :: 0 <= i < |entries| ==> Canonical(entries[i])
    ensures ParseConfig(Format(entries)).Ok?
    ensures Get(ParseConfig(Format(entries)).value, key) == Lookup(entries, key)
  {
    FormatReadsBackEntries(entries);
    ParseConfigLastLineWins(Format(entries), key);
  }
}
