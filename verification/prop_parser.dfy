/** The `module.prop` parser of the dashboard (`parseModuleProp`): newline
    separated `key=value` lines become a map from key to value. The parser is
    permissive: blank and malformed lines are skipped, never reported. */
module PropParser {
  import opened Optional
  import opened Strings

  /** The parsed property record: the plain object the script fills in. */
  type Record = map<string, string>

  /** One `key=value` assignment. */
  type KeyValue = (string, string)

  /** A key the parser can produce: non-empty, free of `=`, and without
      surrounding whitespace. */
  predicate ValidKey(k: string) {
    k != "" && '=' !in k && IsTrimmed(k)
  }

  /** A value the parser can produce: trimmed, and free of line terminators
      because the pattern's `(.*)$` cannot match across one. */
  predicate ValidValue(v: string) {
    IsTrimmed(v) && NoLineTerminator(v)
  }

  predicate ValidRecord(m: Record) {
    forall k :: k in m ==> ValidKey(k) && ValidValue(m[k])
  }

  /** The pattern `^([^=]+)=(.*)$` applied to a whole line, giving its two
      groups: a non-empty prefix free of `=` (so the split is at the FIRST
      `=`), and the rest after that `=`, in which `.` admits no line
      terminator. */
  function MatchEntry(line: string): (r: Option<KeyValue>)
    ensures r.Some? ==> line == r.value.0 + "=" + r.value.1
    ensures r.Some? ==> r.value.0 != "" && '=' !in r.value.0 && NoLineTerminator(r.value.1)
  {
    if '=' !in line then None
    else
      var i := IndexOf(line, '=');
      if i == 0 || !NoLineTerminator(line[i + 1..]) then None
      else
        assert line == line[..i] + "=" + line[i + 1..];
        Some((line[..i], line[i + 1..]))
  }

  /** The match is unique: whenever a line decomposes as `k=v` with `k`
      non-empty and free of `=` and `v` free of line terminators, the pattern
      matches with exactly those groups; and it matches nothing else. */
  lemma MatchEntryExactly(line: string, k: string, v: string)
    requires k != "" && '=' !in k && NoLineTerminator(v)
    ensures MatchEntry(line) == Some((k, v)) <==> line == k + "=" + v
  {
    if line == k + "=" + v {
      assert line[|k|] == '=';
      assert line[..|k|] == k;
      assert IndexOf(line, '=') == |k|;
      assert line[|k| + 1..] == v;
    }
  }

  /** One line of the file, as the `forEach` callback treats it: the line is
      trimmed, a blank line is skipped, a line the pattern does not match is
      skipped, and otherwise both groups are trimmed. */
  function ParseLine(raw: string): (r: Option<KeyValue>)
    ensures r.Some? ==> ValidKey(r.value.0) && ValidValue(r.value.1)
  {
    var line := Trim(raw);
    if line == [] then None
    else
      match MatchEntry(line)
      case None => None
      case Some((k, v)) =>
        assert k[0] == line[0];
        var value := Trim(v);
        assert NoLineTerminator(value) by {
          TrimChars(v);
          forall j | 0 <= j < |value|
            ensures !IsLineTerminator(value[j])
          {
            assert value[j] in value;
          }
        }
        Some((Trim(k), value))
  }

  /** The record built by performing the assignments in order on an empty
      object; `None` (a skipped line) assigns nothing. */
  function Assign(entries: seq<Option<KeyValue>>): (m: Record)
    ensures forall k :: k in m ==> Some((k, m[k])) in entries
  {
    if |entries| == 0 then map[]
    else
      var m := Assign(entries[..|entries| - 1]);
      match entries[|entries| - 1]
      case Some((k, v)) => m[k := v]
      case None => m
  }

  /** What each line contributes. */
  function LineEntries(lines: seq<string>): (es: seq<Option<KeyValue>>)
    ensures |es| == |lines|
    ensures forall i :: 0 <= i < |lines| ==> es[i] == ParseLine(lines[i])
  {
    seq(|lines|, i requires 0 <= i < |lines| => ParseLine(lines[i]))
  }

  /** `parseModuleProp`'s parse loop: split on `'\n'`, then assign the entry of
      every line in order. */
  function Parse(text: string): (r: Record)
    ensures ValidRecord(r)
  {
    var entries := LineEntries(Split(text, '\n'));
    AssignValid(entries);
    Assign(entries)
  }

  /** The parse loop as the script runs it: one pass over the lines, assigning
      each parsed entry into the record. The record it builds holds only
      well-formed keys and values. */
  method ParseModuleProp(text: string) returns (data: Record)
    ensures data == Parse(text)
    ensures ValidRecord(data)
  {
    var lines := Split(text, '\n');
    ghost var entries := LineEntries(lines);
    data := map[];
    var i := 0;
    while i < |lines|
      invariant 0 <= i <= |lines|
      invariant data == Assign(entries[..i])
    {
      var entry := ParseLine(lines[i]);
      if entry.Some? {
        data := data[entry.value.0 := entry.value.1];
      }
      AssignStep(entries, i);
      i := i + 1;
    }
    AssignStep(entries, i);
    ParseValid(text);
  }

  /** One more entry performs its assignment on the record so far; the
      prefix as long as the sequence is the whole sequence. */
  lemma AssignStep(entries: seq<Option<KeyValue>>, i: nat)
    requires i <= |entries|
    ensures i == |entries| ==> Assign(entries[..i]) == Assign(entries)
    ensures i < |entries| && entries[i].None? ==> Assign(entries[..i + 1]) == Assign(entries[..i])
    ensures i < |entries| && entries[i].Some? ==>
              Assign(entries[..i + 1]) == Assign(entries[..i])[entries[i].value.0 := entries[i].value.1]
  {
    if i == |entries| {
      assert entries[..i] == entries;
    } else {
      assert entries[..i + 1][..i] == entries[..i];
    }
  }

  /** The entry at position `i` assigns key `k`. */
  predicate Assigns(entries: seq<Option<KeyValue>>, i: int, k: string) {
    0 <= i < |entries| && entries[i].Some? && entries[i].value.0 == k
  }

  /** Every key and value of the record comes from a well-formed entry. */
  lemma {:induction false} AssignValid(entries: seq<Option<KeyValue>>)
    requires forall i :: 0 <= i < |entries| && entries[i].Some? ==>
               ValidKey(entries[i].value.0) && ValidValue(entries[i].value.1)
    ensures ValidRecord(Assign(entries))
  {
    if |entries| > 0 {
      AssignValid(entries[..|entries| - 1]);
    }
  }

  /** The parsed record only ever holds well-formed keys and values. */
  lemma ParseValid(text: string)
    ensures ValidRecord(Parse(text))
  {
    AssignValid(LineEntries(Split(text, '\n')));
  }

  /** A key is in the record exactly when some entry assigns it. */
  lemma {:induction false} AssignKeys(entries: seq<Option<KeyValue>>, k: string)
    ensures k in Assign(entries) <==> exists i :: Assigns(entries, i, k)
  {
    if |entries| > 0 {
      var n := |entries| - 1;
      var init := entries[..n];
      AssignKeys(init, k);
      if Assigns(entries, n, k) {
        assert k in Assign(entries);
      } else {
        assert k in Assign(entries) <==> k in Assign(init);
        assert forall i :: Assigns(init, i, k) <==> Assigns(entries, i, k);
      }
    }
  }

  /** Last write wins: the value stored for a key is the one of the LAST entry
      that assigns that key. */
  lemma {:induction false} AssignLastWins(entries: seq<Option<KeyValue>>, i: nat, k: string, v: string)
    requires i < |entries| && entries[i] == Some((k, v))
    requires forall j :: i < j < |entries| ==> !Assigns(entries, j, k)
    ensures k in Assign(entries) && Assign(entries)[k] == v
  {
    if i < |entries| - 1 {
      var init := entries[..|entries| - 1];
      assert init[i] == entries[i];
      forall j | i < j < |init|
        ensures !Assigns(init, j, k)
      {
        assert !Assigns(entries, j, k);
      }
      AssignLastWins(init, i, k, v);
      assert !Assigns(entries, |entries| - 1, k);
    }
  }

  /** Running two runs of assignments one after the other: the second record
      overwrites the first on the keys it assigns, and keeps the rest. */
  lemma {:induction false} AssignAppend(xs: seq<Option<KeyValue>>, ys: seq<Option<KeyValue>>)
    ensures Assign(xs + ys) == Assign(xs) + Assign(ys)
    decreases |ys|
  {
    if |ys| == 0 {
      assert xs + ys == xs;
    } else {
      var init := ys[..|ys| - 1];
      assert (xs + ys)[..|xs + ys| - 1] == xs + init;
      assert (xs + ys)[|xs + ys| - 1] == ys[|ys| - 1];
      AssignAppend(xs, init);
    }
  }

  /** Parsing two texts joined by a newline gives the first record overwritten
      by the second: entries of the later text win, entries for keys it does not
      mention are kept. */
  lemma ParseAppend(a: string, b: string)
    ensures Parse(a + "\n" + b) == Parse(a) + Parse(b)
  {
    var xs := Split(a, '\n');
    var ys := Split(b, '\n');
    SplitAppend(a, b, '\n');
    LineEntriesAppend(xs, ys);
    AssignAppend(LineEntries(xs), LineEntries(ys));
  }

  lemma LineEntriesAppend(xs: seq<string>, ys: seq<string>)
    ensures LineEntries(xs + ys) == LineEntries(xs) + LineEntries(ys)
  {
  }

  /** Input without any `=` (in particular the empty text) parses to the empty
      record, never to an error. */
  lemma ParseWithoutEquals(text: string)
    requires '=' !in text
    ensures Parse(text) == map[]
  {
    var lines := Split(text, '\n');
    var entries := LineEntries(lines);
    forall i | 0 <= i < |lines|
      ensures entries[i] == None
    {
      SplitPieceIn(text, '\n', i);
      ParseLineSkips(lines[i]);
    }
    NothingAssigned(entries);
  }

  /** Input in which every line is blank or malformed parses to the empty
      record. */
  lemma ParseAllSkipped(text: string)
    requires forall i :: 0 <= i < |Split(text, '\n')| ==> ParseLine(Split(text, '\n')[i]).None?
    ensures Parse(text) == map[]
  {
    NothingAssigned(LineEntries(Split(text, '\n')));
  }

  lemma {:induction false} SplitPieceIn(s: string, c: char, i: nat)
    requires i < |Split(s, c)|
    ensures forall x :: x in Split(s, c)[i] ==> x in s
    decreases |s|
  {
    if c in s && i > 0 {
      var j := IndexOf(s, c);
      SplitPieceIn(s[j + 1..], c, i - 1);
    }
  }

  lemma {:induction false} NothingAssigned(entries: seq<Option<KeyValue>>)
    requires forall i :: 0 <= i < |entries| ==> entries[i] == None
    ensures Assign(entries) == map[]
  {
    if |entries| > 0 {
      NothingAssigned(entries[..|entries| - 1]);
    }
  }

  /** The three kinds of line that are skipped: blank lines, lines without
      `=`, and lines whose trimmed form starts with `=` (empty key). */
  lemma ParseLineSkips(raw: string)
    ensures AllSpace(raw) ==> ParseLine(raw) == None
    ensures '=' !in raw ==> ParseLine(raw) == None
    ensures Trim(raw) != [] && Trim(raw)[0] == '=' ==> ParseLine(raw) == None
  {
    TrimChars(raw);
  }

  /** A line whose trimmed form is `k=v` with `k` non-empty and free of `=` yields
      the trimmed `k` and the trimmed `v`: the split happens at the first `=`, so
      `v` may itself contain `=`. */
  lemma ParseLineFirstEquals(raw: string, k: string, v: string)
    requires Trim(raw) == k + "=" + v
    requires k != "" && '=' !in k && NoLineTerminator(v)
    ensures ParseLine(raw) == Some((Trim(k), Trim(v)))
  {
    MatchEntryExactly(Trim(raw), k, v);
  }

  /** Conversely, every entry the parser yields comes from such a split. */
  lemma ParseLineOrigin(raw: string) returns (k: string, v: string)
    requires ParseLine(raw).Some?
    ensures Trim(raw) == k + "=" + v
    ensures k != "" && '=' !in k && NoLineTerminator(v)
    ensures ParseLine(raw) == Some((Trim(k), Trim(v)))
  {
    k, v := MatchEntry(Trim(raw)).value.0, MatchEntry(Trim(raw)).value.1;
  }

  /** Writes entries as `key=value` lines, one per line. */
  function Format(entries: seq<KeyValue>): string
  {
    Join(FormatLines(entries), '\n')
  }

  function FormatLines(entries: seq<KeyValue>): seq<string>
  {
    seq(|entries|, i requires 0 <= i < |entries| => entries[i].0 + "=" + entries[i].1)
  }

  /** The record the entries describe, a later entry overwriting an earlier one
      with the same key. */
  function ToRecord(entries: seq<KeyValue>): Record
  {
    if |entries| == 0 then map[]
    else ToRecord(entries[..|entries| - 1])[entries[|entries| - 1].0 := entries[|entries| - 1].1]
  }

  /** Entries that survive being written out as lines: well-formed, and with
      no newline in the key (which would split the line). */
  predicate ValidEntries(entries: seq<KeyValue>) {
    forall i :: 0 <= i < |entries| ==>
      ValidKey(entries[i].0) && '\n' !in entries[i].0 && ValidValue(entries[i].1)
  }

  /** A well-formed `key=value` line parses to exactly its key and value. */
  lemma ParseFormattedLine(k: string, v: string)
    requires ValidKey(k) && ValidValue(v)
    ensures ParseLine(k + "=" + v) == Some((k, v))
  {
    var line := k + "=" + v;
    assert line[0] == k[0];
    assert line[|line| - 1] == if v == [] then '=' else v[|v| - 1];
    TrimTrimmed(line);
    ParseLineFirstEquals(line, k, v);
    TrimTrimmed(k);
    TrimTrimmed(v);
  }

  /** Round trip: formatting well-formed entries and parsing the text gives the
      record the entries describe. */
  lemma ParseFormat(entries: seq<KeyValue>)
    requires ValidEntries(entries)
    ensures Parse(Format(entries)) == ToRecord(entries)
  {
    var lines := FormatLines(entries);
    if |entries| == 0 {
      assert Format(entries) == "";
      assert Split("", '\n') == [""];
      assert LineEntries([""]) == [None];
      assert Assign([None]) == Assign([]);
    } else {
      forall i | 0 <= i < |lines|
        ensures '\n' !in lines[i]
      {
        assert lines[i] == entries[i].0 + "=" + entries[i].1;
        NoLineTerminatorNoNewline(entries[i].1);
      }
      SplitJoin(lines, '\n');
      FormattedEntries(entries);
    }
  }

  lemma {:induction false} FormattedEntries(entries: seq<KeyValue>)
    requires ValidEntries(entries)
    ensures Assign(LineEntries(FormatLines(entries))) == ToRecord(entries)
  {
    if |entries| > 0 {
      var n := |entries| - 1;
      var init := entries[..n];
      assert LineEntries(FormatLines(entries))[..n] == LineEntries(FormatLines(init));
      FormattedEntries(init);
      ParseFormattedLine(entries[n].0, entries[n].1);
    }
  }

  /** Whitespace that stays on one line: any ECMAScript white space (space, tab,
      vertical tab, form feed, no-break space, the space separators, the byte
      order mark), but no line terminator. */
  predicate Blank(s: string) {
    AllSpace(s) && NoLineTerminator(s)
  }

  /** A text without a newline is a single line: it gives the record of that
      line's entry, if any. */
  lemma ParseOneLine(line: string)
    requires '\n' !in line
    ensures ParseLine(line).None? ==> Parse(line) == map[]
    ensures ParseLine(line).Some? ==>
              Parse(line) == map[ParseLine(line).value.0 := ParseLine(line).value.1]
  {
    assert Split(line, '\n') == [line];
    LineEntriesSingle(line);
    AssignSingle(ParseLine(line));
  }

  lemma LineEntriesSingle(line: string)
    ensures LineEntries([line]) == [ParseLine(line)]
  {
  }

  lemma AssignSingle(e: Option<KeyValue>)
    ensures e.None? ==> Assign([e]) == map[]
    ensures e.Some? ==> Assign([e]) == map[e.value.0 := e.value.1]
  {
    assert [e][..0] == [];
  }

  /** Whitespace around the line, around the key and around the value is
      dropped; a line `k = ` with nothing after the blanks gives the empty
      value. */
  lemma ParsePaddedEntry(lead: string, k: string, mid1: string, mid2: string, v: string, trail: string)
    requires Blank(lead) && Blank(mid1) && Blank(mid2) && Blank(trail)
    requires ValidKey(k) && '\n' !in k && ValidValue(v)
    ensures Parse(lead + k + mid1 + "=" + mid2 + v + trail) == map[k := v]
  {
    var text := lead + k + mid1 + "=" + mid2 + v + trail;
    ParseLinePadded(lead, k, mid1, mid2, v, trail);
    PaddedOneLine(lead, k, mid1, mid2, v, trail);
    ParseOneLine(text);
  }

  lemma PaddedOneLine(lead: string, k: string, mid1: string, mid2: string, v: string, trail: string)
    requires Blank(lead) && Blank(mid1) && Blank(mid2) && Blank(trail)
    requires '\n' !in k && NoLineTerminator(v)
    ensures '\n' !in lead + k + mid1 + "=" + mid2 + v + trail
  {
    NoLineTerminatorNoNewline(lead);
    NoLineTerminatorNoNewline(mid1);
    NoLineTerminatorNoNewline(mid2);
    NoLineTerminatorNoNewline(v);
    NoLineTerminatorNoNewline(trail);
  }

  lemma ParseLinePadded(lead: string, k: string, mid1: string, mid2: string, v: string, trail: string)
    requires Blank(lead) && Blank(mid1) && Blank(mid2) && Blank(trail)
    requires ValidKey(k) && ValidValue(v)
    ensures ParseLine(lead + k + mid1 + "=" + mid2 + v + trail) == Some((k, v))
  {
    if v == "" {
      ParseLinePaddedEmpty(lead, k, mid1, mid2, v, trail);
    } else {
      ParseLinePaddedValue(lead, k, mid1, mid2, v, trail);
    }
  }

  lemma ParseLinePaddedValue(lead: string, k: string, mid1: string, mid2: string, v: string, trail: string)
    requires Blank(lead) && Blank(mid1) && Blank(mid2) && Blank(trail)
    requires ValidKey(k) && ValidValue(v) && v != ""
    ensures ParseLine(lead + k + mid1 + "=" + mid2 + v + trail) == Some((k, v))
  {
    var core := (k + mid1) + "=" + (mid2 + v);
    assert lead + k + mid1 + "=" + mid2 + v + trail == lead + core + trail;
    PaddedCore(lead, k, mid1, mid2, v, trail);
    PaddedParts(k, mid1, mid2, v);
    ParseLineFirstEquals(lead + core + trail, k + mid1, mid2 + v);
  }

  /** The empty-value case: the blanks after `=` are trimmed with the line. */
  lemma ParseLinePaddedEmpty(lead: string, k: string, mid1: string, mid2: string, v: string, trail: string)
    requires Blank(lead) && Blank(mid1) && Blank(mid2) && Blank(trail)
    requires ValidKey(k) && v == ""
    ensures ParseLine(lead + k + mid1 + "=" + mid2 + v + trail) == Some((k, v))
  {
    var core := (k + mid1) + "=";
    assert lead + k + mid1 + "=" + mid2 + v + trail == lead + core + (mid2 + trail);
    PaddedKey(k, mid1);
    PaddedEmptyCore(lead, k + mid1, mid2, trail);
    ParseLineFirstEquals(lead + core + (mid2 + trail), k + mid1, "");
  }

  lemma PaddedEmptyCore(lead: string, key: string, mid2: string, trail: string)
    requires AllSpace(lead) && AllSpace(mid2) && AllSpace(trail)
    requires key != "" && !IsSpace(key[0])
    ensures Trim(lead + (key + "=") + (mid2 + trail)) == key + "="
  {
    var core := key + "=";
    assert core[0] == key[0] && core[|core| - 1] == '=';
    AllSpaceConcat(mid2, trail);
    TrimPadded(lead, core, mid2 + trail);
  }

  lemma PaddedCore(lead: string, k: string, mid1: string, mid2: string, v: string, trail: string)
    requires AllSpace(lead) && AllSpace(trail)
    requires k != "" && !IsSpace(k[0]) && v != "" && !IsSpace(v[|v| - 1])
    ensures Trim(lead + ((k + mid1) + "=" + (mid2 + v)) + trail) == (k + mid1) + "=" + (mid2 + v)
  {
    var core := (k + mid1) + "=" + (mid2 + v);
    assert core[0] == k[0] && core[|core| - 1] == v[|v| - 1];
    TrimPadded(lead, core, trail);
  }

  lemma PaddedParts(k: string, mid1: string, mid2: string, v: string)
    requires Blank(mid1) && Blank(mid2)
    requires ValidKey(k) && ValidValue(v)
    ensures Trim(k + mid1) == k && Trim(mid2 + v) == v
    ensures k + mid1 != "" && '=' !in k + mid1 && NoLineTerminator(mid2 + v)
  {
    PaddedKey(k, mid1);
    PaddedValue(mid2, v);
  }

  lemma PaddedKey(k: string, mid: string)
    requires AllSpace(mid) && ValidKey(k)
    ensures Trim(k + mid) == k && '=' !in k + mid
  {
    assert "" + k + mid == k + mid;
    TrimPadded("", k, mid);
    NoEqualsPadded(k, mid);
  }

  lemma NoEqualsPadded(k: string, mid: string)
    requires AllSpace(mid) && '=' !in k
    ensures '=' !in k + mid
  {
    SpaceHasNo(mid, '=');
  }

  lemma PaddedValue(mid: string, v: string)
    requires Blank(mid) && ValidValue(v)
    ensures Trim(mid + v) == v && NoLineTerminator(mid + v)
  {
    assert mid + v + "" == mid + v;
    TrimPadded(mid, v, "");
    NoLineTerminatorConcat(mid, v);
  }

  /** `k = v ` parses to `{k: "v"}`. The text is a parameter fixed by the
      precondition so that the literal reaches the solver only through the
      decomposition asserted in the body. */
  lemma ParseTrimsExample(text: string)
    requires text == "k = v "
    ensures Parse(text) == map["k" := "v"]
  {
    assert Blank("") && Blank(" ") && ValidKey("k") && '\n' !in "k" && ValidValue("v");
    assert text == "" + "k" + " " + "=" + " " + "v" + " ";
    ParsePaddedEntry("", "k", " ", " ", "v", " ");
  }

  /** A single well-formed `key=value` line gives a one-entry record. */
  lemma ParseSingleEntry(k: string, v: string)
    requires ValidKey(k) && '\n' !in k && ValidValue(v)
    ensures Parse(k + "=" + v) == map[k := v]
  {
    ParseFormattedLine(k, v);
    NoLineTerminatorNoNewline(v);
    ParseOneLine(k + "=" + v);
  }

  /** Of two lines for the same key, the later one's value is kept. */
  lemma ParseDuplicateKey(k: string, v1: string, v2: string)
    requires ValidKey(k) && '\n' !in k && ValidValue(v1) && ValidValue(v2)
    ensures Parse(k + "=" + v1 + "\n" + (k + "=" + v2)) == map[k := v2]
  {
    ParseAppend(k + "=" + v1, k + "=" + v2);
    ParseSingleEntry(k, v1);
    ParseSingleEntry(k, v2);
  }

  /** `a=1` then `a=2` parses to `{a: "2"}`; the text is fixed by the
      precondition for the same reason as in `ParseTrimsExample`. */
  lemma LastWinsExample(text: string)
    requires text == "a=1\na=2"
    ensures Parse(text) == map["a" := "2"]
  {
    assert ValidKey("a") && '\n' !in "a" && ValidValue("1") && ValidValue("2");
    assert text == "a" + "=" + "1" + "\n" + ("a" + "=" + "2");
    ParseDuplicateKey("a", "1", "2");
  }
}
