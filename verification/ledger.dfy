/**
 The ledger of fetched listing ids (main.go `loadFetchedIDs` and
 `appendFetchedID`): one id per line in an append-only text file.
 */
module Ledger {
  import opened Options
  import opened TextSearch

  const Newline := "\n"

  /**
   The ledger file as the program finds it: absent, present but unreadable
   (`os.ReadFile` fails, as for a write-only file), or readable with its content.
   */
  datatype LedgerFile = Absent | Unreadable | Readable(content: string)

  /** The text an append writes after: the content of a readable file, nothing for a new one. */
  function Text(file: LedgerFile): string {
    if file.Readable? then file.content else ""
  }

  /** The ids recorded in the ledger file: its non-empty lines. */
  function ParseLedger(file: LedgerFile): (ids: set<string>)
    ensures "" !in ids
    ensures forall id :: id in ids ==> '\n' !in id
    ensures !file.Readable? ==> ids == {}
  {
    match file
    case Absent => {}
    case Unreadable => {}
    case Readable(content) =>
      var lines := Split(content, Newline);
      SplitPartsAvoidSeparator(content, Newline);
      NoSeparatorCharInParts(lines);
      set line | line in lines && line != ""
  }

  lemma NoSeparatorCharInParts(parts: seq<string>)
    requires forall k, j :: 0 <= k < |parts| ==> !PrefixAt(parts[k], Newline, j)
    ensures forall k :: 0 <= k < |parts| ==> '\n' !in parts[k]
  {
    forall k | 0 <= k < |parts| ensures '\n' !in parts[k] {
      CharSearch(parts[k], '\n');
    }
  }

  /** Content written only by appending whole lines: empty or ending in a newline. */
  predicate EndsLine(content: string) {
    |content| == 0 || content[|content| - 1] == '\n'
  }

  predicate WellFormed(file: LedgerFile) {
    !file.Readable? || EndsLine(file.content)
  }

  /** An id that the ledger can hold on a line of its own. */
  predicate Storable(id: string) {
    id != "" && '\n' !in id
  }

  /**
   The file after appending one id: `id` and a newline at the end, the file
   being created when absent. When the file cannot be opened nothing is written.
   An unreadable file that opens for appending receives the line but stays
   unreadable.
   */
  function AppendFetchedId(file: LedgerFile, id: string, canOpen: bool): (r: LedgerFile)
    ensures file.Readable? ==> r.Readable? && file.content <= r.content
    ensures !canOpen ==> r == file
    ensures file.Unreadable? ==> r.Unreadable? && ParseLedger(r) == {}
    ensures WellFormed(file) ==> WellFormed(r)
    ensures canOpen && !file.Unreadable? && WellFormed(file) && Storable(id) ==>
              ParseLedger(r) == ParseLedger(file) + {id}
  {
    if !canOpen || file.Unreadable? then file
    else
      var content := Text(file) + id + Newline;
      assert content[|content| - 1] == '\n';
      AppendedLineParses(file, id);
      Readable(content)
  }

  lemma AppendedLineParses(file: LedgerFile, id: string)
    ensures !file.Unreadable? && WellFormed(file) && Storable(id) ==>
              ParseLedger(Readable(Text(file) + id + Newline)) == ParseLedger(file) + {id}
  {
    if !file.Unreadable? && WellFormed(file) && Storable(id) {
      ParseAppendedLine(Text(file), id);
      EmptyLedger();
    }
  }

  /** Appending a line to well-formed content adds exactly its id to the parsed set. */
  lemma ParseAppendedLine(content: string, id: string)
    requires EndsLine(content)
    requires Storable(id)
    ensures ParseLedger(Readable(content + id + Newline)) == ParseLedger(Readable(content)) + {id}
  {
    var lines: seq<string>;
    if |content| == 0 {
      SplitLineOf(id);
      SplitEmpty();
      assert content + id + Newline == id + Newline;
      lines := [];
    } else {
      lines := SplitAfterLastNewline(content, id);
    }
    assert Split(content, Newline) == lines + [""];
    assert Split(content + id + Newline, Newline) == lines + [id, ""];
    AddedLine(lines, id);
  }

  /** A single terminated line splits into itself and the empty remainder. */
  lemma SplitLineOf(id: string)
    requires '\n' !in id
    ensures Split(id + Newline, Newline) == [id, ""]
  {
    SplitWithoutSeparator(id);
    SplitAtSeparatorChar(id, '\n', "");
    assert id + ['\n'] + "" == id + Newline;
    SplitEmpty();
  }

  /** Non-empty content ending in a newline: its lines before the last newline, followed by the appended line. */
  lemma SplitAfterLastNewline(content: string, id: string) returns (lines: seq<string>)
    requires |content| > 0 && EndsLine(content)
    requires '\n' !in id
    ensures Split(content, Newline) == lines + [""]
    ensures Split(content + id + Newline, Newline) == lines + [id, ""]
  {
    var init := content[..|content| - 1];
    lines := Split(init, Newline);
    SplitLineOf(id);
    SplitEmpty();
    assert content == init + ['\n'] + "";
    SplitAtSeparatorChar(init, '\n', "");
    assert content + id + Newline == init + ['\n'] + (id + Newline);
    SplitAtSeparatorChar(init, '\n', id + Newline);
  }

  /** The non-empty lines gain exactly one id when a line is inserted before the final empty one. */
  lemma AddedLine(lines: seq<string>, id: string)
    requires id != ""
    ensures (set line | line in lines + [id, ""] && line != "") == (set line | line in lines + [""] && line != "") + {id}
  {
  }

  lemma SplitEmpty()
    ensures Split("", Newline) == [""]
  {
    assert !PrefixAt("", Newline, 0);
  }

  /** A line without a newline is its own single part. */
  lemma SplitWithoutSeparator(id: string)
    requires '\n' !in id
    ensures Split(id, Newline) == [id]
  {
    CharSearch(id, '\n');
    SplitWithoutOccurrence(id, Newline);
  }

  /** The ledger content a run of appends writes: one line per id, in order. */
  function Serialize(ids: seq<string>): (content: string)
    ensures EndsLine(content)
  {
    if |ids| == 0 then "" else
      var rest := Serialize(ids[1..]);
      var content := ids[0] + Newline + rest;
      assert content[|content| - 1] == if |rest| == 0 then '\n' else rest[|rest| - 1];
      content
  }

  /** The file after a run of appends, all of which opened the file. */
  function Appended(file: LedgerFile, ids: seq<string>): LedgerFile
  {
    if |ids| == 0 || file.Unreadable? then file else Readable(Text(file) + Serialize(ids))
  }

  /**
   Reading back what a run of appends wrote: the ids already recorded plus
   exactly the appended ones; nothing when the file cannot be read.
   */
  lemma ParseAppended(file: LedgerFile, ids: seq<string>)
    requires WellFormed(file)
    requires forall k :: 0 <= k < |ids| ==> Storable(ids[k])
    ensures WellFormed(Appended(file, ids))
    ensures ParseLedger(Appended(file, ids)) ==
              if file.Unreadable? then {} else ParseLedger(file) + set id | id in ids
  {
    if |ids| > 0 && !file.Unreadable? {
      ParseSerialized(Text(file), ids);
      EmptyLedger();
    }
  }

  lemma {:induction false} ParseSerialized(content: string, ids: seq<string>)
    requires EndsLine(content)
    requires forall k :: 0 <= k < |ids| ==> Storable(ids[k])
    ensures ParseLedger(Readable(content + Serialize(ids))) == ParseLedger(Readable(content)) + set id | id in ids
    decreases |ids|
  {
    if |ids| == 0 {
      assert content + Serialize(ids) == content;
    } else {
      var next := content + ids[0] + Newline;
      ParseAppendedLine(content, ids[0]);
      ParseSerialized(next, ids[1..]);
      SerializeFirst(content, ids);
      MembersOfNonEmpty(ids);
    }
  }

  lemma SerializeFirst(content: string, ids: seq<string>)
    requires |ids| > 0
    ensures content + Serialize(ids) == content + ids[0] + Newline + Serialize(ids[1..])
  {
  }

  lemma MembersOfNonEmpty(ids: seq<string>)
    requires |ids| > 0
    ensures (set id | id in ids) == {ids[0]} + set id | id in ids[1..]
  {
    assert ids == [ids[0]] + ids[1..];
  }

  /** Absent, unreadable and empty ledger files all read as the empty set. */
  lemma EmptyLedger()
    ensures ParseLedger(Readable("")) == ParseLedger(Absent) == ParseLedger(Unreadable) == {}
  {
    SplitEmpty();
  }

  /** `x` occupies a whole line of `s`, from `i` up to `j`. */
  ghost predicate LineSpan(s: string, i: int, j: int) {
    && 0 <= i <= j <= |s|
    && (i == 0 || s[i - 1] == '\n')
    && (j == |s| || s[j] == '\n')
    && forall m :: i <= m < j ==> s[m] != '\n'
  }

  ghost predicate IsLine(s: string, x: string) {
    exists i, j :: LineSpan(s, i, j) && s[i..j] == x
  }

  /** The parts of a split on newlines are exactly the lines of the text. */
  lemma SplitIntoLines(s: string, x: string)
    ensures x in Split(s, Newline) <==> IsLine(s, x)
  {
    if x in Split(s, Newline) {
      PartsAreLines(s, x);
    }
    if IsLine(s, x) {
      LinesAreParts(s, x);
    }
  }

  lemma {:induction false} PartsAreLines(s: string, x: string)
    requires x in Split(s, Newline)
    ensures IsLine(s, x)
    decreases |s|
  {
    CharSearch(s, '\n');
    match IndexOf(s, Newline)
    case None =>
      assert Split(s, Newline) == [s];
      assert LineSpan(s, 0, |s|) && s[0..|s|] == x;
    case Some(k) =>
      var rest := s[k + 1..];
      SplitUnfold(s, Newline, k);
      if x == s[..k] {
        assert LineSpan(s, 0, k) && s[0..k] == x;
      } else {
        assert x in Split(rest, Newline);
        PartsAreLines(rest, x);
        var i, j :| LineSpan(rest, i, j) && rest[i..j] == x;
        LineShift(s, k, i, j);
      }
  }

  lemma {:induction false} LinesAreParts(s: string, x: string)
    requires IsLine(s, x)
    ensures x in Split(s, Newline)
    decreases |s|
  {
    var i, j :| LineSpan(s, i, j) && s[i..j] == x;
    match IndexOf(s, Newline)
    case None =>
      NoNewline(s);
      SplitWithoutSeparator(s);
      OnlyLine(s, i, j);
      assert x == s;
    case Some(k) =>
      FirstNewline(s, k);
      var rest := s[k + 1..];
      SplitUnfold(s, Newline, k);
      if i == 0 {
        FirstLine(s, k, j);
        assert x == s[..k];
      } else {
        LineUnshift(s, k, i, j);
        assert IsLine(rest, x);
        LinesAreParts(rest, x);
      }
  }

  /** Text without a newline is a single line. */
  lemma OnlyLine(s: string, i: int, j: int)
    requires '\n' !in s && LineSpan(s, i, j)
    ensures i == 0 && j == |s|
  {
  }

  /** The first line ends at the first newline. */
  lemma FirstLine(s: string, k: nat, j: int)
    requires k < |s| && s[k] == '\n'
    requires forall m :: 0 <= m < k ==> s[m] != '\n'
    requires LineSpan(s, 0, j)
    ensures j == k
  {
  }

  lemma NoNewline(s: string)
    requires IndexOf(s, Newline).None?
    ensures '\n' !in s
  {
    CharSearch(s, '\n');
    forall m | 0 <= m < |s| ensures s[m] != '\n' {
      assert !PrefixAt(s, Newline, m);
    }
  }

  lemma FirstNewline(s: string, k: nat)
    requires IndexOf(s, Newline) == Some(k)
    ensures k < |s| && s[k] == '\n'
    ensures forall m :: 0 <= m < k ==> s[m] != '\n'
  {
    CharSearch(s, '\n');
    assert PrefixAt(s, Newline, k);
    forall m | 0 <= m < k ensures s[m] != '\n' {
      assert !PrefixAt(s, Newline, m);
    }
  }

  lemma LineShift(s: string, k: nat, i: int, j: int)
    requires k < |s| && s[k] == '\n'
    requires LineSpan(s[k + 1..], i, j)
    ensures LineSpan(s, i + k + 1, j + k + 1)
    ensures s[i + k + 1..j + k + 1] == s[k + 1..][i..j]
  {
  }

  lemma LineUnshift(s: string, k: nat, i: int, j: int)
    requires k < |s| && s[k] == '\n'
    requires forall m :: 0 <= m < k ==> s[m] != '\n'
    requires LineSpan(s, i, j) && i > 0
    ensures LineSpan(s[k + 1..], i - k - 1, j - k - 1)
    ensures s[k + 1..][i - k - 1..j - k - 1] == s[i..j]
  {
  }

  /** The ledger holds exactly the non-empty lines of its content. */
  lemma LedgerIsItsLines(content: string, x: string)
    ensures x in ParseLedger(Readable(content)) <==> x != "" && IsLine(content, x)
  {
    SplitIntoLines(content, x);
  }

  /** An id holding a newline is recorded as the lines it contains, not as itself. */
  lemma MultiLineIdNotRecorded()
    ensures ParseLedger(AppendFetchedId(Absent, "a\nb", true)) == {"a", "b"}
  {
    AppendToAbsent("a\nb");
    SplitTwoLines();
    assert (set line | line in ["a", "b", ""] && line != "") == {"a", "b"};
  }

  /** Appending to an absent file creates it holding the one line. */
  lemma AppendToAbsent(id: string)
    ensures AppendFetchedId(Absent, id, true) == Readable(id + Newline)
  {
    assert Text(Absent) + id == id;
  }

  lemma SplitTwoLines()
    ensures Split("a\nb" + Newline, Newline) == ["a", "b", ""]
  {
    assert "a\nb" + Newline == "a" + ['\n'] + ("b" + ['\n'] + "");
    SplitWithoutSeparator("a");
    SplitWithoutSeparator("b");
    SplitEmpty();
    SplitAtSeparatorChar("b", '\n', "");
    SplitAtSeparatorChar("a", '\n', "b" + ['\n'] + "");
  }

  /**
   Content whose last line has no newline gets the next id glued onto that
   line: appending 456 to `123` records the single id 123456.
   */
  lemma UnterminatedLineGlued()
    ensures ParseLedger(AppendFetchedId(Readable("123"), "456", true)) == {"123456"}
  {
    assert "123" + "456" == "123456";
    assert AppendFetchedId(Readable("123"), "456", true) == Readable("123456" + Newline);
    SplitOneLine();
    assert (set line | line in ["123456", ""] && line != "") == {"123456"};
  }

  lemma SplitOneLine()
    ensures Split("123456" + Newline, Newline) == ["123456", ""]
  {
    assert "123456" + Newline == "123456" + ['\n'] + "";
    SplitWithoutSeparator("123456");
    SplitEmpty();
    SplitAtSeparatorChar("123456", '\n', "");
  }
}
