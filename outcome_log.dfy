/**
  The outcome log, `sent_log.csv` (main.py:72-86): `write_log_entry` checks
  whether the file exists, opens it for appending, writes the header line only
  when it did not exist, then writes one line of four comma-joined fields.
  `log_success` and `log_failure` fix the status and address fields and reduce
  the path to its base name. The fields are joined as they are, without
  quoting.
*/
module OutcomeLogging {
  import opened Wrappers
  import opened Paths

  const Header: string := "Filename,Status,Email,Timestamp"
  const StatusSent: string := "Email sent"
  const StatusNoEmail: string := "No email found"
  const NoAddress: string := "N/A"

  /** The four fields of one record line. */
  datatype Entry = Entry(fileName: string, status: string, email: string, timestamp: string)

  /** The log file: whether it exists, and its lines without their line terminators. */
  datatype LogFile = LogFile(present: bool, lines: seq<string>)

  /** A file that does not exist has no lines. */
  predicate WellFormed(f: LogFile) {
    !f.present ==> f.lines == []
  }

  /**
    The record line of `write_log_entry`, without its terminator. It is one
    line of the file exactly when no field holds a line break.
  */
  function FormatLine(e: Entry): (line: string)
    ensures '\n' in line <==>
      '\n' in e.fileName || '\n' in e.status || '\n' in e.email || '\n' in e.timestamp
  {
    e.fileName + "," + e.status + "," + e.email + "," + e.timestamp
  }

  /** The file after one `write_log_entry`. */
  function Write(f: LogFile, e: Entry): (g: LogFile)
    ensures WellFormed(g)
    ensures |g.lines| == |f.lines| + (if f.present then 1 else 2)
    ensures g.lines[..|f.lines|] == f.lines
    ensures !f.present ==> g.lines[|f.lines|] == Header
    ensures g.lines[|g.lines| - 1] == FormatLine(e)
  {
    LogFile(true, f.lines + (if f.present then [] else [Header]) + [FormatLine(e)])
  }

  /** The file after a series of `write_log_entry` calls, in order. */
  function Replay(f: LogFile, entries: seq<Entry>): LogFile
    decreases |entries|
  {
    if entries == [] then f else Replay(Write(f, entries[0]), entries[1..])
  }

  function FormatAll(entries: seq<Entry>): seq<string>
    decreases |entries|
  {
    if entries == [] then [] else [FormatLine(entries[0])] + FormatAll(entries[1..])
  }

  /**
    Over any series of writes, earlier lines stay as they were, the header is
    added once, and only if the file did not exist, and then each entry adds
    exactly its own line, in order.
  */
  lemma {:induction false} ReplayAppends(f: LogFile, entries: seq<Entry>)
    ensures Replay(f, entries).present == (f.present || entries != [])
    ensures Replay(f, entries).lines ==
      f.lines + (if f.present || entries == [] then [] else [Header]) + FormatAll(entries)
    decreases |entries|
  {
    if entries != [] {
      ReplayAppends(Write(f, entries[0]), entries[1..]);
    }
  }

  /** A line whose status field holds a space can never be mistaken for the header. */
  lemma SpacedStatusIsNotHeader(e: Entry)
    requires ' ' in e.status
    ensures FormatLine(e) != Header
  {
    var k :| 0 <= k < |e.status| && e.status[k] == ' ';
    assert FormatLine(e)[|e.fileName| + 1 + k] == ' ';
    assert ' ' !in Header;
  }

  lemma {:induction false} FormatAllAt(entries: seq<Entry>)
    ensures |FormatAll(entries)| == |entries|
    ensures forall k :: 0 <= k < |entries| ==> FormatAll(entries)[k] == FormatLine(entries[k])
    decreases |entries|
  {
    if entries != [] {
      FormatAllAt(entries[1..]);
    }
  }

  // ---------------------------------------------------------------------
  // Reading the file back
  // ---------------------------------------------------------------------

  /** Cutting a text at every occurrence of `sep`. */
  function SplitOn(s: string, sep: char): (parts: seq<string>)
    ensures |parts| >= 1
    decreases |s|
  {
    if s == [] then [""]
    else
      var rest := SplitOn(s[1..], sep);
      if s[0] == sep then [""] + rest else [[s[0]] + rest[0]] + rest[1..]
  }

  /** Splitting a line at every comma, as a reader of the file does. */
  function SplitFields(line: string): (fields: seq<string>)
    ensures |fields| >= 1
  {
    SplitOn(line, ',')
  }

  /** The bytes of the file: every line followed by its `\n`. */
  function Contents(lines: seq<string>): string
    decreases |lines|
  {
    if lines == [] then "" else lines[0] + "\n" + Contents(lines[1..])
  }

  /** The lines a reader of the file sees, without their terminators. */
  function ReadLines(text: string): seq<string> {
    var pieces := SplitOn(text, '\n');
    if pieces[|pieces| - 1] == "" then pieces[..|pieces| - 1] else pieces
  }

  lemma {:induction false} SplitWithout(s: string, sep: char)
    requires sep !in s
    ensures SplitOn(s, sep) == [s]
    decreases |s|
  {
    if s != [] {
      SplitWithout(s[1..], sep);
      assert [s[0]] + s[1..] == s;
    }
  }

  lemma {:induction false} SplitAfterPart(a: string, sep: char, b: string)
    requires sep !in a
    ensures SplitOn(a + [sep] + b, sep) == [a] + SplitOn(b, sep)
    decreases |a|
  {
    if a == [] {
      assert a + [sep] + b == [sep] + b;
      assert (a + [sep] + b)[1..] == b;
    } else {
      SplitAfterPart(a[1..], sep, b);
      assert (a + [sep] + b)[1..] == a[1..] + [sep] + b;
      assert [a[0]] + a[1..] == a;
    }
  }

  lemma {:induction false} SplitContents(lines: seq<string>)
    requires forall k :: 0 <= k < |lines| ==> '\n' !in lines[k]
    ensures SplitOn(Contents(lines), '\n') == lines + [""]
    decreases |lines|
  {
    if lines != [] {
      SplitContents(lines[1..]);
      SplitAfterPart(lines[0], '\n', Contents(lines[1..]));
      assert lines == [lines[0]] + lines[1..];
    }
  }

  /** Lines without line breaks are read back from the file exactly as written. */
  lemma LinesRoundTrip(lines: seq<string>)
    requires forall k :: 0 <= k < |lines| ==> '\n' !in lines[k]
    ensures ReadLines(Contents(lines)) == lines
  {
    SplitContents(lines);
    assert (lines + [""])[..|lines|] == lines;
  }

  /**
    Round trip: a record whose fields hold neither a comma nor a line break
    is one line of the file, and it reads back as exactly its four fields,
    in order.
  */
  lemma LineRoundTrip(e: Entry)
    requires ',' !in e.fileName && ',' !in e.status && ',' !in e.email && ',' !in e.timestamp
    requires '\n' !in e.fileName && '\n' !in e.status && '\n' !in e.email && '\n' !in e.timestamp
    ensures ReadLines(Contents([FormatLine(e)])) == [FormatLine(e)]
    ensures SplitFields(FormatLine(e)) == [e.fileName, e.status, e.email, e.timestamp]
  {
    LinesRoundTrip([FormatLine(e)]);
    FieldsRoundTrip(e);
  }

  lemma FieldsRoundTrip(e: Entry)
    requires ',' !in e.fileName && ',' !in e.status && ',' !in e.email && ',' !in e.timestamp
    ensures SplitFields(FormatLine(e)) == [e.fileName, e.status, e.email, e.timestamp]
  {
    var tail2 := e.email + "," + e.timestamp;
    var tail1 := e.status + "," + tail2;
    assert FormatLine(e) == e.fileName + [','] + tail1;
    assert tail1 == e.status + [','] + tail2;
    assert tail2 == e.email + [','] + e.timestamp;
    SplitWithout(e.timestamp, ',');
    SplitAfterPart(e.email, ',', e.timestamp);
    SplitAfterPart(e.status, ',', tail2);
    SplitAfterPart(e.fileName, ',', tail1);
  }

  /** The fixed fields the program writes hold neither a comma nor a line break. */
  lemma FixedFieldsPlain()
    ensures ',' !in StatusSent && ',' !in StatusNoEmail && ',' !in NoAddress
    ensures '\n' !in StatusSent && '\n' !in StatusNoEmail && '\n' !in NoAddress && '\n' !in Header
  {
  }

  /**
    Starting without a log file, and with the program's two statuses, every
    write is one line of the file, the header is the first line, and it
    appears nowhere else. This needs file names, addresses and timestamps
    without line breaks (see HeaderForgedByFileName).
  */
  lemma HeaderOnceFirst(f: LogFile, entries: seq<Entry>)
    requires WellFormed(f) && !f.present
    requires entries != []
    requires forall k :: 0 <= k < |entries| ==> entries[k].status in {StatusSent, StatusNoEmail}
    requires forall k :: 0 <= k < |entries| ==>
      '\n' !in entries[k].fileName && '\n' !in entries[k].email && '\n' !in entries[k].timestamp
    ensures ReadLines(Contents(Replay(f, entries).lines)) == Replay(f, entries).lines
    ensures |Replay(f, entries).lines| == |entries| + 1
    ensures Replay(f, entries).lines[0] == Header
    ensures forall m :: 1 <= m < |Replay(f, entries).lines| ==> Replay(f, entries).lines[m] != Header
  {
    ReplayAppends(f, entries);
    FormatAllAt(entries);
    FixedFieldsPlain();
    forall k | 0 <= k < |entries|
      ensures FormatLine(entries[k]) != Header
    {
      assert StatusSent[5] == ' ' && StatusNoEmail[2] == ' ';
      SpacedStatusIsNotHeader(entries[k]);
    }
    LinesRoundTrip(Replay(f, entries).lines);
  }

  /**
    The header is not written once whatever the file names: a file name
    holding line breaks around the header text puts a second header line
    into a fresh file.
  */
  lemma HeaderForgedByFileName(head: string, tail: string, e: Entry)
    requires e.fileName == head + "\n" + Header + "\n" + tail
    requires '\n' !in head && '\n' !in tail
    requires '\n' !in e.status && '\n' !in e.email && '\n' !in e.timestamp
    ensures ReadLines(Contents(Write(LogFile(false, []), e).lines)) ==
      [Header, head, Header, FormatLine(Entry(tail, e.status, e.email, e.timestamp))]
  {
    var rest := FormatLine(Entry(tail, e.status, e.email, e.timestamp));
    var second := Header + "\n" + rest;
    NameBreakSplitsRecord(head, Header + "\n" + tail, e);
    NameBreakSplitsRecord(Header, tail, Entry(Header + "\n" + tail, e.status, e.email, e.timestamp));
    assert FormatLine(e) == head + "\n" + second;
    assert Write(LogFile(false, []), e).lines == [Header] + [head + "\n" + second];
    BreakSplitsLine([Header], head, second);
    assert [Header] + [head, second] == [Header, head] + [Header + "\n" + rest];
    BreakSplitsLine([Header, head], Header, rest);
    assert [Header, head] + [Header, rest] == [Header, head, Header, rest];
    FixedFieldsPlain();
    LinesRoundTrip([Header, head, Header, rest]);
  }

  /** A line break in the file name ends the record's first line there. */
  lemma NameBreakSplitsRecord(head: string, tail: string, e: Entry)
    requires e.fileName == head + "\n" + tail
    ensures FormatLine(e) == head + "\n" + FormatLine(Entry(tail, e.status, e.email, e.timestamp))
  {
  }

  /** A line break inside the last line is written exactly as two lines would be. */
  lemma {:induction false} BreakSplitsLine(before: seq<string>, x: string, y: string)
    ensures Contents(before + [x + "\n" + y]) == Contents(before + [x, y])
    decreases |before|
  {
    if before == [] {
      assert [x, y][1..] == [y] && [y][1..] == [] && [x + "\n" + y][1..] == [];
      assert Contents([y]) == y + "\n";
      assert Contents([x, y]) == x + "\n" + (y + "\n");
      assert Contents([x + "\n" + y]) == x + "\n" + y + "\n";
      assert x + "\n" + (y + "\n") == x + "\n" + y + "\n";
      assert before + [x + "\n" + y] == [x + "\n" + y] && before + [x, y] == [x, y];
    } else {
      BreakSplitsLine(before[1..], x, y);
      assert (before + [x + "\n" + y])[1..] == before[1..] + [x + "\n" + y];
      assert (before + [x, y])[1..] == before[1..] + [x, y];
    }
  }

  /**
    Without quoting, a file name holding a comma reads back as two fields:
    the line has five fields and every field after the name is shifted.
  */
  lemma CommaInFileNameShiftsFields(head: string, tail: string, e: Entry)
    requires ',' !in head && ',' !in tail
    requires e.fileName == head + "," + tail
    requires ',' !in e.status && ',' !in e.email && ',' !in e.timestamp
    ensures SplitFields(FormatLine(e)) == [head, tail, e.status, e.email, e.timestamp]
  {
    var rest := Entry(tail, e.status, e.email, e.timestamp);
    FieldsRoundTrip(rest);
    assert FormatLine(e) == head + [','] + FormatLine(rest);
    SplitAfterPart(head, ',', FormatLine(rest));
  }

  // ---------------------------------------------------------------------
  // The log file as the program updates it
  // ---------------------------------------------------------------------

  class OutcomeLog {
    var present: bool
    var lines: seq<string>

    function File(): LogFile
      reads this
    {
      LogFile(present, lines)
    }

    ghost predicate Valid()
      reads this
    {
      WellFormed(File())
    }

    /** The log as found at start-up: absent, or present with some lines. */
    constructor (existing: Option<seq<string>>)
      ensures Valid()
      ensures File() == if existing.Some? then LogFile(true, existing.value) else LogFile(false, [])
    {
      present := existing.Some?;
      lines := if existing.Some? then existing.value else [];
    }

    method WriteLogEntry(fileName: string, status: string, email: string, timestamp: string)
      requires Valid()
      modifies this
      ensures Valid()
      ensures File() == Write(old(File()), Entry(fileName, status, email, timestamp))
    {
      var headerNeeded := !present;
      if headerNeeded {
        lines := lines + [Header];
      }
      lines := lines + [fileName + "," + status + "," + email + "," + timestamp];
      present := true;
    }

    method LogFailure(pdfPath: string, timestamp: string)
      requires Valid()
      modifies this
      ensures Valid()
      ensures File() == Write(old(File()), Entry(Basename(pdfPath), StatusNoEmail, NoAddress, timestamp))
    {
      WriteLogEntry(Basename(pdfPath), StatusNoEmail, NoAddress, timestamp);
    }

    method LogSuccess(pdfPath: string, toEmail: string, timestamp: string)
      requires Valid()
      modifies this
      ensures Valid()
      ensures File() == Write(old(File()), Entry(Basename(pdfPath), StatusSent, toEmail, timestamp))
    {
      WriteLogEntry(Basename(pdfPath), StatusSent, toEmail, timestamp);
    }
  }
}
