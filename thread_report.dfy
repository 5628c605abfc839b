/** The tab-separated report of a server's active threads built by the
    `active-threads` command (src/commands/moderators/activeThreads.ts). */
module ThreadReport {
  import opened Wrappers

  /** The fields of a thread the report reads. `lastMessageId` is None when
      the platform left it out or null; `messageCount` is None when left out. */
  datatype Thread = Thread(id: string, name: string, lastMessageId: Option<string>, messageCount: Option<nat>)

  const HEADER: seq<string> := ["ID", "Name", "Last Message", "Message Count"]

  /** The header row as it appears in the report. */
  const HEADER_LINE: string := "ID" + "\t" + ("Name" + "\t" + ("Last Message" + "\t" + "Message Count"))

  /** `parts.join([sep])`: the parts with one `sep` between neighbours. */
  function Join(parts: seq<string>, sep: char): string
  {
    if |parts| == 0 then ""
    else if |parts| == 1 then parts[0]
    else parts[0] + [sep] + Join(parts[1..], sep)
  }

  /** `s.split([sep])`: the maximal pieces of `s` between occurrences of `sep`. */
  function Split(s: string, sep: char): (parts: seq<string>)
    ensures |parts| > 0
  {
    if |s| == 0 then [""]
    else
      var rest := Split(s[1..], sep);
      if s[0] == sep then [""] + rest
      else [[s[0]] + rest[0]] + rest[1..]
  }

  /** The decimal digit of `d`. */
  function Digit(d: nat): char
    requires d < 10
  {
    (48 + d) as char
  }

  /** Whether `s` is made of decimal digits only. */
  predicate AllDigits(s: string) {
    forall i :: 0 <= i < |s| ==> '0' <= s[i] <= '9'
  }

  /** The number a string of decimal digits denotes, most significant digit first. */
  function DecimalValue(s: string): nat
    requires AllDigits(s)
    decreases |s|
  {
    if |s| == 0 then 0
    else DecimalValue(s[..|s| - 1]) * 10 + (s[|s| - 1] as int - 48)
  }

  /** The decimal numeral of `n`: the digits that denote `n`, with no leading
      zero, as JavaScript writes a whole number below 2^53. */
  function NatToString(n: nat): (s: string)
    ensures |s| > 0 && AllDigits(s)
    ensures DecimalValue(s) == n
    ensures s[0] == '0' <==> n == 0
    ensures n < 10 <==> |s| == 1
    decreases n
  {
    if n < 10 then [Digit(n)]
    else
      var s := NatToString(n / 10) + [Digit(n % 10)];
      assert s[..|s| - 1] == NatToString(n / 10);
      s
  }

  /** The third cell: `-` when the thread has no (or an empty) last message id,
      otherwise the local date of the id's timestamp. `formatDate` stands for
      the platform's snowflake-to-timestamp conversion followed by local-date
      formatting. */
  function LastMessageCell(t: Thread, formatDate: string -> string): string
  {
    match t.lastMessageId
    case Some(id) => if id != "" then formatDate(id) else "-"
    case None => "-"
  }

  /** The fourth cell: a missing count is joined as the empty string. */
  function CountCell(t: Thread): string
  {
    match t.messageCount
    case Some(n) => NatToString(n)
    case None => ""
  }

  function Cells(t: Thread, formatDate: string -> string): seq<string>
  {
    [t.id, t.name, LastMessageCell(t, formatDate), CountCell(t)]
  }

  /** The report as a table: the header row, then one row per thread in the
      order given. */
  function Table(threads: seq<Thread>, formatDate: string -> string): (table: seq<seq<string>>)
    ensures |table| == |threads| + 1
    ensures table[0] == HEADER
    ensures forall i :: 1 <= i < |table| ==> |table[i]| == 4
    ensures forall i :: 0 <= i < |threads| ==>
      && table[i + 1][0] == threads[i].id
      && table[i + 1][1] == threads[i].name
      && table[i + 1][3] == CountCell(threads[i])
      && (table[i + 1][2] == "-" <== threads[i].lastMessageId in {None, Some("")})
      && (threads[i].lastMessageId !in {None, Some("")} ==>
            table[i + 1][2] == formatDate(threads[i].lastMessageId.value))
  {
    [HEADER] + seq(|threads|, i requires 0 <= i < |threads| => Cells(threads[i], formatDate))
  }

  /** The report's text (`generateReport`): each row's cells joined by a tab,
      rows joined by a newline. It opens with the header line, followed by a
      newline exactly when there is at least one thread. */
  function Report(threads: seq<Thread>, formatDate: string -> string): (r: string)
    ensures |r| >= |HEADER_LINE| && r[..|HEADER_LINE|] == HEADER_LINE
    ensures |threads| > 0 <==> |r| > |HEADER_LINE|
    ensures |threads| > 0 ==> r[|HEADER_LINE|] == '\n'
  {
    var table := Table(threads, formatDate);
    var lines := seq(|table|, i requires 0 <= i < |table| => Join(table[i], '\t'));
    HeaderJoined();
    assert lines[0] == HEADER_LINE;
    JoinFirst(lines, '\n');
    Join(lines, '\n')
  }

  /** The report's lines, before they are joined. */
  function Lines(threads: seq<Thread>, formatDate: string -> string): (lines: seq<string>)
    ensures |lines| == |threads| + 1
    ensures forall i :: 0 <= i < |lines| ==> lines[i] == Join(Table(threads, formatDate)[i], '\t')
    ensures Report(threads, formatDate) == Join(lines, '\n')
  {
    var table := Table(threads, formatDate);
    seq(|table|, i requires 0 <= i < |table| => Join(table[i], '\t'))
  }

  /** Splitting a piece free of `sep` followed by more text keeps the piece whole
      at the front. */
  lemma {:induction false} SplitPrefix(p: string, tail: string, sep: char)
    requires sep !in p
    ensures Split(p + tail, sep) == [p + Split(tail, sep)[0]] + Split(tail, sep)[1..]
    decreases |p|
  {
    if |p| > 0 {
      assert (p + tail)[1..] == p[1..] + tail;
      SplitPrefix(p[1..], tail, sep);
      assert [p[0]] + (p[1..] + Split(tail, sep)[0]) == p + Split(tail, sep)[0];
    } else {
      assert p + tail == tail;
      var st := Split(tail, sep);
      assert p + st[0] == st[0];
      assert st == [st[0]] + st[1..];
    }
  }

  /** Split undoes Join when no part contains the separator. */
  lemma {:induction false} SplitJoin(parts: seq<string>, sep: char)
    requires |parts| > 0
    requires forall i :: 0 <= i < |parts| ==> sep !in parts[i]
    ensures Split(Join(parts, sep), sep) == parts
    decreases |parts|
  {
    if |parts| == 1 {
      SplitPrefix(parts[0], "", sep);
      assert parts[0] + "" == parts[0];
    } else {
      var rest := Join(parts[1..], sep);
      assert Join(parts, sep) == parts[0] + ([sep] + rest);
      SplitPrefix(parts[0], [sep] + rest, sep);
      assert ([sep] + rest)[1..] == rest;
      assert Split([sep] + rest, sep) == [""] + Split(rest, sep);
      SplitJoin(parts[1..], sep);
      assert parts[0] + "" == parts[0];
      assert parts == [parts[0]] + parts[1..];
    }
  }

  /** A character found in no part and different from the separator is not in the join. */
  lemma {:induction false} JoinAvoids(parts: seq<string>, sep: char, x: char)
    requires x != sep
    requires forall i :: 0 <= i < |parts| ==> x !in parts[i]
    ensures x !in Join(parts, sep)
    decreases |parts|
  {
    if |parts| > 1 {
      JoinAvoids(parts[1..], sep, x);
    }
  }

  /** The join of several parts ends like its last part, or with the separator
      when the last part is empty. */
  lemma {:induction false} JoinLast(parts: seq<string>, sep: char)
    requires |parts| > 1
    ensures var j := Join(parts, sep);
      |j| > 0 && j[|j| - 1] == (if parts[|parts| - 1] == "" then sep else parts[|parts| - 1][|parts[|parts| - 1]| - 1])
    decreases |parts|
  {
    if |parts| > 2 {
      JoinLast(parts[1..], sep);
    }
  }

  /** The join of one or more parts starts with the first part, followed by the
      separator when there are more. */
  lemma {:induction false} JoinFirst(parts: seq<string>, sep: char)
    requires |parts| > 0
    ensures var j := Join(parts, sep);
      && |parts[0]| <= |j| && j[..|parts[0]|] == parts[0]
      && (|parts| > 1 ==> |parts[0]| < |j| && j[|parts[0]|] == sep)
  {
  }

  lemma HeaderJoined()
    ensures Join(HEADER, '\t') == HEADER_LINE
  {
    var tail2 := "Last Message" + "\t" + "Message Count";
    var tail1 := "Name" + "\t" + tail2;
    assert Join(HEADER[2..], '\t') == tail2 by {
      assert HEADER[2..][1..] == ["Message Count"];
    }
    assert Join(HEADER[1..], '\t') == tail1 by {
      assert HEADER[1..][1..] == HEADER[2..];
    }
    assert Join(HEADER, '\t') == "ID" + "\t" + tail1;
  }

  /** The report never ends with a newline: its last character is the last
      character of the last row, and no row ends with one. */
  lemma ReportHasNoTrailingNewline(threads: seq<Thread>, formatDate: string -> string)
    ensures var r := Report(threads, formatDate); |r| > 0 && r[|r| - 1] != '\n'
  {
    var table := Table(threads, formatDate);
    var lines := Lines(threads, formatDate);
    var n := |threads|;
    var last := table[n];
    JoinLast(last, '\t');
    if n > 0 {
      JoinLast(lines, '\n');
    }
  }

  /** Reading the report back: when no cell holds a tab or a newline, splitting
      the text on newlines and each line on tabs gives back exactly the table,
      so there is one line per thread after the header and four cells on each. */
  lemma ReportParses(threads: seq<Thread>, formatDate: string -> string)
    requires forall i, j :: 0 <= i < |Table(threads, formatDate)| && 0 <= j < |Table(threads, formatDate)[i]| ==>
      '\t' !in Table(threads, formatDate)[i][j] && '\n' !in Table(threads, formatDate)[i][j]
    ensures var lines := Split(Report(threads, formatDate), '\n');
      && |lines| == |threads| + 1
      && forall i :: 0 <= i < |lines| ==> Split(lines[i], '\t') == Table(threads, formatDate)[i]
  {
    var table := Table(threads, formatDate);
    var lines := Lines(threads, formatDate);
    forall i | 0 <= i < |lines| ensures '\n' !in lines[i] && Split(lines[i], '\t') == table[i] {
      JoinAvoids(table[i], '\t', '\n');
      SplitJoin(table[i], '\t');
    }
    SplitJoin(lines, '\n');
  }
}
